/** What callers of the trigger store share with it: nothing through results, masked sub-messages through update requests. */
module Aliasing {
  import opened FieldMasks
  import opened TriggerSpec
  import opened TriggerStorage

  /** Any overwriting of everything reachable from a message that shares no memory with the store leaves the store as it is. */
  method Scribble(s: TriggerStore, m: TriggerMessage)
    requires forall n :: n in s.triggers ==> m.Disjoint(s.triggers[n])
    modifies m, m.labels, m.destination, m.eventFilters
    ensures s.Contents() == old(s.Contents())
  {
    modify m, m.labels, m.destination, m.eventFilters;
    forall n | n in s.triggers ensures s.triggers[n].Value() == old(s.triggers[n].Value()) {
      KeepsValue(s.triggers[n]);
    }
  }

  twostate lemma KeepsValue(x: TriggerMessage)
    requires unchanged(x)
    requires x.labels != null ==> unchanged(x.labels)
    requires x.destination != null ==> unchanged(x.destination)
    requires x.eventFilters != null ==> unchanged(x.eventFilters)
    ensures x.Value() == old(x.Value())
  {
  }

  /** Whatever a caller does to the trigger that Get returned, the store still holds what it held. */
  method MutatedGetResultIsHarmless(s: TriggerStore, name: string)
    requires s.Valid()
    ensures s.Contents() == old(s.Contents())
  {
    var r := s.GetTrigger(name);
    if r.Ok? {
      Scribble(s, r.value);
    }
  }

  /** Likewise for the trigger that Create returned, although the stored one was allocated in the same call. */
  method MutatedCreateResultIsHarmless(s: TriggerStore, parent: string, id: string, req: TriggerMessage, stamp: Stamp)
    requires s.Valid()
    modifies s
    ensures s.Contents() == AfterCreate(old(s.Contents()), parent, id, old(req.Value()), stamp)
  {
    var r := s.CreateTrigger(parent, id, req, stamp);
    if r.Ok? {
      Scribble(s, r.value);
    }
  }

  /** And for the trigger that Update returned. */
  method MutatedUpdateResultIsHarmless(s: TriggerStore, req: TriggerMessage, mask: FieldMask, stamp: Stamp)
    requires s.Valid()
    modifies if req.name in s.triggers then {s.triggers[req.name]} else {}
    ensures s.Contents() == AfterUpdate(old(s.Contents()), old(req.Value()), mask, stamp)
  {
    var r := s.UpdateTrigger(req, mask, stamp);
    if r.Ok? {
      Scribble(s, r.value);
    }
  }

  /** A label map that an update covered stays shared: a later write by the caller shows in the store. */
  method UpdateRequestStaysShared(s: TriggerStore, req: TriggerMessage, mask: FieldMask, stamp: Stamp, later: map<string, string>)
    requires s.Valid() && req.name in s.triggers && s.triggers[req.name] != req
    requires req.labels != null && Masks(mask, "labels")
    modifies s.triggers[req.name], req.labels
    ensures s.triggers == old(s.triggers)
    ensures s.Contents()[req.name].labels == later
  {
    var r := s.UpdateTrigger(req, mask, stamp);
    req.labels.value := later;
  }
}
