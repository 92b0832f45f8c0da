/**
 The trigger half of internal/server/storage.go. Messages live on the heap and hold their sub-messages by reference,
 so what is shared with callers and what is not is part of every contract.
 */
module TriggerStorage {
  import opened Cells
  import opened FieldMasks
  import opened GoStrings
  import opened Listing
  import opened Names
  import opened Pagination
  import opened Sequences
  import opened TriggerSpec
  import opened Wrappers

  /** A Trigger message in memory. A nil sub-message reads as the empty value. */
  class TriggerMessage {
    var name: string
    var uid: string
    var createTime: int
    var updateTime: int
    var etag: string
    var conditions: map<string, int>
    var labels: Cell?<map<string, string>>
    var destination: Cell?<string>
    var eventFilters: Cell?<seq<Filter>>
    var serviceAccount: string
    var channel: string

    function LabelsValue(): map<string, string>
      reads this, labels
    {
      if labels == null then map[] else labels.value
    }

    function DestinationValue(): Option<string>
      reads this, destination
    {
      if destination == null then None else Some(destination.value)
    }

    function FiltersValue(): seq<Filter>
      reads this, eventFilters
    {
      if eventFilters == null then [] else eventFilters.value
    }

    function Value(): Trigger
      reads this, labels, destination, eventFilters
    {
      Trigger(name, uid, createTime, updateTime, etag, conditions,
              LabelsValue(), DestinationValue(), FiltersValue(), serviceAccount, channel)
    }

    /** The two messages share no memory. */
    ghost predicate Disjoint(that: TriggerMessage)
      reads this, that
    {
      && this != that
      && (labels != null ==> labels != that.labels)
      && (destination != null ==> destination != that.destination)
      && (eventFilters != null ==> eventFilters != that.eventFilters)
    }

    /** cloneProto: a deep copy. */
    constructor Clone(m: TriggerMessage)
      ensures Value() == m.Value()
      ensures labels != null ==> fresh(labels)
      ensures destination != null ==> fresh(destination)
      ensures eventFilters != null ==> fresh(eventFilters)
    {
      name, uid, createTime, updateTime := m.name, m.uid, m.createTime, m.updateTime;
      etag, conditions := m.etag, m.conditions;
      serviceAccount, channel := m.serviceAccount, m.channel;
      var l := CloneCell(m.labels);
      var d := CloneCell(m.destination);
      var f := CloneCell(m.eventFilters);
      labels, destination, eventFilters := l, d, f;
    }
  }

  /** Everything reachable from the message was allocated since the old state. */
  twostate predicate DeeplyFresh(new m: TriggerMessage)
    reads m
  {
    && fresh(m)
    && (m.labels != null ==> fresh(m.labels))
    && (m.destination != null ==> fresh(m.destination))
    && (m.eventFilters != null ==> fresh(m.eventFilters))
  }

  /** One case of the mask switch: the named field, all five for "*", none for an unknown path. */
  method ApplyPath(stored: TriggerMessage, trigger: TriggerMessage, path: string)
    modifies stored`labels, stored`destination, stored`eventFilters, stored`serviceAccount, stored`channel
    ensures stored.labels == if Masks(Some([path]), "labels") then old(trigger.labels) else old(stored.labels)
    ensures stored.destination == if Masks(Some([path]), "destination") then old(trigger.destination) else old(stored.destination)
    ensures stored.eventFilters == if Masks(Some([path]), "event_filters") then old(trigger.eventFilters) else old(stored.eventFilters)
    ensures stored.serviceAccount == if Masks(Some([path]), "service_account") then old(trigger.serviceAccount) else old(stored.serviceAccount)
    ensures stored.channel == if Masks(Some([path]), "channel") then old(trigger.channel) else old(stored.channel)
  {
    PathsDiffer();
    SinglePath(path);
    match path {
      case "labels" => stored.labels := trigger.labels;
      case "destination" => stored.destination := trigger.destination;
      case "event_filters" => stored.eventFilters := trigger.eventFilters;
      case "service_account" => stored.serviceAccount := trigger.serviceAccount;
      case "channel" => stored.channel := trigger.channel;
      case "*" =>
        stored.labels := trigger.labels;
        stored.destination := trigger.destination;
        stored.eventFilters := trigger.eventFilters;
        stored.serviceAccount := trigger.serviceAccount;
        stored.channel := trigger.channel;
      case _ =>
    }
  }

  /**
   The mask part of UpdateTrigger: writes the stored message in place, and stores the request's sub-messages by
   reference, so afterwards the two share exactly the sub-messages that the mask covers.
   */
  method ApplyMask(stored: TriggerMessage, trigger: TriggerMessage, updateMask: FieldMask)
    modifies stored`labels, stored`destination, stored`eventFilters, stored`serviceAccount, stored`channel
    ensures stored.labels == if Masks(updateMask, "labels") then old(trigger.labels) else old(stored.labels)
    ensures stored.destination == if Masks(updateMask, "destination") then old(trigger.destination) else old(stored.destination)
    ensures stored.eventFilters == if Masks(updateMask, "event_filters") then old(trigger.eventFilters) else old(stored.eventFilters)
    ensures stored.serviceAccount == if Masks(updateMask, "service_account") then old(trigger.serviceAccount) else old(stored.serviceAccount)
    ensures stored.channel == if Masks(updateMask, "channel") then old(trigger.channel) else old(stored.channel)
  {
    if updateMask.Some? {
      var paths := updateMask.value;
      for i := 0 to |paths|
        invariant stored.labels == if Masks(Some(paths[..i]), "labels") then old(trigger.labels) else old(stored.labels)
        invariant stored.destination == if Masks(Some(paths[..i]), "destination") then old(trigger.destination) else old(stored.destination)
        invariant stored.eventFilters == if Masks(Some(paths[..i]), "event_filters") then old(trigger.eventFilters) else old(stored.eventFilters)
        invariant stored.serviceAccount == if Masks(Some(paths[..i]), "service_account") then old(trigger.serviceAccount) else old(stored.serviceAccount)
        invariant stored.channel == if Masks(Some(paths[..i]), "channel") then old(trigger.channel) else old(stored.channel)
        invariant stored != trigger ==> unchanged(trigger)
      {
        forall field ensures Masks(Some(paths[..i + 1]), field)
                             <==> Masks(Some(paths[..i]), field) || Masks(Some([paths[i]]), field) {
          MasksGrow(paths, i, field);
        }
        ApplyPath(stored, trigger, paths[i]);
      }
      assert paths[..|paths|] == paths;
    } else {
      stored.labels := trigger.labels;
      stored.destination := trigger.destination;
      stored.eventFilters := trigger.eventFilters;
      stored.serviceAccount := trigger.serviceAccount;
      stored.channel := trigger.channel;
    }
  }

  /** Which sub-messages the stored message holds after an update: the request's own where masked, else its earlier ones. */
  twostate predicate SharesMasked(stored: TriggerMessage, trigger: TriggerMessage, updateMask: FieldMask)
    reads stored
  {
    && stored.labels == (if Masks(updateMask, "labels") then old(trigger.labels) else old(stored.labels))
    && stored.destination == (if Masks(updateMask, "destination") then old(trigger.destination) else old(stored.destination))
    && stored.eventFilters == (if Masks(updateMask, "event_filters") then old(trigger.eventFilters) else old(stored.eventFilters))
  }

  /** UpdateTrigger once the stored message is found. */
  method UpdateInPlace(stored: TriggerMessage, trigger: TriggerMessage, updateMask: FieldMask, stamp: Stamp)
    modifies stored
    ensures stored.Value() == Updated(old(stored.Value()), old(trigger.Value()), updateMask, stamp)
    ensures SharesMasked(stored, trigger, updateMask)
  {
    ApplyMask(stored, trigger, updateMask);
    stored.updateTime := stamp.now;
    stored.etag := stamp.etag;
    stored.conditions := READY;
  }

  /** CreateTrigger once the name is known to be free: the message to store. */
  method CloneAsCreated(trigger: TriggerMessage, parent: string, triggerId: string, stamp: Stamp)
    returns (stored: TriggerMessage)
    ensures DeeplyFresh(stored)
    ensures stored.Value() == Created(parent, triggerId, trigger.Value(), stamp)
  {
    ghost var value := trigger.Value();
    stored := new TriggerMessage.Clone(trigger);
    assert stored.Value() == value && trigger.Value() == value;
    stored.name := Format(parent, "triggers", triggerId);
    stored.uid := stamp.uid;
    stored.createTime := stamp.now;
    stored.updateTime := stamp.now;
    stored.etag := stamp.etag;
    stored.conditions := READY;
  }

  // ---- Building a listing ------------------------------------------------------------------

  /** The messages hold these values, one by one. */
  ghost predicate Mirrors(ms: seq<TriggerMessage>, vs: seq<Trigger>)
    reads ms
    reads set m | m in ms :: m.labels
    reads set m | m in ms :: m.destination
    reads set m | m in ms :: m.eventFilters
  {
    |ms| == |vs| && forall k :: 0 <= k < |ms| ==> ms[k].Value() == vs[k]
  }

  /** sort.Slice, with the listing's less function: some sorted rearrangement. The values are those of the messages. */
  method SortSlice(ms: seq<TriggerMessage>, byTime: bool, ghost vs: seq<Trigger>)
    returns (sorted: seq<TriggerMessage>, ghost values: seq<Trigger>)
    requires Mirrors(ms, vs) && DistinctNames(vs)
    ensures Mirrors(sorted, values) && DistinctNames(values) && Sorted(values, byTime)
    ensures forall v :: v in values <==> v in vs
    ensures |sorted| == |ms| && forall m :: m in sorted ==> m in ms
  {
    sorted, values := [], [];
    for k := 0 to |ms|
      invariant Mirrors(sorted, values) && DistinctNames(values) && Sorted(values, byTime)
      invariant |sorted| == k && (forall m :: m in sorted ==> m in ms)
      invariant forall v :: v in values <==> v in vs[..k]
    {
      var at := 0;
      while at < k && !(if byTime then ms[k].createTime > sorted[at].createTime else Less(ms[k].name, sorted[at].name))
        invariant 0 <= at <= k
        invariant forall i :: 0 <= i < at ==> !Before(vs[k], values[i], byTime)
      {
        assert ms[k].Value() == vs[k] && sorted[at].Value() == values[at];
        at := at + 1;
      }
      assert at < k ==> ms[k].Value() == vs[k] && sorted[at].Value() == values[at];
      assert vs[..k + 1] == vs[..k] + [vs[k]];
      InsertKeepsSorted(vs, k, values, at, byTime);
      InsertedMembers(sorted, at, ms[k]);
      InsertedMembers(values, at, vs[k]);
      sorted := InsertAt(sorted, at, ms[k]);
      values := InsertAt(values, at, vs[k]);
    }
    assert vs[..|ms|] == vs;
  }

  /** applyTriggerFilter: the accepted messages, in their order. The values are those of the messages. */
  method ApplyTriggerFilter(ms: seq<TriggerMessage>, filter: string, ghost vs: seq<Trigger>)
    returns (out: seq<TriggerMessage>, ghost values: seq<Trigger>)
    requires Mirrors(ms, vs) && DistinctNames(vs)
    ensures Mirrors(out, values) && DistinctNames(values) && |out| <= |ms|
    ensures forall v :: v in values <==> v in vs && FilterAccepts(filter, v.name)
    ensures forall m :: m in out ==> m in ms
  {
    var f := TrimSpace(filter);
    var prefix := "trigger_id=";
    if !(prefix <= f) {
      return ms, vs;
    }
    var id := Trim(TrimPrefix(f, prefix), "\"'");
    out, values := [], [];
    for k := 0 to |ms|
      invariant Mirrors(out, values) && DistinctNames(values) && |out| <= k
      invariant forall v :: v in values <==> v in vs[..k] && LastPieceOf(v.name) == id
      invariant forall m :: m in out ==> m in ms
    {
      assert vs[..k + 1] == vs[..k] + [vs[k]];
      var parts := Split(ms[k].name);
      assert ms[k].Value() == vs[k];
      if parts[|parts| - 1] == id {
        forall i | 0 <= i < |values| ensures values[i].name != vs[k].name {
          assert values[i] in vs[..k];
        }
        out := out + [ms[k]];
        values := values + [vs[k]];
      }
    }
    assert vs[..|ms|] == vs;
  }

  method PageOfMessages(all: seq<TriggerMessage>, pageToken: string, pageSize: int, ghost values: seq<Trigger>)
    returns (r: Result<Page<TriggerMessage>>)
    requires |all| <= MAX_LEN && Mirrors(all, values)
    ensures match PageOf(values, pageToken, pageSize)
            case Err(code) => r == Err(code)
            case Ok(page) => r.Ok? && Mirrors(r.value.items, page.items) && r.value.next == page.next
    ensures r.Ok? ==> forall m :: m in r.value.items ==> m in all
  {
    r := PaginatePage(all, pageToken, pageSize);
  }

  class TriggerStore {
    var triggers: map<string, TriggerMessage>

    ghost predicate Valid()
      reads this, triggers.Values
    {
      forall n :: n in triggers ==> triggers[n].name == n
    }

    ghost function Contents(): (c: Contents)
      reads this, triggers.Values
      reads set n | n in triggers :: triggers[n].labels
      reads set n | n in triggers :: triggers[n].destination
      reads set n | n in triggers :: triggers[n].eventFilters
    {
      map n | n in triggers :: triggers[n].Value()
    }

    /** A returned message: deeply fresh, and sharing no memory with any stored trigger. */
    twostate predicate Private(new m: TriggerMessage)
      reads this, triggers.Values, m
    {
      DeeplyFresh(m) && forall n :: n in triggers ==> m.Disjoint(triggers[n])
    }

    /** When every other entry is the same untouched message, only the contents under that name can differ. */
    twostate lemma OthersKeepTheirContents(name: string)
      requires name in triggers
      requires triggers == old(triggers)[name := triggers[name]]
      requires forall n :: n in old(triggers) && n != name ==> triggers[n].Value() == old(triggers[n].Value())
      ensures Contents() == old(Contents())[name := triggers[name].Value()]
    {
    }

    constructor ()
      ensures Valid() && Contents() == map[]
    {
      triggers := map[];
    }

    method CreateTrigger(parent: string, triggerId: string, trigger: TriggerMessage, stamp: Stamp)
      returns (r: Result<TriggerMessage>)
      requires Valid()
      modifies this
      ensures Valid()
      ensures Contents() == AfterCreate(old(Contents()), parent, triggerId, old(trigger.Value()), stamp)
      ensures match r
              case Err(code) => code == AlreadyExists && Format(parent, "triggers", triggerId) in old(triggers)
              case Ok(m) => Private(m) && Format(parent, "triggers", triggerId) !in old(triggers)
                            && m.Value() == Created(parent, triggerId, old(trigger.Value()), stamp)
    {
      var name := Format(parent, "triggers", triggerId);
      if name in triggers {
        return Err(AlreadyExists);
      }
      var stored := CloneAsCreated(trigger, parent, triggerId, stamp);
      assert Contents() == old(Contents());
      var copy := Insert(name, stored);
      return Ok(copy);
    }

    /** Stores a new message under a free name, and returns a copy of it. */
    method Insert(name: string, stored: TriggerMessage) returns (copy: TriggerMessage)
      requires Valid() && name !in triggers && stored.name == name
      modifies this
      ensures Valid() && Contents() == old(Contents())[name := old(stored.Value())]
      ensures Private(copy) && copy.Value() == old(stored.Value())
    {
      Put(name, stored);
      copy := CopyOf(name);
    }

    method Put(name: string, stored: TriggerMessage)
      requires Valid() && name !in triggers && stored.name == name
      modifies this
      ensures Valid() && name in triggers && triggers[name] == stored && stored.Value() == old(stored.Value())
      ensures Contents() == old(Contents())[name := old(stored.Value())]
    {
      triggers := triggers[name := stored];
      OthersKeepTheirContents(name);
    }

    /** cloneProto(s.triggers[name]). */
    method CopyOf(name: string) returns (copy: TriggerMessage)
      requires name in triggers
      ensures Private(copy) && copy.Value() == triggers[name].Value() && Contents() == old(Contents())
    {
      copy := new TriggerMessage.Clone(triggers[name]);
    }

    method GetTrigger(name: string) returns (r: Result<TriggerMessage>)
      requires Valid()
      ensures match r
              case Err(code) => code == NotFound && name !in Contents()
              case Ok(m) => name in Contents() && m.Value() == Contents()[name] && Private(m)
      ensures Contents() == old(Contents())
    {
      if name !in triggers {
        return Err(NotFound);
      }
      var copy := CopyOf(name);
      return Ok(copy);
    }

    method UpdateTrigger(trigger: TriggerMessage, updateMask: FieldMask, stamp: Stamp) returns (r: Result<TriggerMessage>)
      requires Valid()
      modifies if trigger.name in triggers then {triggers[trigger.name]} else {}
      ensures Valid() && triggers == old(triggers)
      ensures Contents() == AfterUpdate(old(Contents()), old(trigger.Value()), updateMask, stamp)
      ensures match r
              case Err(code) => code == NotFound && old(trigger.name) !in triggers
              case Ok(m) => Private(m) && old(trigger.name) in triggers && m.Value() == Contents()[old(trigger.name)]
      ensures old(trigger.name) in triggers ==> SharesMasked(triggers[old(trigger.name)], trigger, updateMask)
    {
      if trigger.name !in triggers {
        return Err(NotFound);
      }
      var stored := triggers[trigger.name];
      UpdateInPlace(stored, trigger, updateMask, stamp);
      assert Contents() == old(Contents())[stored.name := stored.Value()] by {
        OthersKeepTheirContents(stored.name);
      }
      var copy := CopyOf(stored.name);
      return Ok(copy);
    }

    method DeleteTrigger(name: string) returns (r: Result<()>)
      requires Valid()
      modifies this
      ensures Valid()
      ensures Contents() == old(Contents()) - {name}
      ensures r == if name in old(Contents()) then Ok(()) else Err(NotFound)
    {
      if name !in triggers {
        return Err(NotFound);
      }
      triggers := triggers - {name};
      return Ok(());
    }

    /** The append loop that both listings start with: a copy of every trigger under the parent, in map order. */
    method CloneUnder(parent: string) returns (all: seq<TriggerMessage>, ghost values: seq<Trigger>)
      requires Valid()
      ensures Mirrors(all, values) && AllUnder(old(Contents()), parent, values) && |all| <= |triggers|
      ensures forall m :: m in all ==> DeeplyFresh(m)
    {
      var prefix := parent + "/triggers/";
      ghost var c := Contents();
      all, values := [], [];
      var rest := triggers.Keys;
      while rest != {}
        invariant rest <= triggers.Keys && |all| + |rest| <= |triggers|
        invariant Contents() == c && Mirrors(all, values)
        invariant forall k :: 0 <= k < |all| ==> DeeplyFresh(all[k])
        invariant Gathered(c, prefix, rest, values)
      {
        var name :| name in rest;
        all, values := Visit(name, prefix, all, values, rest);
        rest := rest - {name};
      }
    }

    /** One turn of the loop. */
    method Visit(name: string, prefix: string, all: seq<TriggerMessage>, ghost values: seq<Trigger>, ghost rest: set<string>)
      returns (more: seq<TriggerMessage>, ghost moreValues: seq<Trigger>)
      requires Valid() && name in triggers && name in rest
      requires Mirrors(all, values) && Gathered(Contents(), prefix, rest, values)
      ensures Contents() == old(Contents()) && Mirrors(more, moreValues)
      ensures Gathered(old(Contents()), prefix, rest - {name}, moreValues)
      ensures |more| <= |all| + 1 && forall k :: 0 <= k < |more| ==> (k < |all| && more[k] == all[k]) || DeeplyFresh(more[k])
    {
      GatherOne(Contents(), prefix, rest, values, name);
      more, moreValues := all, values;
      if prefix <= name {
        var copy := NextCopy(name, all, values);
        more, moreValues := all + [copy], values + [old(Contents())[name]];
      }
    }

    method NextCopy(name: string, all: seq<TriggerMessage>, ghost values: seq<Trigger>) returns (copy: TriggerMessage)
      requires name in triggers && Mirrors(all, values)
      ensures DeeplyFresh(copy) && Mirrors(all + [copy], values + [old(Contents())[name]]) && Contents() == old(Contents())
    {
      copy := CopyOf(name);
    }

    /** ListAllTriggers. */
    method ListAllTriggers(parent: string) returns (all: seq<TriggerMessage>, ghost values: seq<Trigger>)
      requires Valid()
      ensures Mirrors(all, values) && AllUnder(old(Contents()), parent, values)
      ensures forall m :: m in all ==> DeeplyFresh(m)
    {
      all, values := CloneUnder(parent);
    }

    /** ListTriggers: a page of the full listing, made of deeply fresh copies. */
    method ListTriggers(parent: string, pageSize: int, pageToken: string, orderBy: string, filter: string)
      returns (r: Result<Page<TriggerMessage>>, ghost listing: seq<Trigger>)
      requires Valid() && |triggers| <= MAX_LEN
      ensures IsListing(old(Contents()), parent, orderBy, filter, listing)
      ensures match PageOf(listing, pageToken, pageSize)
              case Err(code) => r == Err(code)
              case Ok(page) => r.Ok? && Mirrors(r.value.items, page.items) && r.value.next == page.next
      ensures r.Ok? ==> forall m :: m in r.value.items ==> DeeplyFresh(m)
    {
      var all;
      ghost var copies, values;
      all, copies := CloneUnder(parent);
      values := copies;
      if filter != "" {
        all, values := ApplyTriggerFilter(all, filter, copies);
      } else {
        assert TrimSpace("") == "";
      }
      all, listing := SortSlice(all, OrdersByTime(orderBy), values);
      MakesListing(old(Contents()), parent, orderBy, filter, copies, listing);
      r := PageOfMessages(all, pageToken, pageSize, listing);
    }
  }
}
