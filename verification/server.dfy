/** The trigger handlers of internal/server/server.go, running one after the other on the two stores. */
module TriggerServer {
  import opened FieldMasks
  import opened Handlers
  import opened LroStorage
  import opened Names
  import opened TriggerSpec
  import opened TriggerStorage
  import opened Wrappers

  function ValueOf(m: TriggerMessage?): Option<Trigger>
    reads m
    reads if m == null then {} else {m.labels}
    reads if m == null then {} else {m.destination}
    reads if m == null then {} else {m.eventFilters}
  {
    if m == null then None else Some(m.Value())
  }

  /** The handler returns that error, or the stored message of that operation. */
  predicate Gives(r: Result<OperationMessage<Response>>, answer: Result<Operation<Response>>)
    reads if r.Ok? then {r.value} else {}
  {
    match answer
    case Err(code) => r == Err(code)
    case Ok(op) => r.Ok? && r.value.Value() == op
  }

  class Server {
    const storage: TriggerStore
    const lro: LroStore<Response>

    ghost predicate Valid()
      reads storage, storage.triggers.Values
    {
      storage.Valid()
    }

    constructor ()
      ensures Valid() && storage.Contents() == map[] && lro.Contents() == map[]
      ensures fresh(storage) && fresh(lro)
    {
      storage := new TriggerStore();
      lro := new LroStore<Response>();
    }

    /** The end of every handler: a refusal is returned, a completed request is recorded as a done operation if it can be. */
    method Finish(reply: Reply, uuid: DrawnId) returns (r: Result<OperationMessage<Response>>)
      modifies lro
      ensures lro.Contents() == Record(old(lro.Contents()), reply, uuid) && Gives(r, Answer(reply, uuid))
      ensures storage.Contents() == old(storage.Contents())
    {
      match reply {
        case Refused(code) => return Err(code);
        case Completed(verb, parent, target, response) =>
          r := lro.CreateDone(parent, response, verb, target, uuid);
      }
    }

    // ---- The storage steps of the handlers -------------------------------------------------

    method CreateSteps(parent: string, triggerId: string, trigger: TriggerMessage?, validateOnly: bool, stamp: Stamp)
      returns (reply: Reply)
      requires storage.Valid()
      modifies storage
      ensures storage.Valid()
      ensures (storage.Contents(), reply)
              == Solo(old(storage.Contents()), CreateRequest(parent, triggerId, old(ValueOf(trigger)), validateOnly), stamp)
    {
      if parent == "" || triggerId == "" || !ValidResourceId(triggerId) || trigger == null
         || trigger.destination == null || trigger.FiltersValue() == []
      {
        return Refused(InvalidArgument);
      }
      var name := Format(parent, "triggers", triggerId);
      if validateOnly {
        return Completed(VerbCreate, parent, name, Resource(trigger.Value().(name := name)));
      }
      var created := storage.CreateTrigger(parent, triggerId, trigger, stamp);
      if created.Err? {
        return Refused(created.code);
      }
      return Completed(VerbCreate, parent, created.value.name, Resource(created.value.Value()));
    }

    method UpdateSteps(trigger: TriggerMessage?, updateMask: FieldMask, validateOnly: bool, allowMissing: bool, stamp: Stamp)
      returns (reply: Reply)
      requires storage.Valid()
      modifies storage, storage.triggers.Values
      ensures storage.Valid()
      ensures (storage.Contents(), reply)
              == Solo(old(storage.Contents()), UpdateRequest(old(ValueOf(trigger)), updateMask, validateOnly, allowMissing), stamp)
    {
      if trigger == null || trigger.name == "" {
        return Refused(InvalidArgument);
      }
      var name := trigger.name;
      if validateOnly {
        var existing := storage.GetTrigger(name);
        if existing.Err? {
          return Refused(existing.code);
        }
        return Completed(VerbUpdate, ParentFromName(name), name, Resource(existing.value.Value()));
      }
      reply := UpdateStored(trigger, updateMask, allowMissing, stamp);
    }

    /** The part of UpdateTrigger after the dry run: an update, and if that finds nothing perhaps a create. */
    method UpdateStored(trigger: TriggerMessage, updateMask: FieldMask, allowMissing: bool, stamp: Stamp)
      returns (reply: Reply)
      requires storage.Valid() && trigger.name != ""
      modifies storage, storage.triggers.Values
      ensures storage.Valid()
      ensures (storage.Contents(), reply)
              == Solo(old(storage.Contents()), UpdateRequest(Some(old(trigger.Value())), updateMask, false, allowMissing), stamp)
    {
      var name := trigger.name;
      var updated := storage.UpdateTrigger(trigger, updateMask, stamp);
      if updated.Err? {
        assert storage.Contents() == old(storage.Contents()) && trigger.Value() == old(trigger.Value());
        if allowMissing && updated.code == NotFound {
          updated := storage.CreateTrigger(ParentFromName(name), LastSegment(name), trigger, stamp);
          UpsertIsSecondStep(old(storage.Contents()), old(trigger.Value()), updateMask, stamp);
          if updated.Err? {
            return Refused(updated.code);
          }
        } else {
          return Refused(updated.code);
        }
      }
      return Completed(VerbUpdate, ParentFromName(name), name, Resource(updated.value.Value()));
    }

    method DeleteSteps(name: string, etag: string, validateOnly: bool, allowMissing: bool, ghost stamp: Stamp)
      returns (reply: Reply)
      requires storage.Valid()
      modifies storage
      ensures storage.Valid()
      ensures (storage.Contents(), reply)
              == Solo(old(storage.Contents()), DeleteRequest(name, etag, validateOnly, allowMissing), stamp)
    {
      if name == "" {
        return Refused(InvalidArgument);
      }
      if validateOnly {
        var found := storage.GetTrigger(name);
        if found.Err? {
          return Refused(found.code);
        }
        return Completed(VerbDelete, ParentFromName(name), name, Empty);
      }
      var existing := storage.GetTrigger(name);
      if existing.Err? {
        if allowMissing && existing.code == NotFound {
          return Completed(VerbDelete, ParentFromName(name), name, Empty);
        }
        return Refused(existing.code);
      }
      if etag != "" {
        if existing.value.etag != etag {
          return Refused(Aborted);
        }
      }
      // Nothing comes between the two steps of a handler that runs alone, so the removal cannot be refused.
      var removed := storage.DeleteTrigger(name);
      assert removed.Ok?;
      return Completed(VerbDelete, ParentFromName(name), name, Resource(existing.value.Value()));
    }

    // ---- The handlers ----------------------------------------------------------------------

    /** What serving the request does to both stores, and the answer. */
    twostate predicate Served(call: Call, new r: Result<OperationMessage<Response>>)
      reads storage, storage.triggers.Values, lro, lro.ops.Values
      reads if r.Ok? then {r.value} else {}
      reads set n | n in storage.triggers :: storage.triggers[n].labels
      reads set n | n in storage.triggers :: storage.triggers[n].destination
      reads set n | n in storage.triggers :: storage.triggers[n].eventFilters
    {
      var before := World(old(storage.Contents()), old(lro.Contents()));
      World(storage.Contents(), lro.Contents()) == Serve(before, call).0 && Gives(r, AnswerTo(before, call))
    }

    method CreateTrigger(parent: string, triggerId: string, trigger: TriggerMessage?, validateOnly: bool, stamp: Stamp, uuid: DrawnId)
      returns (r: Result<OperationMessage<Response>>)
      requires Valid()
      modifies storage, lro
      ensures Valid()
      ensures Served(Call(CreateRequest(parent, triggerId, old(ValueOf(trigger)), validateOnly), stamp, uuid), r)
    {
      var reply := CreateSteps(parent, triggerId, trigger, validateOnly, stamp);
      r := Finish(reply, uuid);
    }

    method UpdateTrigger(trigger: TriggerMessage?, updateMask: FieldMask, validateOnly: bool, allowMissing: bool, stamp: Stamp, uuid: DrawnId)
      returns (r: Result<OperationMessage<Response>>)
      requires Valid()
      modifies storage, storage.triggers.Values, lro
      ensures Valid()
      ensures Served(Call(UpdateRequest(old(ValueOf(trigger)), updateMask, validateOnly, allowMissing), stamp, uuid), r)
    {
      var reply := UpdateSteps(trigger, updateMask, validateOnly, allowMissing, stamp);
      assert lro.Contents() == old(lro.Contents());
      r := Finish(reply, uuid);
    }

    method DeleteTrigger(name: string, etag: string, validateOnly: bool, allowMissing: bool, ghost stamp: Stamp, uuid: DrawnId)
      returns (r: Result<OperationMessage<Response>>)
      requires Valid()
      modifies storage, lro
      ensures Valid()
      ensures Served(Call(DeleteRequest(name, etag, validateOnly, allowMissing), stamp, uuid), r)
    {
      var reply := DeleteSteps(name, etag, validateOnly, allowMissing, stamp);
      r := Finish(reply, uuid);
    }
  }
}
