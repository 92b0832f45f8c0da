/**
 The trigger handlers of internal/server/server.go as programs of atomic storage steps: each call of a storage method
 is one step, and other handlers may run between two steps.
 */
module Handlers {
  import opened FieldMasks
  import opened LroStorage
  import opened Names
  import opened TriggerSpec
  import opened Wrappers

  datatype Request =
    | CreateRequest(parent: string, triggerId: string, trigger: Option<Trigger>, validateOnly: bool)
    | UpdateRequest(trigger: Option<Trigger>, mask: FieldMask, validateOnly: bool, allowMissing: bool)
    | DeleteRequest(name: string, etag: string, validateOnly: bool, allowMissing: bool)

  datatype Response = Resource(trigger: Trigger) | Empty

  /** A refusal, or what the handler records as a done operation. */
  datatype Reply =
    | Refused(code: Code)
    | Completed(verb: Verb, parent: string, target: string, response: Response)

  /** Where a handler stands: not started, between its two storage steps, or replied. */
  datatype Handler =
    | Start(request: Request)
    | UpdateMissed(trigger: Trigger)
    | DeleteRead(name: string, existing: Trigger)
    | Replied(reply: Reply)

  predicate CreateIsInvalid(parent: string, id: string, trigger: Option<Trigger>) {
    || parent == "" || !ValidResourceId(id)
    || trigger.None? || trigger.value.destination.None? || trigger.value.eventFilters == []
  }

  /** Where an allow_missing update puts a trigger it did not find. */
  function UpsertKey(name: string): string {
    Format(ParentFromName(name), "triggers", LastSegment(name))
  }

  function Updates(trigger: Trigger, result: Trigger): Reply {
    Completed(VerbUpdate, ParentFromName(trigger.name), trigger.name, Resource(result))
  }

  function Deletes(name: string, response: Response): Reply {
    Completed(VerbDelete, ParentFromName(name), name, response)
  }

  /** One atomic step of a handler: the stored triggers after it, and where the handler then stands. */
  function Advance(c: Contents, h: Handler, stamp: Stamp): (Contents, Handler) {
    match h
    case Start(CreateRequest(parent, id, trigger, validateOnly)) =>
      if CreateIsInvalid(parent, id, trigger) then (c, Replied(Refused(InvalidArgument)))
      else
        var name := Format(parent, "triggers", id);
        if validateOnly then
          (c, Replied(Completed(VerbCreate, parent, name, Resource(trigger.value.(name := name)))))
        else if name in c then (c, Replied(Refused(AlreadyExists)))
        else
          (AfterCreate(c, parent, id, trigger.value, stamp),
           Replied(Completed(VerbCreate, parent, name, Resource(Created(parent, id, trigger.value, stamp)))))
    case Start(UpdateRequest(trigger, mask, validateOnly, allowMissing)) =>
      if trigger.None? || trigger.value.name == "" then (c, Replied(Refused(InvalidArgument)))
      else
        var req := trigger.value;
        if req.name !in c then
          (c, if allowMissing && !validateOnly then UpdateMissed(req) else Replied(Refused(NotFound)))
        else if validateOnly then (c, Replied(Updates(req, c[req.name])))
        else (AfterUpdate(c, req, mask, stamp), Replied(Updates(req, Updated(c[req.name], req, mask, stamp))))
    case UpdateMissed(req) =>
      if UpsertKey(req.name) in c then (c, Replied(Refused(AlreadyExists)))
      else
        var parent, id := ParentFromName(req.name), LastSegment(req.name);
        (AfterCreate(c, parent, id, req, stamp), Replied(Updates(req, Created(parent, id, req, stamp))))
    case Start(DeleteRequest(name, etag, validateOnly, allowMissing)) =>
      if name == "" then (c, Replied(Refused(InvalidArgument)))
      else if name !in c then
        (c, Replied(if allowMissing && !validateOnly then Deletes(name, Empty) else Refused(NotFound)))
      else if validateOnly then (c, Replied(Deletes(name, Empty)))
      else if etag != "" && c[name].etag != etag then (c, Replied(Refused(Aborted)))
      else (c, DeleteRead(name, c[name]))
    case DeleteRead(name, existing) =>
      if name in c then (c - {name}, Replied(Deletes(name, Resource(existing))))
      else (c, Replied(Refused(NotFound)))
    case Replied(_) => (c, h)
  }

  /** A handler that runs alone, start to reply. */
  function Solo(c: Contents, request: Request, stamp: Stamp): (r: (Contents, Reply)) {
    var (c1, h1) := Advance(c, Start(request), stamp);
    if h1.Replied? then (c1, h1.reply)
    else
      var (c2, h2) := Advance(c1, h1, stamp);
      assert h2.Replied?;
      (c2, h2.reply)
  }

  lemma UpsertIsSecondStep(c: Contents, req: Trigger, mask: FieldMask, stamp: Stamp)
    requires req.name != "" && req.name !in c
    ensures var parent, id := ParentFromName(req.name), LastSegment(req.name);
            Solo(c, UpdateRequest(Some(req), mask, false, true), stamp)
            == (AfterCreate(c, parent, id, req, stamp),
                if Format(parent, "triggers", id) in c then Refused(AlreadyExists)
                else Updates(req, Created(parent, id, req, stamp)))
  {
  }

  lemma UpdateIsFirstStep(c: Contents, req: Trigger, mask: FieldMask, allowMissing: bool, stamp: Stamp)
    requires req.name != "" && req.name in c
    ensures Solo(c, UpdateRequest(Some(req), mask, false, allowMissing), stamp).0 == AfterUpdate(c, req, mask, stamp)
  {
  }

  // ---- What a handler does when it runs alone ----------------------------------------------

  /** validate_only and refused requests write nothing; a completed delete removes exactly its name; nothing else is touched. */
  lemma SoloEffect(c: Contents, request: Request, stamp: Stamp)
    requires KeyedByName(c)
    ensures var (c', reply) := Solo(c, request, stamp);
            && KeyedByName(c')
            && (request.validateOnly || reply.Refused? ==> c' == c)
            && (request.DeleteRequest? && reply.Completed? && !request.validateOnly ==> c' == c - {request.name})
            && (request.CreateRequest? && reply.Completed? && !request.validateOnly ==>
                  reply.target !in c && c' == c[reply.target := reply.response.trigger])
            && (request.UpdateRequest? && reply.Completed? && !request.validateOnly ==>
                  c' == c[reply.response.trigger.name := reply.response.trigger])
  {
  }

  /** A delete that carries an etag goes through only against that etag, and is aborted only on a mismatch. */
  lemma DeleteHonoursEtag(c: Contents, name: string, etag: string, allowMissing: bool, stamp: Stamp)
    requires name != "" && name in c
    ensures var (c', reply) := Solo(c, DeleteRequest(name, etag, false, allowMissing), stamp);
            if etag == "" || etag == c[name].etag
            then c' == c - {name} && reply == Deletes(name, Resource(c[name]))
            else c' == c && reply == Refused(Aborted)
  {
  }

  /**
   An allow_missing update of a missing name makes that name gettable exactly when the name is well formed; otherwise
   the trigger lands under another key, or the update is refused because that key is taken.
   */
  lemma UpsertCreatesNameIff(c: Contents, req: Trigger, mask: FieldMask, stamp: Stamp)
    requires req.name != "" && req.name !in c
    ensures var (c', reply) := Solo(c, UpdateRequest(Some(req), mask, false, true), stamp);
            && (req.name in c' <==> WellFormed(req.name, "triggers"))
            && (WellFormed(req.name, "triggers") ==> c'.Keys == c.Keys + {req.name} && reply.Completed?)
            && (reply.Refused? <==> UpsertKey(req.name) in c)
  {
    TriggerUpsertKey(req.name);
  }

  /** A delete that has read its trigger is refused exactly when its second step no longer finds the name. */
  lemma DeleteMissesIff(c: Contents, h: Handler, stamp: Stamp)
    requires h.DeleteRead?
    ensures Advance(c, h, stamp).1 == Replied(Refused(NotFound)) <==> h.name !in c
  {
  }

  /** An upsert is refused exactly when its second step finds the key taken. */
  lemma UpsertMissesIff(c: Contents, h: Handler, stamp: Stamp)
    requires h.UpdateMissed?
    ensures Advance(c, h, stamp).1 == Replied(Refused(AlreadyExists)) <==> UpsertKey(h.trigger.name) in c
  {
  }

  /** A create is refused for its arguments alone if it lacks one or its id does not match the regular expression. */
  lemma CreateIsInvalidIff(c: Contents, parent: string, id: string, trigger: Option<Trigger>, v: bool, stamp: Stamp)
    ensures Solo(c, CreateRequest(parent, id, trigger, v), stamp).1 == Refused(InvalidArgument)
            <==> parent == "" || !MatchesResourceIdRe(id) || trigger.None? || trigger.value.destination.None?
                 || |trigger.value.eventFilters| == 0
  {
    RecognizerDecidesTheRe(id);
  }

  /** The other codes that a request running alone can be refused with, and when. */
  lemma RefusalCodes(c: Contents, request: Request, stamp: Stamp, name: string, code: Code)
    requires Solo(c, request, stamp).1 == Refused(code)
    requires request.UpdateRequest? ==> name == if request.trigger.Some? then request.trigger.value.name else ""
    requires request.DeleteRequest? ==> name == request.name
    ensures request.CreateRequest? ==>
              code == InvalidArgument
              || (code == AlreadyExists && !request.validateOnly && Format(request.parent, "triggers", request.triggerId) in c)
    ensures request.UpdateRequest? ==>
              if name == "" then code == InvalidArgument
              else name !in c && code == if request.allowMissing && !request.validateOnly then AlreadyExists else NotFound
    ensures request.DeleteRequest? ==>
              if name == "" then code == InvalidArgument
              else if name !in c then code == NotFound
              else code == Aborted && !request.validateOnly && request.etag !in {"", c[name].etag}
  {
    if request.UpdateRequest? && name != "" && name !in c && request.allowMissing && !request.validateOnly {
      UpsertIsSecondStep(c, request.trigger.value, request.mask, stamp);
    }
  }

  /**
   What a completed request answers with: a create or update that runs returns what is then stored, a dry create the
   request under its new name, a dry update the stored trigger, a delete the trigger it removed, and nothing if it ran
   dry or had nothing to remove.
   */
  lemma Responses(c: Contents, request: Request, stamp: Stamp)
    requires KeyedByName(c) && Solo(c, request, stamp).1.Completed?
    ensures var (c', reply) := Solo(c, request, stamp);
            match request
            case CreateRequest(_, _, trigger, v) =>
              if v then reply.response == Resource(trigger.value.(name := reply.target))
              else reply.target in c' && reply.response == Resource(c'[reply.target])
            case UpdateRequest(trigger, _, v, _) =>
              && reply.response.Resource? && reply.response.trigger.name in c'
              && reply.response == Resource(c'[reply.response.trigger.name])
              && (trigger.value.name in c || v ==> reply.response.trigger.name == trigger.value.name)
            case DeleteRequest(name, _, v, _) => reply.response == if name in c && !v then Resource(c[name]) else Empty
  {
    if request.UpdateRequest? && request.trigger.value.name !in c {
      UpsertIsSecondStep(c, request.trigger.value, request.mask, stamp);
    }
  }

  function WithValidateOnly(request: Request, v: bool): Request {
    request.(validateOnly := v)
  }

  /** What the dry run leaves out: name clashes, etags and allow_missing. */
  predicate DryRunIsTelling(c: Contents, request: Request) {
    match request
    case CreateRequest(parent, id, trigger, _) =>
      CreateIsInvalid(parent, id, trigger) || Format(parent, "triggers", id) !in c
    case UpdateRequest(trigger, _, _, allowMissing) =>
      trigger.None? || trigger.value.name == "" || trigger.value.name in c
      || !allowMissing || UpsertKey(trigger.value.name) in c
    case DeleteRequest(name, etag, _, allowMissing) =>
      name == "" || if name in c then etag == "" || etag == c[name].etag else !allowMissing
  }

  /** When a create, an update and a delete complete, with and without validate_only. */
  lemma CreateCompletes(c: Contents, parent: string, id: string, trigger: Option<Trigger>, v: bool, stamp: Stamp)
    ensures Solo(c, CreateRequest(parent, id, trigger, v), stamp).1.Completed?
            <==> !CreateIsInvalid(parent, id, trigger) && (v || Format(parent, "triggers", id) !in c)
  {
  }

  lemma UpdateCompletes(c: Contents, trigger: Option<Trigger>, mask: FieldMask, v: bool, allowMissing: bool, stamp: Stamp)
    ensures Solo(c, UpdateRequest(trigger, mask, v, allowMissing), stamp).1.Completed?
            <==> trigger.Some? && trigger.value.name != ""
                 && (trigger.value.name in c || (allowMissing && !v && UpsertKey(trigger.value.name) !in c))
  {
    if trigger.Some? && trigger.value.name != "" && trigger.value.name !in c && allowMissing && !v {
      assert Advance(c, Start(UpdateRequest(trigger, mask, v, allowMissing)), stamp) == (c, UpdateMissed(trigger.value));
    }
  }

  lemma DeleteCompletes(c: Contents, name: string, etag: string, v: bool, allowMissing: bool, stamp: Stamp)
    ensures Solo(c, DeleteRequest(name, etag, v, allowMissing), stamp).1.Completed?
            <==> name != "" && (if name in c then v || etag == "" || c[name].etag == etag else allowMissing && !v)
  {
  }

  /** A validate_only request completes just when the real one would, if and only if the dry run is telling. */
  lemma ValidateOnlyPredictsIff(c: Contents, request: Request, stamp: Stamp)
    ensures (Solo(c, WithValidateOnly(request, true), stamp).1.Completed?
             <==> Solo(c, WithValidateOnly(request, false), stamp).1.Completed?)
            <==> DryRunIsTelling(c, request)
  {
    match request
    case CreateRequest(parent, id, trigger, _) =>
      CreateCompletes(c, parent, id, trigger, true, stamp);
      CreateCompletes(c, parent, id, trigger, false, stamp);
    case UpdateRequest(trigger, mask, _, allowMissing) =>
      UpdateCompletes(c, trigger, mask, true, allowMissing, stamp);
      UpdateCompletes(c, trigger, mask, false, allowMissing, stamp);
    case DeleteRequest(name, etag, _, allowMissing) =>
      DeleteCompletes(c, name, etag, true, allowMissing, stamp);
      DeleteCompletes(c, name, etag, false, allowMissing, stamp);
  }

  /** Both complete, or both are refused with the same code. */
  predicate SameOutcome(a: Reply, b: Reply) {
    if a.Refused? then a == b else b.Completed?
  }

  /**
   The two also agree on the code of a refusal if and only if, besides, no allow_missing update misses its name: its dry
   run answers NotFound, and the real one creates the trigger or answers AlreadyExists.
   */
  lemma ValidateOnlyPredictsCodeIff(c: Contents, request: Request, stamp: Stamp)
    ensures SameOutcome(Solo(c, WithValidateOnly(request, true), stamp).1, Solo(c, WithValidateOnly(request, false), stamp).1)
            <==> DryRunIsTelling(c, request)
                 && (request.UpdateRequest? && request.trigger.Some? && request.trigger.value.name != "" && request.allowMissing ==>
                       request.trigger.value.name in c)
  {
    ValidateOnlyPredictsIff(c, request, stamp);
    if request.UpdateRequest? && request.trigger.Some? && request.trigger.value.name != "" && request.trigger.value.name !in c {
      var actual := Start(WithValidateOnly(request, false));
      assert request.allowMissing ==> Advance(c, actual, stamp) == (c, UpdateMissed(request.trigger.value));
    }
  }

  /** The dry run of a create does not look at the store: it completes where the real create finds the name taken. */
  lemma DryRunMissesTakenName(taken: Trigger, stamp: Stamp)
    ensures var request := Some(taken.(destination := Some("run"), eventFilters := [Filter("type", "t", "")]));
            var c := map["p/triggers/a" := taken];
            && Solo(c, CreateRequest("p", "a", request, true), stamp).1.Completed?
            && Solo(c, CreateRequest("p", "a", request, false), stamp).1 == Refused(AlreadyExists)
  {
    var request := Some(taken.(destination := Some("run"), eventFilters := [Filter("type", "t", "")]));
    assert Format("p", "triggers", "a") == "p/triggers/a";
    assert ValidResourceId("a") && !CreateIsInvalid("p", "a", request);
  }

  // ---- The server's state over a run of requests -------------------------------------------

  type Ops = map<string, Operation<Response>>

  /**
   The operation id drawn for a request: none when CreateDone returns an error, because the random source fails (since Go
   1.24 it never does) or the response cannot be packed.
   */
  type DrawnId = Option<string>

  /** Every completed request that has an id is recorded under a new name; any other leaves the operations alone. */
  function Record(ops: Ops, reply: Reply, uuid: DrawnId): Ops {
    match reply
    case Refused(_) => ops
    case Completed(verb, parent, target, response) =>
      if uuid.None? then ops
      else
        var name := OperationName(parent, uuid.value);
        ops[name := Operation(name, true, verb, target, response)]
  }

  /** What the client gets: an error for a refusal, and also for a completed request without an id. */
  function Answer(reply: Reply, uuid: DrawnId): Result<Operation<Response>> {
    match reply
    case Refused(code) => Err(code)
    case Completed(verb, parent, target, response) =>
      if uuid.None? then Err(Unknown)
      else Ok(Operation(OperationName(parent, uuid.value), true, verb, target, response))
  }

  datatype World = World(triggers: Contents, ops: Ops)
  datatype Call = Call(request: Request, stamp: Stamp, uuid: DrawnId)

  function Serve(w: World, call: Call): (World, Reply) {
    var (c, reply) := Solo(w.triggers, call.request, call.stamp);
    (World(c, Record(w.ops, reply, call.uuid)), reply)
  }

  function AnswerTo(w: World, call: Call): Result<Operation<Response>> {
    Answer(Serve(w, call).1, call.uuid)
  }

  // ---- What a client is answered -----------------------------------------------------------

  predicate VerbFits(verb: Verb, request: Request) {
    match verb
    case VerbCreate => request.CreateRequest?
    case VerbUpdate => request.UpdateRequest?
    case VerbDelete => request.DeleteRequest?
  }

  /** The name that the request is about. */
  predicate AsksFor(request: Request, name: string) {
    match request
    case CreateRequest(parent, id, _, _) => name == parent + "/triggers/" + id
    case UpdateRequest(trigger, _, _, _) => trigger.Some? && name == trigger.value.name
    case DeleteRequest(requested, _, _, _) => name == requested
  }

  /** The replies of the three kinds of request, dry runs included. */
  lemma ReplyNames(c: Contents, request: Request, stamp: Stamp)
    ensures var reply := Solo(c, request, stamp).1;
            reply.Completed? ==>
              && VerbFits(reply.verb, request) && AsksFor(request, reply.target)
              && (if request.CreateRequest? then reply.parent == request.parent && ValidResourceId(request.triggerId)
                  else reply.parent == ParentFromName(reply.target))
  {
    if request.UpdateRequest? && request.trigger.Some? && request.trigger.value.name != "" {
      var req := request.trigger.value;
      if req.name !in c && request.allowMissing && !request.validateOnly {
        UpsertIsSecondStep(c, req, request.mask, stamp);
      }
    }
    if request.CreateRequest? {
      assert "/triggers/" == "/" + "triggers" + "/";
      assert Format(request.parent, "triggers", request.triggerId) == request.parent + "/triggers/" + request.triggerId;
    }
  }

  /**
   A call that is answered with an operation gets a done one of its own kind, for the trigger it asked for. If that has
   a formatted name, the operation is named under the trigger's parent. The same operation is recorded.
   */
  lemma AnswerFitsRequest(w: World, call: Call)
    requires AnswerTo(w, call).Ok?
    ensures var op := AnswerTo(w, call).value;
            && call.uuid.Some? && op.done && VerbFits(op.verb, call.request) && AsksFor(call.request, op.target)
            && (forall p, i :: '/' !in i && op.target == p + "/triggers/" + i ==> op.name == p + "/operations/" + call.uuid.value)
            && op.name in Serve(w, call).0.ops && Serve(w, call).0.ops[op.name] == op
  {
    ReplyNames(w.triggers, call.request, call.stamp);
    var reply, op := Serve(w, call).1, AnswerTo(w, call).value;
    forall p, i | '/' !in i && op.target == p + "/triggers/" + i ensures reply.parent == p {
      TargetParent(reply.target, p, i);
      if call.request.CreateRequest? {
        RecognizerDecidesTheRe(call.request.triggerId);
        TargetParent(reply.target, call.request.parent, call.request.triggerId);
      }
    }
  }

  lemma TargetParent(target: string, p: string, i: string)
    requires '/' !in i && target == p + "/triggers/" + i
    ensures ParentFromName(target) == p
  {
    assert "/triggers/" == "/" + "triggers" + "/";
    assert target == Format(p, "triggers", i);
    ParentBeforeMarker(p, "triggers", i, "/triggers/");
  }

  function Serves(w: World, calls: seq<Call>): World {
    if calls == [] then w else Serve(Serves(w, calls[..|calls| - 1]), calls[|calls| - 1]).0
  }

  /** How many of the calls are answered with an operation. */
  function Answered(w: World, calls: seq<Call>): nat {
    if calls == [] then 0
    else
      var last := |calls| - 1;
      Answered(w, calls[..last]) + if AnswerTo(Serves(w, calls[..last]), calls[last]).Ok? then 1 else 0
  }

  /** Random operation ids never collide with a recorded name. */
  ghost predicate FreshUuids(w: World, calls: seq<Call>) {
    forall k, parent :: 0 <= k < |calls| && calls[k].uuid.Some? ==>
      OperationName(parent, calls[k].uuid.value) !in Serves(w, calls[..k]).ops
  }

  /** Over a whole run the operations are exactly one per answered request, and none is lost. */
  lemma {:induction false} OneOperationPerAnswer(w: World, calls: seq<Call>)
    requires FreshUuids(w, calls)
    ensures |Serves(w, calls).ops| == |w.ops| + Answered(w, calls)
    ensures forall n :: n in w.ops ==> n in Serves(w, calls).ops && Serves(w, calls).ops[n] == w.ops[n]
  {
    if calls != [] {
      var last := |calls| - 1;
      var earlier := calls[..last];
      forall k, parent | 0 <= k < last && earlier[k].uuid.Some?
        ensures OperationName(parent, earlier[k].uuid.value) !in Serves(w, earlier[..k]).ops
      {
        assert calls[..k] == earlier[..k] && calls[k] == earlier[k];
      }
      OneOperationPerAnswer(w, earlier);
      var before := Serves(w, earlier);
      var reply := Serve(before, calls[last]).1;
      if reply.Completed? && calls[last].uuid.Some? {
        assert OperationName(reply.parent, calls[last].uuid.value) !in before.ops;
      }
    }
  }

  /** The request gets past its checks to a write. */
  predicate Writes(c: Contents, request: Request) {
    !request.validateOnly &&
    match request
    case CreateRequest(parent, id, trigger, _) =>
      !CreateIsInvalid(parent, id, trigger) && Format(parent, "triggers", id) !in c
    case UpdateRequest(trigger, _, _, allowMissing) =>
      trigger.Some? && trigger.value.name != ""
      && (trigger.value.name in c || (allowMissing && UpsertKey(trigger.value.name) !in c))
    case DeleteRequest(name, etag, _, _) =>
      name != "" && name in c && (etag == "" || c[name].etag == etag)
  }

  predicate FreshEtag(c: Contents, stamp: Stamp) {
    forall n :: n in c ==> c[n].etag != stamp.etag
  }

  lemma CreateChangesIff(c: Contents, request: Request, stamp: Stamp)
    requires request.CreateRequest?
    ensures Solo(c, request, stamp).0 != c <==> Writes(c, request)
  {
  }

  lemma UpdateStays(c: Contents, request: Request, stamp: Stamp)
    requires request.UpdateRequest? && !Writes(c, request)
    ensures Solo(c, request, stamp).0 == c
  {
    if request.trigger.Some? && request.trigger.value.name != "" && !request.validateOnly && request.allowMissing {
      UpsertIsSecondStep(c, request.trigger.value, request.mask, stamp);
    }
  }

  lemma UpdateChangesIff(c: Contents, request: Request, stamp: Stamp)
    requires request.UpdateRequest? && FreshEtag(c, stamp)
    ensures Solo(c, request, stamp).0 != c <==> Writes(c, request)
  {
    if Writes(c, request) {
      var req := request.trigger.value;
      if req.name in c {
        UpdateIsFirstStep(c, req, request.mask, request.allowMissing, stamp);
        assert AfterUpdate(c, req, request.mask, stamp)[req.name].etag == stamp.etag;
      } else {
        UpsertIsSecondStep(c, req, request.mask, stamp);
        assert UpsertKey(req.name) in AfterCreate(c, ParentFromName(req.name), LastSegment(req.name), req, stamp);
      }
    } else {
      UpdateStays(c, request, stamp);
    }
  }

  lemma DeleteChangesIff(c: Contents, request: Request, stamp: Stamp)
    requires request.DeleteRequest?
    ensures Solo(c, request, stamp).0 != c <==> Writes(c, request)
  {
    assert request.name in c ==> request.name !in c - {request.name};
  }

  /**
   With fresh etags, an error answer means that nothing has changed, if and only if an operation id was drawn or the
   request does not get to a write: without an id the write has happened all the same.
   */
  lemma ErrorChangesNothingIff(w: World, call: Call)
    requires KeyedByName(w.triggers) && FreshEtag(w.triggers, call.stamp)
    ensures (AnswerTo(w, call).Err? ==> Serve(w, call).0 == w) <==> (call.uuid.Some? || !Writes(w.triggers, call.request))
  {
    SoloEffect(w.triggers, call.request, call.stamp);
    match call.request
    case CreateRequest(_, _, _, _) => CreateChangesIff(w.triggers, call.request, call.stamp);
    case UpdateRequest(_, _, _, _) => UpdateChangesIff(w.triggers, call.request, call.stamp);
    case DeleteRequest(_, _, _, _) => DeleteChangesIff(w.triggers, call.request, call.stamp);
  }

  /** The source's error path: a delete whose operation cannot be made answers with an error and has removed the trigger. */
  lemma LostOperation(w: World, name: string, stamp: Stamp)
    requires name != "" && name in w.triggers
    ensures var call := Call(DeleteRequest(name, "", false, false), stamp, None);
            AnswerTo(w, call) == Err(Unknown) && Serve(w, call).0 == World(w.triggers - {name}, w.ops)
  {
    DeleteHonoursEtag(w.triggers, name, "", false, stamp);
  }
}
