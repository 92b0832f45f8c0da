/**
 Any number of trigger handlers interleaved at their atomic storage steps. A log records each write to the store; the
 properties of runs are read off the log, which an invariant ties to the stored triggers.
 */
module Interleaving {
  import opened FieldMasks
  import opened Handlers
  import opened LroStorage
  import opened Names
  import opened TriggerSpec
  import opened Wrappers

  /** A removal also records the handler, the log length when it read the trigger, and what it then returned. */
  datatype Write =
    | Added(name: string, uid: string, etag: string)
    | Changed(name: string, etag: string)
    | Removed(name: string, remover: nat, readAt: nat, returned: Trigger)

  datatype Id = Id(uid: string, etag: string)

  // ---- Logs --------------------------------------------------------------------------------

  function After(m: map<string, Id>, w: Write): map<string, Id> {
    match w
    case Added(name, uid, etag) => m[name := Id(uid, etag)]
    case Changed(name, etag) => if name in m then m[name := Id(m[name].uid, etag)] else m
    case Removed(name, _, _, _) => m - {name}
  }

  function Replay(log: seq<Write>): map<string, Id> {
    if log == [] then map[] else After(Replay(log[..|log| - 1]), log[|log| - 1])
  }

  function Uids(log: seq<Write>): set<string> {
    set k | 0 <= k < |log| && log[k].Added? :: log[k].uid
  }

  function Etags(log: seq<Write>): set<string> {
    set k | 0 <= k < |log| && !log[k].Removed? :: log[k].etag
  }

  /** The write fits the store that the log describes, and brings a uid and an etag not seen before. */
  predicate Fits(log: seq<Write>, w: Write) {
    match w
    case Added(name, uid, etag) => name !in Replay(log) && uid !in Uids(log) && etag !in Etags(log)
    case Changed(name, etag) => name in Replay(log) && etag !in Etags(log)
    case Removed(name, _, _, _) => name in Replay(log)
  }

  predicate Legal(log: seq<Write>) {
    log == [] || (Legal(log[..|log| - 1]) && Fits(log[..|log| - 1], log[|log| - 1]))
  }

  lemma {:induction false} LegalPrefix(log: seq<Write>, k: nat)
    requires Legal(log) && k <= |log|
    ensures Legal(log[..k]) && (k < |log| ==> Fits(log[..k], log[k]))
  {
    if k == |log| {
      assert log[..k] == log;
    } else if k < |log| - 1 {
      LegalPrefix(log[..|log| - 1], k);
      assert log[..|log| - 1][..k] == log[..k];
    }
  }

  lemma {:induction false} IdsAreLogged(log: seq<Write>, name: string)
    requires name in Replay(log)
    ensures Replay(log)[name].uid in Uids(log) && Replay(log)[name].etag in Etags(log)
  {
    var last := log[|log| - 1];
    var earlier := log[..|log| - 1];
    assert forall k :: 0 <= k < |earlier| ==> log[k] == earlier[k];
    if last.name != name || last.Changed? {
      IdsAreLogged(earlier, name);
    }
  }

  // ---- What can happen to a name between two points of a log -------------------------------

  predicate NotRemoved(log: seq<Write>, k: nat, name: string) {
    forall j :: k <= j < |log| ==> !(log[j].Removed? && log[j].name == name)
  }

  predicate NotWritten(log: seq<Write>, k: nat, name: string) {
    forall j :: k <= j < |log| ==> log[j].name != name
  }

  lemma SeenGrows(log: seq<Write>, k: nat)
    requires k <= |log|
    ensures Uids(log[..k]) <= Uids(log) && Etags(log[..k]) <= Etags(log)
  {
    assert forall j :: 0 <= j < k ==> log[..k][j] == log[j];
  }

  lemma SplitLast(log: seq<Write>, k: nat, name: string)
    requires k < |log|
    ensures NotRemoved(log, k, name)
            <==> NotRemoved(log[..|log| - 1], k, name) && !(log[|log| - 1].Removed? && log[|log| - 1].name == name)
    ensures NotWritten(log, k, name) <==> NotWritten(log[..|log| - 1], k, name) && log[|log| - 1].name != name
  {
    var earlier := log[..|log| - 1];
    assert forall j :: 0 <= j < |earlier| ==> log[j] == earlier[j];
  }

  lemma UidStep(log: seq<Write>, w: Write, seen: set<string>, name: string, uid: string, kept: bool)
    requires Fits(log, w) && seen <= Uids(log)
    requires if kept then name in Replay(log) && Replay(log)[name].uid == uid
             else name in Replay(log) ==> Replay(log)[name].uid !in seen
    ensures var m := After(Replay(log), w);
            if kept && !(w.Removed? && w.name == name) then name in m && m[name].uid == uid
            else name in m ==> m[name].uid !in seen
  {
  }

  lemma EtagStep(log: seq<Write>, w: Write, seen: set<string>, name: string, etag: string, kept: bool)
    requires Fits(log, w) && seen <= Etags(log)
    requires if kept then name in Replay(log) && Replay(log)[name].etag == etag
             else name in Replay(log) ==> Replay(log)[name].etag !in seen
    ensures var m := After(Replay(log), w);
            if kept && w.name != name then name in m && m[name].etag == etag
            else name in m ==> m[name].etag !in seen
  {
  }

  /**
   A name present after k writes: without a removal since, it is still present with the same uid; with one, its uid
   if present is younger than the first k writes. The same for etags and writes of any kind.
   */
  lemma {:induction false} History(log: seq<Write>, k: nat, name: string)
    requires Legal(log) && k <= |log| && name in Replay(log[..k])
    ensures if NotRemoved(log, k, name) then name in Replay(log) && Replay(log)[name].uid == Replay(log[..k])[name].uid
            else name in Replay(log) ==> Replay(log)[name].uid !in Uids(log[..k])
    ensures if NotWritten(log, k, name) then name in Replay(log) && Replay(log)[name].etag == Replay(log[..k])[name].etag
            else name in Replay(log) ==> Replay(log)[name].etag !in Etags(log[..k])
  {
    if k == |log| {
      assert log[..k] == log;
    } else {
      var earlier, id := log[..|log| - 1], Replay(log[..k])[name];
      assert earlier[..k] == log[..k];
      History(earlier, k, name);
      SplitLast(log, k, name);
      SeenGrows(earlier, k);
      UidStep(earlier, log[|log| - 1], Uids(log[..k]), name, id.uid, NotRemoved(earlier, k, name));
      EtagStep(earlier, log[|log| - 1], Etags(log[..k]), name, id.etag, NotWritten(earlier, k, name));
    }
  }

  /** So the uid, or the etag, read after k writes is still current exactly when no removal, or no write, came since. */
  lemma StillCurrentIff(log: seq<Write>, k: nat, name: string)
    requires Legal(log) && k <= |log| && name in Replay(log[..k]) && name in Replay(log)
    ensures Replay(log)[name].uid == Replay(log[..k])[name].uid <==> NotRemoved(log, k, name)
    ensures Replay(log)[name].etag == Replay(log[..k])[name].etag <==> NotWritten(log, k, name)
  {
    History(log, k, name);
    IdsAreLogged(log[..k], name);
  }

  // ---- The system --------------------------------------------------------------------------

  /**
   Handlers and the requests they serve, by number; readPoints[t] is the log length at which handler t read the trigger
   it is about to delete, or missed the one it is about to create.
   */
  datatype Sys = Sys(triggers: Contents, requests: map<nat, Request>, handlers: map<nat, Handler>,
                     readPoints: map<nat, nat>, log: seq<Write>)

  const EMPTY: Sys := Sys(map[], map[], map[], map[], [])

  /** The write that the handler's next step makes, if any. */
  function WriteOf(c: Contents, t: nat, h: Handler, readAt: nat, stamp: Stamp): seq<Write> {
    match h
    case Start(CreateRequest(parent, id, trigger, validateOnly)) =>
      if CreateIsInvalid(parent, id, trigger) || validateOnly || Format(parent, "triggers", id) in c then []
      else [Added(Format(parent, "triggers", id), stamp.uid, stamp.etag)]
    case Start(UpdateRequest(trigger, _, validateOnly, _)) =>
      if trigger.None? || trigger.value.name == "" || validateOnly || trigger.value.name !in c then []
      else [Changed(trigger.value.name, stamp.etag)]
    case UpdateMissed(req) =>
      if UpsertKey(req.name) in c then [] else [Added(UpsertKey(req.name), stamp.uid, stamp.etag)]
    case DeleteRead(name, existing) => if name in c then [Removed(name, t, readAt, existing)] else []
    case _ => []
  }

  predicate IsHalfway(h: Handler) {
    h.DeleteRead? || h.UpdateMissed?
  }

  function StepOf(s: Sys, t: nat, stamp: Stamp): Sys
    requires t in s.handlers
  {
    var h := s.handlers[t];
    var readAt := if t in s.readPoints then s.readPoints[t] else 0;
    var (c', h') := Advance(s.triggers, h, stamp);
    Sys(c', s.requests, s.handlers[t := h'],
        if h.Start? && IsHalfway(h') then s.readPoints[t := |s.log|] else s.readPoints,
        s.log + WriteOf(s.triggers, t, h, readAt, stamp))
  }

  predicate FreshStamp(s: Sys, stamp: Stamp) {
    stamp.uid !in Uids(s.log) && stamp.etag !in Etags(s.log)
  }

  function Arrive(s: Sys, t: nat, request: Request): Sys {
    s.(requests := s.requests[t := request], handlers := s.handlers[t := Start(request)])
  }

  /** A request arrives, or some handler takes a step. */
  ghost predicate Next(s: Sys, s': Sys) {
    || (exists t: nat, request :: t !in s.handlers && s' == Arrive(s, t, request))
    || (exists t, stamp :: t in s.handlers && FreshStamp(s, stamp) && s' == StepOf(s, t, stamp))
  }

  ghost predicate Follows(run: seq<Sys>, k: nat)
    requires 0 < k < |run|
  {
    Next(run[k - 1], run[k])
  }

  ghost predicate IsRun(run: seq<Sys>) {
    && run != [] && run[0] == EMPTY
    && forall k :: 0 < k < |run| ==> Follows(run, k)
  }

  // ---- The invariant -----------------------------------------------------------------------

  function IdsOf(c: Contents): map<string, Id> {
    map n | n in c :: Id(c[n].uid, c[n].etag)
  }

  predicate ReadMatches(log: seq<Write>, readAt: nat, name: string, read: Trigger) {
    readAt <= |log| && name in Replay(log[..readAt]) && Replay(log[..readAt])[name] == Id(read.uid, read.etag)
  }

  predicate MissMatches(log: seq<Write>, readAt: nat, name: string) {
    readAt <= |log| && name !in Replay(log[..readAt])
  }

  /** Handlers that replied with a deleted trigger are the ones that removals in the log name. */
  predicate RepliedDeleted(h: Handler) {
    h.Replied? && h.reply.Completed? && h.reply.verb == VerbDelete && h.reply.response.Resource?
  }

  ghost predicate HandlersMatch(s: Sys) {
    && (forall t :: t in s.handlers && s.handlers[t].DeleteRead? ==>
          t in s.readPoints && ReadMatches(s.log, s.readPoints[t], s.handlers[t].name, s.handlers[t].existing))
    && (forall t :: t in s.handlers && s.handlers[t].UpdateMissed? ==>
          t in s.readPoints && MissMatches(s.log, s.readPoints[t], s.handlers[t].trigger.name))
    && (forall t :: t in s.handlers && RepliedDeleted(s.handlers[t]) ==>
          exists k :: 0 <= k < |s.log| && s.log[k].Removed? && s.log[k].remover == t)
  }

  ghost predicate RemovalMatches(s: Sys, k: nat)
    requires k < |s.log| && s.log[k].Removed?
  {
    var w := s.log[k];
    && w.readAt <= k && ReadMatches(s.log, w.readAt, w.name, w.returned)
    && w.remover in s.handlers && s.handlers[w.remover] == Replied(Deletes(w.name, Resource(w.returned)))
  }

  ghost predicate RemovalsMatch(s: Sys) {
    && (forall k :: 0 <= k < |s.log| && s.log[k].Removed? ==> RemovalMatches(s, k))
    && (forall j, k :: 0 <= j < k < |s.log| && s.log[j].Removed? && s.log[k].Removed? ==>
          s.log[j].remover != s.log[k].remover)
  }

  ghost predicate Inv(s: Sys) {
    && Legal(s.log) && KeyedByName(s.triggers) && IdsOf(s.triggers) == Replay(s.log)
    && HandlersMatch(s) && RemovalsMatch(s)
  }

  lemma ArrivalKeepsInv(s: Sys, t: nat, request: Request)
    requires Inv(s) && t !in s.handlers
    ensures Inv(Arrive(s, t, request))
  {
  }

  /** What a step does, told by its write alone. */
  ghost predicate StepFacts(c: Contents, c': Contents, t: nat, h: Handler, h': Handler, readAt: nat, w: seq<Write>) {
    && |w| <= 1 && KeyedByName(c')
    && IdsOf(c') == (if w == [] then IdsOf(c) else After(IdsOf(c), w[0]))
    && (h'.DeleteRead? ==> h.Start? && h'.name in c && h'.existing == c[h'.name])
    && (h'.UpdateMissed? ==> h.Start? && h'.trigger.name !in c)
    && (h.Replied? ==> h' == h && w == [])
    && (RepliedDeleted(h') && !h.Replied? ==> w != [] && w[0].Removed?)
    && (w != [] && w[0].Removed? ==>
          h.DeleteRead? && w[0] == Removed(h.name, t, readAt, h.existing)
          && h' == Replied(Deletes(h.name, Resource(h.existing))))
  }

  lemma IdsOfPut(c: Contents, name: string, t: Trigger)
    ensures IdsOf(c[name := t]) == IdsOf(c)[name := Id(t.uid, t.etag)]
    ensures IdsOf(c - {name}) == IdsOf(c) - {name}
  {
  }

  lemma CreatePuts(c: Contents, parent: string, id: string, req: Trigger, stamp: Stamp)
    requires KeyedByName(c) && Format(parent, "triggers", id) !in c
    ensures KeyedByName(AfterCreate(c, parent, id, req, stamp))
    ensures IdsOf(AfterCreate(c, parent, id, req, stamp))
            == IdsOf(c)[Format(parent, "triggers", id) := Id(stamp.uid, stamp.etag)]
  {
    IdsOfPut(c, Format(parent, "triggers", id), Created(parent, id, req, stamp));
  }

  lemma WriteTellsCreate(c: Contents, t: nat, h: Handler, readAt: nat, stamp: Stamp)
    requires KeyedByName(c) && h.Start? && h.request.CreateRequest?
    ensures var (c', h') := Advance(c, h, stamp);
            StepFacts(c, c', t, h, h', readAt, WriteOf(c, t, h, readAt, stamp))
  {
    var r := h.request;
    if r.trigger.Some? && Format(r.parent, "triggers", r.triggerId) !in c {
      CreatePuts(c, r.parent, r.triggerId, r.trigger.value, stamp);
    }
  }

  lemma WriteTellsUpsert(c: Contents, t: nat, h: Handler, readAt: nat, stamp: Stamp)
    requires KeyedByName(c) && h.UpdateMissed?
    ensures var (c', h') := Advance(c, h, stamp);
            StepFacts(c, c', t, h, h', readAt, WriteOf(c, t, h, readAt, stamp))
  {
    var name := h.trigger.name;
    var parent, id := ParentFromName(name), LastSegment(name);
    var key := UpsertKey(name);
    assert key == Format(parent, "triggers", id);
    if key !in c {
      CreatePuts(c, parent, id, h.trigger, stamp);
      assert WriteOf(c, t, h, readAt, stamp) == [Added(key, stamp.uid, stamp.etag)];
      assert Advance(c, h, stamp).0 == AfterCreate(c, parent, id, h.trigger, stamp);
      assert Advance(c, h, stamp).1.reply.verb == VerbUpdate;
    }
  }

  lemma WriteTellsUpdate(c: Contents, t: nat, h: Handler, readAt: nat, stamp: Stamp)
    requires KeyedByName(c) && h.Start? && h.request.UpdateRequest?
    ensures var (c', h') := Advance(c, h, stamp);
            StepFacts(c, c', t, h, h', readAt, WriteOf(c, t, h, readAt, stamp))
  {
    var trigger := h.request.trigger;
    if trigger.Some? && trigger.value.name in c {
      IdsOfPut(c, trigger.value.name, Updated(c[trigger.value.name], trigger.value, h.request.mask, stamp));
    }
  }

  lemma WriteTellsStep(c: Contents, t: nat, h: Handler, readAt: nat, stamp: Stamp)
    requires KeyedByName(c)
    ensures var (c', h') := Advance(c, h, stamp);
            StepFacts(c, c', t, h, h', readAt, WriteOf(c, t, h, readAt, stamp))
  {
    if h.UpdateMissed? {
      WriteTellsUpsert(c, t, h, readAt, stamp);
    } else if h.Start? && h.request.CreateRequest? {
      WriteTellsCreate(c, t, h, readAt, stamp);
    } else if h.Start? && h.request.UpdateRequest? {
      WriteTellsUpdate(c, t, h, readAt, stamp);
    } else if h.DeleteRead? {
      IdsOfPut(c, h.name, h.existing);
    }
  }

  lemma WriteFits(s: Sys, t: nat, h: Handler, readAt: nat, stamp: Stamp)
    requires IdsOf(s.triggers) == Replay(s.log) && FreshStamp(s, stamp)
    ensures var w := WriteOf(s.triggers, t, h, readAt, stamp); w != [] ==> Fits(s.log, w[0])
  {
    var w := WriteOf(s.triggers, t, h, readAt, stamp);
    assert forall n :: n in s.triggers <==> n in Replay(s.log);
    if w != [] {
      assert w[0].name in s.triggers <==> !w[0].Added?;
      assert w[0].Added? ==> w[0].uid == stamp.uid;
      assert !w[0].Removed? ==> w[0].etag == stamp.etag;
    }
  }

  ghost predicate StepShape(s: Sys, s': Sys, t: nat, h': Handler, readAt: nat, w: seq<Write>) {
    && t in s.handlers && StepFacts(s.triggers, s'.triggers, t, s.handlers[t], h', readAt, w)
    && (w != [] ==> Fits(s.log, w[0]))
    && s'.handlers == s.handlers[t := h'] && s'.log == s.log + w
    && (t in s.readPoints ==> readAt == s.readPoints[t])
    && s'.readPoints == if s.handlers[t].Start? && IsHalfway(h') then s.readPoints[t := |s.log|] else s.readPoints
  }

  /** The step's write fits the log, and the log keeps describing the stored triggers. */
  lemma StepMatchesLog(s: Sys, s': Sys, t: nat, h': Handler, readAt: nat, w: seq<Write>)
    requires Inv(s) && StepShape(s, s', t, h', readAt, w)
    ensures Legal(s'.log) && KeyedByName(s'.triggers) && IdsOf(s'.triggers) == Replay(s'.log)
  {
    if w == [] {
      assert s'.log == s.log;
    } else {
      assert w == [w[0]];
      assert s'.log[..|s.log|] == s.log;
    }
  }

  lemma ReadsStayMatched(log: seq<Write>, more: seq<Write>, readAt: nat, name: string, read: Trigger)
    requires ReadMatches(log, readAt, name, read)
    ensures ReadMatches(log + more, readAt, name, read)
  {
    assert (log + more)[..readAt] == log[..readAt];
  }

  lemma StepMatchesMisses(s: Sys, s': Sys, t: nat, h': Handler, readAt: nat, w: seq<Write>)
    requires Inv(s) && StepShape(s, s', t, h', readAt, w)
    ensures forall u :: u in s'.handlers && s'.handlers[u].UpdateMissed? ==>
              u in s'.readPoints && MissMatches(s'.log, s'.readPoints[u], s'.handlers[u].trigger.name)
  {
    forall u | u in s'.handlers && s'.handlers[u].UpdateMissed?
      ensures u in s'.readPoints && MissMatches(s'.log, s'.readPoints[u], s'.handlers[u].trigger.name)
    {
      var name, k := s'.handlers[u].trigger.name, s'.readPoints[u];
      if u == t {
        assert s.log[..|s.log|] == s.log;
        assert name !in IdsOf(s.triggers);
      }
      assert k <= |s.log| && s'.log[..k] == s.log[..k];
    }
  }

  lemma StepMatchesHandlers(s: Sys, s': Sys, t: nat, h': Handler, readAt: nat, w: seq<Write>)
    requires Inv(s) && StepShape(s, s', t, h', readAt, w)
    ensures HandlersMatch(s')
  {
    StepMatchesMisses(s, s', t, h', readAt, w);
    forall u | u in s'.handlers && s'.handlers[u].DeleteRead?
      ensures u in s'.readPoints && ReadMatches(s'.log, s'.readPoints[u], s'.handlers[u].name, s'.handlers[u].existing)
    {
      var h := s'.handlers[u];
      if u == t {
        assert s.log[..|s.log|] == s.log;
        assert h.name in IdsOf(s.triggers);
        assert ReadMatches(s.log, |s.log|, h.name, h.existing);
      }
      ReadsStayMatched(s.log, w, s'.readPoints[u], h.name, h.existing);
    }
    forall u | u in s'.handlers && RepliedDeleted(s'.handlers[u])
      ensures exists k :: 0 <= k < |s'.log| && s'.log[k].Removed? && s'.log[k].remover == u
    {
      if u == t && !s.handlers[t].Replied? {
        assert s'.log[|s.log|] == w[0];
      } else {
        var k :| 0 <= k < |s.log| && s.log[k].Removed? && s.log[k].remover == u;
        assert s'.log[k] == s.log[k];
      }
    }
  }

  lemma OldRemovalsStayMatched(s: Sys, s': Sys, t: nat, h': Handler, readAt: nat, w: seq<Write>)
    requires Inv(s) && StepShape(s, s', t, h', readAt, w)
    ensures forall k :: 0 <= k < |s.log| && s.log[k].Removed? ==>
              s'.log[k] == s.log[k] && RemovalMatches(s', k) && (s.log[k].remover == t ==> w == [])
  {
    forall k | 0 <= k < |s.log| && s.log[k].Removed?
      ensures s'.log[k] == s.log[k] && RemovalMatches(s', k) && (s.log[k].remover == t ==> w == [])
    {
      var x := s.log[k];
      assert RemovalMatches(s, k);
      ReadsStayMatched(s.log, w, x.readAt, x.name, x.returned);
    }
  }

  lemma NewRemovalMatches(s: Sys, s': Sys, t: nat, h': Handler, readAt: nat, w: seq<Write>)
    requires Inv(s) && StepShape(s, s', t, h', readAt, w) && w != [] && w[0].Removed?
    ensures w[0].remover == t && s'.log[|s.log|] == w[0] && RemovalMatches(s', |s.log|)
  {
    ReadsStayMatched(s.log, w, readAt, w[0].name, w[0].returned);
  }

  lemma RemovalsAppend(s: Sys, s': Sys, w: seq<Write>)
    requires RemovalsMatch(s) && s'.log == s.log + w && |w| <= 1
    requires forall k :: 0 <= k < |s.log| && s.log[k].Removed? ==> s'.log[k] == s.log[k] && RemovalMatches(s', k)
    requires w != [] && w[0].Removed? ==>
               && s'.log[|s.log|] == w[0] && RemovalMatches(s', |s.log|)
               && forall k :: 0 <= k < |s.log| && s.log[k].Removed? ==> s.log[k].remover != w[0].remover
    ensures RemovalsMatch(s')
  {
    assert forall k :: 0 <= k < |s.log| ==> s'.log[k] == s.log[k];
    assert w != [] ==> s'.log[|s.log|] == w[0];
  }

  lemma StepKeepsInv(s: Sys, t: nat, stamp: Stamp)
    requires Inv(s) && t in s.handlers && FreshStamp(s, stamp)
    ensures Inv(StepOf(s, t, stamp))
  {
    var s', h := StepOf(s, t, stamp), s.handlers[t];
    var readAt := if t in s.readPoints then s.readPoints[t] else 0;
    var w := WriteOf(s.triggers, t, h, readAt, stamp);
    var h' := Advance(s.triggers, h, stamp).1;
    WriteTellsStep(s.triggers, t, h, readAt, stamp);
    WriteFits(s, t, h, readAt, stamp);
    StepMatchesLog(s, s', t, h', readAt, w);
    StepMatchesHandlers(s, s', t, h', readAt, w);
    OldRemovalsStayMatched(s, s', t, h', readAt, w);
    if w != [] && w[0].Removed? {
      NewRemovalMatches(s, s', t, h', readAt, w);
    }
    RemovalsAppend(s, s', w);
  }

  /** The invariant holds after every step of every run. */
  lemma {:induction false} InvAlways(run: seq<Sys>, k: nat)
    requires IsRun(run) && k < |run|
    ensures Inv(run[k])
  {
    if k > 0 {
      InvAlways(run, k - 1);
      var s, s' := run[k - 1], run[k];
      assert Follows(run, k);
      if t: nat, request :| t !in s.handlers && s' == Arrive(s, t, request) {
        ArrivalKeepsInv(s, t, request);
      } else {
        var t, stamp :| t in s.handlers && FreshStamp(s, stamp) && s' == StepOf(s, t, stamp);
        StepKeepsInv(s, t, stamp);
      }
    }
  }

  // ---- What holds in every interleaving ----------------------------------------------------

  /** The creates (true) and removals (false) of one name, in order. */
  function LifeOf(log: seq<Write>, name: string): seq<bool> {
    if log == [] then []
    else
      var earlier, last := LifeOf(log[..|log| - 1], name), log[|log| - 1];
      if last.name == name && !last.Changed? then earlier + [last.Added?] else earlier
  }

  predicate Alternates(life: seq<bool>) {
    forall k :: 0 <= k < |life| ==> (life[k] <==> k % 2 == 0)
  }

  lemma {:induction false} LivesAlternate(log: seq<Write>, name: string)
    requires Legal(log)
    ensures Alternates(LifeOf(log, name))
    ensures name in Replay(log) <==> |LifeOf(log, name)| % 2 == 1
  {
    if log != [] {
      LivesAlternate(log[..|log| - 1], name);
    }
  }

  function Count(log: seq<Write>, added: bool): nat {
    if log == [] then 0
    else
      var last := log[|log| - 1];
      Count(log[..|log| - 1], added) + if (if added then last.Added? else last.Removed?) then 1 else 0
  }

  lemma {:induction false} ReplaySize(log: seq<Write>)
    requires Legal(log)
    ensures |Replay(log)| == Count(log, true) - Count(log, false)
  {
    if log != [] {
      ReplaySize(log[..|log| - 1]);
    }
  }

  /**
   In every interleaving each name's creates and removals alternate, starting with a create, and the name is stored
   exactly after an odd number of them; the number of stored triggers is the number of creates less removals.
   */
  lemma CreatesAndRemovalsBalance(run: seq<Sys>, k: nat)
    requires IsRun(run) && k < |run|
    ensures forall name :: Alternates(LifeOf(run[k].log, name))
    ensures forall name :: name in run[k].triggers <==> |LifeOf(run[k].log, name)| % 2 == 1
    ensures |run[k].triggers| == Count(run[k].log, true) - Count(run[k].log, false)
  {
    InvAlways(run, k);
    var s := run[k];
    forall name ensures Alternates(LifeOf(s.log, name)) && (name in s.triggers <==> |LifeOf(s.log, name)| % 2 == 1) {
      LivesAlternate(s.log, name);
      assert name in s.triggers <==> name in IdsOf(s.triggers);
    }
    ReplaySize(s.log);
    assert s.triggers.Keys == IdsOf(s.triggers).Keys;
  }

  /** The create that gave a stored name its uid. */
  lemma {:induction false} CreateOf(log: seq<Write>, name: string) returns (k: nat)
    requires Legal(log) && name in Replay(log)
    ensures k < |log| && log[k].Added? && log[k].name == name && log[k].uid == Replay(log)[name].uid
  {
    var earlier, last := log[..|log| - 1], log[|log| - 1];
    if last.name != name || last.Changed? {
      k := CreateOf(earlier, name);
    } else {
      k := |log| - 1;
    }
  }

  lemma UidsAreDistinct(log: seq<Write>, i: nat, j: nat)
    requires Legal(log) && i < |log| && j < |log| && i != j && log[i].Added? && log[j].Added?
    ensures log[i].uid != log[j].uid
  {
    if i < j {
      assert log[..j][i] == log[i];
      LegalPrefix(log, j);
    } else {
      assert log[..i][j] == log[j];
      LegalPrefix(log, i);
    }
  }

  /** The trigger, as uid and etag, that the removal at position k of the log took out of the store. */
  function Victim(log: seq<Write>, k: nat): Id
    requires k < |log| && log[k].name in Replay(log[..k])
  {
    Replay(log[..k])[log[k].name]
  }

  lemma CreateOfPrefix(log: seq<Write>, j: nat, name: string) returns (k: nat)
    requires Legal(log) && j <= |log| && name in Replay(log[..j])
    ensures k < j && log[k].Added? && log[k].name == name && log[k].uid == Replay(log[..j])[name].uid
  {
    LegalPrefix(log, j);
    k := CreateOf(log[..j], name);
    assert log[k] == log[..j][k];
  }

  lemma OwnersDiffer(log: seq<Write>, j: nat, k: nat, one: string, other: string)
    requires Legal(log) && j <= |log| && k <= |log| && one in Replay(log[..j]) && other in Replay(log[..k])
    requires one != other
    ensures Replay(log[..j])[one].uid != Replay(log[..k])[other].uid
  {
    var a := CreateOfPrefix(log, j, one);
    var b := CreateOfPrefix(log, k, other);
    UidsAreDistinct(log, a, b);
  }

  lemma NoVictimTwice(log: seq<Write>, j: nat, k: nat)
    requires Legal(log) && j < k < |log| && log[j].Removed? && log[k].Removed?
    requires log[j].name in Replay(log[..j]) && log[k].name in Replay(log[..k])
    ensures Victim(log, j).uid != Victim(log, k).uid
  {
    if log[j].name == log[k].name {
      var late := log[..k];
      LegalPrefix(log, k);
      assert late[..j] == log[..j] && late[j] == log[j];
      assert !NotRemoved(late, j, log[j].name);
      StillCurrentIff(late, j, log[j].name);
    } else {
      OwnersDiffer(log, j, k, log[j].name, log[k].name);
    }
  }

  /**
   In every interleaving, per incarnation (uid) at most one removal happens, each removal was made by a handler of its
   own, and the handlers that replied with a deleted trigger are exactly the ones that made a removal.
   */
  lemma OneDeleteHandlerPerIncarnation(run: seq<Sys>, n: nat)
    requires IsRun(run) && n < |run|
    ensures forall k :: 0 <= k < |run[n].log| && run[n].log[k].Removed? ==> run[n].log[k].name in Replay(run[n].log[..k])
    ensures forall j, k :: 0 <= j < k < |run[n].log| && run[n].log[j].Removed? && run[n].log[k].Removed? ==>
              run[n].log[j].remover != run[n].log[k].remover && Victim(run[n].log, j).uid != Victim(run[n].log, k).uid
    ensures forall t :: t in run[n].handlers ==>
              (RepliedDeleted(run[n].handlers[t])
               <==> exists k :: 0 <= k < |run[n].log| && run[n].log[k].Removed? && run[n].log[k].remover == t)
  {
    InvAlways(run, n);
    var log := run[n].log;
    forall k | 0 <= k < |log| && log[k].Removed? ensures log[k].name in Replay(log[..k]) {
      LegalPrefix(log, k);
    }
    forall j, k | 0 <= j < k < |log| && log[j].Removed? && log[k].Removed?
      ensures Victim(log, j).uid != Victim(log, k).uid
    {
      NoVictimTwice(log, j, k);
    }
  }

  /**
   The trigger that a delete handler returns is the one it removed exactly when the name was not removed between the
   handler's two steps, and it was removed at the etag that the handler had checked exactly when nothing wrote the name
   in between.
   */
  lemma ReturnedIsRemovedIff(run: seq<Sys>, n: nat, k: nat)
    requires IsRun(run) && n < |run| && k < |run[n].log| && run[n].log[k].Removed?
    ensures var log, w := run[n].log, run[n].log[k];
            && w.readAt <= k && w.name in Replay(log[..k])
            && (w.returned.uid == Victim(log, k).uid <==> NotRemoved(log[..k], w.readAt, w.name))
            && (w.returned.etag == Victim(log, k).etag <==> NotWritten(log[..k], w.readAt, w.name))
  {
    InvAlways(run, n);
    var log, w := run[n].log, run[n].log[k];
    LegalPrefix(log, k);
    assert log[..k][..w.readAt] == log[..w.readAt];
    StillCurrentIff(log[..k], w.readAt, w.name);
  }

  // ---- When a delete finds nothing left ----------------------------------------------------

  /** The last create or removal of the name since the first k writes is a removal. */
  predicate GoneSince(log: seq<Write>, k: nat, name: string) {
    exists r :: k <= r < |log| && log[r].Removed? && log[r].name == name
                && forall j :: r < j < |log| ==> !(log[j].Added? && log[j].name == name)
  }

  lemma {:induction false} GoneIff(log: seq<Write>, k: nat, name: string)
    requires Legal(log) && k <= |log| && name in Replay(log[..k])
    ensures name !in Replay(log) <==> GoneSince(log, k, name)
  {
    if k == |log| {
      assert log[..k] == log;
    } else {
      var earlier, last := log[..|log| - 1], log[|log| - 1];
      assert earlier[..k] == log[..k];
      GoneIff(earlier, k, name);
      assert forall j :: 0 <= j < |earlier| ==> log[j] == earlier[j];
      if last.Removed? && last.name == name {
        assert GoneSince(log, k, name);
      } else {
        GoneNext(log, k, name);
      }
    }
  }

  lemma GoneNext(log: seq<Write>, k: nat, name: string)
    requires k < |log| && !(log[|log| - 1].Removed? && log[|log| - 1].name == name)
    ensures GoneSince(log, k, name)
            <==> GoneSince(log[..|log| - 1], k, name) && !(log[|log| - 1].Added? && log[|log| - 1].name == name)
  {
    var earlier := log[..|log| - 1];
    assert forall j :: 0 <= j < |earlier| ==> log[j] == earlier[j];
    if r :| k <= r < |log| && log[r].Removed? && log[r].name == name
            && forall j :: r < j < |log| ==> !(log[j].Added? && log[j].name == name) {
      assert r < |earlier| && earlier[r] == log[r];
    }
  }

  /**
   In every interleaving a delete handler that has read its trigger, allow_missing or not, is refused with NotFound if
   and only if since its read the name was removed and not created again.
   */
  lemma DeleteRefusedIff(run: seq<Sys>, n: nat, t: nat, stamp: Stamp)
    requires IsRun(run) && n < |run| && t in run[n].handlers && run[n].handlers[t].DeleteRead?
    ensures var s, h := run[n], run[n].handlers[t];
            && t in s.readPoints && s.readPoints[t] <= |s.log|
            && (Advance(s.triggers, h, stamp).1 == Replied(Refused(NotFound)) <==> GoneSince(s.log, s.readPoints[t], h.name))
  {
    InvAlways(run, n);
    var s, h := run[n], run[n].handlers[t];
    GoneIff(s.log, s.readPoints[t], h.name);
    assert h.name in s.triggers <==> h.name in IdsOf(s.triggers);
    DeleteMissesIff(s.triggers, h, stamp);
  }

  // ---- When an upsert finds its key taken --------------------------------------------------

  /** The last create or removal of the name since the first k writes is a create. */
  predicate BackSince(log: seq<Write>, k: nat, name: string) {
    exists r :: k <= r < |log| && log[r].Added? && log[r].name == name
                && forall j :: r < j < |log| ==> !(log[j].Removed? && log[j].name == name)
  }

  lemma {:induction false} BackIff(log: seq<Write>, k: nat, name: string)
    requires Legal(log) && k <= |log| && name !in Replay(log[..k])
    ensures name in Replay(log) <==> BackSince(log, k, name)
  {
    if k == |log| {
      assert log[..k] == log;
    } else {
      var earlier, last := log[..|log| - 1], log[|log| - 1];
      assert earlier[..k] == log[..k];
      BackIff(earlier, k, name);
      assert forall j :: 0 <= j < |earlier| ==> log[j] == earlier[j];
      if last.Added? && last.name == name {
        assert BackSince(log, k, name);
      } else {
        BackNext(log, k, name);
      }
    }
  }

  lemma BackNext(log: seq<Write>, k: nat, name: string)
    requires k < |log| && !(log[|log| - 1].Added? && log[|log| - 1].name == name)
    ensures BackSince(log, k, name)
            <==> BackSince(log[..|log| - 1], k, name) && !(log[|log| - 1].Removed? && log[|log| - 1].name == name)
  {
    var earlier := log[..|log| - 1];
    assert forall j :: 0 <= j < |earlier| ==> log[j] == earlier[j];
    if r :| k <= r < |log| && log[r].Added? && log[r].name == name
            && forall j :: r < j < |log| ==> !(log[j].Removed? && log[j].name == name) {
      assert r < |earlier| && earlier[r] == log[r];
    }
  }

  /**
   In every interleaving an allow_missing update that has missed is refused with AlreadyExists if and only if its key was
   there at the miss and has not gone since, or was not there and has come since. For a well-formed name: if and only if
   the name was created since the miss and not removed again.
   */
  lemma UpsertRefusedIff(run: seq<Sys>, n: nat, t: nat, stamp: Stamp)
    requires IsRun(run) && n < |run| && t in run[n].handlers && run[n].handlers[t].UpdateMissed?
    ensures t in run[n].readPoints && run[n].readPoints[t] <= |run[n].log|
    ensures var s, name := run[n], run[n].handlers[t].trigger.name;
            var k, refused := s.readPoints[t], Advance(s.triggers, s.handlers[t], stamp).1 == Replied(Refused(AlreadyExists));
            && (refused <==> if UpsertKey(name) in Replay(s.log[..k]) then !GoneSince(s.log, k, UpsertKey(name))
                             else BackSince(s.log, k, UpsertKey(name)))
            && (WellFormed(name, "triggers") ==> (refused <==> BackSince(s.log, k, name)))
  {
    InvAlways(run, n);
    var s, name := run[n], run[n].handlers[t].trigger.name;
    var k := s.readPoints[t];
    TriggerUpsertKey(name);
    if UpsertKey(name) in Replay(s.log[..k]) {
      GoneIff(s.log, k, UpsertKey(name));
    } else {
      BackIff(s.log, k, UpsertKey(name));
    }
    assert UpsertKey(name) in s.triggers <==> UpsertKey(name) in IdsOf(s.triggers);
    UpsertMissesIff(s.triggers, s.handlers[t], stamp);
  }
}
