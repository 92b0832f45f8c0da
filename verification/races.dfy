/** Reachable states in which interleaved handlers return, remove or find something else than they read. */
module Races {
  import opened FieldMasks
  import opened Handlers
  import opened Interleaving
  import opened Names
  import opened TriggerSpec
  import opened Wrappers

  // ---- Steps that keep a state reachable ---------------------------------------------------

  ghost predicate Reachable(s: Sys) {
    exists run :: IsRun(run) && run[|run| - 1] == s
  }

  lemma Extends(s: Sys, s': Sys)
    requires Reachable(s) && Next(s, s')
    ensures Reachable(s')
  {
    var run :| IsRun(run) && run[|run| - 1] == s;
    var longer := run + [s'];
    forall k | 0 < k < |longer| ensures Follows(longer, k) {
      assert longer[k - 1] == run[k - 1];
      if k < |run| {
        assert Follows(run, k) && longer[k] == run[k];
      }
    }
    assert longer[|longer| - 1] == s';
  }

  lemma SeenAppend(log: seq<Write>, w: Write)
    ensures Uids(log + [w]) == Uids(log) + if w.Added? then {w.uid} else {}
    ensures Etags(log + [w]) == Etags(log) + if w.Removed? then {} else {w.etag}
  {
    assert (log + [w])[|log|] == w;
    assert forall k :: 0 <= k < |log| ==> (log + [w])[k] == log[k];
  }

  lemma CreateRuns(s: Sys, t: nat, parent: string, id: string, trigger: Trigger, stamp: Stamp) returns (s': Sys)
    requires Reachable(s) && t !in s.handlers && t !in s.requests && FreshStamp(s, stamp)
    requires !CreateIsInvalid(parent, id, Some(trigger)) && Format(parent, "triggers", id) !in s.triggers
    ensures var name, created := Format(parent, "triggers", id), Created(parent, id, trigger, stamp);
            && Reachable(s') && s'.triggers == s.triggers[name := created]
            && s'.log == s.log + [Added(name, stamp.uid, stamp.etag)]
            && Uids(s'.log) == Uids(s.log) + {stamp.uid} && Etags(s'.log) == Etags(s.log) + {stamp.etag}
            && s'.handlers.Keys == s.handlers.Keys + {t} && s'.requests.Keys == s.requests.Keys + {t}
            && (forall u :: u in s.handlers ==> s'.handlers[u] == s.handlers[u])
            && (forall u :: u in s.requests ==> s'.requests[u] == s.requests[u])
  {
    var arrived := Arrive(s, t, CreateRequest(parent, id, Some(trigger), false));
    s' := StepOf(arrived, t, stamp);
    Extends(s, arrived);
    Extends(arrived, s');
    SeenAppend(s.log, Added(Format(parent, "triggers", id), stamp.uid, stamp.etag));
  }

  lemma UpdateRuns(s: Sys, t: nat, req: Trigger, mask: FieldMask, stamp: Stamp) returns (s': Sys)
    requires Reachable(s) && t !in s.handlers && t !in s.requests && FreshStamp(s, stamp) && req.name != "" && req.name in s.triggers
    ensures Reachable(s') && s'.triggers == s.triggers[req.name := Updated(s.triggers[req.name], req, mask, stamp)]
    ensures s'.log == s.log + [Changed(req.name, stamp.etag)]
    ensures Uids(s'.log) == Uids(s.log) && Etags(s'.log) == Etags(s.log) + {stamp.etag}
    ensures forall u :: u in s.handlers ==> u in s'.handlers && s'.handlers[u] == s.handlers[u]
    ensures forall u :: u in s.requests ==> u in s'.requests && s'.requests[u] == s.requests[u]
  {
    var request := UpdateRequest(Some(req), mask, false, false);
    var updated := Updated(s.triggers[req.name], req, mask, stamp);
    assert Advance(s.triggers, Start(request), stamp) == (s.triggers[req.name := updated], Replied(Updates(req, updated)));
    var arrived := Arrive(s, t, request);
    s' := StepOf(arrived, t, stamp);
    Extends(s, arrived);
    Extends(arrived, s');
    SeenAppend(s.log, Changed(req.name, stamp.etag));
  }

  lemma DeleteReads(s: Sys, t: nat, name: string, etag: string, allowMissing: bool, stamp: Stamp) returns (s': Sys)
    requires Reachable(s) && t !in s.handlers && t !in s.requests && FreshStamp(s, stamp) && name != "" && name in s.triggers
    requires etag == "" || etag == s.triggers[name].etag
    ensures Reachable(s') && s'.triggers == s.triggers && s'.log == s.log
    ensures s'.handlers == s.handlers[t := DeleteRead(name, s.triggers[name])]
    ensures s'.requests == s.requests[t := DeleteRequest(name, etag, false, allowMissing)]
  {
    var arrived := Arrive(s, t, DeleteRequest(name, etag, false, allowMissing));
    s' := StepOf(arrived, t, stamp);
    Extends(s, arrived);
    Extends(arrived, s');
  }

  lemma DeleteRemoves(s: Sys, t: nat, stamp: Stamp) returns (s': Sys)
    requires Reachable(s) && t in s.handlers && FreshStamp(s, stamp)
    requires s.handlers[t].DeleteRead? && s.handlers[t].name in s.triggers
    ensures var h := s.handlers[t];
            && Reachable(s') && s'.triggers == s.triggers - {h.name} && s'.requests == s.requests
            && Uids(s'.log) == Uids(s.log) && Etags(s'.log) == Etags(s.log)
            && |s'.log| == |s.log| + 1 && s'.log[..|s.log|] == s.log
            && s'.log[|s.log|].Removed? && s'.log[|s.log|].remover == t && s'.log[|s.log|].name == h.name
            && s'.handlers == s.handlers[t := Replied(Deletes(h.name, Resource(h.existing)))]
  {
    s' := StepOf(s, t, stamp);
    Extends(s, s');
    SeenAppend(s.log, s'.log[|s.log|]);
    assert s'.log == s.log + [s'.log[|s.log|]];
  }

  lemma DeleteMisses(s: Sys, t: nat, stamp: Stamp) returns (s': Sys)
    requires Reachable(s) && t in s.handlers && FreshStamp(s, stamp)
    requires s.handlers[t].DeleteRead? && s.handlers[t].name !in s.triggers
    ensures Reachable(s') && s'.requests == s.requests && s'.handlers == s.handlers[t := Replied(Refused(NotFound))]
  {
    s' := StepOf(s, t, stamp);
    Extends(s, s');
  }

  lemma UpdateMisses(s: Sys, t: nat, req: Trigger, mask: FieldMask, stamp: Stamp) returns (s': Sys)
    requires Reachable(s) && t !in s.handlers && t !in s.requests && FreshStamp(s, stamp)
    requires req.name != "" && req.name !in s.triggers
    ensures Reachable(s') && s'.triggers == s.triggers && s'.log == s.log
    ensures s'.handlers == s.handlers[t := UpdateMissed(req)]
    ensures s'.requests == s.requests[t := UpdateRequest(Some(req), mask, false, true)]
  {
    var arrived := Arrive(s, t, UpdateRequest(Some(req), mask, false, true));
    s' := StepOf(arrived, t, stamp);
    Extends(s, arrived);
    Extends(arrived, s');
  }

  lemma UpsertFindsKey(s: Sys, t: nat, stamp: Stamp) returns (s': Sys)
    requires Reachable(s) && t in s.handlers && FreshStamp(s, stamp)
    requires s.handlers[t].UpdateMissed? && UpsertKey(s.handlers[t].trigger.name) in s.triggers
    ensures Reachable(s') && s'.requests == s.requests && s'.handlers == s.handlers[t := Replied(Refused(AlreadyExists))]
  {
    s' := StepOf(s, t, stamp);
    Extends(s, s');
  }

  // ---- The races ---------------------------------------------------------------------------

  lemma BothRead(parent: string, id: string, trigger: Trigger, first: Stamp, second: Stamp) returns (s: Sys)
    requires !CreateIsInvalid(parent, id, Some(trigger)) && first.uid != second.uid && first.etag != second.etag
    ensures var name, a := Format(parent, "triggers", id), Created(parent, id, trigger, first);
            && Reachable(s) && s.triggers == map[name := a] && |s.log| == 1
            && Uids(s.log) == {first.uid} && Etags(s.log) == {first.etag}
            && s.handlers.Keys == s.requests.Keys == {0, 1, 2} && s.handlers[1] == s.handlers[2] == DeleteRead(name, a)
            && s.requests[2] == DeleteRequest(name, "", false, true)
  {
    assert IsRun([EMPTY]) && Uids([]) == {} && Etags([]) == {};
    var s1 := CreateRuns(EMPTY, 0, parent, id, trigger, first);
    var s2 := DeleteReads(s1, 1, Format(parent, "triggers", id), "", false, second);
    s := DeleteReads(s2, 2, Format(parent, "triggers", id), "", true, second);
  }

  /**
   Two delete handlers can return the same trigger, although two removals took different ones: the get and the delete
   are separate steps, and a create came between.
   */
  lemma OneTriggerReturnedTwice(parent: string, id: string, trigger: Trigger, first: Stamp, second: Stamp, third: Stamp)
    returns (s: Sys)
    requires !CreateIsInvalid(parent, id, Some(trigger))
    requires first.uid != second.uid && first.etag != second.etag
    requires third.uid !in {first.uid, second.uid} && third.etag !in {first.etag, second.etag}
    ensures Reachable(s) && 1 in s.handlers && 2 in s.handlers
    ensures var returned := Resource(Created(parent, id, trigger, first));
            s.handlers[1] == s.handlers[2] == Replied(Deletes(Format(parent, "triggers", id), returned))
    ensures |s.log| == 4 && s.log[3].Removed? && s.log[3].remover == 2
    ensures s.log[3].name in Replay(s.log[..3]) && Victim(s.log, 3).uid == second.uid
  {
    var name := Format(parent, "triggers", id);
    var s3 := BothRead(parent, id, trigger, first, second);
    var s4 := DeleteRemoves(s3, 1, second);
    var s5 := CreateRuns(s4, 3, parent, id, trigger, second);
    assert s5.log[2] == Added(name, second.uid, second.etag);
    s := DeleteRemoves(s5, 2, third);
  }

  /** A delete that asked for allow_missing and found its trigger can be refused with NotFound. */
  lemma AllowMissingDeleteRefused(parent: string, id: string, trigger: Trigger, first: Stamp, second: Stamp) returns (s: Sys)
    requires !CreateIsInvalid(parent, id, Some(trigger)) && first.uid != second.uid && first.etag != second.etag
    ensures Reachable(s) && 2 in s.requests && 2 in s.handlers
    ensures s.requests[2] == DeleteRequest(Format(parent, "triggers", id), "", false, true)
    ensures s.handlers[2] == Replied(Refused(NotFound))
  {
    var s1 := BothRead(parent, id, trigger, first, second);
    var s2 := DeleteRemoves(s1, 1, second);
    s := DeleteMisses(s2, 2, second);
  }

  lemma ReplayOfChange(name: string, uid: string, one: string, other: string)
    ensures Replay([Added(name, uid, one), Changed(name, other)]) == map[name := Id(uid, other)]
  {
    var log := [Added(name, uid, one), Changed(name, other)];
    assert log[..1] == [log[0]] && log[..1][..0] == [];
    assert Replay(log[..1]) == map[name := Id(uid, one)];
  }

  lemma OneReads(parent: string, id: string, trigger: Trigger, first: Stamp, second: Stamp) returns (s: Sys)
    requires !CreateIsInvalid(parent, id, Some(trigger)) && first.uid != second.uid && first.etag != second.etag
    ensures var name, a := Format(parent, "triggers", id), Created(parent, id, trigger, first);
            && Reachable(s) && s.triggers == map[name := a] && s.log == [Added(name, first.uid, first.etag)]
            && Uids(s.log) == {first.uid} && Etags(s.log) == {first.etag}
            && s.handlers.Keys == s.requests.Keys == {0, 1} && s.handlers[1] == DeleteRead(name, a)
            && s.requests[1] == DeleteRequest(name, first.etag, false, false)
  {
    assert IsRun([EMPTY]) && Uids([]) == {} && Etags([]) == {};
    var s1 := CreateRuns(EMPTY, 0, parent, id, trigger, first);
    s := DeleteReads(s1, 1, Format(parent, "triggers", id), first.etag, false, second);
  }

  lemma ReadThenUpdated(parent: string, id: string, trigger: Trigger, first: Stamp, second: Stamp) returns (s: Sys)
    requires !CreateIsInvalid(parent, id, Some(trigger)) && first.uid != second.uid && first.etag != second.etag
    ensures var name := Format(parent, "triggers", id);
            && Reachable(s) && name in s.triggers
            && s.log == [Added(name, first.uid, first.etag), Changed(name, second.etag)]
            && Uids(s.log) == {first.uid} && Etags(s.log) == {first.etag, second.etag}
            && 1 in s.requests && s.requests[1] == DeleteRequest(name, first.etag, false, false)
            && 1 in s.handlers && s.handlers[1] == DeleteRead(name, Created(parent, id, trigger, first))
  {
    var name := Format(parent, "triggers", id);
    var s1 := OneReads(parent, id, trigger, first, second);
    var req := trigger.(name := name);
    assert req.name == name != "";
    s := UpdateRuns(s1, 2, req, None, second);
    assert s.log == [Added(name, first.uid, first.etag)] + [Changed(name, second.etag)];
  }

  /** A delete whose etag matched when it read the trigger can remove the trigger at another etag. */
  lemma OtherEtagRemoved(parent: string, id: string, trigger: Trigger, first: Stamp, second: Stamp, third: Stamp)
    returns (s: Sys)
    requires !CreateIsInvalid(parent, id, Some(trigger)) && first.etag != "" && first.uid != second.uid
    requires first.etag != second.etag && third.etag !in {first.etag, second.etag} && third.uid != first.uid
    ensures var name := Format(parent, "triggers", id);
            && Reachable(s) && 1 in s.requests && s.requests[1] == DeleteRequest(name, first.etag, false, false)
            && 1 in s.handlers && s.handlers[1].Replied? && s.handlers[1].reply.Completed?
    ensures |s.log| == 3 && s.log[2].Removed? && s.log[2].remover == 1
    ensures s.log[2].name in Replay(s.log[..2]) && Victim(s.log, 2).etag == second.etag
  {
    var s1 := ReadThenUpdated(parent, id, trigger, first, second);
    ReplayOfChange(Format(parent, "triggers", id), first.uid, first.etag, second.etag);
    s := DeleteRemoves(s1, 1, third);
  }

  /** An allow_missing update that missed its trigger can be refused with AlreadyExists: a create came between. */
  lemma AllowMissingUpdateRefused(parent: string, id: string, trigger: Trigger, mask: FieldMask, first: Stamp, second: Stamp)
    returns (s: Sys)
    requires !CreateIsInvalid(parent, id, Some(trigger)) && first.uid != second.uid && first.etag != second.etag
    ensures var req := trigger.(name := Format(parent, "triggers", id));
            && Reachable(s) && 1 in s.requests && s.requests[1] == UpdateRequest(Some(req), mask, false, true)
            && 1 in s.handlers && s.handlers[1] == Replied(Refused(AlreadyExists))
  {
    var req := trigger.(name := Format(parent, "triggers", id));
    UpsertKeyOfCreated(parent, id);
    assert IsRun([EMPTY]) && Uids([]) == {} && Etags([]) == {};
    var s1 := UpdateMisses(EMPTY, 1, req, mask, first);
    var s2 := CreateRuns(s1, 2, parent, id, trigger, first);
    s := UpsertFindsKey(s2, 1, second);
  }

  lemma UpsertKeyOfCreated(parent: string, id: string)
    requires ValidResourceId(id)
    ensures UpsertKey(Format(parent, "triggers", id)) == Format(parent, "triggers", id) != ""
  {
    RecognizerDecidesTheRe(id);
    assert '/' !in id;
    WellFormedMeansFormatted(Format(parent, "triggers", id), "triggers");
    TriggerUpsertKey(Format(parent, "triggers", id));
  }
}
