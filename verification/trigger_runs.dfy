/** Invariants of the stored triggers over whole runs of operations. */
module TriggerRuns {
  import opened FieldMasks
  import opened Names
  import opened TriggerSpec

  /** The contents after a run of steps, each of which may fail. */
  function Run(c: Contents, steps: seq<Step>): Contents {
    if steps == [] then c else After(Run(c, steps[..|steps| - 1]), steps[|steps| - 1])
  }

  lemma RunNext(c: Contents, steps: seq<Step>, k: nat)
    requires k < |steps|
    ensures Run(c, steps[..k + 1]) == After(Run(c, steps[..k]), steps[k])
  {
    assert steps[..k + 1][..k] == steps[..k];
  }

  /** In every reachable state each key is the stored trigger's name. */
  lemma {:induction false} AlwaysKeyedByName(c: Contents, steps: seq<Step>)
    requires KeyedByName(c)
    ensures KeyedByName(Run(c, steps))
  {
    if steps != [] {
      AlwaysKeyedByName(c, steps[..|steps| - 1]);
    }
  }

  ghost predicate LivesThrough(c: Contents, steps: seq<Step>, name: string, first: nat, last: nat)
    requires first <= last <= |steps|
  {
    forall k :: first <= k <= last ==> name in Run(c, steps[..k])
  }

  predicate SameIdentity(before: Trigger, after: Trigger) {
    after.name == before.name && after.uid == before.uid && after.createTime == before.createTime
  }

  lemma StepKeepsIdentity(c: Contents, step: Step, name: string)
    requires KeyedByName(c) && name in c && name in After(c, step)
    ensures SameIdentity(c[name], After(c, step)[name])
  {
  }

  /**
   While a trigger lives, its name, uid and creation time never change, whatever masked, wildcard, maskless or failing
   updates and whatever operations on other names happen in between.
   */
  lemma {:induction false} IdentityIsStable(c: Contents, steps: seq<Step>, name: string, first: nat, last: nat)
    requires KeyedByName(c) && first <= last <= |steps| && LivesThrough(c, steps, name, first, last)
    ensures SameIdentity(Run(c, steps[..first])[name], Run(c, steps[..last])[name])
    decreases last - first
  {
    if first < last {
      IdentityIsStable(c, steps, name, first, last - 1);
      var before := Run(c, steps[..last - 1]);
      AlwaysKeyedByName(c, steps[..last - 1]);
      RunNext(c, steps, last - 1);
      StepKeepsIdentity(before, steps[last - 1], name);
    }
  }

  /** A failed step changes nothing, so a run only depends on its successful steps. */
  predicate Succeeds(c: Contents, step: Step) {
    match step
    case Create(parent, id, _, _) => Format(parent, "triggers", id) !in c
    case Update(req, _, _) => req.name in c
    case Delete(name) => name in c
    case Clear => true
  }

  function Successful(c: Contents, steps: seq<Step>): seq<Step> {
    if steps == [] then []
    else
      var last := steps[|steps| - 1];
      var earlier := Successful(c, steps[..|steps| - 1]);
      if Succeeds(Run(c, steps[..|steps| - 1]), last) then earlier + [last] else earlier
  }

  lemma {:induction false} FailuresLeaveNoTrace(c: Contents, steps: seq<Step>)
    ensures Run(c, Successful(c, steps)) == Run(c, steps)
  {
    if steps != [] {
      var earlier := Successful(c, steps[..|steps| - 1]);
      FailuresLeaveNoTrace(c, steps[..|steps| - 1]);
      assert (earlier + [steps[|steps| - 1]])[..|earlier|] == earlier;
    }
  }

  // ---- Who wrote what is stored ------------------------------------------------------------

  /** The step writes or removes the name. */
  predicate Touches(c: Contents, step: Step, name: string) {
    match step
    case Create(parent, id, _, _) => name !in c && name == Format(parent, "triggers", id)
    case Update(req, _, _) => name in c && name == req.name
    case Delete(removed) => name in c && name == removed
    case Clear => name in c
  }

  ghost predicate ThereSince(steps: seq<Step>, name: string, i: nat) {
    forall j :: i < j <= |steps| ==> name in Run(map[], steps[..j])
  }

  ghost predicate UntouchedSince(steps: seq<Step>, name: string, k: nat) {
    forall j :: k < j < |steps| ==> !Touches(Run(map[], steps[..j]), steps[j], name)
  }

  /** Step i created the name, which has been there since; step k, the create or an update, wrote it last. */
  ghost predicate WrittenLast(steps: seq<Step>, name: string, i: nat, k: nat) {
    && i <= k < |steps| && steps[i].Create? && name == steps[i].parent + "/triggers/" + steps[i].id
    && name !in Run(map[], steps[..i]) && ThereSince(steps, name, i)
    && (k == i || (steps[k].Update? && steps[k].req.name == name)) && UntouchedSince(steps, name, k)
  }

  /** The trigger carries the uid and creation time of its create, and the etag and update time of its last write. */
  predicate CarriesStamps(t: Trigger, create: Step, write: Step)
    requires create.Create? && (write.Create? || write.Update?)
  {
    && t.uid == create.stamp.uid && t.createTime == create.stamp.now
    && t.etag == write.stamp.etag && t.updateTime == write.stamp.now && t.conditions == map["Ready" := 0]
  }

  lemma SamePrefix(steps: seq<Step>, j: nat)
    requires j < |steps|
    ensures steps[..|steps| - 1][..j] == steps[..j]
    ensures Run(map[], steps[..|steps| - 1][..j]) == Run(map[], steps[..j])
  {
    assert steps[..|steps| - 1][..j] == steps[..j];
  }

  lemma ThereOn(earlier: seq<Step>, steps: seq<Step>, name: string, i: nat)
    requires steps != [] && earlier == steps[..|steps| - 1] && ThereSince(earlier, name, i) && name in Run(map[], steps)
    ensures ThereSince(steps, name, i)
  {
    forall j | i < j <= |steps| ensures name in Run(map[], steps[..j]) {
      if j < |steps| {
        SamePrefix(steps, j);
        assert name in Run(map[], earlier[..j]);
      } else {
        assert steps[..j] == steps;
      }
    }
  }

  lemma UntouchedOn(earlier: seq<Step>, steps: seq<Step>, name: string, k: nat)
    requires steps != [] && earlier == steps[..|steps| - 1] && UntouchedSince(earlier, name, k)
    requires !Touches(Run(map[], earlier), steps[|steps| - 1], name)
    ensures UntouchedSince(steps, name, k)
  {
    forall j | k < j < |steps| ensures !Touches(Run(map[], steps[..j]), steps[j], name) {
      if j < |steps| - 1 {
        SamePrefix(steps, j);
        assert !Touches(Run(map[], earlier[..j]), earlier[j], name);
      }
    }
  }

  lemma WrittenOn(steps: seq<Step>, name: string, i: nat, k: nat) returns (k': nat)
    requires steps != [] && WrittenLast(steps[..|steps| - 1], name, i, k) && name in Run(map[], steps)
    requires var last := |steps| - 1;
             Touches(Run(map[], steps[..last]), steps[last], name) ==> steps[last].Update? && steps[last].req.name == name
    ensures WrittenLast(steps, name, i, k')
    ensures k' == if Touches(Run(map[], steps[..|steps| - 1]), steps[|steps| - 1], name) then |steps| - 1 else k
  {
    var earlier, last := steps[..|steps| - 1], |steps| - 1;
    assert earlier[..i] == steps[..i] && earlier[i] == steps[i] && earlier[k] == steps[k];
    ThereOn(earlier, steps, name, i);
    if Touches(Run(map[], steps[..last]), steps[last], name) {
      k' := last;
    } else {
      k' := k;
      UntouchedOn(earlier, steps, name, k);
    }
  }

  lemma TouchKeepsStamps(c: Contents, step: Step, name: string, create: Step, write: Step)
    requires name in c && name in After(c, step) && create.Create? && (write.Create? || write.Update?)
    requires CarriesStamps(c[name], create, write)
    ensures Touches(c, step, name) ==> step.Update? && step.req.name == name
    ensures var t := After(c, step)[name]; CarriesStamps(t, create, if Touches(c, step, name) then step else write)
  {
  }

  /** In every run from the empty store, each stored trigger carries the stamps of its own create and of its last write. */
  lemma {:induction false} StampedByLastWrite(steps: seq<Step>, name: string) returns (i: nat, k: nat)
    requires name in Run(map[], steps)
    ensures WrittenLast(steps, name, i, k) && CarriesStamps(Run(map[], steps)[name], steps[i], steps[k])
  {
    var last := |steps| - 1;
    var c := Run(map[], steps[..last]);
    if name in c {
      i, k := StampedByLastWrite(steps[..last], name);
      TouchKeepsStamps(c, steps[last], name, steps[i], steps[k]);
      k := WrittenOn(steps, name, i, k);
    } else {
      i, k := last, last;
      assert steps[..|steps|] == steps;
      FirstWritten(c, steps[last], name);
    }
  }

  lemma FirstWritten(c: Contents, step: Step, name: string)
    requires name !in c && name in After(c, step)
    ensures step.Create? && name == step.parent + "/triggers/" + step.id && CarriesStamps(After(c, step)[name], step, step)
  {
    assert "/" + "triggers" + "/" == "/triggers/";
    assert step.Create? ==> Format(step.parent, "triggers", step.id) == step.parent + "/triggers/" + step.id;
  }

  /** A create keeps what the request says but for the six fields that the server fills in. */
  lemma CreateFillsIn(parent: string, id: string, req: Trigger, stamp: Stamp)
    ensures var created := Created(parent, id, req, stamp);
            && created.name == parent + "/triggers/" + id
            && CarriesStamps(created, Create(parent, id, req, stamp), Create(parent, id, req, stamp))
            && created == req.(name := created.name, uid := created.uid, createTime := created.createTime,
                               updateTime := created.updateTime, etag := created.etag, conditions := created.conditions)
  {
    FirstWritten(map[], Create(parent, id, req, stamp), Format(parent, "triggers", id));
  }
}
