/**
 What a Get can return, whatever Updates overlap it: each field of its result was stored at some step of its copy, and
 belongs to a config that was committed around the copy. So it returns a committed config if the configs committed
 around its copy are closed under taking the fields from different ones.
 */
module ChannelMixtures {
  import opened ChannelConfig
  import opened ChannelOverlaps
  import opened Wrappers

  predicate IsStored(s: Sys, name: string) {
    name in s.configs && PointsTo(s, name, s.configs[name])
  }

  function StoredConfig(s: Sys, name: string): Config
    requires IsStored(s, name)
  {
    s.heap[s.configs[name]]
  }

  predicate SameField(a: Config, b: Config, f: Field) {
    match f
    case KeyField => a.key == b.key
    case LabelsField => a.labels == b.labels
    case TimeField => a.updateTime == b.updateTime
  }

  // ---- Each field of the result was stored during the copy ---------------------------------

  ghost predicate WasStored(run: seq<Sys>, i: nat, j: nat, name: string, c: Config, f: Field) {
    exists k :: i <= k <= j < |run| && IsStored(run[k], name) && SameField(c, StoredConfig(run[k], name), f)
  }

  ghost predicate AllStored(run: seq<Sys>, i: nat, j: nat, name: string, copy: Config, rest: seq<Field>) {
    forall f :: f !in rest ==> WasStored(run, i, j, name, copy, f)
  }

  /** The fields that the Get has copied since state i were stored since then, and so were those of its result. */
  ghost predicate CopiesStored(run: seq<Sys>, i: nat, j: nat, t: nat, name: string)
    requires i <= j < |run|
  {
    t in run[j].threads && t in run[j].calls && run[j].calls[t] == Get(name) &&
    match run[j].threads[t]
    case Cloning(_, _, rest, copy) => copy.name == name && AllStored(run, i, j, name, copy, rest)
    case Returned(result) => result.name == name && AllStored(run, i, j, name, result, [])
    case _ => false
  }

  lemma AllStayStored(run: seq<Sys>, i: nat, j: nat, name: string, copy: Config, rest: seq<Field>)
    requires i <= j && j + 1 < |run| && AllStored(run, i, j, name, copy, rest)
    ensures AllStored(run, i, j + 1, name, copy, rest)
  {
    forall f | f !in rest ensures WasStored(run, i, j + 1, name, copy, f) {
      var k :| i <= k <= j && IsStored(run[k], name) && SameField(copy, StoredConfig(run[k], name), f);
    }
  }

  lemma OneMoreStored(run: seq<Sys>, i: nat, j: nat, name: string, copy: Config, rest: seq<Field>)
    requires i <= j < |run| && AllStored(run, i, j, name, copy, rest) && rest != [] && IsStored(run[j], name)
    ensures AllStored(run, i, j, name, CopyField(copy, rest[0], StoredConfig(run[j], name)), rest[1..])
  {
    var more := CopyField(copy, rest[0], StoredConfig(run[j], name));
    forall f | f !in rest[1..] ensures WasStored(run, i, j, name, more, f) {
      if f == rest[0] {
        assert SameField(more, StoredConfig(run[j], name), f);
      } else {
        assert f !in rest;
        var k :| i <= k <= j && IsStored(run[k], name) && SameField(copy, StoredConfig(run[k], name), f);
        assert SameField(more, StoredConfig(run[k], name), f);
      }
    }
  }

  lemma CopyTurn(s: Sys, t: nat, env: Env, name: string)
    requires Inv(s) && CanStep(s, t) && s.calls[t] == Get(name) && s.threads[t].Cloning?
    ensures IsStored(s, name)
    ensures var pc := s.threads[t];
            StepOf(s, t, env).threads[t] ==
            if pc.rest == [] then Returned(pc.copy)
            else Cloning(pc.address, pc.locked, pc.rest[1..], CopyField(pc.copy, pc.rest[0], StoredConfig(s, name)))
  {
    assert HoldsOwn(s, s.calls[t], s.threads[t]);
  }

  lemma CopyTakes(run: seq<Sys>, i: nat, j: nat, t: nat, name: string, env: Env)
    requires IsRun(run) && i <= j && j + 1 < |run| && CopiesStored(run, i, j, t, name)
    requires CanStep(run[j], t) && run[j + 1] == StepOf(run[j], t, env)
    ensures CopiesStored(run, i, j + 1, t, name)
  {
    var s, pc := run[j], run[j].threads[t];
    InvAlways(run, j);
    StepShape(s, t, env);
    CopyTurn(s, t, env, name);
    if pc.rest == [] {
      AllStayStored(run, i, j, name, pc.copy, []);
    } else {
      OneMoreStored(run, i, j, name, pc.copy, pc.rest);
      AllStayStored(run, i, j, name, CopyField(pc.copy, pc.rest[0], StoredConfig(s, name)), pc.rest[1..]);
    }
  }

  lemma OtherStepsKeepCopies(run: seq<Sys>, i: nat, j: nat, t: nat, name: string)
    requires i <= j && j + 1 < |run| && CopiesStored(run, i, j, t, name)
    requires t in run[j + 1].threads && run[j + 1].threads[t] == run[j].threads[t]
    requires t in run[j + 1].calls && run[j + 1].calls[t] == run[j].calls[t]
    ensures CopiesStored(run, i, j + 1, t, name)
  {
    var pc := run[j].threads[t];
    if pc.Returned? {
      AllStayStored(run, i, j, name, pc.result, []);
    } else {
      AllStayStored(run, i, j, name, pc.copy, pc.rest);
    }
  }

  lemma NextCopiesStored(run: seq<Sys>, i: nat, j: nat, t: nat, name: string)
    requires IsRun(run) && i <= j && j + 1 < |run| && CopiesStored(run, i, j, t, name)
    ensures CopiesStored(run, i, j + 1, t, name)
  {
    var s, s' := run[j], run[j + 1];
    assert Follows(run, j + 1);
    if v, env :| CanStep(s, v) && s' == StepOf(s, v, env) {
      if v == t {
        CopyTakes(run, i, j, t, name, env);
      } else {
        StepShape(s, v, env);
        OtherStepsKeepCopies(run, i, j, t, name);
      }
    } else {
      var v: nat, call :| v !in s.calls && s' == Arrive(s, v, call);
      OtherStepsKeepCopies(run, i, j, t, name);
    }
  }

  lemma {:induction false} CopiesStayStored(run: seq<Sys>, i: nat, j: nat, t: nat, name: string)
    requires IsRun(run) && i <= j < |run| && CopiesStored(run, i, i, t, name)
    ensures CopiesStored(run, i, j, t, name)
    decreases j
  {
    if i < j {
      CopiesStayStored(run, i, j - 1, t, name);
      NextCopiesStored(run, i, j - 1, t, name);
    }
  }

  /** In every run, whatever Updates overlap it, each field of a Get's result was stored at some step of its copy. */
  lemma ResultWasStored(run: seq<Sys>, i: nat, j: nat, t: nat, name: string, f: Field)
    requires IsRun(run) && i <= j < |run| && CopiesFromTo(run, i, j, t, name)
    ensures WasStored(run, i, j, name, run[j].threads[t].result, f) && run[j].threads[t].result.name == name
  {
    InvAlways(run, i);
    assert HoldsOwn(run[i], run[i].calls[t], run[i].threads[t]);
    assert forall g: Field :: g in run[i].threads[t].rest by {
      forall g: Field ensures g in run[i].threads[t].rest {
        match g
        case KeyField =>
        case LabelsField =>
        case TimeField =>
      }
    }
    CopiesStayStored(run, i, j, t, name);
  }

  // ---- Each stored field was committed before, or is committed later -----------------------

  /** The field writes that an Update still has to make come from its own request. */
  predicate WritesOwn(call: Call, pc: Pc) {
    match pc
    case Merging(cfg, mask) => call == Update(cfg, mask)
    case Writing(_, todo) => call.Update? && WritesOnly(todo, call.cfg)
    case _ => true
  }

  lemma {:induction false} MaskWritesOwn(cfg: Config, paths: seq<string>)
    ensures WritesOnly(MaskWrites(cfg, paths), cfg)
  {
    if paths != [] {
      MaskWritesOwn(cfg, paths[..|paths| - 1]);
    }
  }

  lemma TurnWritesOwn(call: Call, pc: Pc, entry: Option<nat>, heap: seq<Config>, env: Env)
    requires AddressInHeap(heap, pc) && WritesOwn(call, pc)
    ensures WritesOwn(call, Turn(call, pc, entry, heap, env).1)
  {
    if pc.Merging? && pc.mask.Some? {
      MaskWritesOwn(pc.cfg, pc.mask.value);
    }
    if pc.Writing? && pc.todo != [] {
      assert forall w :: w in pc.todo[1..] ==> w in pc.todo;
    }
  }

  ghost predicate AllWriteOwn(s: Sys) {
    forall t :: t in s.threads && t in s.calls ==> WritesOwn(s.calls[t], s.threads[t])
  }

  lemma NextWritesOwn(s: Sys, s': Sys)
    requires s.threads.Keys == s.calls.Keys && AllWriteOwn(s) && Next(s, s')
    ensures AllWriteOwn(s')
  {
    if v, env :| CanStep(s, v) && s' == StepOf(s, v, env) {
      StepShape(s, v, env);
      TurnWritesOwn(s.calls[v], s.threads[v], Entry(s, s.calls[v].Name()), s.heap, env);
    }
  }

  lemma {:induction false} AlwaysWriteOwn(run: seq<Sys>, k: nat)
    requires IsRun(run) && k < |run|
    ensures AllWriteOwn(run[k])
  {
    if k > 0 {
      AlwaysWriteOwn(run, k - 1);
      InvAlways(run, k - 1);
      assert Follows(run, k);
      NextWritesOwn(run[k - 1], run[k]);
    }
  }

  /** The field has the value that the Update inside will leave in it. */
  predicate Settled(s: Sys, name: string, f: Field) {
    IsStored(s, name) && UpdateInside(s, name) && s.writer.value in s.threads &&
    match f
    case KeyField => StoredConfig(s, name).key == s.calls[s.writer.value].cfg.key
    case LabelsField => StoredConfig(s, name).labels == s.calls[s.writer.value].cfg.labels
    case TimeField => s.threads[s.writer.value].Installing? || s.threads[s.writer.value].Cloning?
  }

  /** A step leaves the field alone or settles it, and leaves it settled until the Update is out. */
  predicate Settles(s: Sys, s': Sys, name: string, f: Field)
    requires IsStored(s, name) && IsStored(s', name)
  {
    && (SameField(StoredConfig(s, name), StoredConfig(s', name), f) || Settled(s', name, f))
    && (Settled(s, name, f) ==>
          && SameField(StoredConfig(s, name), StoredConfig(s', name), f)
          && (Settled(s', name, f) || !UpdateInside(s', name)))
  }

  lemma WritingTurn(s: Sys, v: nat, env: Env)
    requires CanStep(s, v) && s.threads[v].Writing?
    ensures var pc, p := s.threads[v], s.threads[v].address;
            StepOf(s, v, env) ==
            if pc.todo == [] then
              s.(heap := s.heap[p := s.heap[p].(updateTime := Some(env.now))], threads := s.threads[v := Installing(p)])
            else
              s.(heap := s.heap[p := Apply(s.heap[p], pc.todo[0])], threads := s.threads[v := Writing(p, pc.todo[1..])])
  {
  }

  lemma WriterTurn(s: Sys, v: nat, env: Env, name: string)
    requires Inv(s) && CanStep(s, v) && IsStored(s, name) && s.threads[v].Writing? && s.calls[v].Name() == name
    ensures var s', pc := StepOf(s, v, env), s.threads[v];
            && s.writer == Some(v) && s.calls[v].Update? && s'.writer == Some(v) && s'.calls == s.calls && IsStored(s', name)
            && v in s'.threads
            && if pc.todo == [] then
                 s'.threads[v].Installing? && StoredConfig(s', name) == StoredConfig(s, name).(updateTime := Some(env.now))
               else s'.threads[v].Writing? && StoredConfig(s', name) == Apply(StoredConfig(s, name), pc.todo[0])
  {
    assert HoldsOwn(s, s.calls[v], s.threads[v]);
    WriterIsInside(s, v);
    WritingTurn(s, v, env);
  }

  lemma WriterSettles(s: Sys, v: nat, env: Env, name: string, f: Field)
    requires Inv(s) && AllWriteOwn(s) && CanStep(s, v) && IsStored(s, name)
    requires s.threads[v].Writing? && s.calls[v].Name() == name
    ensures IsStored(StepOf(s, v, env), name) && Settles(s, StepOf(s, v, env), name, f)
  {
    WriterTurn(s, v, env, name);
    assert WritesOwn(s.calls[v], s.threads[v]);
    assert s.threads[v].todo != [] ==> s.threads[v].todo[0] in s.threads[v].todo;
  }

  lemma LockPasses(s: Sys, v: nat, env: Env, u: nat)
    requires Inv(s) && CanStep(s, v) && s.writer == Some(u)
    ensures var s' := StepOf(s, v, env); s'.writer == Some(u) || (v == u && s'.writer == None)
  {
    var call := s.calls[v];
    TurnIsDisciplined(s, call, s.threads[v], env);
    WriterIsInside(s, v);
  }

  lemma CloningGoesOn(s: Sys, u: nat, env: Env)
    requires CanStep(s, u) && (s.threads[u].Installing? || s.threads[u].Cloning?)
    ensures var pc' := StepOf(s, u, env).threads[u]; pc'.Cloning? || (pc'.Returned? && !HoldsWrite(pc'))
  {
  }

  lemma SettledStays(s: Sys, s': Sys, v: nat, u: nat, name: string, f: Field)
    requires Leaves(s, s', v) && IsStored(s, name) && Stored(s', name, StoredConfig(s, name))
    requires s.writer == Some(u) && (s'.writer == Some(u) || s'.writer == None) && Settled(s, name, f)
    requires v == u && f == TimeField ==> s'.threads[u].Cloning? || s'.writer == None
    ensures Settled(s', name, f) || !UpdateInside(s', name)
  {
  }

  lemma WriterGoesOn(s: Sys, v: nat, env: Env, name: string, f: Field)
    requires Inv(s) && CanStep(s, v) && IsStored(s, name) && Settled(s, name, f)
    requires s.threads[v].Writing? ==> s.calls[v].Name() != name
    ensures var s', u := StepOf(s, v, env), s.writer.value;
            && (s'.writer == Some(u) || s'.writer == None)
            && (v == u && f == TimeField ==> v in s'.threads && (s'.threads[u].Cloning? || s'.writer == None))
  {
    var s', u := StepOf(s, v, env), s.writer.value;
    LockPasses(s, v, env, u);
    StepShape(s, v, env);
    StepKeepsInv(s, v, env);
    if v == u && f == TimeField {
      CloningGoesOn(s, u, env);
      WriterIsInside(s', u);
    }
  }

  lemma OthersSettle(s: Sys, v: nat, env: Env, name: string, f: Field)
    requires Inv(s) && CanStep(s, v) && IsStored(s, name)
    requires s.threads[v].Writing? ==> s.calls[v].Name() != name
    ensures IsStored(StepOf(s, v, env), name) && Settles(s, StepOf(s, v, env), name, f)
  {
    var s' := StepOf(s, v, env);
    StepLeaves(s, v, env);
    LeavesStored(s, s', v, name, StoredConfig(s, name));
    if Settled(s, name, f) {
      WriterGoesOn(s, v, env, name, f);
      SettledStays(s, s', v, s.writer.value, name, f);
    }
  }

  lemma NextSettles(s: Sys, s': Sys, name: string, f: Field)
    requires Inv(s) && AllWriteOwn(s) && Next(s, s') && IsStored(s, name)
    ensures IsStored(s', name) && Settles(s, s', name, f)
  {
    if v, env :| CanStep(s, v) && s' == StepOf(s, v, env) {
      if s.threads[v].Writing? && s.calls[v].Name() == name {
        WriterSettles(s, v, env, name, f);
      } else {
        OthersSettle(s, v, env, name, f);
      }
    } else {
      var v: nat, call :| v !in s.calls && s' == Arrive(s, v, call);
      ArrivalSettles(s, v, call, name, f);
    }
  }

  lemma ArrivalSettles(s: Sys, v: nat, call: Call, name: string, f: Field)
    requires Inv(s) && v !in s.calls && IsStored(s, name)
    ensures IsStored(Arrive(s, v, call), name) && Settles(s, Arrive(s, v, call), name, f)
  {
  }

  /** The field is that of a config committed between the two states. */
  ghost predicate FieldCommitted(run: seq<Sys>, i: nat, j: nat, name: string, c: Config, f: Field) {
    exists k :: i <= k <= j < |run| && IsStored(run[k], name) && !UpdateInside(run[k], name)
                && SameField(c, StoredConfig(run[k], name), f)
  }

  lemma FieldStaysCommitted(run: seq<Sys>, i: nat, j: nat, i': nat, j': nat, name: string, c: Config, c': Config, f: Field)
    requires FieldCommitted(run, i, j, name, c, f) && i' <= i && j <= j' < |run| && SameField(c', c, f)
    ensures FieldCommitted(run, i', j', name, c', f)
  {
    var k :| i <= k <= j && IsStored(run[k], name) && !UpdateInside(run[k], name)
             && SameField(c, StoredConfig(run[k], name), f);
  }

  lemma NextInRun(run: seq<Sys>, k: nat, name: string, f: Field)
    requires IsRun(run) && k + 1 < |run| && IsStored(run[k], name)
    ensures IsStored(run[k + 1], name) && Settles(run[k], run[k + 1], name, f)
  {
    InvAlways(run, k);
    AlwaysWriteOwn(run, k);
    assert Follows(run, k + 1);
    NextSettles(run[k], run[k + 1], name, f);
  }

  lemma {:induction false} CommittedBefore(run: seq<Sys>, i: nat, k: nat, name: string, f: Field)
    requires IsRun(run) && i <= k < |run| && IsStored(run[i], name) && !UpdateInside(run[i], name)
    ensures IsStored(run[k], name)
    ensures FieldCommitted(run, i, k, name, StoredConfig(run[k], name), f) || Settled(run[k], name, f)
    decreases k
  {
    if i < k {
      CommittedBefore(run, i, k - 1, name, f);
      NextInRun(run, k - 1, name, f);
      var before, now := StoredConfig(run[k - 1], name), StoredConfig(run[k], name);
      if FieldCommitted(run, i, k - 1, name, before, f) && SameField(now, before, f) {
        FieldStaysCommitted(run, i, k - 1, i, k, name, before, now, f);
      }
    }
  }

  lemma {:induction false} CommittedAfter(run: seq<Sys>, k: nat, j: nat, name: string, f: Field)
    requires IsRun(run) && k <= j < |run| && !UpdateInside(run[j], name) && Settled(run[k], name, f)
    ensures FieldCommitted(run, k, j, name, StoredConfig(run[k], name), f)
    decreases j - k
  {
    NextInRun(run, k, name, f);
    var now, next := StoredConfig(run[k], name), StoredConfig(run[k + 1], name);
    if Settled(run[k + 1], name, f) {
      CommittedAfter(run, k + 1, j, name, f);
      FieldStaysCommitted(run, k + 1, j, k, j, name, next, now, f);
    }
  }

  /**
   Whatever is stored at a step between two states with no Update inside, each of its fields is that of a config
   committed between them.
   */
  lemma StoredFieldIsCommitted(run: seq<Sys>, i: nat, k: nat, j: nat, name: string, f: Field)
    requires IsRun(run) && i <= k <= j < |run| && IsStored(run[i], name)
    requires !UpdateInside(run[i], name) && !UpdateInside(run[j], name)
    ensures IsStored(run[k], name) && FieldCommitted(run, i, j, name, StoredConfig(run[k], name), f)
  {
    CommittedBefore(run, i, k, name, f);
    var c := StoredConfig(run[k], name);
    if Settled(run[k], name, f) {
      CommittedAfter(run, k, j, name, f);
      FieldStaysCommitted(run, k, j, i, j, name, c, c, f);
    } else {
      FieldStaysCommitted(run, i, k, i, j, name, c, c, f);
    }
  }

  /** So each field of a Get's result is that of a config committed around its copy, whatever Updates overlap it. */
  lemma ResultIsCommitted(run: seq<Sys>, first: nat, i: nat, j: nat, last: nat, t: nat, name: string, f: Field)
    requires IsRun(run) && first <= i <= j <= last < |run| && CopiesFromTo(run, i, j, t, name)
    requires IsStored(run[first], name) && !UpdateInside(run[first], name) && !UpdateInside(run[last], name)
    ensures FieldCommitted(run, first, last, name, run[j].threads[t].result, f) && run[j].threads[t].result.name == name
  {
    ResultWasStored(run, i, j, t, name, f);
    var result := run[j].threads[t].result;
    var k :| i <= k <= j && IsStored(run[k], name) && SameField(result, StoredConfig(run[k], name), f);
    StoredFieldIsCommitted(run, first, k, last, name, f);
    FieldStaysCommitted(run, first, last, first, last, name, StoredConfig(run[k], name), result, f);
  }

  // ---- Closed sets of configs --------------------------------------------------------------

  /** The key of one config, the labels of another and the update time of a third. */
  function Mix(a: Config, b: Config, c: Config): Config {
    Config(a.name, a.key, b.labels, c.updateTime)
  }

  ghost predicate Closed(cs: set<Config>) {
    forall a, b, c :: a in cs && b in cs && c in cs ==> Mix(a, b, c) in cs
  }

  /** All configs that the name holds from state first to state last, with no Update of it inside, are in the set. */
  ghost predicate CommitsOnly(run: seq<Sys>, first: nat, last: nat, name: string, cs: set<Config>) {
    forall k :: first <= k <= last < |run| && IsStored(run[k], name) && !UpdateInside(run[k], name) ==>
                  StoredConfig(run[k], name) in cs
  }

  /** If they are closed under mixing, a Get returns one of them, whatever Updates overlap it. */
  lemma ClosedIsWhole(run: seq<Sys>, first: nat, i: nat, j: nat, last: nat, t: nat, name: string, cs: set<Config>)
    requires IsRun(run) && first <= i <= j <= last < |run| && CopiesFromTo(run, i, j, t, name)
    requires IsStored(run[first], name) && !UpdateInside(run[first], name) && !UpdateInside(run[last], name)
    requires CommitsOnly(run, first, last, name, cs) && Closed(cs)
    ensures run[j].threads[t].result in cs
  {
    var result := run[j].threads[t].result;
    var a := CommittedWith(run, first, i, j, last, t, name, cs, KeyField);
    var b := CommittedWith(run, first, i, j, last, t, name, cs, LabelsField);
    var c := CommittedWith(run, first, i, j, last, t, name, cs, TimeField);
    assert result == Mix(a, b, c);
  }

  lemma CommittedWith(run: seq<Sys>, first: nat, i: nat, j: nat, last: nat, t: nat, name: string, cs: set<Config>, f: Field)
    returns (c: Config)
    requires IsRun(run) && first <= i <= j <= last < |run| && CopiesFromTo(run, i, j, t, name)
    requires IsStored(run[first], name) && !UpdateInside(run[first], name) && !UpdateInside(run[last], name)
    requires CommitsOnly(run, first, last, name, cs)
    ensures c in cs && c.name == name == run[j].threads[t].result.name && SameField(run[j].threads[t].result, c, f)
  {
    ResultIsCommitted(run, first, i, j, last, t, name, f);
    var k :| first <= k <= last && IsStored(run[k], name) && !UpdateInside(run[k], name)
             && SameField(run[j].threads[t].result, StoredConfig(run[k], name), f);
    c := StoredConfig(run[k], name);
  }

  /** Two configs are closed under mixing exactly when they do not differ in two fields. */
  lemma PairIsClosedIff(before: Config, after: Config)
    requires before.name == after.name
    ensures Closed({before, after}) <==> !DifferTwice(before, after)
  {
    if DifferTwice(before, after) {
      var key := Mix(before, after, after);
      var labels := Mix(after, before, after);
      assert before in {before, after} && after in {before, after};
      assert key !in {before, after} || labels !in {before, after};
    }
  }
}
