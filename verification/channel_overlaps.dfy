/**
 Which configs a Get can return when at most one Update of the name writes while it copies: the stored one when none
 does, and the mixtures of the old and the new config when one does. Any number of Updates is in channel_mixtures.dfy.
 */
module ChannelOverlaps {
  import opened ChannelConfig
  import opened FieldMasks
  import opened Wrappers

  // ---- A Get while nothing is written ------------------------------------------------------

  predicate Stored(s: Sys, name: string, c: Config) {
    name in s.configs && PointsTo(s, name, s.configs[name]) && s.heap[s.configs[name]] == c
  }

  /** An Update of the name is inside the write lock. */
  predicate UpdateInside(s: Sys, name: string) {
    s.writer.Some? && s.writer.value in s.calls && s.calls[s.writer.value].Update? && s.calls[s.writer.value].Name() == name
  }

  /** It is at its field writes. */
  predicate Storing(s: Sys, name: string) {
    UpdateInside(s, name) && s.writer.value in s.threads && s.threads[s.writer.value].Writing?
  }

  /** The name holds c, and what the Get has copied or returned is c's. */
  predicate Tracks(s: Sys, t: nat, name: string, c: Config) {
    Stored(s, name, c) &&
    (t in s.threads && t in s.calls && s.calls[t] == Get(name) ==>
       match s.threads[t]
       case Cloning(_, _, rest, copy) => CopiedFrom(copy, rest, c)
       case Returned(result) => result == c
       case _ => true)
  }

  /** What v's step leaves alone: the other threads, entries once present, and all objects unless v is writing its own. */
  ghost predicate Leaves(s: Sys, s': Sys, v: nat) {
    && v in s.threads && v in s.calls && s'.calls == s.calls
    && v in s'.threads && s'.threads == s.threads[v := s'.threads[v]]
    && Preserves(s, s', s.calls[v].Name(), s.threads[v].Writing?)
  }

  lemma TurnStores(call: Call, pc: Pc, entry: Option<nat>, heap: seq<Config>, env: Env)
    requires AddressInHeap(heap, pc)
    ensures Turn(call, pc, entry, heap, env).0.Store? <==> pc.Writing?
  {
  }

  lemma StepPreserves(s: Sys, v: nat, env: Env)
    requires EntriesMatch(s) && CanStep(s, v) && HoldsOwn(s, s.calls[v], s.threads[v])
    ensures Preserves(s, StepOf(s, v, env), s.calls[v].Name(), s.threads[v].Writing?)
  {
    var call := s.calls[v];
    var (e, _) := Turn(call, s.threads[v], Entry(s, call.Name()), s.heap, env);
    TurnStores(call, s.threads[v], Entry(s, call.Name()), s.heap, env);
    TurnConcernsOwn(s, call, s.threads[v], env);
    EffectPreserves(s, v, call.Name(), e);
  }

  lemma StepLeaves(s: Sys, v: nat, env: Env)
    requires Inv(s) && CanStep(s, v)
    ensures Leaves(s, StepOf(s, v, env), v)
  {
    assert HoldsOwn(s, s.calls[v], s.threads[v]);
    StepPreserves(s, v, env);
    StepShape(s, v, env);
  }

  lemma LeavesStored(s: Sys, s': Sys, v: nat, name: string, c: Config)
    requires Leaves(s, s', v) && Stored(s, name, c) && (s.threads[v].Writing? ==> s.calls[v].Name() != name)
    ensures Stored(s', name, c)
  {
  }

  lemma WriterIsInside(s: Sys, v: nat)
    requires Inv(s) && v in s.threads && v in s.calls
    ensures s.writer == Some(v) <==> HoldsWrite(s.threads[v])
    ensures s.threads[v].Writing? ==> s.calls[v].Update?
  {
    assert HoldsOwn(s, s.calls[v], s.threads[v]);
  }

  lemma StepStores(s: Sys, u: nat, env: Env, name: string, c: Config)
    requires Inv(s) && CanStep(s, u) && Stored(s, name, c) && !Storing(s, name)
    ensures Stored(StepOf(s, u, env), name, c)
  {
    StepLeaves(s, u, env);
    WriterIsInside(s, u);
    LeavesStored(s, StepOf(s, u, env), u, name, c);
  }

  lemma OwnStepTracks(s: Sys, t: nat, env: Env, name: string, c: Config)
    requires Inv(s) && CanStep(s, t) && s.calls[t] == Get(name) && Tracks(s, t, name, c)
    ensures var pc' := StepOf(s, t, env).threads[t];
            && (pc'.Cloning? ==> CopiedFrom(pc'.copy, pc'.rest, c)) && (pc'.Returned? ==> pc'.result == c)
  {
    var pc := s.threads[t];
    assert HoldsOwn(s, s.calls[t], pc);
    if pc.Cloning? && pc.rest != [] {
      CopyGoesOn(pc.copy, pc.rest, c);
    }
  }

  lemma StepTracks(s: Sys, u: nat, env: Env, t: nat, name: string, c: Config)
    requires Inv(s) && CanStep(s, u) && Tracks(s, t, name, c) && !Storing(s, name)
    ensures Tracks(StepOf(s, u, env), t, name, c)
  {
    StepStores(s, u, env, name, c);
    StepShape(s, u, env);
    if u == t && s.calls[t] == Get(name) {
      OwnStepTracks(s, t, env, name, c);
    }
  }

  lemma NextTracks(s: Sys, s': Sys, t: nat, name: string, c: Config)
    requires Inv(s) && Next(s, s') && Tracks(s, t, name, c) && !Storing(s, name)
    ensures Tracks(s', t, name, c)
  {
    if u, env :| CanStep(s, u) && s' == StepOf(s, u, env) {
      StepTracks(s, u, env, t, name, c);
    }
  }

  lemma {:induction false} TracksStays(run: seq<Sys>, i: nat, j: nat, t: nat, name: string, c: Config)
    requires IsRun(run) && i <= j < |run| && Tracks(run[i], t, name, c)
    requires forall k :: i <= k < j ==> !Storing(run[k], name)
    ensures Tracks(run[j], t, name, c)
    decreases j
  {
    if i < j {
      TracksStays(run, i, j - 1, t, name, c);
      InvAlways(run, j - 1);
      assert Follows(run, j);
      NextTracks(run[j - 1], run[j], t, name, c);
    }
  }

  /** The Get has just come to its copy in state i, and has returned in state j. */
  predicate CopiesFromTo(run: seq<Sys>, i: nat, j: nat, t: nat, name: string)
    requires i <= j < |run|
  {
    && t in run[i].threads && run[i].threads[t].Cloning? && IsOrder(run[i].threads[t].rest)
    && t in run[j].threads && run[j].threads[t].Returned?
    && t in run[i].calls && t in run[j].calls && run[i].calls[t] == run[j].calls[t] == Get(name)
  }

  lemma CopyTracks(run: seq<Sys>, i: nat, j: nat, t: nat, name: string) returns (c: Config)
    requires IsRun(run) && i <= j < |run| && CopiesFromTo(run, i, j, t, name)
    ensures Tracks(run[i], t, name, c)
  {
    InvAlways(run, i);
    var s := run[i];
    assert HoldsOwn(s, s.calls[t], s.threads[t]);
    c := s.heap[s.threads[t].address];
  }

  /**
   A Get, on either path, returns exactly the config that is stored throughout its copy, if no Update of the name is at
   its field writes before the copy ends. Other names' Updates, and earlier and later ones of the name, do not matter.
   */
  lemma SteadyGetIsCurrent(run: seq<Sys>, i: nat, j: nat, t: nat, name: string)
    requires IsRun(run) && i <= j < |run| && CopiesFromTo(run, i, j, t, name)
    requires forall k :: i <= k < j ==> !Storing(run[k], name)
    ensures forall k :: i <= k <= j ==> Stored(run[k], name, run[j].threads[t].result)
  {
    var c := CopyTracks(run, i, j, t, name);
    forall k | i <= k <= j ensures Tracks(run[k], t, name, c) {
      TracksStays(run, i, k, t, name, c);
    }
  }

  lemma LastTurn(s: Sys, u: nat, env: Env)
    requires Inv(s) && CanStep(s, u) && s.threads[u].Cloning? && s.threads[u].locked
    ensures var s' := StepOf(s, u, env);
            s'.threads[u].Returned? ==> Stored(s', s.calls[u].Name(), s'.threads[u].result)
  {
    assert HoldsOwn(s, s.calls[u], s.threads[u]);
    assert Faithful(s, s.calls[u].Name(), s.threads[u], Quiet(s, s.calls[u].Name()));
  }

  lemma ReturnedIsStored(s: Sys, s': Sys, u: nat)
    requires Inv(s) && Next(s, s') && u in s.threads && u in s.calls && s.threads[u].Cloning? && s.threads[u].locked
    ensures u in s'.threads && (s'.threads[u].Returned? ==> Stored(s', s.calls[u].Name(), s'.threads[u].result))
  {
    if v, env :| CanStep(s, v) && s' == StepOf(s, v, env) {
      StepShape(s, v, env);
      if v == u {
        LastTurn(s, u, env);
      }
    }
  }

  /** A Get that arrives after an Update has returned, and whose time no other Update of the name is writing, returns what it returned. */
  lemma GetAfterUpdate(run: seq<Sys>, i: nat, j: nat, u: nat, t: nat, name: string)
    requires IsRun(run) && 0 < i <= j < |run| && u in run[i - 1].threads && u in run[i - 1].calls && u in run[i].threads
    requires run[i - 1].calls[u].Name() == name && run[i - 1].threads[u].Cloning? && run[i - 1].threads[u].locked
    requires run[i].threads[u].Returned?
    requires t !in run[i].calls && t in run[j].calls && run[j].calls[t] == Get(name)
    requires t in run[j].threads && run[j].threads[t].Returned?
    requires forall k :: i <= k < j ==> !Storing(run[k], name)
    ensures run[j].threads[t] == run[i].threads[u]
  {
    InvAlways(run, i - 1);
    assert Follows(run, i);
    ReturnedIsStored(run[i - 1], run[i], u);
    TracksStays(run, i, j, t, name, run[i].threads[u].result);
  }

  // ---- A Get while one Update writes -------------------------------------------------------

  /** Field by field one or the other. */
  predicate Among(c: Config, before: Config, after: Config) {
    && c.name == before.name && c.key in {before.key, after.key} && c.labels in {before.labels, after.labels}
    && c.updateTime in {before.updateTime, after.updateTime}
  }

  predicate CopiedAmong(copy: Config, rest: seq<Field>, before: Config, after: Config) {
    && copy.name == before.name && (KeyField !in rest ==> copy.key in {before.key, after.key})
    && (LabelsField !in rest ==> copy.labels in {before.labels, after.labels})
    && (TimeField !in rest ==> copy.updateTime in {before.updateTime, after.updateTime})
  }

  predicate WritesOnly(todo: seq<FieldWrite>, c: Config) {
    forall w :: w in todo ==> w == SetKey(c.key) || w == SetLabels(c.labels)
  }

  /** The Update, past its lookup, is turning the one config into the other. */
  predicate Turning(s: Sys, u: nat, name: string, before: Config, after: Config) {
    && u in s.threads && u in s.calls && s.calls[u].Update? && s.calls[u].Name() == name
    && match s.threads[u]
       case Writing(p, todo) =>
         && PointsTo(s, name, p) && Among(s.heap[p], before, after) && s.heap[p].updateTime == before.updateTime
         && WritesOnly(todo, after) && ApplyAll(s.heap[p], todo) == after.(updateTime := before.updateTime)
       case Installing(p) => Stored(s, name, after) && p == s.configs[name]
       case Cloning(p, locked, _, _) => locked && Stored(s, name, after) && p == s.configs[name]
       case Returned(_) => Stored(s, name, after)
       case _ => false
  }

  lemma TurningIsAmong(s: Sys, u: nat, name: string, before: Config, after: Config)
    requires Turning(s, u, name, before, after) && before.name == after.name
    ensures name in s.configs && PointsTo(s, name, s.configs[name]) && Among(s.heap[s.configs[name]], before, after)
  {
  }

  lemma OwnStepTurns(s: Sys, u: nat, env: Env, name: string, before: Config, after: Config)
    requires CanStep(s, u) && Turning(s, u, name, before, after)
    requires StepOf(s, u, env).threads[u].Installing? ==> Some(env.now) == after.updateTime
    ensures Turning(StepOf(s, u, env), u, name, before, after)
  {
    var pc := s.threads[u];
    if pc.Writing? && pc.todo != [] {
      assert pc.todo[0] in pc.todo && forall w :: w in pc.todo[1..] ==> w in pc.todo;
    }
  }

  lemma OthersLeaveTurning(s: Sys, s': Sys, v: nat, u: nat, name: string, before: Config, after: Config)
    requires Leaves(s, s', v) && v != u && Turning(s, u, name, before, after)
    requires s.threads[v].Writing? ==> s.calls[v].Name() != name
    ensures Turning(s', u, name, before, after)
  {
  }

  lemma OtherStepTurns(s: Sys, v: nat, env: Env, u: nat, name: string, before: Config, after: Config)
    requires Inv(s) && CanStep(s, v) && v != u && Turning(s, u, name, before, after)
    requires Storing(s, name) ==> s.writer == Some(u)
    ensures Turning(StepOf(s, v, env), u, name, before, after)
  {
    StepLeaves(s, v, env);
    WriterIsInside(s, v);
    OthersLeaveTurning(s, StepOf(s, v, env), v, u, name, before, after);
  }

  /** What an Update has installed is what it returns. */
  predicate Installed(s: Sys, u: nat, c: Config) {
    u in s.threads && u in s.calls &&
    match s.threads[u]
    case Installing(p) => p < |s.heap| && s.heap[p] == c
    case Cloning(p, locked, _, _) => locked && p < |s.heap| && s.heap[p] == c
    case Returned(result) => result == c
    case _ => false
  }

  lemma OwnStepInstalled(s: Sys, u: nat, env: Env, c: Config)
    requires Inv(s) && CanStep(s, u) && Installed(s, u, c)
    ensures Installed(StepOf(s, u, env), u, c)
  {
    assert Faithful(s, s.calls[u].Name(), s.threads[u], Quiet(s, s.calls[u].Name()));
  }

  lemma OthersLeaveInstalled(s: Sys, s': Sys, v: nat, u: nat, c: Config)
    requires Leaves(s, s', v) && v != u && Installed(s, u, c) && (s.threads[v].Writing? ==> s.threads[u].Returned?)
    ensures Installed(s', u, c)
  {
  }

  lemma OtherStepInstalled(s: Sys, v: nat, env: Env, u: nat, c: Config)
    requires Inv(s) && CanStep(s, v) && v != u && Installed(s, u, c)
    ensures Installed(StepOf(s, v, env), u, c)
  {
    StepLeaves(s, v, env);
    WriterIsInside(s, v);
    WriterIsInside(s, u);
    OthersLeaveInstalled(s, StepOf(s, v, env), v, u, c);
  }

  lemma NextInstalled(s: Sys, s': Sys, u: nat, c: Config)
    requires Inv(s) && Next(s, s') && Installed(s, u, c)
    ensures Installed(s', u, c)
  {
    if v, env :| CanStep(s, v) && s' == StepOf(s, v, env) {
      if v == u {
        OwnStepInstalled(s, u, env, c);
      } else {
        OtherStepInstalled(s, v, env, u, c);
      }
    }
  }

  lemma {:induction false} InstalledStays(run: seq<Sys>, i: nat, j: nat, u: nat, c: Config)
    requires IsRun(run) && i <= j < |run| && Installed(run[i], u, c)
    ensures Installed(run[j], u, c)
    decreases j
  {
    if i < j {
      InstalledStays(run, i, j - 1, u, c);
      InvAlways(run, j - 1);
      assert Follows(run, j);
      NextInstalled(run[j - 1], run[j], u, c);
    }
  }

  lemma InstalledIsFinal(run: seq<Sys>, j: nat, n: nat, u: nat, c: Config)
    requires IsRun(run) && j < |run| && n < |run| && u in run[j].calls && u in run[j].threads && run[j].threads[u].Installing?
    requires u in run[n].threads && u in run[n].calls && run[n].threads[u] == Returned(c)
    ensures run[j].threads[u].address < |run[j].heap| && run[j].heap[run[j].threads[u].address] == c
  {
    InvAlways(run, j);
    assert HoldsOwn(run[j], run[j].calls[u], run[j].threads[u]);
    if n < j {
      EntriesStay(run, n, j);
    } else {
      InstalledStays(run, j, n, u, run[j].heap[run[j].threads[u].address]);
    }
  }

  lemma StampIsInstalled(s: Sys, u: nat, env: Env)
    requires CanStep(s, u) && s.threads[u].Writing?
    ensures var s' := StepOf(s, u, env);
            s'.threads[u].Installing? ==>
              s'.threads[u].address < |s'.heap| && s'.heap[s'.threads[u].address].updateTime == Some(env.now)
  {
  }

  lemma OwnTurn(s: Sys, u: nat, env: Env, name: string, before: Config, after: Config)
    requires CanStep(s, u) && Turning(s, u, name, before, after)
    requires var s' := StepOf(s, u, env);
             s'.threads[u].Installing? ==> s'.threads[u].address < |s'.heap| && s'.heap[s'.threads[u].address] == after
    ensures Turning(StepOf(s, u, env), u, name, before, after)
  {
    if s.threads[u].Writing? {
      StampIsInstalled(s, u, env);
    }
    OwnStepTurns(s, u, env, name, before, after);
  }

  lemma NextTurns(s: Sys, s': Sys, u: nat, name: string, before: Config, after: Config)
    requires Inv(s) && Next(s, s') && Turning(s, u, name, before, after) && (Storing(s, name) ==> s.writer == Some(u))
    requires u in s'.threads && s'.threads[u].Installing? ==>
               s'.threads[u].address < |s'.heap| && s'.heap[s'.threads[u].address] == after
    ensures Turning(s', u, name, before, after)
  {
    if v, env :| CanStep(s, v) && s' == StepOf(s, v, env) {
      if v == u {
        OwnTurn(s, u, env, name, before, after);
      } else {
        OtherStepTurns(s, v, env, u, name, before, after);
      }
    }
  }

  lemma NextKeepsCalls(s: Sys, s': Sys, u: nat)
    requires Next(s, s') && u in s.calls
    ensures u in s'.calls && s'.calls[u] == s.calls[u]
  {
    if v, env :| CanStep(s, v) && s' == StepOf(s, v, env) {
      StepShape(s, v, env);
    }
  }

  lemma TurnsOnce(run: seq<Sys>, j: nat, n: nat, u: nat, name: string, before: Config, after: Config)
    requires IsRun(run) && 0 < j < |run| && n < |run| && Turning(run[j - 1], u, name, before, after)
    requires u in run[n].threads && u in run[n].calls && run[n].threads[u] == Returned(after)
    requires Storing(run[j - 1], name) ==> run[j - 1].writer == Some(u)
    ensures Turning(run[j], u, name, before, after)
  {
    var s, s' := run[j - 1], run[j];
    InvAlways(run, j - 1);
    assert Follows(run, j);
    NextKeepsCalls(s, s', u);
    if u in s'.threads && s'.threads[u].Installing? {
      InstalledIsFinal(run, j, n, u, after);
    }
    NextTurns(s, s', u, name, before, after);
  }

  lemma {:induction false} TurningStays(run: seq<Sys>, i: nat, j: nat, n: nat, u: nat, name: string, before: Config, after: Config)
    requires IsRun(run) && i <= j < |run| && n < |run| && Turning(run[i], u, name, before, after)
    requires u in run[n].threads && u in run[n].calls && run[n].threads[u] == Returned(after)
    requires forall k :: i <= k < j && Storing(run[k], name) ==> run[k].writer == Some(u)
    ensures Turning(run[j], u, name, before, after)
    decreases j
  {
    if i < j {
      TurningStays(run, i, j - 1, n, u, name, before, after);
      TurnsOnce(run, j, n, u, name, before, after);
    }
  }

  /** What the Get has copied or returned is field by field of the one config or the other. */
  predicate CopiesAmong(s: Sys, t: nat, name: string, before: Config, after: Config) {
    t in s.threads && t in s.calls && s.calls[t] == Get(name) ==>
      match s.threads[t]
      case Cloning(_, _, rest, copy) => CopiedAmong(copy, rest, before, after)
      case Returned(result) => Among(result, before, after)
      case _ => true
  }

  lemma CopyGoesOnAmong(copy: Config, rest: seq<Field>, stored: Config, before: Config, after: Config)
    requires rest != [] && CopiedAmong(copy, rest, before, after) && Among(stored, before, after)
    ensures CopiedAmong(CopyField(copy, rest[0], stored), rest[1..], before, after)
  {
    assert forall f :: f in rest ==> f == rest[0] || f in rest[1..];
  }

  lemma OwnStepCopiesAmong(s: Sys, t: nat, env: Env, name: string, before: Config, after: Config)
    requires Inv(s) && CanStep(s, t) && CopiesAmong(s, t, name, before, after) && s.calls[t] == Get(name)
    requires name in s.configs && PointsTo(s, name, s.configs[name]) && Among(s.heap[s.configs[name]], before, after)
    ensures CopiesAmong(StepOf(s, t, env), t, name, before, after)
  {
    var pc := s.threads[t];
    assert HoldsOwn(s, s.calls[t], pc);
    StepShape(s, t, env);
    if pc.Cloning? && pc.rest != [] {
      CopyGoesOnAmong(pc.copy, pc.rest, s.heap[pc.address], before, after);
    }
  }

  lemma StepCopiesAmong(s: Sys, v: nat, env: Env, t: nat, name: string, before: Config, after: Config)
    requires Inv(s) && CanStep(s, v) && CopiesAmong(s, t, name, before, after)
    requires name in s.configs && PointsTo(s, name, s.configs[name]) && Among(s.heap[s.configs[name]], before, after)
    ensures CopiesAmong(StepOf(s, v, env), t, name, before, after)
  {
    StepShape(s, v, env);
    if v == t && s.calls[t] == Get(name) {
      OwnStepCopiesAmong(s, t, env, name, before, after);
    }
  }

  lemma NextCopiesAmong(s: Sys, s': Sys, t: nat, name: string, before: Config, after: Config)
    requires Inv(s) && Next(s, s') && CopiesAmong(s, t, name, before, after)
    requires name in s.configs && PointsTo(s, name, s.configs[name]) && Among(s.heap[s.configs[name]], before, after)
    ensures CopiesAmong(s', t, name, before, after)
  {
    if v, env :| CanStep(s, v) && s' == StepOf(s, v, env) {
      StepCopiesAmong(s, v, env, t, name, before, after);
    }
  }

  lemma {:induction false} CopiesStayAmong(run: seq<Sys>, i: nat, j: nat, n: nat, t: nat, u: nat, name: string, before: Config, after: Config)
    requires IsRun(run) && i <= j < |run| && n < |run| && Turning(run[i], u, name, before, after) && before.name == after.name
    requires u in run[n].threads && u in run[n].calls && run[n].threads[u] == Returned(after)
    requires forall k :: i <= k < j && Storing(run[k], name) ==> run[k].writer == Some(u)
    requires CopiesAmong(run[i], t, name, before, after)
    ensures CopiesAmong(run[j], t, name, before, after)
    decreases j
  {
    if i < j {
      CopiesStayAmong(run, i, j - 1, n, t, u, name, before, after);
      TurningStays(run, i, j - 1, n, u, name, before, after);
      TurningIsAmong(run[j - 1], u, name, before, after);
      InvAlways(run, j - 1);
      assert Follows(run, j);
      NextCopiesAmong(run[j - 1], run[j], t, name, before, after);
    }
  }

  // ---- The overlap of one Get and one Update -----------------------------------------------

  /**
   The Get copies from state i to state j. The Update enters at state m, where the name holds the old config, and has
   returned the new one at state n. It enters during the copy or is inside when the copy starts, and no other Update of
   the name writes during the copy.
   */
  ghost predicate Overlaps(run: seq<Sys>, i: nat, j: nat, m: nat, n: nat, t: nat, u: nat, name: string, before: Config, after: Config) {
    && IsRun(run) && i <= j < |run| && m + 1 < |run| && n < |run| && CopiesFromTo(run, i, j, t, name)
    && u in run[m].threads && u in run[m].calls && run[m].threads[u].Merging? && run[m].calls[u].Name() == name
    && u in run[m + 1].threads && run[m + 1].threads[u].Writing? && Stored(run[m], name, before)
    && u in run[n].threads && u in run[n].calls && run[n].threads[u] == Returned(after)
    && (i <= m < j || (m < i && u in run[i].threads && HoldsWrite(run[i].threads[u])))
    && forall k :: i <= k < j && Storing(run[k], name) ==> run[k].writer == Some(u)
  }

  lemma PathWritesOnly(stored: Config, cfg: Config, mask: FieldMask, path: string)
    requires mask.Some? && path in mask.value
    ensures WritesOnly(PathWrites(cfg, path), Merged(stored, cfg, mask))
  {
  }

  lemma {:induction false} MaskWritesOnly(stored: Config, cfg: Config, mask: FieldMask, k: nat)
    requires mask.Some? && k <= |mask.value|
    ensures WritesOnly(MaskWrites(cfg, mask.value[..k]), Merged(stored, cfg, mask))
  {
    if k > 0 {
      MaskWritesOnly(stored, cfg, mask, k - 1);
      PathWritesOnly(stored, cfg, mask, mask.value[k - 1]);
      assert mask.value[..k][..k - 1] == mask.value[..k - 1];
    }
  }

  lemma WritesOfOnly(stored: Config, cfg: Config, mask: FieldMask)
    ensures WritesOnly(WritesOf(cfg, mask), Merged(stored, cfg, mask))
  {
    if mask.Some? {
      MaskWritesOnly(stored, cfg, mask, |mask.value|);
      assert mask.value[..|mask.value|] == mask.value;
    }
  }

  /** From the Update's first field write on, it is turning the old config into the one it will return. */
  lemma EntryTurns(run: seq<Sys>, m: nat, n: nat, u: nat, name: string, before: Config, after: Config)
    requires IsRun(run) && m + 1 < |run| && n < |run| && Stored(run[m], name, before)
    requires u in run[m].threads && u in run[m].calls && run[m].threads[u].Merging? && run[m].calls[u].Name() == name
    requires u in run[m + 1].threads && run[m + 1].threads[u].Writing?
    requires u in run[n].threads && u in run[n].calls && run[n].threads[u] == Returned(after)
    ensures Turning(run[m + 1], u, name, before, after) && Stored(run[m + 1], name, before) && after.name == before.name
  {
    var s, s', pc := run[m], run[m + 1], run[m].threads[u];
    InvAlways(run, m);
    assert HoldsOwn(s, s.calls[u], pc);
    assert Follows(run, m + 1);
    EntrySteps(s, s', u);
    var env :| CanStep(s, u) && s' == StepOf(s, u, env);
    UpdateMergesInto(run, m, n, u, env, after);
    WritesMerge(before, pc.cfg, pc.mask);
    WritesOfOnly(before, pc.cfg, pc.mask);
  }

  lemma EntrySteps(s: Sys, s': Sys, u: nat)
    requires Inv(s) && Next(s, s') && u in s.threads && u in s.calls && s.threads[u].Merging?
    requires u in s'.threads && s'.threads[u].Writing?
    ensures exists env :: CanStep(s, u) && s' == StepOf(s, u, env)
  {
    if v, env :| CanStep(s, v) && s' == StepOf(s, v, env) {
      StepShape(s, v, env);
    }
  }

  lemma UpdateMergesInto(run: seq<Sys>, m: nat, n: nat, u: nat, env: Env, after: Config)
    requires IsRun(run) && m + 1 < |run| && n < |run| && CanStep(run[m], u) && run[m + 1] == StepOf(run[m], u, env)
    requires run[m].threads[u].Merging?
    requires u in run[n].threads && u in run[n].calls && run[n].threads[u] == Returned(after)
    ensures var s, pc := run[m], run[m].threads[u];
            && (pc.cfg.name in s.configs ==> s.configs[pc.cfg.name] < |s.heap|)
            && SameButTime(after, Merged(Before(s, pc.cfg.name), pc.cfg, pc.mask))
  {
    if n <= m {
      EntriesStay(run, n, m);
    } else {
      UpdateReturnsMerge(run, m, n, u, env);
    }
  }

  /** At its field writes or past them, under the lock until it is done. */
  predicate Past(pc: Pc) {
    pc.Writing? || pc.Installing? || (pc.Cloning? && pc.locked) || Done(pc)
  }

  predicate Done(pc: Pc) {
    pc.Returned? || pc.Failed?
  }

  predicate Monotone(s: Sys, s': Sys, u: nat) {
    u in s.threads ==>
      u in s'.threads && (Past(s.threads[u]) ==> Past(s'.threads[u])) && (Done(s.threads[u]) ==> Done(s'.threads[u]))
  }

  lemma TurnIsMonotone(call: Call, pc: Pc, entry: Option<nat>, heap: seq<Config>, env: Env)
    requires AddressInHeap(heap, pc)
    ensures var pc' := Turn(call, pc, entry, heap, env).1; (Past(pc) ==> Past(pc')) && (Done(pc) ==> Done(pc'))
  {
  }

  lemma NextIsMonotone(s: Sys, s': Sys, u: nat)
    requires Inv(s) && Next(s, s')
    ensures Monotone(s, s', u)
  {
    if v, env :| CanStep(s, v) && s' == StepOf(s, v, env) {
      StepShape(s, v, env);
      TurnIsMonotone(s.calls[v], s.threads[v], Entry(s, s.calls[v].Name()), s.heap, env);
    }
  }

  lemma {:induction false} RunIsMonotone(run: seq<Sys>, i: nat, j: nat, u: nat)
    requires IsRun(run) && i <= j < |run|
    ensures Monotone(run[i], run[j], u)
    decreases j
  {
    if i < j {
      RunIsMonotone(run, i, j - 1, u);
      InvAlways(run, j - 1);
      assert Follows(run, j);
      NextIsMonotone(run[j - 1], run[j], u);
    }
  }

  /** Until the Update enters, nothing writes, so what the Get has copied is the old config's. */
  lemma EntersLater(run: seq<Sys>, i: nat, j: nat, m: nat, n: nat, t: nat, u: nat, name: string, before: Config, after: Config)
    requires Overlaps(run, i, j, m, n, t, u, name, before, after) && i <= m
    ensures CopiesAmong(run[m + 1], t, name, before, after)
  {
    var c := CopyTracks(run, i, j, t, name);
    forall k | i <= k < m + 1 ensures !Storing(run[k], name) {
      RunIsMonotone(run, k, m, u);
    }
    TracksStays(run, i, m, t, name, c);
    TracksStays(run, i, m + 1, t, name, c);
  }

  /** An Update that is inside when the copy starts has been inside, and alone, since it entered. */
  lemma EntersEarlier(run: seq<Sys>, i: nat, j: nat, m: nat, n: nat, t: nat, u: nat, name: string, before: Config, after: Config)
    requires Overlaps(run, i, j, m, n, t, u, name, before, after) && m < i
    ensures Turning(run[i], u, name, before, after) && CopiesAmong(run[i], t, name, before, after)
  {
    EntryTurns(run, m, n, u, name, before, after);
    forall k | m + 1 <= k < i ensures Storing(run[k], name) ==> run[k].writer == Some(u) {
      RunIsMonotone(run, m + 1, k, u);
      RunIsMonotone(run, k, i, u);
      InvAlways(run, k);
      WriterIsInside(run[k], u);
    }
    TurningStays(run, m + 1, i, n, u, name, before, after);
    InvAlways(run, i);
    assert HoldsOwn(run[i], run[i].calls[t], run[i].threads[t]);
  }

  /** A Get that overlaps this one Update only returns, field by field, what was stored before it or what it returned. */
  lemma OverlapReturnsMixture(run: seq<Sys>, i: nat, j: nat, m: nat, n: nat, t: nat, u: nat, name: string, before: Config, after: Config)
    requires Overlaps(run, i, j, m, n, t, u, name, before, after)
    ensures Among(run[j].threads[t].result, before, after) && before.name == after.name
  {
    EntryTurns(run, m, n, u, name, before, after);
    if i <= m {
      EntersLater(run, i, j, m, n, t, u, name, before, after);
      CopiesStayAmong(run, m + 1, j, n, t, u, name, before, after);
    } else {
      EntersEarlier(run, i, j, m, n, t, u, name, before, after);
      CopiesStayAmong(run, i, j, n, t, u, name, before, after);
    }
  }

  predicate DifferTwice(a: Config, b: Config) {
    || (a.key != b.key && a.labels != b.labels) || (a.key != b.key && a.updateTime != b.updateTime)
    || (a.labels != b.labels && a.updateTime != b.updateTime)
  }

  /** So it returns one of the two whole, unless they differ in two fields. */
  lemma OverlapReturnsWhole(run: seq<Sys>, i: nat, j: nat, m: nat, n: nat, t: nat, u: nat, name: string, before: Config, after: Config)
    requires Overlaps(run, i, j, m, n, t, u, name, before, after) && !DifferTwice(before, after)
    ensures run[j].threads[t].result in {before, after}
  {
    OverlapReturnsMixture(run, i, j, m, n, t, u, name, before, after);
  }
}
