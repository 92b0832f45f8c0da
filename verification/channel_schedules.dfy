/** Runs put together piece by piece: a Get that pauses anywhere in its copy, and Updates that run in between. */
module ChannelSchedules {
  import opened ChannelConfig
  import opened ChannelMixtures
  import opened ChannelOverlaps
  import opened FieldMasks
  import opened Wrappers

  // ---- Runs that go on ---------------------------------------------------------------------

  /** From state `from` on, only these Updates of the name are ever inside, and only these configs are committed. */
  datatype Watch = Watch(from: nat, name: string, updaters: set<nat>, configs: set<Config>)

  predicate Clean(s: Sys, w: Watch) {
    && (UpdateInside(s, w.name) ==> s.writer.value in w.updaters)
    && (!UpdateInside(s, w.name) && IsStored(s, w.name) ==> StoredConfig(s, w.name) in w.configs)
  }

  ghost predicate CleanFrom(run: seq<Sys>, w: Watch) {
    IsRun(run) && forall k :: w.from <= k < |run| ==> Clean(run[k], w)
  }

  function Last(run: seq<Sys>): Sys
    requires run != []
  {
    run[|run| - 1]
  }

  lemma GoesOn(run: seq<Sys>, s': Sys)
    requires IsRun(run) && Next(Last(run), s')
    ensures IsRun(run + [s'])
  {
    var longer := run + [s'];
    forall k | 0 < k < |longer| ensures Follows(longer, k) {
      assert longer[k - 1] == run[k - 1];
      if k < |run| {
        assert Follows(run, k) && longer[k] == run[k];
      }
    }
  }

  lemma Steps(run: seq<Sys>, w: Watch, t: nat, env: Env) returns (run': seq<Sys>)
    requires CleanFrom(run, w) && CanStep(Last(run), t) && Clean(StepOf(Last(run), t, env), w)
    ensures run' == run + [StepOf(Last(run), t, env)] && CleanFrom(run', w)
  {
    run' := run + [StepOf(Last(run), t, env)];
    GoesOn(run, StepOf(Last(run), t, env));
  }

  lemma Arrives(run: seq<Sys>, w: Watch, t: nat, call: Call) returns (run': seq<Sys>)
    requires CleanFrom(run, w) && t !in Last(run).calls && Clean(Arrive(Last(run), t, call), w)
    ensures run' == run + [Arrive(Last(run), t, call)] && CleanFrom(run', w)
  {
    run' := run + [Arrive(Last(run), t, call)];
    GoesOn(run, Arrive(Last(run), t, call));
  }

  /** Nobody holds the lock, and the name is stored. */
  predicate Idle(s: Sys, name: string) {
    s.writer.None? && s.readers == {} && IsStored(s, name)
  }

  predicate Fresh(s: Sys, t: nat) {
    t !in s.calls && t !in s.threads
  }

  // ---- A Get, piece by piece ---------------------------------------------------------------

  lemma GetLooks(run: seq<Sys>, w: Watch, t: nat, env: Env) returns (run': seq<Sys>)
    requires CleanFrom(run, w) && Clean(Last(run), w) && Idle(Last(run), w.name) && Fresh(Last(run), t)
    ensures |run'| == |run| + 3 && run'[..|run|] == run && CleanFrom(run', w)
    ensures var s := Last(run);
            Last(run') == s.(calls := s.calls[t := Get(w.name)], readers := {t},
                             threads := s.threads[t := Looked(Some(s.configs[w.name]))])
  {
    var s := Last(run);
    var r1 := Arrives(run, w, t, Get(w.name));
    var r2 := Steps(r1, w, t, env);
    assert Last(r2) == Last(r1).(readers := {t}, threads := s.threads[t := Looking]);
    run' := Steps(r2, w, t, env);
    assert Last(run').threads == s.threads[t := Looked(Some(s.configs[w.name]))];
  }

  /** A Get on the fast path, up to where it is about to copy. */
  lemma GetStarts(run: seq<Sys>, w: Watch, t: nat, env: Env) returns (run': seq<Sys>)
    requires CleanFrom(run, w) && Clean(Last(run), w) && Idle(Last(run), w.name) && Fresh(Last(run), t)
    ensures |run'| == |run| + 4 && run'[..|run|] == run && CleanFrom(run', w)
    ensures var s := Last(run);
            Last(run') == s.(calls := s.calls[t := Get(w.name)],
                             threads := s.threads[t := StartClone(w.name, s.configs[w.name], false, env.order)])
  {
    var s := Last(run);
    var r1 := GetLooks(run, w, t, env);
    run' := Steps(r1, w, t, env);
    assert Last(run').threads == s.threads[t := StartClone(w.name, s.configs[w.name], false, env.order)];
  }

  /** One field. */
  lemma GetCopies(run: seq<Sys>, w: Watch, t: nat, p: nat, rest: seq<Field>, copy: Config, env: Env) returns (run': seq<Sys>)
    requires CleanFrom(run, w) && Clean(Last(run), w) && t in Last(run).threads && t in Last(run).calls
    requires Last(run).threads[t] == Cloning(p, false, rest, copy) && p < |Last(run).heap| && rest != []
    ensures |run'| == |run| + 1 && run'[..|run|] == run && CleanFrom(run', w)
    ensures var s := Last(run);
            Last(run') == s.(threads := s.threads[t := Cloning(p, false, rest[1..], CopyField(copy, rest[0], s.heap[p]))])
  {
    run' := Steps(run, w, t, env);
  }

  lemma GetReturns(run: seq<Sys>, w: Watch, t: nat, p: nat, copy: Config, env: Env) returns (run': seq<Sys>)
    requires CleanFrom(run, w) && Clean(Last(run), w) && t in Last(run).threads && t in Last(run).calls
    requires Last(run).threads[t] == Cloning(p, false, [], copy) && p < |Last(run).heap|
    ensures |run'| == |run| + 1 && run'[..|run|] == run && CleanFrom(run', w)
    ensures Last(run') == Last(run).(threads := Last(run).threads[t := Returned(copy)])
  {
    run' := Steps(run, w, t, env);
  }

  // ---- An Update that runs alone -----------------------------------------------------------

  lemma UpdateEnters(run: seq<Sys>, w: Watch, u: nat, cfg: Config, mask: FieldMask, env: Env) returns (run': seq<Sys>)
    requires CleanFrom(run, w) && Clean(Last(run), w) && Idle(Last(run), w.name) && Fresh(Last(run), u)
    requires cfg.name == w.name != "" && u in w.updaters
    ensures |run'| == |run| + 3 && run'[..|run|] == run && CleanFrom(run', w)
    ensures var s := Last(run);
            var inside := s.(writer := Some(u), calls := s.calls[u := Update(cfg, mask)]);
            && run'[|run| + 1] == inside.(threads := s.threads[u := Merging(cfg, mask)])
            && Last(run') == inside.(threads := s.threads[u := Writing(s.configs[cfg.name], WritesOf(cfg, mask))])
  {
    var s := Last(run);
    var r1 := Arrives(run, w, u, Update(cfg, mask));
    var r2 := Steps(r1, w, u, env);
    assert Last(r2) == Last(r1).(writer := Some(u), threads := s.threads[u := Merging(cfg, mask)]);
    run' := Steps(r2, w, u, env);
    assert Last(run').threads == s.threads[u := Writing(s.configs[cfg.name], WritesOf(cfg, mask))];
  }

  /** The Update u of the name is inside the lock. */
  predicate Inside(s: Sys, w: Watch, u: nat) {
    && s.writer == Some(u) && u in s.calls && u in s.threads && s.calls[u].Update? && s.calls[u].Name() == w.name
    && u in w.updaters
  }

  lemma {:induction false} UpdateWrites(run: seq<Sys>, w: Watch, u: nat, p: nat, todo: seq<FieldWrite>, env: Env)
    returns (run': seq<Sys>)
    requires CleanFrom(run, w) && run != [] && Inside(Last(run), w, u)
    requires Last(run).threads[u] == Writing(p, todo) && p < |Last(run).heap|
    ensures |run| <= |run'| && run'[..|run|] == run && CleanFrom(run', w)
    ensures var s := Last(run);
            Last(run') == s.(heap := s.heap[p := ApplyAll(s.heap[p], todo)], threads := s.threads[u := Writing(p, [])])
    decreases |todo|
  {
    var s := Last(run);
    if todo == [] {
      run' := run;
      assert s.heap == s.heap[p := s.heap[p]] && s.threads == s.threads[u := s.threads[u]];
    } else {
      var r1 := Steps(run, w, u, env);
      assert Last(r1) == s.(heap := s.heap[p := Apply(s.heap[p], todo[0])], threads := s.threads[u := Writing(p, todo[1..])]);
      run' := UpdateWrites(r1, w, u, p, todo[1..], env);
      assert run'[..|run|] == run'[..|r1|][..|run|] == run;
      assert Last(run').heap == s.heap[p := ApplyAll(s.heap[p], todo)];
      assert Last(run').threads == s.threads[u := Writing(p, [])];
    }
  }

  lemma CopyIsWhole(order: Order, stored: Config)
    ensures var copy := Config(stored.name, "", map[], None);
            CopyField(CopyField(CopyField(copy, order[0], stored), order[1], stored), order[2], stored) == stored
  {
  }

  /** A copy under the write lock, from its start to the return. */
  lemma LockedClone(run: seq<Sys>, w: Watch, u: nat, p: nat, env: Env) returns (run': seq<Sys>)
    requires CleanFrom(run, w) && run != [] && p < |Last(run).heap| && u in Last(run).calls && u in Last(run).threads
    requires Last(run).writer == Some(u) && (UpdateInside(Last(run), w.name) ==> u in w.updaters)
    requires Last(run).threads[u] == StartClone(w.name, p, true, env.order)
    requires Stored(Last(run), w.name, Last(run).heap[p]) && Last(run).heap[p] in w.configs
    ensures |run| <= |run'| && run'[..|run|] == run && CleanFrom(run', w)
    ensures var s := Last(run); Last(run') == s.(writer := None, threads := s.threads[u := Returned(s.heap[p])])
  {
    var s := Last(run);
    CopyIsWhole(env.order, s.heap[p]);
    var copy1 := CopyField(Config(w.name, "", map[], None), env.order[0], s.heap[p]);
    var copy2 := CopyField(copy1, env.order[1], s.heap[p]);
    assert env.order[1..][1..] == env.order[2..] && env.order[2..][1..] == [];
    var r1 := Steps(run, w, u, env);
    assert Last(r1) == s.(threads := s.threads[u := Cloning(p, true, env.order[1..], copy1)]);
    var r2 := Steps(r1, w, u, env);
    assert Last(r2) == s.(threads := s.threads[u := Cloning(p, true, env.order[2..], copy2)]);
    var r3 := Steps(r2, w, u, env);
    assert Last(r3) == s.(threads := s.threads[u := Cloning(p, true, [], s.heap[p])]);
    run' := Steps(r3, w, u, env);
    assert Last(run').threads == s.threads[u := Returned(s.heap[p])];
  }

  lemma UpdateLeaves(run: seq<Sys>, w: Watch, u: nat, p: nat, env: Env) returns (run': seq<Sys>)
    requires CleanFrom(run, w) && run != [] && Inside(Last(run), w, u) && p < |Last(run).heap|
    requires Last(run).threads[u] == Writing(p, []) && Stored(Last(run), w.name, Last(run).heap[p]) && Last(run).configs[w.name] == p
    requires Last(run).heap[p].(updateTime := Some(env.now)) in w.configs
    ensures |run| <= |run'| && run'[..|run|] == run && CleanFrom(run', w)
    ensures var s := Last(run);
            var updated := s.heap[p].(updateTime := Some(env.now));
            Last(run') == s.(heap := s.heap[p := updated], writer := None, threads := s.threads[u := Returned(updated)])
  {
    var s := Last(run);
    var updated := s.heap[p].(updateTime := Some(env.now));
    var r1 := Steps(run, w, u, env);
    assert Last(r1) == s.(heap := s.heap[p := updated], threads := s.threads[u := Installing(p)]);
    var r2 := Steps(r1, w, u, env);
    assert Last(r2).configs == s.configs;
    assert Last(r2).threads == s.threads[u := StartClone(w.name, p, true, env.order)];
    run' := LockedClone(r2, w, u, p, env);
    assert run'[..|run|] == run'[..|r2|][..|run|] == run;
    assert Last(run').threads == s.threads[u := Returned(updated)];
  }

  /** An Update: its request, and the reading of the clock it is stamped with. */
  datatype Job = Job(cfg: Config, mask: FieldMask, now: int)

  /** The config that it leaves in place of another. */
  function Updated(c: Config, job: Job): Config {
    Merged(c, job.cfg, job.mask).(updateTime := Some(job.now))
  }

  const ANY_ORDER: Order := [KeyField, LabelsField, TimeField]

  lemma UpdateRuns(run: seq<Sys>, w: Watch, u: nat, job: Job) returns (run': seq<Sys>)
    requires CleanFrom(run, w) && Clean(Last(run), w) && Idle(Last(run), w.name) && Fresh(Last(run), u)
    requires job.cfg.name == w.name != "" && u in w.updaters && Updated(StoredConfig(Last(run), w.name), job) in w.configs
    ensures |run| + 3 <= |run'| && run'[..|run|] == run && CleanFrom(run', w)
    ensures var s := Last(run);
            var after := Updated(StoredConfig(s, w.name), job);
            var inside := s.(writer := Some(u), calls := s.calls[u := Update(job.cfg, job.mask)]);
            && run'[|run| + 1] == inside.(threads := s.threads[u := Merging(job.cfg, job.mask)])
            && run'[|run| + 2] == inside.(threads := s.threads[u := Writing(s.configs[w.name], WritesOf(job.cfg, job.mask))])
            && Last(run') == s.(heap := s.heap[s.configs[w.name] := after], calls := s.calls[u := Update(job.cfg, job.mask)],
                                threads := s.threads[u := Returned(after)])
  {
    var s, p, env := Last(run), Last(run).configs[w.name], Env(job.now, ANY_ORDER);
    WritesMerge(s.heap[p], job.cfg, job.mask);
    var r1 := UpdateEnters(run, w, u, job.cfg, job.mask, env);
    var r2 := UpdateWrites(r1, w, u, p, WritesOf(job.cfg, job.mask), env);
    run' := UpdateLeaves(r2, w, u, p, env);
    assert run'[..|r2|][..|r1|] == r1;
    assert forall k :: 0 <= k < |r1| ==> run'[k] == r1[k];
    assert run'[..|run|] == r1[..|run|];
  }

  // ---- Several Updates, one after the other ------------------------------------------------

  /** The config after the first k jobs. */
  function After(c: Config, jobs: seq<Job>, k: nat): Config
    requires k <= |jobs|
  {
    if k == 0 then c else Updated(After(c, jobs, k - 1), jobs[k - 1])
  }

  /** The configs from before the first job to after the last. */
  function Chain(c: Config, jobs: seq<Job>): (cs: set<Config>) {
    set k | 0 <= k <= |jobs| :: After(c, jobs, k)
  }

  /** The jobs for the name, and the threads that run them. */
  ghost predicate Jobs(jobs: seq<Job>, ids: seq<nat>, w: Watch) {
    && |ids| == |jobs| && w.name != ""
    && (forall k :: 0 <= k < |jobs| ==> jobs[k].cfg.name == w.name && ids[k] in w.updaters)
    && (forall j, k :: 0 <= j < k < |ids| ==> ids[j] != ids[k])
  }

  /** Job k's call has returned the config that it left. */
  ghost predicate Ran(s: Sys, jobs: seq<Job>, ids: seq<nat>, c: Config, k: nat)
    requires k < |jobs| == |ids|
  {
    && ids[k] in s.calls && s.calls[ids[k]] == Update(jobs[k].cfg, jobs[k].mask)
    && ids[k] in s.threads && s.threads[ids[k]] == Returned(After(c, jobs, k + 1))
  }

  /** What the jobs from `from` to `to` leave alone: the map of pointers, and the threads and calls there were. */
  ghost predicate Grown(s: Sys, s': Sys, jobs: seq<Job>, ids: seq<nat>, c: Config, from: nat, upto: nat)
    requires from <= upto <= |jobs| == |ids|
  {
    && s'.configs == s.configs
    && (forall x :: x in s.threads ==> x in s'.threads && s'.threads[x] == s.threads[x])
    && (forall x :: x in s.calls ==> x in s'.calls && s'.calls[x] == s.calls[x])
    && (forall x :: x in s'.threads || x in s'.calls ==>
          x in s.threads || x in s.calls || exists k :: from <= k < upto && ids[k] == x)
    && (forall k :: from <= k < upto ==> Ran(s', jobs, ids, c, k))
  }

  ghost predicate AllFresh(s: Sys, ids: seq<nat>, from: nat) {
    forall k :: from <= k < |ids| ==> Fresh(s, ids[k])
  }

  lemma GrownKeepsFresh(s: Sys, s': Sys, jobs: seq<Job>, ids: seq<nat>, c: Config, w: Watch, from: nat, upto: nat)
    requires Jobs(jobs, ids, w) && from <= upto <= |jobs| && Grown(s, s', jobs, ids, c, from, upto) && AllFresh(s, ids, from)
    ensures AllFresh(s', ids, upto)
  {
  }

  lemma {:induction false} JobsRun(run: seq<Sys>, w: Watch, jobs: seq<Job>, ids: seq<nat>, c: Config, from: nat, upto: nat)
    returns (run': seq<Sys>)
    requires CleanFrom(run, w) && run != [] && Clean(Last(run), w) && Idle(Last(run), w.name)
    requires Jobs(jobs, ids, w) && from <= upto <= |jobs| && AllFresh(Last(run), ids, from)
    requires Chain(c, jobs) <= w.configs && StoredConfig(Last(run), w.name) == After(c, jobs, from)
    ensures |run| <= |run'| && run'[..|run|] == run && CleanFrom(run', w) && Clean(Last(run'), w)
    ensures Idle(Last(run'), w.name) && StoredConfig(Last(run'), w.name) == After(c, jobs, upto)
    ensures Grown(Last(run), Last(run'), jobs, ids, c, from, upto) && AllFresh(Last(run'), ids, upto)
    decreases upto - from
  {
    if from == upto {
      run' := run;
    } else {
      var r1 := JobsRun(run, w, jobs, ids, c, from, upto - 1);
      var s, u := Last(r1), ids[upto - 1];
      assert After(c, jobs, upto) in Chain(c, jobs);
      run' := UpdateRuns(r1, w, u, jobs[upto - 1]);
      assert run'[..|run|] == run'[..|r1|][..|run|] == run;
      JobRan(s, Last(run'), w, jobs[upto - 1], u);
      GrowsOn(Last(run), s, Last(run'), jobs, ids, c, from, upto);
      GrownKeepsFresh(Last(run), Last(run'), jobs, ids, c, w, from, upto);
    }
  }

  lemma JobRan(s: Sys, s': Sys, w: Watch, job: Job, u: nat)
    requires Idle(s, w.name) && Fresh(s, u) && job.cfg.name == w.name
    requires var after := Updated(StoredConfig(s, w.name), job);
             s' == s.(heap := s.heap[s.configs[w.name] := after], calls := s.calls[u := Update(job.cfg, job.mask)],
                      threads := s.threads[u := Returned(after)])
    ensures Idle(s', w.name) && StoredConfig(s', w.name) == Updated(StoredConfig(s, w.name), job) && s'.configs == s.configs
  {
  }

  lemma GrowsOn(s: Sys, s1: Sys, s2: Sys, jobs: seq<Job>, ids: seq<nat>, c: Config, from: nat, upto: nat)
    requires from < upto <= |jobs| == |ids| && Grown(s, s1, jobs, ids, c, from, upto - 1)
    requires Fresh(s1, ids[upto - 1]) && s2.configs == s1.configs
    requires s2.calls == s1.calls[ids[upto - 1] := Update(jobs[upto - 1].cfg, jobs[upto - 1].mask)]
    requires s2.threads == s1.threads[ids[upto - 1] := Returned(After(c, jobs, upto))]
    ensures Grown(s, s2, jobs, ids, c, from, upto)
  {
    forall k | from <= k < upto ensures Ran(s2, jobs, ids, c, k) {
      assert k < upto - 1 ==> Ran(s1, jobs, ids, c, k);
    }
  }
}
