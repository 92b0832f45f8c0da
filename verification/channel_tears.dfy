/** Runs in which a Get returns a config that was never stored, and exactly which Updates allow them. */
module ChannelTears {
  import opened ChannelConfig
  import opened ChannelMixtures
  import opened ChannelOverlaps
  import opened ChannelSchedules
  import opened FieldMasks
  import opened Wrappers

  // ---- A Get between any number of Updates -------------------------------------------------

  /** The first n jobs have run, the name holds what they left, and the Get stands there. */
  ghost predicate At(s: Sys, w: Watch, jobs: seq<Job>, ids: seq<nat>, c: Config, n: nat, t: nat, p: nat, pc: Pc)
    requires n <= |jobs| == |ids|
  {
    && Clean(s, w) && Idle(s, w.name) && s.configs[w.name] == p && StoredConfig(s, w.name) == After(c, jobs, n)
    && AllFresh(s, ids, n) && t in s.calls && s.calls[t] == Get(w.name) && t in s.threads && s.threads[t] == pc
    && forall k :: 0 <= k < n ==> Ran(s, jobs, ids, c, k)
  }

  lemma GrownStaysAt(s: Sys, s': Sys, w: Watch, jobs: seq<Job>, ids: seq<nat>, c: Config, n: nat, n': nat, t: nat, p: nat, pc: Pc)
    requires Jobs(jobs, ids, w) && n <= n' <= |jobs| && At(s, w, jobs, ids, c, n, t, p, pc)
    requires Grown(s, s', jobs, ids, c, n, n') && Clean(s', w) && Idle(s', w.name)
    requires StoredConfig(s', w.name) == After(c, jobs, n') && AllFresh(s', ids, n')
    ensures At(s', w, jobs, ids, c, n', t, p, pc)
  {
    forall k | 0 <= k < n' ensures Ran(s', jobs, ids, c, k) {
      assert k < n ==> Ran(s, jobs, ids, c, k);
    }
  }

  lemma JobsRunAt(run: seq<Sys>, w: Watch, jobs: seq<Job>, ids: seq<nat>, c: Config, n: nat, n': nat, t: nat, p: nat, pc: Pc)
    returns (run': seq<Sys>)
    requires CleanFrom(run, w) && run != [] && Jobs(jobs, ids, w) && n <= n' <= |jobs| && Chain(c, jobs) <= w.configs
    requires At(Last(run), w, jobs, ids, c, n, t, p, pc)
    ensures |run| <= |run'| && run'[..|run|] == run && CleanFrom(run', w)
    ensures At(Last(run'), w, jobs, ids, c, n', t, p, pc)
  {
    run' := JobsRun(run, w, jobs, ids, c, n, n');
    GrownStaysAt(Last(run), Last(run'), w, jobs, ids, c, n, n', t, p, pc);
  }

  lemma PrefixGrows(run: seq<Sys>, run1: seq<Sys>, run2: seq<Sys>)
    requires |run| <= |run1| <= |run2| && run1[..|run|] == run && run2[..|run1|] == run1
    ensures run2[..|run|] == run && run <= run2
    ensures forall k :: 0 <= k < |run1| ==> run2[k] == run1[k]
  {
    assert run2[..|run1|][..|run|] == run2[..|run|];
    assert forall k :: 0 <= k < |run1| ==> run2[k] == run2[..|run1|][k];
  }

  lemma PcChangeStaysAt(s: Sys, s': Sys, w: Watch, jobs: seq<Job>, ids: seq<nat>, c: Config, n: nat, t: nat, p: nat, pc: Pc, pc': Pc)
    requires n <= |jobs| == |ids| && At(s, w, jobs, ids, c, n, t, p, pc) && t !in ids
    requires s' == s.(threads := s.threads[t := pc'])
    ensures At(s', w, jobs, ids, c, n, t, p, pc')
  {
    forall k | 0 <= k < n ensures Ran(s', jobs, ids, c, k) {
      assert Ran(s, jobs, ids, c, k);
    }
  }

  /** The jobs up to n' run, and the Get copies its next field. */
  lemma CopyAfter(run: seq<Sys>, w: Watch, jobs: seq<Job>, ids: seq<nat>, c: Config, n: nat, n': nat, t: nat, p: nat,
                  f: Field, more: seq<Field>, copy: Config) returns (run': seq<Sys>)
    requires CleanFrom(run, w) && run != [] && Jobs(jobs, ids, w) && n <= n' <= |jobs| && Chain(c, jobs) <= w.configs
    requires t !in ids && At(Last(run), w, jobs, ids, c, n, t, p, Cloning(p, false, [f] + more, copy))
    ensures |run| <= |run'| && run'[..|run|] == run && CleanFrom(run', w)
    ensures At(Last(run'), w, jobs, ids, c, n', t, p, Cloning(p, false, more, CopyField(copy, f, After(c, jobs, n'))))
  {
    var pc, pc' := Cloning(p, false, [f] + more, copy), Cloning(p, false, more, CopyField(copy, f, After(c, jobs, n')));
    assert ([f] + more)[1..] == more;
    var r1 := JobsRunAt(run, w, jobs, ids, c, n, n', t, p, pc);
    run' := GetCopies(r1, w, t, p, [f] + more, copy, Env(0, ANY_ORDER));
    PcChangeStaysAt(Last(r1), Last(run'), w, jobs, ids, c, n', t, p, pc, pc');
    PrefixGrows(run, r1, run');
  }

  /** The copy of three fields, each after some of the jobs. */
  function Copied(order: Order, c: Config, jobs: seq<Job>, n1: nat, n2: nat, n3: nat, blank: Config): Config
    requires n1 <= |jobs| && n2 <= |jobs| && n3 <= |jobs|
  {
    var one := CopyField(blank, order[0], After(c, jobs, n1));
    var two := CopyField(one, order[1], After(c, jobs, n2));
    CopyField(two, order[2], After(c, jobs, n3))
  }

  lemma GetCopiesAll(run: seq<Sys>, w: Watch, t: nat, jobs: seq<Job>, ids: seq<nat>, c: Config, p: nat, order: Order,
                     n1: nat, n2: nat, n3: nat, blank: Config) returns (run': seq<Sys>)
    requires CleanFrom(run, w) && run != [] && Jobs(jobs, ids, w) && Chain(c, jobs) <= w.configs && t !in ids
    requires n1 <= n2 <= n3 <= |jobs| && At(Last(run), w, jobs, ids, c, 0, t, p, Cloning(p, false, order, blank))
    ensures |run| <= |run'| && run'[..|run|] == run && CleanFrom(run', w)
    ensures At(Last(run'), w, jobs, ids, c, n3, t, p, Cloning(p, false, [], Copied(order, c, jobs, n1, n2, n3, blank)))
  {
    var f1, f2, f3 := order[0], order[1], order[2];
    var one := CopyField(blank, f1, After(c, jobs, n1));
    var two := CopyField(one, f2, After(c, jobs, n2));
    assert order == [f1] + [f2, f3] && [f2, f3] == [f2] + [f3] && [f3] == [f3] + [];
    var r1 := CopyAfter(run, w, jobs, ids, c, 0, n1, t, p, f1, [f2, f3], blank);
    var r2 := CopyAfter(r1, w, jobs, ids, c, n1, n2, t, p, f2, [f3], one);
    run' := CopyAfter(r2, w, jobs, ids, c, n2, n3, t, p, f3, [], two);
    PrefixGrows(run, r1, r2);
    PrefixGrows(run, r2, run');
  }

  lemma GetReturnsAt(run: seq<Sys>, w: Watch, t: nat, jobs: seq<Job>, ids: seq<nat>, c: Config, p: nat, n: nat, copy: Config)
    returns (run': seq<Sys>)
    requires CleanFrom(run, w) && run != [] && Jobs(jobs, ids, w) && n <= |jobs| && t !in ids
    requires At(Last(run), w, jobs, ids, c, n, t, p, Cloning(p, false, [], copy))
    ensures |run| <= |run'| && run'[..|run|] == run && CleanFrom(run', w)
    ensures At(Last(run'), w, jobs, ids, c, n, t, p, Returned(copy))
  {
    run' := GetReturns(run, w, t, p, copy, Env(0, ANY_ORDER));
    PcChangeStaysAt(Last(run), Last(run'), w, jobs, ids, c, n, t, p, Cloning(p, false, [], copy), Returned(copy));
  }

  // ---- Any mixture can be had --------------------------------------------------------------

  function Moment(f: Field, key: nat, labels: nat, time: nat): nat {
    match f
    case KeyField => key
    case LabelsField => labels
    case TimeField => time
  }

  lemma SortedOrder(key: nat, labels: nat, time: nat) returns (order: Order)
    ensures Moment(order[0], key, labels, time) <= Moment(order[1], key, labels, time) <= Moment(order[2], key, labels, time)
  {
    order :=
      if key <= labels <= time then [KeyField, LabelsField, TimeField]
      else if key <= time <= labels then [KeyField, TimeField, LabelsField]
      else if labels <= key <= time then [LabelsField, KeyField, TimeField]
      else if labels <= time <= key then [LabelsField, TimeField, KeyField]
      else if time <= key <= labels then [TimeField, KeyField, LabelsField]
      else [TimeField, LabelsField, KeyField];
  }

  function Source(f: Field, key: Config, labels: Config, time: Config): Config {
    match f
    case KeyField => key
    case LabelsField => labels
    case TimeField => time
  }

  lemma CopyIsMix(order: Order, key: Config, labels: Config, time: Config, c1: Config, c2: Config, c3: Config)
    requires c1 == Source(order[0], key, labels, time) && c2 == Source(order[1], key, labels, time)
    requires c3 == Source(order[2], key, labels, time)
    ensures var blank := Config(key.name, "", map[], None);
            CopyField(CopyField(CopyField(blank, order[0], c1), order[1], c2), order[2], c3) == Mix(key, labels, time)
  {
  }

  lemma MomentIsSource(f: Field, c: Config, jobs: seq<Job>, key: nat, labels: nat, time: nat)
    requires key <= |jobs| && labels <= |jobs| && time <= |jobs|
    ensures After(c, jobs, Moment(f, key, labels, time)) == Source(f, After(c, jobs, key), After(c, jobs, labels), After(c, jobs, time))
  {
  }

  lemma CopiedIsMix(order: Order, c: Config, jobs: seq<Job>, key: nat, labels: nat, time: nat, n1: nat, n2: nat, n3: nat)
    requires key <= |jobs| && labels <= |jobs| && time <= |jobs|
    requires n1 == Moment(order[0], key, labels, time) && n2 == Moment(order[1], key, labels, time)
    requires n3 == Moment(order[2], key, labels, time)
    ensures Copied(order, c, jobs, n1, n2, n3, Config(c.name, "", map[], None))
            == Mix(After(c, jobs, key), After(c, jobs, labels), After(c, jobs, time))
  {
    var x, y, z := After(c, jobs, key), After(c, jobs, labels), After(c, jobs, time);
    AfterKeepsName(c, jobs, key);
    MomentIsSource(order[0], c, jobs, key, labels, time);
    MomentIsSource(order[1], c, jobs, key, labels, time);
    MomentIsSource(order[2], c, jobs, key, labels, time);
    CopyIsMix(order, x, y, z, After(c, jobs, n1), After(c, jobs, n2), After(c, jobs, n3));
  }

  lemma {:induction false} AfterKeepsName(c: Config, jobs: seq<Job>, k: nat)
    requires k <= |jobs|
    ensures After(c, jobs, k).name == c.name
  {
    if k > 0 {
      AfterKeepsName(c, jobs, k - 1);
    }
  }

  /** A free lock, the name stored, and a Get and some jobs to come. */
  ghost predicate Ready(run: seq<Sys>, t: nat, jobs: seq<Job>, ids: seq<nat>, w: Watch) {
    && IsRun(run) && Idle(Last(run), w.name) && t !in Last(run).calls && t !in ids && Jobs(jobs, ids, w)
    && forall k :: 0 <= k < |ids| ==> ids[k] !in Last(run).calls
  }

  lemma ReadyIsFresh(run: seq<Sys>, t: nat, jobs: seq<Job>, ids: seq<nat>, w: Watch)
    requires Ready(run, t, jobs, ids, w)
    ensures Fresh(Last(run), t) && AllFresh(Last(run), ids, 0)
    ensures StoredConfig(Last(run), w.name).name == w.name
  {
    InvAlways(run, |run| - 1);
  }

  lemma GetIsAt(run: seq<Sys>, w: Watch, t: nat, jobs: seq<Job>, ids: seq<nat>, order: Order) returns (run': seq<Sys>)
    requires Ready(run, t, jobs, ids, w) && CleanFrom(run, w) && Clean(Last(run), w)
    ensures |run'| == |run| + 4 && run'[..|run|] == run && CleanFrom(run', w)
    ensures var s := Last(run);
            At(Last(run'), w, jobs, ids, StoredConfig(s, w.name), 0, t, s.configs[w.name],
               StartClone(w.name, s.configs[w.name], false, order))
  {
    ReadyIsFresh(run, t, jobs, ids, w);
    run' := GetStarts(run, w, t, Env(0, order));
  }

  lemma GetMixes(run: seq<Sys>, w: Watch, t: nat, jobs: seq<Job>, ids: seq<nat>, c: Config, p: nat, order: Order,
                 key: nat, labels: nat, time: nat) returns (run': seq<Sys>)
    requires CleanFrom(run, w) && run != [] && Jobs(jobs, ids, w) && Chain(c, jobs) <= w.configs && t !in ids
    requires key <= |jobs| && labels <= |jobs| && time <= |jobs| && c.name == w.name
    requires Moment(order[0], key, labels, time) <= Moment(order[1], key, labels, time) <= Moment(order[2], key, labels, time)
    requires At(Last(run), w, jobs, ids, c, 0, t, p, StartClone(w.name, p, false, order))
    ensures |run| <= |run'| && run'[..|run|] == run && CleanFrom(run', w)
    ensures At(Last(run'), w, jobs, ids, c, Moment(order[2], key, labels, time), t, p,
               Returned(Mix(After(c, jobs, key), After(c, jobs, labels), After(c, jobs, time))))
  {
    var n1, n2 := Moment(order[0], key, labels, time), Moment(order[1], key, labels, time);
    var n3 := Moment(order[2], key, labels, time);
    var r1 := GetCopiesAll(run, w, t, jobs, ids, c, p, order, n1, n2, n3, Config(w.name, "", map[], None));
    CopiedIsMix(order, c, jobs, key, labels, time, n1, n2, n3);
    run' := GetReturnsAt(r1, w, t, jobs, ids, c, p, n3, Mix(After(c, jobs, key), After(c, jobs, labels), After(c, jobs, time)));
    PrefixGrows(run, r1, run');
  }

  /** The Get runs from state i to state j of the longer run, among the jobs, which have all run by its end. */
  ghost predicate Overlapped(run: seq<Sys>, longer: seq<Sys>, i: nat, j: nat, t: nat, w: Watch, jobs: seq<Job>, ids: seq<nat>, c: Config) {
    && run <= longer && CleanFrom(longer, w) && |run| <= i <= j < |longer| && CopiesFromTo(longer, i, j, t, w.name)
    && Idle(Last(longer), w.name) && |jobs| == |ids| && forall k :: 0 <= k < |jobs| ==> Ran(Last(longer), jobs, ids, c, k)
  }

  lemma EndIsOverlapped(run: seq<Sys>, r1: seq<Sys>, r2: seq<Sys>, longer: seq<Sys>, w: Watch, t: nat, jobs: seq<Job>,
                        ids: seq<nat>, c: Config, p: nat, order: Order, n: nat, result: Config)
    requires |run| < |r1| <= |r2| <= |longer| && r1[..|run|] == run && r2[..|r1|] == r1 && longer[..|r2|] == r2
    requires CleanFrom(longer, w) && Jobs(jobs, ids, w) && n <= |jobs|
    requires At(Last(r1), w, jobs, ids, c, 0, t, p, StartClone(w.name, p, false, order))
    requires At(Last(r2), w, jobs, ids, c, n, t, p, Returned(result))
    requires At(Last(longer), w, jobs, ids, c, |jobs|, t, p, Returned(result))
    ensures Overlapped(run, longer, |r1| - 1, |r2| - 1, t, w, jobs, ids, c)
    ensures longer[|r2| - 1].threads[t] == Returned(result)
  {
    PrefixGrows(run, r1, r2);
    PrefixGrows(run, r2, longer);
    assert longer[|r1| - 1] == r2[|r1| - 1] == r1[|r1| - 1];
  }

  /** For any three moments there is a run in which the Get takes each field at its own. */
  lemma GetTakes(run: seq<Sys>, w: Watch, t: nat, jobs: seq<Job>, ids: seq<nat>, c: Config, key: nat, labels: nat, time: nat)
    returns (longer: seq<Sys>, i: nat, j: nat)
    requires Ready(run, t, jobs, ids, w) && CleanFrom(run, w) && Clean(Last(run), w) && c == StoredConfig(Last(run), w.name)
    requires key <= |jobs| && labels <= |jobs| && time <= |jobs| && Chain(c, jobs) <= w.configs
    ensures Overlapped(run, longer, i, j, t, w, jobs, ids, c)
    ensures longer[j].threads[t] == Returned(Mix(After(c, jobs, key), After(c, jobs, labels), After(c, jobs, time)))
  {
    var p, result := Last(run).configs[w.name], Mix(After(c, jobs, key), After(c, jobs, labels), After(c, jobs, time));
    ReadyIsFresh(run, t, jobs, ids, w);
    var order := SortedOrder(key, labels, time);
    var r1 := GetIsAt(run, w, t, jobs, ids, order);
    var r2 := GetMixes(r1, w, t, jobs, ids, c, p, order, key, labels, time);
    longer := JobsRunAt(r2, w, jobs, ids, c, Moment(order[2], key, labels, time), |jobs|, t, p, Returned(result));
    EndIsOverlapped(run, r1, r2, longer, w, t, jobs, ids, c, p, order, Moment(order[2], key, labels, time), result);
    i, j := |r1| - 1, |r2| - 1;
  }

  /** From the end of the run on, only these jobs write the name, and only what they leave is committed. */
  function WatchOf(run: seq<Sys>, name: string, jobs: seq<Job>, ids: seq<nat>): Watch
    requires run != [] && IsStored(Last(run), name)
  {
    Watch(|run| - 1, name, (set u | u in ids), Chain(StoredConfig(Last(run), name), jobs))
  }

  lemma ReadyIsClean(run: seq<Sys>, t: nat, jobs: seq<Job>, ids: seq<nat>, name: string)
    requires run != [] && Idle(Last(run), name) && Ready(run, t, jobs, ids, WatchOf(run, name, jobs, ids))
    ensures CleanFrom(run, WatchOf(run, name, jobs, ids)) && Clean(Last(run), WatchOf(run, name, jobs, ids))
  {
    var c := StoredConfig(Last(run), name);
    assert After(c, jobs, 0) in Chain(c, jobs);
  }

  /** The Get returns none of the configs from before the first job to after the last. */
  ghost predicate TearsAmong(run: seq<Sys>, longer: seq<Sys>, i: nat, j: nat, t: nat, w: Watch, jobs: seq<Job>, ids: seq<nat>, c: Config) {
    Overlapped(run, longer, i, j, t, w, jobs, ids, c) && longer[j].threads[t].result !in Chain(c, jobs)
  }

  lemma ClosedDoNotTear(run: seq<Sys>, longer: seq<Sys>, i: nat, j: nat, t: nat, jobs: seq<Job>, ids: seq<nat>, name: string)
    requires run != [] && Idle(Last(run), name) && Closed(Chain(StoredConfig(Last(run), name), jobs))
    ensures !TearsAmong(run, longer, i, j, t, WatchOf(run, name, jobs, ids), jobs, ids, StoredConfig(Last(run), name))
  {
    var w, c := WatchOf(run, name, jobs, ids), StoredConfig(Last(run), name);
    if Overlapped(run, longer, i, j, t, w, jobs, ids, c) {
      assert longer[|run| - 1] == Last(run);
      assert forall k :: |run| - 1 <= k < |longer| ==> Clean(longer[k], w);
      ClosedIsWhole(longer, |run| - 1, i, j, |longer| - 1, t, name, Chain(c, jobs));
    }
  }

  lemma OpenTears(run: seq<Sys>, t: nat, jobs: seq<Job>, ids: seq<nat>, name: string) returns (longer: seq<Sys>, i: nat, j: nat)
    requires run != [] && Idle(Last(run), name) && Ready(run, t, jobs, ids, WatchOf(run, name, jobs, ids))
    requires !Closed(Chain(StoredConfig(Last(run), name), jobs))
    ensures TearsAmong(run, longer, i, j, t, WatchOf(run, name, jobs, ids), jobs, ids, StoredConfig(Last(run), name))
  {
    var w, c := WatchOf(run, name, jobs, ids), StoredConfig(Last(run), name);
    var x, y, z :| x in Chain(c, jobs) && y in Chain(c, jobs) && z in Chain(c, jobs) && Mix(x, y, z) !in Chain(c, jobs);
    var key :| 0 <= key <= |jobs| && After(c, jobs, key) == x;
    var labels :| 0 <= labels <= |jobs| && After(c, jobs, labels) == y;
    var time :| 0 <= time <= |jobs| && After(c, jobs, time) == z;
    ReadyIsClean(run, t, jobs, ids, name);
    longer, i, j := GetTakes(run, w, t, jobs, ids, c, key, labels, time);
  }

  /**
   Whether a sequence of Updates can tear a Get depends on the values alone: from any state in which the lock is free and
   the name stored, the run can go on, with just these Updates of the name in this order, to a Get that returns none of
   the configs before, between and after them, if and only if those are not closed under mixing.
   */
  lemma UpdatesTearIff(run: seq<Sys>, t: nat, jobs: seq<Job>, ids: seq<nat>, name: string)
    requires run != [] && Idle(Last(run), name) && Ready(run, t, jobs, ids, WatchOf(run, name, jobs, ids))
    ensures var w, c := WatchOf(run, name, jobs, ids), StoredConfig(Last(run), name);
            (exists longer, i, j :: TearsAmong(run, longer, i, j, t, w, jobs, ids, c)) <==> !Closed(Chain(c, jobs))
  {
    if Closed(Chain(StoredConfig(Last(run), name), jobs)) {
      forall longer, i, j
        ensures !TearsAmong(run, longer, i, j, t, WatchOf(run, name, jobs, ids), jobs, ids, StoredConfig(Last(run), name))
      {
        ClosedDoNotTear(run, longer, i, j, t, jobs, ids, name);
      }
    } else {
      var longer, i, j := OpenTears(run, t, jobs, ids, name);
    }
  }

  // ---- A Get that overlaps one Update ------------------------------------------------------

  function FirstDifference(a: Config, b: Config): Order {
    if a.key != b.key then [KeyField, LabelsField, TimeField] else [LabelsField, KeyField, TimeField]
  }

  /** The one field from the old config, the others from the new one. */
  function Torn(order: Order, before: Config, after: Config): Config {
    CopyField(after, order[0], before)
  }

  lemma TornIsNeither(before: Config, after: Config)
    requires DifferTwice(before, after)
    ensures Torn(FirstDifference(before, after), before, after) !in {before, after}
  {
  }

  lemma RestIsNew(order: Order, before: Config, after: Config)
    requires before.name == after.name
    ensures var copy := CopyField(Config(before.name, "", map[], None), order[0], before);
            CopyField(CopyField(copy, order[1], after), order[2], after) == Torn(order, before, after)
  {
  }

  /** The Get copies its last two fields and returns. */
  lemma GetFinishes(run: seq<Sys>, w: Watch, t: nat, p: nat, order: Order, copy: Config) returns (run': seq<Sys>)
    requires CleanFrom(run, w) && Clean(Last(run), w) && t in Last(run).threads && t in Last(run).calls
    requires Last(run).threads[t] == Cloning(p, false, order[1..], copy) && p < |Last(run).heap|
    ensures |run'| == |run| + 3 && run'[..|run|] == run && CleanFrom(run', w)
    ensures var s := Last(run);
            var result := CopyField(CopyField(copy, order[1], s.heap[p]), order[2], s.heap[p]);
            Last(run') == s.(threads := s.threads[t := Returned(result)])
  {
    var s := Last(run);
    assert order[1..][1..] == order[2..] && order[2..][1..] == [] && order[1..][0] == order[1];
    var copy1 := CopyField(copy, order[1], s.heap[p]);
    var r1 := GetCopies(run, w, t, p, order[1..], copy, Env(0, order));
    var r2 := GetCopies(r1, w, t, p, order[2..], copy1, Env(0, order));
    run' := GetReturns(r2, w, t, p, CopyField(copy1, order[2], s.heap[p]), Env(0, order));
    assert Last(run').threads == s.threads[t := Returned(CopyField(copy1, order[2], s.heap[p]))];
  }

  /** The Get pauses after its first field. */
  lemma GetPauses(run: seq<Sys>, w: Watch, t: nat, order: Order) returns (run': seq<Sys>)
    requires CleanFrom(run, w) && Clean(Last(run), w) && Idle(Last(run), w.name) && Fresh(Last(run), t)
    ensures |run'| == |run| + 5 && run'[..|run|] == run && CleanFrom(run', w)
    ensures var s, p := Last(run), Last(run).configs[w.name];
            var begun := s.(calls := s.calls[t := Get(w.name)]);
            var copy := CopyField(Config(w.name, "", map[], None), order[0], s.heap[p]);
            && run'[|run| + 3] == begun.(threads := s.threads[t := StartClone(w.name, p, false, order)])
            && Last(run') == begun.(threads := s.threads[t := Cloning(p, false, order[1..], copy)])
  {
    var s, p := Last(run), Last(run).configs[w.name];
    var copy := CopyField(Config(w.name, "", map[], None), order[0], s.heap[p]);
    var r1 := GetStarts(run, w, t, Env(0, order));
    run' := GetCopies(r1, w, t, p, order, Config(w.name, "", map[], None), Env(0, order));
    assert Last(run').threads == s.threads[t := Cloning(p, false, order[1..], copy)];
  }

  /** The Get pauses, the Update runs, the Get finishes. */
  lemma GetAroundUpdate(run: seq<Sys>, w: Watch, t: nat, u: nat, job: Job, order: Order)
    returns (r1: seq<Sys>, r2: seq<Sys>, r3: seq<Sys>)
    requires CleanFrom(run, w) && Clean(Last(run), w) && Idle(Last(run), w.name) && Fresh(Last(run), t) && Fresh(Last(run), u)
    requires t != u && job.cfg.name == w.name != "" && u in w.updaters && StoredConfig(Last(run), w.name).name == w.name
    requires Updated(StoredConfig(Last(run), w.name), job) in w.configs
    ensures |r1| == |run| + 5 && r1[..|run|] == run && |r1| + 3 <= |r2| && r2[..|r1|] == r1
    ensures |r3| == |r2| + 3 && r3[..|r2|] == r2 && CleanFrom(r3, w)
    ensures var s := Last(run);
            var before, after := StoredConfig(s, w.name), Updated(StoredConfig(s, w.name), job);
            && r1[|run| + 3] == s.(calls := s.calls[t := Get(w.name)],
                                   threads := s.threads[t := StartClone(w.name, s.configs[w.name], false, order)])
            && Inside(r2[|r1| + 1], w, u) && r2[|r1| + 1].threads[u].Merging? && Stored(r2[|r1| + 1], w.name, before)
            && Inside(r2[|r1| + 2], w, u) && r2[|r1| + 2].threads[u].Writing?
            && u in Last(r2).calls && u in Last(r2).threads && Last(r2).threads[u] == Returned(after)
            && t in Last(r3).calls && Last(r3).calls[t] == Get(w.name) && t in Last(r3).threads
            && Last(r3).threads[t] == Returned(Torn(order, before, after))
  {
    var s, p := Last(run), Last(run).configs[w.name];
    r1 := GetPauses(run, w, t, order);
    r2 := UpdateRuns(r1, w, u, job);
    var copy := CopyField(Config(w.name, "", map[], None), order[0], s.heap[p]);
    assert Last(r2).threads[t] == Cloning(p, false, order[1..], copy);
    r3 := GetFinishes(r2, w, t, p, order, copy);
    RestIsNew(order, s.heap[p], Updated(s.heap[p], job));
  }

  lemma AroundOverlaps(run: seq<Sys>, r1: seq<Sys>, r2: seq<Sys>, r3: seq<Sys>, w: Watch, t: nat, u: nat, before: Config,
                       after: Config, order: Order)
    requires |run| + 5 == |r1| && r1[..|run|] == run && |r1| + 3 <= |r2| && r2[..|r1|] == r1
    requires |r3| == |r2| + 3 && r3[..|r2|] == r2 && CleanFrom(r3, w) && w.from <= |run| && w.updaters == {u}
    requires t in r1[|run| + 3].calls && r1[|run| + 3].calls[t] == Get(w.name) && t in r1[|run| + 3].threads
    requires r1[|run| + 3].threads[t].Cloning? && r1[|run| + 3].threads[t].rest == order
    requires Inside(r2[|r1| + 1], w, u) && r2[|r1| + 1].threads[u].Merging? && Stored(r2[|r1| + 1], w.name, before)
    requires Inside(r2[|r1| + 2], w, u) && r2[|r1| + 2].threads[u].Writing?
    requires u in Last(r2).calls && u in Last(r2).threads && Last(r2).threads[u] == Returned(after)
    requires t in Last(r3).calls && Last(r3).calls[t] == Get(w.name) && t in Last(r3).threads && Last(r3).threads[t].Returned?
    ensures run <= r3 && Overlaps(r3, |run| + 3, |r3| - 1, |r1| + 1, |r2| - 1, t, u, w.name, before, after)
  {
    PrefixGrows(run, r1, r2);
    PrefixGrows(run, r2, r3);
    assert r3[|run| + 3] == r2[|run| + 3] == r1[|run| + 3] && r3[|r2| - 1] == Last(r2);
    assert r3[|r1| + 1] == r2[|r1| + 1] && r3[|r1| + 2] == r2[|r1| + 2];
    assert forall k :: w.from <= k < |r3| ==> Clean(r3[k], w);
  }

  /** The Get that overlaps the Update returns neither the old config nor the new one. */
  ghost predicate Tears(run: seq<Sys>, i: nat, j: nat, m: nat, n: nat, t: nat, u: nat, name: string, before: Config, after: Config) {
    Overlaps(run, i, j, m, n, t, u, name, before, after) && run[j].threads[t].result !in {before, after}
  }

  /** Every Update that changes two fields can tear a Get. */
  lemma OverlapTears(run: seq<Sys>, w: Watch, t: nat, u: nat, job: Job)
    returns (longer: seq<Sys>, i: nat, j: nat, m: nat, n: nat)
    requires Ready(run, t, [job], [u], w) && CleanFrom(run, w) && Clean(Last(run), w) && w.from <= |run| && w.updaters == {u}
    requires Updated(StoredConfig(Last(run), w.name), job) in w.configs
    requires DifferTwice(StoredConfig(Last(run), w.name), Updated(StoredConfig(Last(run), w.name), job))
    ensures run <= longer && CleanFrom(longer, w)
    ensures var before, after := StoredConfig(Last(run), w.name), Updated(StoredConfig(Last(run), w.name), job);
            && Tears(longer, i, j, m, n, t, u, w.name, before, after)
            && longer[j].threads[t].result == Torn(FirstDifference(before, after), before, after)
  {
    var before, after := StoredConfig(Last(run), w.name), Updated(StoredConfig(Last(run), w.name), job);
    var order := FirstDifference(before, after);
    ReadyIsFresh(run, t, [job], [u], w);
    assert [job][0] == job && [u][0] == u && u in [u];
    var r1, r2, r3 := GetAroundUpdate(run, w, t, u, job, order);
    AroundOverlaps(run, r1, r2, r3, w, t, u, before, after, order);
    TornIsNeither(before, after);
    longer, i, j, m, n := r3, |run| + 3, |r3| - 1, |r1| + 1, |r2| - 1;
  }

  /**
   The one-Update case: the run can go on to a Get that overlaps just this Update and returns neither the old config nor
   the new one, if and only if the two differ in two fields.
   */
  lemma UpdateTearsIff(run: seq<Sys>, t: nat, u: nat, job: Job, name: string)
    requires run != [] && Idle(Last(run), name) && Ready(run, t, [job], [u], WatchOf(run, name, [job], [u]))
    ensures var before, after := StoredConfig(Last(run), name), Updated(StoredConfig(Last(run), name), job);
            (exists longer, i, j, m, n :: run <= longer && Tears(longer, i, j, m, n, t, u, name, before, after))
            <==> DifferTwice(before, after)
  {
    var before, after := StoredConfig(Last(run), name), Updated(StoredConfig(Last(run), name), job);
    if DifferTwice(before, after) {
      var w := WatchOf(run, name, [job], [u]);
      ReadyIsClean(run, t, [job], [u], name);
      assert After(before, [job], 1) in Chain(before, [job]);
      var longer, i, j, m, n := OverlapTears(run, w, t, u, job);
    } else {
      forall longer, i, j, m, n | Overlaps(longer, i, j, m, n, t, u, name, before, after)
        ensures !Tears(longer, i, j, m, n, t, u, name, before, after)
      {
        OverlapReturnsWhole(longer, i, j, m, n, t, u, name, before, after);
      }
    }
  }

  // ---- Runs from the start -----------------------------------------------------------------

  lemma FirstMiss(w: Watch, env: Env) returns (run: seq<Sys>)
    ensures CleanFrom(run, w) && run != []
    ensures Last(run) == Sys([], map[], {}, None, map[0 := Get(w.name)], map[0 := Missed], [])
  {
    var r0 := [EMPTY];
    assert IsRun(r0) && CleanFrom(r0, w);
    var r1 := Arrives(r0, w, 0, Get(w.name));
    var r2 := Steps(r1, w, 0, env);
    assert Last(r2) == Sys([], map[], {0}, None, map[0 := Get(w.name)], map[0 := Looking], []);
    var r3 := Steps(r2, w, 0, env);
    assert Last(r3) == Last(r2).(threads := map[0 := Looked(None)]);
    run := Steps(r3, w, 0, env);
  }

  /** The first Get of a name, running alone, installs the default and returns it. */
  lemma FirstGet(w: Watch, now: int) returns (run: seq<Sys>)
    requires Config(w.name, "", map[], Some(now)) in w.configs
    ensures CleanFrom(run, w) && run != [] && Clean(Last(run), w)
    ensures var s, default_ := Last(run), Config(w.name, "", map[], Some(now));
            Idle(s, w.name) && s.calls.Keys == {0} && StoredConfig(s, w.name) == default_
  {
    var default_, env := Config(w.name, "", map[], Some(now)), Env(now, ANY_ORDER);
    var r1 := FirstMiss(w, env);
    var r2 := Steps(r1, w, 0, env);
    assert Last(r2) == Last(r1).(writer := Some(0), threads := map[0 := Checking]);
    var r3 := Steps(r2, w, 0, env);
    assert Last(r3) == Last(r2).(heap := [default_], configs := map[w.name := 0], defaults := [w.name],
                                 threads := map[0 := StartClone(w.name, 0, true, env.order)]);
    run := LockedClone(r3, w, 0, 0, env);
  }

  predicate Committed(s: Sys, name: string, c: Config) {
    Stored(s, name, c) && !UpdateInside(s, name)
  }

  lemma CleanCommitsOnly(run: seq<Sys>, w: Watch, c: Config)
    requires CleanFrom(run, w) && w.from == 0 && c !in w.configs
    ensures forall k :: 0 <= k < |run| ==> !Committed(run[k], w.name, c)
  {
    assert forall k :: 0 <= k < |run| ==> Clean(run[k], w);
  }

  /**
   A Get that overlaps an Update of its name can return a config that was never committed in the whole run: the old key
   with the new labels and update time.
   */
  lemma GetCanTear(name: string, key: string, labels: map<string, string>, first: int, now: int) returns (run: seq<Sys>)
    requires name != "" && key != "" && labels != map[]
    ensures var torn := Config(name, "", labels, Some(now));
            && IsRun(run) && (forall k :: 0 <= k < |run| ==> !Committed(run[k], name, torn))
            && exists j: nat :: j < |run| && 1 in run[j].calls && run[j].calls[1] == Get(name)
                                && 1 in run[j].threads && run[j].threads[1] == Returned(torn)
  {
    var default_, after := Config(name, "", map[], Some(first)), Config(name, key, labels, Some(now));
    var w, job := Watch(0, name, {2}, {default_, after}), Job(Config(name, key, labels, None), None, now);
    var start := FirstGet(w, first);
    var i, j, m, n;
    run, i, j, m, n := OverlapTears(start, w, 1, 2, job);
    CleanCommitsOnly(run, w, Config(name, "", labels, Some(now)));
    assert run[j].threads[1] == Returned(Config(name, "", labels, Some(now)));
  }

  /** One Update of the key and one of the labels, stamped with one reading of the clock. */
  function OneFieldEach(name: string, key: string, labels: map<string, string>, now: int): seq<Job> {
    [Job(Config(name, key, map[], None), Some(["crypto_key_name"]), now), Job(Config(name, "", labels, None), Some(["labels"]), now)]
  }

  lemma OneFieldEachLeave(name: string, key: string, labels: map<string, string>, now: int)
    ensures var c, jobs := Config(name, "", map[], Some(now)), OneFieldEach(name, key, labels, now);
            && After(c, jobs, 0) == c && After(c, jobs, 1) == c.(key := key) && After(c, jobs, 2) == c.(key := key, labels := labels)
            && Chain(c, jobs) == {After(c, jobs, 0), After(c, jobs, 1), After(c, jobs, 2)}
  {
    var c, jobs := Config(name, "", map[], Some(now)), OneFieldEach(name, key, labels, now);
    SinglePath("crypto_key_name");
    SinglePath("labels");
    assert |"labels"| == 6 && |"crypto_key_name"| == 15 && |"*"| == 1;
    assert After(c, jobs, 1) == Updated(After(c, jobs, 0), jobs[0]) && After(c, jobs, 2) == Updated(After(c, jobs, 1), jobs[1]);
  }

  /**
   Two Updates can tear a Get that neither could tear alone: each changes one field only, and the Get returns the key
   from before both with the labels from after both, never committed in the whole run.
   */
  lemma TwoUpdatesTear(name: string, key: string, labels: map<string, string>, now: int) returns (run: seq<Sys>)
    requires name != "" && key != "" && labels != map[]
    ensures var c, jobs := Config(name, "", map[], Some(now)), OneFieldEach(name, key, labels, now);
            && !DifferTwice(c, After(c, jobs, 1)) && !DifferTwice(After(c, jobs, 1), After(c, jobs, 2))
            && IsRun(run) && (forall k :: 0 <= k < |run| ==> !Committed(run[k], name, c.(labels := labels)))
            && exists j: nat :: j < |run| && 1 in run[j].calls && run[j].calls[1] == Get(name)
                                && 1 in run[j].threads && run[j].threads[1] == Returned(c.(labels := labels))
  {
    var c, jobs := Config(name, "", map[], Some(now)), OneFieldEach(name, key, labels, now);
    OneFieldEachLeave(name, key, labels, now);
    var w := Watch(0, name, {2, 3}, Chain(c, jobs));
    assert c in w.configs;
    var start := FirstGet(w, now);
    var i, j;
    run, i, j := GetTakes(start, w, 1, jobs, [2, 3], c, 0, 2, 0);
    CleanCommitsOnly(run, w, c.(labels := labels));
    assert run[j].threads[1] == Returned(c.(labels := labels));
  }
}
