/**
 GetGoogleChannelConfig and UpdateGoogleChannelConfig of internal/server/storage_channel.go, interleaved at every lock
 operation, map access and field access. Stored configs live at addresses, because the fast path of a Get copies the
 stored object field by field after it has released the read lock, while an Update writes that object in place.
 */
module ChannelConfig {
  import opened FieldMasks
  import opened Wrappers

  datatype Config = Config(name: string, key: string, labels: map<string, string>, updateTime: Option<int>)

  datatype Call = Get(getName: string) | Update(cfg: Config, mask: FieldMask) {
    function Name(): string {
      if Get? then getName else cfg.name
    }
  }

  datatype Field = KeyField | LabelsField | TimeField

  /** An order in which a copy may take the fields. */
  type Order = o: seq<Field> | IsOrder(o) witness [KeyField, LabelsField, TimeField]

  predicate IsOrder(o: seq<Field>) {
    |o| == 3 && KeyField in o && LabelsField in o && TimeField in o
  }

  /** What a step draws from its environment: a reading of the clock, and the order that a copy it starts will follow. */
  datatype Env = Env(now: int, order: Order)

  datatype FieldWrite = SetKey(key: string) | SetLabels(labels: map<string, string>)

  /** A thread's place in its call: what it holds and what it does next. */
  datatype Pc =
    | Waiting                                                            // for the first lock of the call
    | Looking                                                            // read lock held, about to look up
    | Looked(found: Option<nat>)                                         // read lock held, about to release it
    | Missed                                                             // no lock held, waiting for the write lock
    | Checking                                                           // write lock held, about to look up again
    | Merging(cfg: Config, mask: FieldMask)                              // write lock held, about to look up
    | Writing(address: nat, todo: seq<FieldWrite>)                       // write lock held, writing the stored object
    | Installing(address: nat)                                           // write lock held, about to store the pointer
    | Cloning(address: nat, locked: bool, rest: seq<Field>, copy: Config)  // write lock held if locked
    | Returned(result: Config)
    | Failed

  /** The heap, the stored map of pointers, the read-write lock, the threads, and the names given a default so far. */
  datatype Sys = Sys(heap: seq<Config>, configs: map<string, nat>, readers: set<nat>, writer: Option<nat>,
                     calls: map<nat, Call>, threads: map<nat, Pc>, defaults: seq<string>)

  const EMPTY: Sys := Sys([], map[], {}, None, map[], map[], [])

  // ---- Steps -------------------------------------------------------------------------------

  function PathWrites(cfg: Config, path: string): seq<FieldWrite> {
    match path
    case "crypto_key_name" => [SetKey(cfg.key)]
    case "labels" => [SetLabels(cfg.labels)]
    case "*" => [SetKey(cfg.key), SetLabels(cfg.labels)]
    case _ => []
  }

  function MaskWrites(cfg: Config, paths: seq<string>): seq<FieldWrite> {
    if paths == [] then [] else MaskWrites(cfg, paths[..|paths| - 1]) + PathWrites(cfg, paths[|paths| - 1])
  }

  function WritesOf(cfg: Config, mask: FieldMask): seq<FieldWrite> {
    if mask.None? then [SetKey(cfg.key), SetLabels(cfg.labels)] else MaskWrites(cfg, mask.value)
  }

  function Apply(c: Config, w: FieldWrite): Config {
    match w
    case SetKey(key) => c.(key := key)
    case SetLabels(labels) => c.(labels := labels)
  }

  function StartClone(name: string, address: nat, locked: bool, order: Order): Pc {
    Cloning(address, locked, order, Config(name, "", map[], None))
  }

  function CopyField(copy: Config, f: Field, stored: Config): Config {
    match f
    case KeyField => copy.(key := stored.key)
    case LabelsField => copy.(labels := stored.labels)
    case TimeField => copy.(updateTime := stored.updateTime)
  }

  /** What a step does to the shared state. */
  datatype Effect =
    | Silent | RLock | RUnlock | Lock | Unlock
    | Allocate(cfg: Config) | InstallDefault(cfg: Config) | Store(address: nat, cfg: Config) | Publish(address: nat)

  predicate AddressInHeap(heap: seq<Config>, pc: Pc) {
    && (pc.Looked? && pc.found.Some? ==> pc.found.value < |heap|)
    && (pc.Writing? || pc.Installing? || pc.Cloning? ==> pc.address < |heap|)
  }

  /** One step of a call: its effect, and where the call then stands; a Get's name and an Update's are copied as such. */
  function Turn(call: Call, pc: Pc, entry: Option<nat>, heap: seq<Config>, env: Env): (Effect, Pc)
    requires AddressInHeap(heap, pc)
  {
    var name := call.Name();
    match pc
    case Waiting => if call.Get? then (RLock, Looking) else (Lock, Merging(call.cfg, call.mask))
    case Looking => (Silent, Looked(entry))
    case Looked(found) => (RUnlock, if found.Some? then StartClone(name, found.value, false, env.order) else Missed)
    case Missed => (Lock, Checking)
    case Checking =>
      if entry.Some? then (Silent, StartClone(name, entry.value, true, env.order))
      else (InstallDefault(Config(name, "", map[], Some(env.now))), StartClone(name, |heap|, true, env.order))
    case Merging(cfg, mask) =>
      if name == "" then (Unlock, Failed)
      else if entry.Some? then (Silent, Writing(entry.value, WritesOf(cfg, mask)))
      else (Allocate(Config(name, "", map[], None)), Writing(|heap|, WritesOf(cfg, mask)))
    case Writing(p, todo) =>
      if todo == [] then (Store(p, heap[p].(updateTime := Some(env.now))), Installing(p))
      else (Store(p, Apply(heap[p], todo[0])), Writing(p, todo[1..]))
    case Installing(p) => (Publish(p), StartClone(name, p, true, env.order))
    case Cloning(p, locked, rest, copy) =>
      if rest != [] then (Silent, Cloning(p, locked, rest[1..], CopyField(copy, rest[0], heap[p])))
      else (if locked then Unlock else Silent, Returned(copy))
    case Returned(_) => (Silent, pc)
    case Failed => (Silent, pc)
  }

  function Perform(s: Sys, t: nat, name: string, e: Effect): Sys {
    match e
    case Silent => s
    case RLock => s.(readers := s.readers + {t})
    case RUnlock => s.(readers := s.readers - {t})
    case Lock => s.(writer := Some(t))
    case Unlock => s.(writer := None)
    case Allocate(cfg) => s.(heap := s.heap + [cfg])
    case InstallDefault(cfg) =>
      s.(heap := s.heap + [cfg], configs := s.configs[name := |s.heap|], defaults := s.defaults + [name])
    case Store(p, cfg) => if p < |s.heap| then s.(heap := s.heap[p := cfg]) else s
    case Publish(p) => s.(configs := s.configs[name := p])
  }

  /** The lock a thread waits for is free. */
  predicate Enabled(s: Sys, call: Call, pc: Pc) {
    match pc
    case Waiting => s.writer.None? && (call.Get? || s.readers == {})
    case Missed => s.writer.None? && s.readers == {}
    case Returned(_) => false
    case Failed => false
    case _ => true
  }

  function Entry(s: Sys, name: string): Option<nat> {
    if name in s.configs then Some(s.configs[name]) else None
  }

  predicate CanStep(s: Sys, t: nat) {
    && t in s.threads && t in s.calls && Enabled(s, s.calls[t], s.threads[t])
    && AddressInHeap(s.heap, s.threads[t])
  }

  function StepOf(s: Sys, t: nat, env: Env): Sys
    requires CanStep(s, t)
  {
    var name := s.calls[t].Name();
    var (e, pc) := Turn(s.calls[t], s.threads[t], Entry(s, name), s.heap, env);
    Perform(s, t, name, e).(threads := s.threads[t := pc])
  }

  function Arrive(s: Sys, t: nat, call: Call): Sys {
    s.(calls := s.calls[t := call], threads := s.threads[t := Waiting])
  }

  /** A call arrives, or a thread whose lock is free takes a step. */
  ghost predicate Next(s: Sys, s': Sys) {
    || (exists t: nat, call ::
          t !in s.calls && s' == Arrive(s, t, call))
    || (exists t, env :: CanStep(s, t) && s' == StepOf(s, t, env))
  }

  ghost predicate Follows(run: seq<Sys>, k: nat)
    requires 0 < k < |run|
  {
    Next(run[k - 1], run[k])
  }

  ghost predicate IsRun(run: seq<Sys>) {
    && run != [] && run[0] == EMPTY
    && forall k :: 0 < k < |run| ==> Follows(run, k)
  }

  // ---- The lock ----------------------------------------------------------------------------

  predicate HoldsRead(pc: Pc) {
    pc.Looking? || pc.Looked?
  }

  predicate HoldsWrite(pc: Pc) {
    pc.Checking? || pc.Merging? || pc.Writing? || pc.Installing? || (pc.Cloning? && pc.locked)
  }

  /** The lock knows exactly who is inside, and a writer is alone. */
  ghost predicate LockMatches(s: Sys) {
    && s.threads.Keys == s.calls.Keys
    && (forall t :: t in s.readers <==> t in s.threads && HoldsRead(s.threads[t]))
    && (forall t :: s.writer == Some(t) <==> t in s.threads && HoldsWrite(s.threads[t]))
    && (s.writer.Some? ==> s.readers == {})
  }

  // ---- Pointers and copies -----------------------------------------------------------------

  predicate PointsTo(s: Sys, name: string, p: nat) {
    p < |s.heap| && s.heap[p].name == name && name in s.configs && s.configs[name] == p
  }

  /** The object is the stored one of that name, or a new one that no entry shadows. */
  predicate MayStore(s: Sys, name: string, p: nat) {
    p < |s.heap| && s.heap[p].name == name && (name in s.configs ==> s.configs[name] == p)
  }

  /** Every field that is no longer to be copied agrees with the stored object. */
  predicate CopiedFrom(copy: Config, rest: seq<Field>, stored: Config) {
    && copy.name == stored.name && (KeyField !in rest ==> copy.key == stored.key)
    && (LabelsField !in rest ==> copy.labels == stored.labels)
    && (TimeField !in rest ==> copy.updateTime == stored.updateTime)
  }

  /** A thread has hold of its own name's object only, and only an Update writes. */
  predicate HoldsOwn(s: Sys, call: Call, pc: Pc) {
    match pc
    case Looked(found) => found.Some? ==> PointsTo(s, call.Name(), found.value)
    case Merging(cfg, _) => call.Update? && cfg.name == call.Name()
    case Writing(p, _) => call.Update? && MayStore(s, call.Name(), p)
    case Installing(p) => call.Update? && MayStore(s, call.Name(), p)
    case Cloning(p, _, _, copy) => PointsTo(s, call.Name(), p) && copy.name == call.Name()
    case _ => true
  }

  /** A copy made under the write lock, or of a quiet name, agrees with the stored object; so does a quiet name's result. */
  predicate Faithful(s: Sys, name: string, pc: Pc, quiet: bool) {
    match pc
    case Cloning(p, locked, rest, copy) =>
      locked || quiet ==> p < |s.heap| && CopiedFrom(copy, rest, s.heap[p])
    case Returned(result) => quiet ==> name in s.configs && PointsTo(s, name, s.configs[name]) && s.heap[s.configs[name]] == result
    case _ => true
  }

  /** No Update of the name has arrived. */
  ghost predicate Quiet(s: Sys, name: string) {
    forall t :: t in s.calls && s.calls[t].Update? ==> s.calls[t].cfg.name != name
  }

  ghost predicate ThreadsMatch(s: Sys) {
    forall t :: t in s.threads && t in s.calls ==>
                  && HoldsOwn(s, s.calls[t], s.threads[t])
                  && Faithful(s, s.calls[t].Name(), s.threads[t], Quiet(s, s.calls[t].Name()))
  }

  ghost predicate EntriesMatch(s: Sys) {
    forall n :: n in s.configs ==> PointsTo(s, n, s.configs[n])
  }

  predicate IsDefault(c: Config) {
    c.key == "" && c.labels == map[] && c.updateTime.Some?
  }

  /** A quiet name that is stored still holds its default. */
  ghost predicate QuietEntriesMatch(s: Sys) {
    forall n :: n in s.configs && PointsTo(s, n, s.configs[n]) && Quiet(s, n) ==> IsDefault(s.heap[s.configs[n]])
  }

  /** Names given a default are stored, and were given it once. */
  ghost predicate DefaultsMatch(s: Sys) {
    && (forall k :: 0 <= k < |s.defaults| ==> s.defaults[k] in s.configs)
    && (forall j, k :: 0 <= j < k < |s.defaults| ==> s.defaults[j] != s.defaults[k])
  }

  ghost predicate Inv(s: Sys) {
    LockMatches(s) && EntriesMatch(s) && ThreadsMatch(s) && QuietEntriesMatch(s) && DefaultsMatch(s)
  }

  // ---- Steps and the lock ------------------------------------------------------------------

  /** A step enters and leaves the lock just as its program counters say, and changes the store only inside it. */
  predicate Disciplined(pc: Pc, e: Effect, pc': Pc) {
    && (e.RLock? <==> !HoldsRead(pc) && HoldsRead(pc'))
    && (e.RUnlock? <==> HoldsRead(pc) && !HoldsRead(pc'))
    && (e.Lock? <==> !HoldsWrite(pc) && HoldsWrite(pc'))
    && (e.Unlock? <==> HoldsWrite(pc) && !HoldsWrite(pc'))
    && (e.Allocate? || e.InstallDefault? || e.Store? || e.Publish? ==> HoldsWrite(pc))
  }

  lemma TurnIsDisciplined(s: Sys, call: Call, pc: Pc, env: Env)
    requires Enabled(s, call, pc) && AddressInHeap(s.heap, pc)
    ensures var (e, pc') := Turn(call, pc, Entry(s, call.Name()), s.heap, env);
            && Disciplined(pc, e, pc')
            && (e.Lock? ==> s.writer.None? && s.readers == {}) && (e.RLock? ==> s.writer.None?)
  {
  }

  lemma StepKeepsLock(s: Sys, t: nat, name: string, e: Effect, pc': Pc)
    requires LockMatches(s) && t in s.threads && Disciplined(s.threads[t], e, pc')
    requires (e.Lock? ==> s.writer.None? && s.readers == {}) && (e.RLock? ==> s.writer.None?)
    ensures LockMatches(Perform(s, t, name, e).(threads := s.threads[t := pc']))
  {
    assert t in s.readers <==> HoldsRead(s.threads[t]);
    assert s.writer == Some(t) <==> HoldsWrite(s.threads[t]);
  }

  // ---- Steps and the store -----------------------------------------------------------------

  /** The effect concerns the named object alone. */
  predicate Concerns(s: Sys, name: string, e: Effect) {
    match e
    case Allocate(cfg) => cfg.name == name
    case InstallDefault(cfg) => cfg.name == name && IsDefault(cfg) && name !in s.configs
    case Store(p, cfg) => MayStore(s, name, p) && cfg.name == name
    case Publish(p) => MayStore(s, name, p)
    case _ => true
  }

  lemma TurnConcernsOwn(s: Sys, call: Call, pc: Pc, env: Env)
    requires AddressInHeap(s.heap, pc) && HoldsOwn(s, call, pc)
    ensures var e := Turn(call, pc, Entry(s, call.Name()), s.heap, env).0;
            Concerns(s, call.Name(), e) && (e.Store? || e.Publish? ==> call.Update?)
  {
  }

  /** What a step leaves alone: entries once present, the names of objects, and all objects but one it stores into. */
  ghost predicate Preserves(s: Sys, s': Sys, name: string, stores: bool) {
    && |s.heap| <= |s'.heap|
    && (forall p :: 0 <= p < |s.heap| ==> s'.heap[p].name == s.heap[p].name)
    && (forall p :: 0 <= p < |s.heap| && !(stores && s.heap[p].name == name) ==> s'.heap[p] == s.heap[p])
    && (forall n :: n in s.configs ==> n in s'.configs && s'.configs[n] == s.configs[n])
    && (forall n :: n in s'.configs && n !in s.configs ==> n == name)
  }

  lemma EffectPreserves(s: Sys, t: nat, name: string, e: Effect)
    requires EntriesMatch(s) && Concerns(s, name, e)
    ensures var s' := Perform(s, t, name, e);
            Preserves(s, s', name, e.Store?) && EntriesMatch(s')
            && (!e.InstallDefault? && !e.Publish? ==> s'.configs == s.configs)
  {
  }

  lemma EffectKeepsDefaults(s: Sys, t: nat, name: string, e: Effect)
    requires DefaultsMatch(s) && Concerns(s, name, e)
    ensures DefaultsMatch(Perform(s, t, name, e))
  {
  }

  lemma CopyGoesOn(copy: Config, rest: seq<Field>, stored: Config)
    requires rest != [] && CopiedFrom(copy, rest, stored)
    ensures CopiedFrom(CopyField(copy, rest[0], stored), rest[1..], stored)
  {
    assert forall f :: f in rest ==> f == rest[0] || f in rest[1..];
  }

  lemma CopierKeepsMatching(s: Sys, t: nat, call: Call, pc: Pc, env: Env, quiet: bool)
    requires EntriesMatch(s) && AddressInHeap(s.heap, pc) && pc.Cloning?
    requires HoldsOwn(s, call, pc) && Faithful(s, call.Name(), pc, quiet)
    ensures var (e, pc') := Turn(call, pc, Entry(s, call.Name()), s.heap, env);
            var s' := Perform(s, t, call.Name(), e);
            HoldsOwn(s', call, pc') && Faithful(s', call.Name(), pc', quiet)
  {
    if pc.rest != [] && (pc.locked || quiet) {
      CopyGoesOn(pc.copy, pc.rest, s.heap[pc.address]);
    }
  }

  lemma StepperKeepsMatching(s: Sys, t: nat, call: Call, pc: Pc, env: Env, quiet: bool)
    requires EntriesMatch(s) && Enabled(s, call, pc) && AddressInHeap(s.heap, pc)
    requires HoldsOwn(s, call, pc) && Faithful(s, call.Name(), pc, quiet)
    ensures var (e, pc') := Turn(call, pc, Entry(s, call.Name()), s.heap, env);
            var s' := Perform(s, t, call.Name(), e);
            HoldsOwn(s', call, pc') && Faithful(s', call.Name(), pc', quiet)
  {
    if pc.Cloning? {
      CopierKeepsMatching(s, t, call, pc, env, quiet);
    }
  }

  /** A step of another thread disturbs neither what a thread holds nor a copy that is locked or of a quiet name. */
  lemma OthersKeepMatching(s: Sys, s': Sys, call: Call, pc: Pc, stepper: string, e: Effect, quiet: bool)
    requires Preserves(s, s', stepper, e.Store?) && EntriesMatch(s')
    requires HoldsOwn(s, call, pc) && Faithful(s, call.Name(), pc, quiet)
    requires e.Store? ==> !HoldsWrite(pc) && !(quiet && stepper == call.Name())
    requires HoldsWrite(pc) ==> s'.configs == s.configs
    ensures HoldsOwn(s', call, pc) && Faithful(s', call.Name(), pc, quiet)
  {
  }

  lemma EffectKeepsQuietEntries(s: Sys, t: nat, call: Call, e: Effect)
    requires EntriesMatch(s) && QuietEntriesMatch(s) && Concerns(s, call.Name(), e)
    requires t in s.calls && s.calls[t] == call && (e.Store? || e.Publish? ==> call.Update?)
    ensures QuietEntriesMatch(Perform(s, t, call.Name(), e))
  {
    var s' := Perform(s, t, call.Name(), e);
    EffectPreserves(s, t, call.Name(), e);
    assert forall n :: Quiet(s', n) <==> Quiet(s, n);
    assert e.Store? || e.Publish? ==> !Quiet(s, call.Name());
  }

  lemma ArrivalQuiets(s: Sys, t: nat, call: Call, name: string)
    requires t !in s.calls && Quiet(Arrive(s, t, call), name)
    ensures Quiet(s, name)
  {
    assert forall u :: u in s.calls ==> Arrive(s, t, call).calls[u] == s.calls[u];
  }

  lemma ArrivalKeepsThreads(s: Sys, t: nat, call: Call)
    requires LockMatches(s) && ThreadsMatch(s) && t !in s.calls
    ensures ThreadsMatch(Arrive(s, t, call))
  {
    var s' := Arrive(s, t, call);
    forall u | u in s'.threads && u in s'.calls
      ensures HoldsOwn(s', s'.calls[u], s'.threads[u])
      ensures Faithful(s', s'.calls[u].Name(), s'.threads[u], Quiet(s', s'.calls[u].Name()))
    {
      if u != t && Quiet(s', s.calls[u].Name()) {
        ArrivalQuiets(s, t, call, s.calls[u].Name());
      }
    }
  }

  lemma ArrivalKeepsInv(s: Sys, t: nat, call: Call)
    requires Inv(s) && t !in s.calls
    ensures Inv(Arrive(s, t, call))
  {
    ArrivalKeepsThreads(s, t, call);
    forall n | Quiet(Arrive(s, t, call), n) ensures Quiet(s, n) {
      ArrivalQuiets(s, t, call, n);
    }
  }

  lemma StepSparesOthers(s: Sys, t: nat, env: Env, u: nat)
    requires Inv(s) && CanStep(s, t) && u in s.threads && u in s.calls && u != t
    ensures var s', quiet := StepOf(s, t, env), Quiet(s, s.calls[u].Name());
            HoldsOwn(s', s.calls[u], s.threads[u]) && Faithful(s', s.calls[u].Name(), s.threads[u], quiet)
  {
    var call, quiet := s.calls[t], Quiet(s, s.calls[u].Name());
    var (e, pc') := Turn(call, s.threads[t], Entry(s, call.Name()), s.heap, env);
    TurnIsDisciplined(s, call, s.threads[t], env);
    TurnConcernsOwn(s, call, s.threads[t], env);
    EffectPreserves(s, t, call.Name(), e);
    assert s.writer == Some(u) <==> HoldsWrite(s.threads[u]);
    assert s.writer == Some(t) <==> HoldsWrite(s.threads[t]);
    OthersKeepMatching(s, Perform(s, t, call.Name(), e), s.calls[u], s.threads[u], call.Name(), e, quiet);
  }

  lemma StepMatchesStepper(s: Sys, t: nat, env: Env)
    requires Inv(s) && CanStep(s, t)
    ensures var s', call := StepOf(s, t, env), s.calls[t];
            HoldsOwn(s', call, s'.threads[t]) && Faithful(s', call.Name(), s'.threads[t], Quiet(s, call.Name()))
  {
    StepperKeepsMatching(s, t, s.calls[t], s.threads[t], env, Quiet(s, s.calls[t].Name()));
  }

  lemma StepKeepsThreads(s: Sys, s': Sys, t: nat, pc': Pc)
    requires ThreadsMatch(s) && t in s.threads && t in s.calls
    requires s'.threads == s.threads[t := pc'] && s'.calls == s.calls
    requires HoldsOwn(s', s.calls[t], pc') && Faithful(s', s.calls[t].Name(), pc', Quiet(s, s.calls[t].Name()))
    requires forall u :: u in s.threads && u in s.calls && u != t ==>
               && HoldsOwn(s', s.calls[u], s.threads[u])
               && Faithful(s', s.calls[u].Name(), s.threads[u], Quiet(s, s.calls[u].Name()))
    ensures ThreadsMatch(s')
  {
    assert forall n :: Quiet(s', n) <==> Quiet(s, n);
  }

  lemma StepShape(s: Sys, t: nat, env: Env)
    requires CanStep(s, t)
    ensures var s' := StepOf(s, t, env); s'.calls == s.calls && t in s'.threads && s'.threads == s.threads[t := s'.threads[t]]
  {
  }

  lemma StepMatchesThreads(s: Sys, t: nat, env: Env)
    requires Inv(s) && CanStep(s, t)
    ensures ThreadsMatch(StepOf(s, t, env))
  {
    var s' := StepOf(s, t, env);
    StepShape(s, t, env);
    StepMatchesStepper(s, t, env);
    forall u | u in s.threads && u in s.calls && u != t
      ensures HoldsOwn(s', s.calls[u], s.threads[u])
      ensures Faithful(s', s.calls[u].Name(), s.threads[u], Quiet(s, s.calls[u].Name()))
    {
      StepSparesOthers(s, t, env, u);
    }
    StepKeepsThreads(s, s', t, s'.threads[t]);
  }

  lemma StepKeepsInv(s: Sys, t: nat, env: Env)
    requires Inv(s) && CanStep(s, t)
    ensures Inv(StepOf(s, t, env))
  {
    var call := s.calls[t];
    var (e, pc') := Turn(call, s.threads[t], Entry(s, call.Name()), s.heap, env);
    TurnIsDisciplined(s, call, s.threads[t], env);
    TurnConcernsOwn(s, call, s.threads[t], env);
    StepKeepsLock(s, t, call.Name(), e, pc');
    EffectPreserves(s, t, call.Name(), e);
    EffectKeepsDefaults(s, t, call.Name(), e);
    EffectKeepsQuietEntries(s, t, call, e);
    var s1, s' := Perform(s, t, call.Name(), e), StepOf(s, t, env);
    StepMatchesThreads(s, t, env);
    assert forall n :: Quiet(s', n) <==> Quiet(s1, n);
  }

  /** The invariant holds after every step of every run. */
  lemma {:induction false} InvAlways(run: seq<Sys>, k: nat)
    requires IsRun(run) && k < |run|
    ensures Inv(run[k])
  {
    if k > 0 {
      InvAlways(run, k - 1);
      var s, s' := run[k - 1], run[k];
      assert Follows(run, k);
      if t: nat, call :| t !in s.calls && s' == Arrive(s, t, call) {
        ArrivalKeepsInv(s, t, call);
      } else {
        var t, env :| CanStep(s, t) && s' == StepOf(s, t, env);
        StepKeepsInv(s, t, env);
      }
    }
  }

  // ---- What every run keeps ----------------------------------------------------------------

  ghost predicate Lasts(s: Sys, s': Sys) {
    && (forall n :: n in s.configs ==> n in s'.configs && s'.configs[n] == s.configs[n])
    && (forall t :: t in s.threads && t in s.calls && s.threads[t].Returned? ==>
          t in s'.calls && s'.calls[t] == s.calls[t] && t in s'.threads && s'.threads[t] == s.threads[t])
  }

  lemma StepLasts(s: Sys, t: nat, env: Env)
    requires Inv(s) && CanStep(s, t)
    ensures Lasts(s, StepOf(s, t, env))
  {
    var (e, _) := Turn(s.calls[t], s.threads[t], Entry(s, s.calls[t].Name()), s.heap, env);
    TurnConcernsOwn(s, s.calls[t], s.threads[t], env);
    EffectPreserves(s, t, s.calls[t].Name(), e);
  }

  lemma NextLasts(s: Sys, s': Sys)
    requires Inv(s) && Next(s, s')
    ensures Lasts(s, s')
  {
    if t, env :| CanStep(s, t) && s' == StepOf(s, t, env) {
      StepLasts(s, t, env);
    }
  }

  lemma LastsOn(a: Sys, b: Sys, c: Sys)
    requires Lasts(a, b) && Lasts(b, c)
    ensures Lasts(a, c)
  {
  }

  /** Once a name is stored its pointer is never replaced, and a call that has returned keeps its result. */
  lemma {:induction false} EntriesStay(run: seq<Sys>, i: nat, j: nat)
    requires IsRun(run) && i <= j < |run|
    ensures Lasts(run[i], run[j])
    decreases j
  {
    if i < j {
      EntriesStay(run, i, j - 1);
      InvAlways(run, j - 1);
      assert Follows(run, j);
      NextLasts(run[j - 1], run[j]);
      LastsOn(run[i], run[j - 1], run[j]);
    }
  }

  /** In every interleaving, Updates included, a name is given a default at most once. */
  lemma DefaultInstalledAtMostOnce(run: seq<Sys>, k: nat, name: string)
    requires IsRun(run) && k < |run|
    ensures multiset(run[k].defaults)[name] <= 1
    ensures multiset(run[k].defaults)[name] == 1 ==> name in run[k].configs
  {
    InvAlways(run, k);
    NoRepeats(run[k].defaults, name);
  }

  lemma {:induction false} NoRepeats(names: seq<string>, name: string)
    requires forall j, k :: 0 <= j < k < |names| ==> names[j] != names[k]
    ensures multiset(names)[name] <= 1 && (multiset(names)[name] == 1 ==> name in names)
  {
    if names != [] {
      var last := |names| - 1;
      NoRepeats(names[..last], name);
      assert names == names[..last] + [names[last]];
      assert multiset(names)[name] > 0 ==> name in names;
      assert name in names[..last] ==> name != names[last];
    }
  }

  /**
   While no Update of the name has arrived, all its Gets, whenever they returned, returned one and the same value: the
   default, with one update time.
   */
  lemma QuietGetsAgree(run: seq<Sys>, i: nat, t: nat, j: nat, u: nat)
    requires IsRun(run) && i < |run| && j < |run|
    requires t in run[i].threads && run[i].threads[t].Returned? && t in run[i].calls
    requires u in run[j].threads && run[j].threads[u].Returned? && u in run[j].calls
    requires run[i].calls[t].Name() == run[j].calls[u].Name()
    requires Quiet(run[i], run[i].calls[t].Name()) && Quiet(run[j], run[i].calls[t].Name())
    ensures run[i].threads[t] == run[j].threads[u] && IsDefault(run[i].threads[t].result)
  {
    var k := if i < j then j else i;
    EntriesStay(run, i, k);
    EntriesStay(run, j, k);
    InvAlways(run, k);
    var s, name := run[k], run[i].calls[t].Name();
    assert Faithful(s, name, s.threads[t], Quiet(s, name)) && Faithful(s, name, s.threads[u], Quiet(s, name));
  }

  /** A copy completed under the write lock is the stored config, Updates or not. */
  lemma LockedCopyIsCurrent(run: seq<Sys>, k: nat, t: nat)
    requires IsRun(run) && k < |run| && t in run[k].threads && run[k].threads[t].Cloning?
    requires run[k].threads[t].locked && run[k].threads[t].rest == []
    ensures var s := run[k];
            && t in s.calls && s.calls[t].Name() in s.configs && s.configs[s.calls[t].Name()] < |s.heap|
            && s.threads[t].copy == s.heap[s.configs[s.calls[t].Name()]]
  {
    InvAlways(run, k);
    var s := run[k];
    assert HoldsOwn(s, s.calls[t], s.threads[t]);
    assert Faithful(s, s.calls[t].Name(), s.threads[t], Quiet(s, s.calls[t].Name()));
  }

  // ---- What an Update writes ---------------------------------------------------------------

  function Merged(stored: Config, cfg: Config, mask: FieldMask): Config {
    stored.(key := if Masks(mask, "crypto_key_name") then cfg.key else stored.key,
            labels := if Masks(mask, "labels") then cfg.labels else stored.labels)
  }

  /** What an Update writes beside its time: with no mask and for "*" both fields, for a path that field, otherwise nothing. */
  lemma MergedByPath(stored: Config, cfg: Config, path: string)
    ensures Merged(stored, cfg, None) == stored.(key := cfg.key, labels := cfg.labels)
    ensures Merged(stored, cfg, Some([path])) ==
            match path
            case "*" => stored.(key := cfg.key, labels := cfg.labels)
            case "crypto_key_name" => stored.(key := cfg.key)
            case "labels" => stored.(labels := cfg.labels)
            case _ => stored
  {
    SinglePath(path);
    assert |"labels"| == 6 && |"crypto_key_name"| == 15 && |"*"| == 1;
  }

  function ApplyAll(c: Config, writes: seq<FieldWrite>): Config
    decreases |writes|
  {
    if writes == [] then c else ApplyAll(Apply(c, writes[0]), writes[1..])
  }

  lemma {:induction false} ApplyAppend(c: Config, one: seq<FieldWrite>, two: seq<FieldWrite>)
    ensures ApplyAll(c, one + two) == ApplyAll(ApplyAll(c, one), two)
    decreases |one|
  {
    if one == [] {
      assert one + two == two;
    } else {
      assert (one + two)[1..] == one[1..] + two;
      ApplyAppend(Apply(c, one[0]), one[1..], two);
    }
  }

  lemma ApplyFew(c: Config, a: FieldWrite, b: FieldWrite)
    ensures ApplyAll(c, [a]) == Apply(c, a) && ApplyAll(c, [a, b]) == Apply(Apply(c, a), b)
  {
    assert [a, b] == [a] + [b];
    ApplyAppend(c, [a], [b]);
    assert ApplyAll(Apply(c, a), []) == Apply(c, a);
    assert ApplyAll(Apply(c, a), [b]) == ApplyAll(Apply(Apply(c, a), b), []);
  }

  lemma PathMerges(stored: Config, cfg: Config, path: string)
    ensures ApplyAll(stored, PathWrites(cfg, path)) == Merged(stored, cfg, Some([path]))
  {
    SinglePath(path);
    assert |"labels"| == 6 && |"crypto_key_name"| == 15 && |"*"| == 1;
    ApplyFew(stored, SetKey(cfg.key), SetLabels(cfg.labels));
    ApplyFew(stored, SetLabels(cfg.labels), SetKey(cfg.key));
  }

  lemma {:induction false} PathsMerge(stored: Config, cfg: Config, paths: seq<string>)
    ensures ApplyAll(stored, MaskWrites(cfg, paths)) == Merged(stored, cfg, Some(paths))
  {
    if paths != [] {
      var last := |paths| - 1;
      PathsMerge(stored, cfg, paths[..last]);
      ApplyAppend(stored, MaskWrites(cfg, paths[..last]), PathWrites(cfg, paths[last]));
      PathMerges(Merged(stored, cfg, Some(paths[..last])), cfg, paths[last]);
      MasksGrow(paths, last, "crypto_key_name");
      MasksGrow(paths, last, "labels");
      assert paths[..last + 1] == paths;
    }
  }

  /** The writes of an Update's mask loop, in any order and with any repetition, merge the masked fields. */
  lemma WritesMerge(stored: Config, cfg: Config, mask: FieldMask)
    ensures ApplyAll(stored, WritesOf(cfg, mask)) == Merged(stored, cfg, mask)
  {
    if mask.Some? {
      PathsMerge(stored, cfg, mask.value);
    } else {
      ApplyFew(stored, SetKey(cfg.key), SetLabels(cfg.labels));
    }
  }

  predicate SameButTime(c: Config, goal: Config) {
    c == goal.(updateTime := c.updateTime) && c.updateTime.Some?
  }

  /** A call that stands there is on its way to return the goal, stamped with some time. */
  predicate Heads(heap: seq<Config>, pc: Pc, goal: Config) {
    match pc
    case Writing(p, todo) => p < |heap| && ApplyAll(heap[p], todo) == goal
    case Installing(p) => p < |heap| && SameButTime(heap[p], goal)
    case Cloning(p, locked, _, _) => locked && p < |heap| && SameButTime(heap[p], goal)
    case Returned(result) => SameButTime(result, goal)
    case _ => false
  }

  predicate HeadsFor(s: Sys, t: nat, goal: Config) {
    t in s.threads && Heads(s.heap, s.threads[t], goal)
  }

  lemma TurnHeads(s: Sys, t: nat, call: Call, pc: Pc, env: Env, goal: Config)
    requires AddressInHeap(s.heap, pc) && Heads(s.heap, pc, goal)
    requires pc.Cloning? ==> CopiedFrom(pc.copy, pc.rest, s.heap[pc.address])
    ensures var (e, pc') := Turn(call, pc, Entry(s, call.Name()), s.heap, env);
            Heads(Perform(s, t, call.Name(), e).heap, pc', goal)
  {
  }

  lemma OwnStepHeads(s: Sys, t: nat, env: Env, goal: Config)
    requires ThreadsMatch(s) && CanStep(s, t) && HeadsFor(s, t, goal)
    ensures HeadsFor(StepOf(s, t, env), t, goal)
  {
    assert Faithful(s, s.calls[t].Name(), s.threads[t], Quiet(s, s.calls[t].Name()));
    TurnHeads(s, t, s.calls[t], s.threads[t], env, goal);
  }

  lemma OtherStepHeads(s: Sys, t: nat, u: nat, env: Env, goal: Config)
    requires Inv(s) && CanStep(s, u) && u != t && HeadsFor(s, t, goal)
    ensures HeadsFor(StepOf(s, u, env), t, goal)
  {
    var call := s.calls[u];
    var (e, _) := Turn(call, s.threads[u], Entry(s, call.Name()), s.heap, env);
    TurnIsDisciplined(s, call, s.threads[u], env);
    assert s.writer == Some(t) <==> HoldsWrite(s.threads[t]);
    assert s.writer == Some(u) <==> HoldsWrite(s.threads[u]);
    TurnConcernsOwn(s, call, s.threads[u], env);
    EffectPreserves(s, u, call.Name(), e);
  }

  lemma NextHeads(s: Sys, s': Sys, t: nat, goal: Config)
    requires Inv(s) && Next(s, s') && HeadsFor(s, t, goal)
    ensures HeadsFor(s', t, goal)
  {
    if u, env :| CanStep(s, u) && s' == StepOf(s, u, env) {
      if u == t {
        OwnStepHeads(s, t, env, goal);
      } else {
        OtherStepHeads(s, t, u, env, goal);
      }
    } else {
      var u: nat, call :| u !in s.calls && s' == Arrive(s, u, call);
      assert u != t;
    }
  }

  lemma {:induction false} HeadingStays(run: seq<Sys>, i: nat, j: nat, t: nat, goal: Config)
    requires IsRun(run) && i <= j < |run| && HeadsFor(run[i], t, goal)
    ensures HeadsFor(run[j], t, goal)
    decreases j
  {
    if i < j {
      HeadingStays(run, i, j - 1, t, goal);
      InvAlways(run, j - 1);
      assert Follows(run, j);
      NextHeads(run[j - 1], run[j], t, goal);
    }
  }

  /** The stored config of the name, or the blank one that an Update starts from. */
  function Before(s: Sys, name: string): Config
    requires name in s.configs ==> s.configs[name] < |s.heap|
  {
    if name in s.configs then s.heap[s.configs[name]] else Config(name, "", map[], None)
  }

  lemma MergingHeads(s: Sys, t: nat, env: Env)
    requires Inv(s) && CanStep(s, t) && s.threads[t].Merging?
    ensures var m := s.threads[t];
            && (m.cfg.name in s.configs ==> s.configs[m.cfg.name] < |s.heap|)
            && if m.cfg.name == "" then t in StepOf(s, t, env).threads && StepOf(s, t, env).threads[t].Failed?
               else HeadsFor(StepOf(s, t, env), t, Merged(Before(s, m.cfg.name), m.cfg, m.mask))
  {
    var m := s.threads[t];
    assert HoldsOwn(s, s.calls[t], m);
    assert m.cfg.name in s.configs ==> PointsTo(s, m.cfg.name, s.configs[m.cfg.name]);
    WritesMerge(Before(s, m.cfg.name), m.cfg, m.mask);
  }

  lemma {:induction false} FailedStays(run: seq<Sys>, i: nat, j: nat, t: nat)
    requires IsRun(run) && i <= j < |run| && t in run[i].threads && run[i].threads[t].Failed?
    ensures t in run[j].threads && run[j].threads[t].Failed?
    decreases j
  {
    if i < j {
      FailedStays(run, i, j - 1, t);
      InvAlways(run, j - 1);
      assert Follows(run, j);
    }
  }

  /** An Update takes the write path only, and gets past its check only with a name. */
  predicate NameChecked(call: Call, pc: Pc) {
    && (pc.Merging? ==> call.Update?) && (pc.Failed? ==> call.Update? && call.cfg.name == "")
    && (call.Update? ==>
          match pc
          case Waiting => true
          case Merging(_, _) => true
          case Failed => true
          case Writing(_, _) => call.cfg.name != ""
          case Installing(_) => call.cfg.name != ""
          case Cloning(_, _, _, _) => call.cfg.name != ""
          case Returned(_) => call.cfg.name != ""
          case _ => false)
  }

  ghost predicate AllNameChecked(s: Sys) {
    forall t :: t in s.threads && t in s.calls ==> NameChecked(s.calls[t], s.threads[t])
  }

  lemma TurnNameChecked(call: Call, pc: Pc, entry: Option<nat>, heap: seq<Config>, env: Env)
    requires AddressInHeap(heap, pc) && NameChecked(call, pc)
    ensures NameChecked(call, Turn(call, pc, entry, heap, env).1)
  {
  }

  lemma NextNameChecked(s: Sys, s': Sys)
    requires s.threads.Keys == s.calls.Keys && AllNameChecked(s) && Next(s, s')
    ensures AllNameChecked(s')
  {
    if t, env :| CanStep(s, t) && s' == StepOf(s, t, env) {
      StepShape(s, t, env);
      TurnNameChecked(s.calls[t], s.threads[t], Entry(s, s.calls[t].Name()), s.heap, env);
    }
  }

  lemma {:induction false} AlwaysNameChecked(run: seq<Sys>, k: nat)
    requires IsRun(run) && k < |run|
    ensures AllNameChecked(run[k])
  {
    if k > 0 {
      AlwaysNameChecked(run, k - 1);
      InvAlways(run, k - 1);
      assert Follows(run, k);
      NextNameChecked(run[k - 1], run[k]);
    }
  }

  /** In every run no Get fails, and an Update that has come to its end has failed if and only if its config has no name. */
  lemma FailsIffNameless(run: seq<Sys>, k: nat, t: nat)
    requires IsRun(run) && k < |run| && t in run[k].threads && t in run[k].calls
    requires run[k].threads[t].Failed? || run[k].threads[t].Returned?
    ensures run[k].threads[t].Failed? <==> run[k].calls[t].Update? && run[k].calls[t].cfg.name == ""
  {
    AlwaysNameChecked(run, k);
    assert NameChecked(run[k].calls[t], run[k].threads[t]);
  }

  lemma EntryHeads(run: seq<Sys>, i: nat, t: nat, env: Env)
    requires IsRun(run) && i + 1 < |run| && CanStep(run[i], t) && run[i + 1] == StepOf(run[i], t, env)
    requires run[i].threads[t].Merging?
    ensures var s, m := run[i], run[i].threads[t];
            && (m.cfg.name in s.configs ==> s.configs[m.cfg.name] < |s.heap|)
            && if m.cfg.name == "" then t in run[i + 1].threads && run[i + 1].threads[t].Failed?
               else HeadsFor(run[i + 1], t, Merged(Before(s, m.cfg.name), m.cfg, m.mask))
  {
    InvAlways(run, i);
    MergingHeads(run[i], t, env);
  }

  /**
   Updates are atomic among themselves and the locked Gets: whatever else runs, an Update returns exactly the config it
   found on entering the lock, with its masked fields merged and a new update time.
   */
  lemma UpdateReturnsMerge(run: seq<Sys>, i: nat, j: nat, t: nat, env: Env)
    requires IsRun(run) && i < j < |run| && CanStep(run[i], t) && run[i + 1] == StepOf(run[i], t, env)
    requires run[i].threads[t].Merging? && t in run[j].threads && run[j].threads[t].Returned?
    ensures var s, m := run[i], run[i].threads[t];
            && (m.cfg.name in s.configs ==> s.configs[m.cfg.name] < |s.heap|)
            && SameButTime(run[j].threads[t].result, Merged(Before(s, m.cfg.name), m.cfg, m.mask))
  {
    EntryHeads(run, i, t, env);
    var m := run[i].threads[t];
    if m.cfg.name == "" {
      FailedStays(run, i + 1, j, t);
    } else {
      HeadingStays(run, i + 1, j, t, Merged(Before(run[i], m.cfg.name), m.cfg, m.mask));
    }
  }
}
