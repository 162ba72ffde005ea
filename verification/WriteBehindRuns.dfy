/** Any number of caches with different file names over one store: in every run, what a cache shows is what the
    store will hold for it. */
module WriteBehindRuns {
  import opened Wrappers
  import opened WriteBehind

  /** `New`: not opened yet.  `Opening`: `open` was called and has not resolved. */
  datatype Mode = New | Opening | Opened | Closed

  type Id = nat

  /** `early` is history: the caches that were written to while an `open` was waiting, and not closed since. */
  datatype System<V> = System(
    store: Store<V>, caches: map<Id, Instance<V>>, modes: map<Id, Mode>, early: set<Id>)

  datatype Step<V> =
    | Create(id: Id, filename: string)
    | OpenCall(id: Id)
    | SetCall(id: Id, key: string, value: V, updateTimestamp: bool, now: int)
    | DeleteCall(id: Id, key: string)
    | ClearCall(id: Id)
    | CloseCall(id: Id)
    | Commit(id: Id)
    | StartRead(id: Id)
    | Visit(id: Id, record: (string, string))
    | EndRead(id: Id)

  /** Once a cache has been opened for the first time, it may be written to at any time, also while it is opening
      and between two events of its cursor.  A queued write waits for all cursors (section 2.7 of the Indexed Database
      API 3.0); several cursors may read at the same time, each in any order. */
  ghost predicate Enabled<V>(s: System<V>, step: Step<V>) {
    match step
    case Create(i, filename) => i !in s.caches && forall j | j in s.caches :: s.caches[j].filename != filename
    case OpenCall(i) => i in s.caches && i in s.modes && s.modes[i] != Opening
    case SetCall(i, _, _, _, _) => InUse(s, i)
    case DeleteCall(i, _) => InUse(s, i)
    case ClearCall(i) => InUse(s, i)
    case CloseCall(i) => InUse(s, i) && s.modes[i] != Opening
    case Commit(i) => HasFirst(s, i) && s.caches[i].pending[0].Change? && NobodyReads(s)
    case StartRead(i) => HasFirst(s, i) && s.caches[i].pending[0].Scan? && s.caches[i].cursor.None?
    case Visit(i, p) =>
      HasFirst(s, i) && s.caches[i].cursor.Some? && p in s.caches[i].cursor.value && p in s.store
    case EndRead(i) => HasFirst(s, i) && s.caches[i].cursor == Some({})
  }

  ghost predicate HasFirst<V>(s: System<V>, i: Id) {
    i in s.caches && i in s.modes && s.caches[i].pending != []
  }

  ghost predicate NobodyReads<V>(s: System<V>) {
    forall i | i in s.caches :: s.caches[i].cursor.None?
  }

  /** `open` was called at least once. */
  ghost predicate InUse<V>(s: System<V>, i: Id) {
    i in s.caches && i in s.modes && s.modes[i] != New
  }

  /** The step is a `set`, `delete` or `clear`. */
  predicate IsWrite<V>(step: Step<V>) {
    step.SetCall? || step.DeleteCall? || step.ClearCall?
  }

  /** Callers that await `open` do not write before it resolves. */
  ghost predicate Awaited<V>(s: System<V>, step: Step<V>) {
    IsWrite(step) && step.id in s.modes ==> s.modes[step.id] != Opening
  }

  /** The write that a call queues. */
  function WriteOf<V>(n: Instance<V>, step: Step<V>): Write<V>
    requires IsWrite(step)
  {
    match step
    case SetCall(_, key, value, update, now) => PutRecord(key, NewEntry(n, key, value, update, now))
    case DeleteCall(_, key) => DeleteRecord(key)
    case ClearCall(_) => ClearRecords
  }

  function With<V>(s: System<V>, i: Id, n: Instance<V>, m: Mode): System<V> {
    s.(caches := s.caches[i := n], modes := s.modes[i := m])
  }

  /** What a step does; the effect of a call is the contract of the method it calls. */
  ghost function Do<V>(s: System<V>, step: Step<V>): System<V>
    requires Enabled(s, step)
  {
    var i := step.id;
    if IsWrite(step) then
      With(s, i, QueueWrite(s.caches[i], WriteOf(s.caches[i], step)), s.modes[i])
      .(early := if s.modes[i] == Opening then s.early + {i} else s.early)
    else
      match step
      case Create(_, filename) => With(s, i, Instance(filename, map[], [], None), New).(early := s.early - {i})
      case OpenCall(_) => With(s, i, s.caches[i].(pending := s.caches[i].pending + [Scan]), Opening)
      case CloseCall(_) => With(s, i, s.caches[i].(cache := map[]), Closed).(early := s.early - {i})
      case Commit(_) =>
        var (store, n) := CommitFirst(s.store, s.caches[i]);
        With(s, i, n, s.modes[i]).(store := store)
      case StartRead(_) => With(s, i, StartScan(s.store, s.caches[i]), s.modes[i])
      case Visit(_, p) => With(s, i, VisitRecord(s.store, s.caches[i], p), s.modes[i])
      case EndRead(_) => With(s, i, EndScan(s.caches[i]), Opened)
  }

  ghost predicate IsRun<V>(states: seq<System<V>>, steps: seq<Step<V>>) {
    && |states| == |steps| + 1
    && forall k | 0 <= k < |steps| :: Enabled(states[k], steps[k]) && states[k + 1] == Do(states[k], steps[k])
  }

  ghost predicate Initial<V>(s: System<V>) {
    s.caches == map[] && s.modes == map[] && s.early == {}
  }

  // ---- The invariant

  /** `c` holds nothing that `d` does not hold. */
  ghost predicate Within<V>(c: Content<V>, d: Content<V>) {
    forall k | k in c :: k in d && d[k] == c[k]
  }

  ghost predicate NoScan<V>(pending: seq<Request<V>>) {
    forall k | 0 <= k < |pending| :: pending[k].Change?
  }

  /** The only cursor in the queue is at position `k`. */
  ghost predicate ScanAt<V>(pending: seq<Request<V>>, k: int) {
    0 <= k < |pending| && pending[k].Scan? && forall j | 0 <= j < |pending| && j != k :: pending[j].Change?
  }

  /** A cursor is only queued while opening. */
  ghost predicate GoodQueue<V>(pending: seq<Request<V>>, m: Mode) {
    if m == Opening then exists k :: ScanAt(pending, k) else NoScan(pending)
  }

  /** Only the transaction of `open` reads. */
  ghost predicate GoodCursor<V>(store: Store<V>, n: Instance<V>, m: Mode) {
    n.cursor.Some? ==>
      m == Opening && n.pending != [] && n.pending[0].Scan? && n.cursor.value <= store.Keys
  }

  /** What the cursor has come to is in memory. */
  ghost predicate ReadSoFar<V>(store: Store<V>, n: Instance<V>) {
    n.cursor.Some? ==> Within(Restrict(Visited(store, n.cursor.value), n.filename), n.cache)
  }

  /** Unless there were early writes, memory holds nothing else than the store is going to hold, and an opened cache
      holds all of it. */
  ghost predicate CacheInv<V>(store: Store<V>, n: Instance<V>, m: Mode, early: bool) {
    && GoodQueue(n.pending, m) && GoodCursor(store, n, m)
    && (!early ==>
          && ReadSoFar(store, n)
          && Within(n.cache, Eventual(store, n))
          && (m == Opening ==> ScanAt(n.pending, |n.pending| - 1))
          && (m == Opened ==> n.cache == Eventual(store, n)))
  }

  ghost predicate Inv<V>(s: System<V>) {
    && s.modes.Keys == s.caches.Keys
    && (forall i | i in s.caches :: CacheInv(s.store, s.caches[i], s.modes[i], i in s.early))
    && (forall i, j | i in s.caches && j in s.caches && i != j :: s.caches[i].filename != s.caches[j].filename)
  }

  // ---- One cache's steps

  lemma QueueKeepsInv<V>(store: Store<V>, n: Instance<V>, m: Mode, early: bool, w: Write<V>)
    requires CacheInv(store, n, m, early)
    ensures CacheInv(store, QueueWrite(n, w), m, early || m == Opening)
    ensures Eventual(store, QueueWrite(n, w)) == ApplyLocal(Eventual(store, n), w)
  {
    hide ApplyAll, ApplyWrite, Restrict;
    AppliedAllAppend(store, n.filename, n.pending, Change(w));
    OwnWrite(ApplyAll(store, n.filename, n.pending), n.filename, w);
    if m == Opening {
      var k :| ScanAt(n.pending, k);
      assert ScanAt(n.pending + [Change(w)], k);
    }
  }

  lemma OpenKeepsInv<V>(store: Store<V>, n: Instance<V>, m: Mode, early: bool)
    requires CacheInv(store, n, m, early) && m != Opening
    ensures var after := n.(pending := n.pending + [Scan]);
            CacheInv(store, after, Opening, early) && Eventual(store, after) == Eventual(store, n)
  {
    hide ApplyAll, ApplyWrite, Restrict;
    AppliedAllAppend(store, n.filename, n.pending, Scan);
    assert ScanAt(n.pending + [Scan], |n.pending|);
  }

  lemma CloseKeepsInv<V>(store: Store<V>, n: Instance<V>, m: Mode, early: bool)
    requires CacheInv(store, n, m, early) && m != Opening
    ensures var after := n.(cache := map[]);
            CacheInv(store, after, Closed, false) && Eventual(store, after) == Eventual(store, n)
  {
  }

  lemma CommitKeepsInv<V>(store: Store<V>, n: Instance<V>, m: Mode, early: bool)
    requires CacheInv(store, n, m, early) && n.pending != [] && n.pending[0].Change?
    ensures var (storeAfter, after) := CommitFirst(store, n);
            CacheInv(storeAfter, after, m, early) && Eventual(storeAfter, after) == Eventual(store, n)
  {
    hide ApplyWrite, Restrict, Within, Visited;
    var (storeAfter, after) := CommitFirst(store, n);
    assert Eventual(storeAfter, after) == Eventual(store, n);
    if m == Opening {
      var k :| ScanAt(n.pending, k);
      assert ScanAt(n.pending[1..], k - 1);
    }
  }

  /** While the cursor of a cache without early writes is reading, nothing else is queued. */
  lemma OnlyScan<V>(store: Store<V>, n: Instance<V>, m: Mode)
    requires CacheInv(store, n, m, false) && n.pending != [] && n.pending[0].Scan?
    ensures n.pending[1..] == [] && Eventual(store, n) == Restrict(store, n.filename)
  {
    hide Restrict;
    assert n.pending[1..] == [];
    assert ApplyAll(store, n.filename, n.pending) == store;
  }

  lemma StartKeepsInv<V>(store: Store<V>, n: Instance<V>, m: Mode, early: bool)
    requires CacheInv(store, n, m, early) && n.pending != [] && n.pending[0].Scan?
    ensures var after := StartScan(store, n);
            CacheInv(store, after, m, early) && Eventual(store, after) == Eventual(store, n)
  {
    hide Restrict, ApplyAll;
    VisitedEnds(store, n.filename);
  }

  lemma VisitKeepsInv<V>(store: Store<V>, n: Instance<V>, m: Mode, early: bool, p: (string, string))
    requires CacheInv(store, n, m, early) && n.cursor.Some? && p in n.cursor.value && p in store
    ensures var after := VisitRecord(store, n, p);
            CacheInv(store, after, m, early) && Eventual(store, after) == Eventual(store, n)
  {
    hide ApplyAll, Restrict, Visited;
    if !early {
      OnlyScan(store, n, m);
      VisitOne(store, n.cursor.value, p, n.filename);
      RestrictHolds(store, n.filename, p.1);
    }
  }

  lemma EndKeepsInv<V>(store: Store<V>, n: Instance<V>, m: Mode, early: bool)
    requires CacheInv(store, n, m, early) && n.pending != [] && n.cursor == Some({})
    ensures var after := EndScan(n);
            CacheInv(store, after, Opened, early) && Eventual(store, after) == Eventual(store, n)
  {
    hide Restrict, Visited;
    assert GoodQueue(n.pending[1..], Opened) by {
      var k :| ScanAt(n.pending, k);
    }
    if !early {
      OnlyScan(store, n, m);
      VisitedEnds(store, n.filename);
      assert n.cache == Restrict(store, n.filename);
    }
  }

  /** A transaction of one cache changes nothing of what another cache sees, now or later. */
  lemma CommitLeavesOthers<V>(store: Store<V>, n: Instance<V>, other: Instance<V>)
    requires n.pending != [] && n.pending[0].Change? && n.filename != other.filename
    ensures var after := CommitFirst(store, n).0;
            && Restrict(after, other.filename) == Restrict(store, other.filename)
            && Eventual(after, other) == Eventual(store, other)
  {
    hide ApplyWrite, Restrict, ApplyAll;
    OtherWrite(store, n.filename, n.pending[0].write, other.filename);
    AppliedAllSameFile(store, CommitFirst(store, n).0, other.filename, other.pending);
  }

  // ---- All caches

  /** What a step does to the cache it belongs to. */
  lemma ActorStep<V>(s: System<V>, step: Step<V>)
    requires Inv(s) && Enabled(s, step)
    ensures var i, t := step.id, Do(s, step);
            && i in t.caches && i in t.modes && CacheInv(t.store, t.caches[i], t.modes[i], i in t.early)
            && (!step.Create? && !IsWrite(step) ==> Eventual(t.store, t.caches[i]) == Eventual(s.store, s.caches[i]))
            && (!step.Create? ==> t.caches[i].filename == s.caches[i].filename)
  {
    hide CacheInv, Eventual, NewEntry, WriteOf, NobodyReads;
    var i := step.id;
    if IsWrite(step) {
      QueueKeepsInv(s.store, s.caches[i], s.modes[i], i in s.early, WriteOf(s.caches[i], step));
    } else {
      match step
      case Create(_, filename) => NewKeepsInv(s.store, filename);
      case OpenCall(_) => OpenKeepsInv(s.store, s.caches[i], s.modes[i], i in s.early);
      case CloseCall(_) => CloseKeepsInv(s.store, s.caches[i], s.modes[i], i in s.early);
      case Commit(_) => CommitKeepsInv(s.store, s.caches[i], s.modes[i], i in s.early);
      case StartRead(_) => StartKeepsInv(s.store, s.caches[i], s.modes[i], i in s.early);
      case Visit(_, p) => VisitKeepsInv(s.store, s.caches[i], s.modes[i], i in s.early, p);
      case EndRead(_) => EndKeepsInv(s.store, s.caches[i], s.modes[i], i in s.early);
    }
  }

  lemma NewKeepsInv<V>(store: Store<V>, filename: string)
    ensures CacheInv(store, Instance(filename, map[], [], None), New, false)
  {
  }

  /** No step of one cache changes the entries of another. */
  lemma OthersUntouched<V>(s: System<V>, step: Step<V>, j: Id)
    requires Inv(s) && Enabled(s, step) && j in s.caches && j != step.id
    ensures var t := Do(s, step);
            && j in t.caches && j in t.modes && t.caches[j] == s.caches[j] && t.modes[j] == s.modes[j]
            && (j in t.early <==> j in s.early)
            && (s.caches[j].cursor.Some? ==> t.store == s.store)
            && Restrict(t.store, s.caches[j].filename) == Restrict(s.store, s.caches[j].filename)
            && Eventual(t.store, t.caches[j]) == Eventual(s.store, s.caches[j])
  {
    hide CacheInv, Eventual, NewEntry, Restrict, QueueWrite, ApplyWrite, WriteOf;
    if step.Commit? {
      CommitLeavesOthers(s.store, s.caches[step.id], s.caches[j]);
    }
  }

  /** Only creating a cache adds one, and under a file name of its own. */
  lemma StepKeys<V>(s: System<V>, step: Step<V>)
    requires Inv(s) && Enabled(s, step)
    ensures var t := Do(s, step);
            && t.caches.Keys == s.caches.Keys + {step.id} && t.modes.Keys == t.caches.Keys
            && (step.Create? ==>
                  forall j | j in s.caches :: j != step.id && s.caches[j].filename != t.caches[step.id].filename)
            && (!step.Create? ==> step.id in s.caches)
  {
    hide CacheInv, NewEntry, QueueWrite, CommitFirst, WriteOf;
  }

  lemma StepKeepsInv<V>(s: System<V>, step: Step<V>)
    requires Inv(s) && Enabled(s, step)
    ensures Inv(Do(s, step))
  {
    hide CacheInv, Enabled, Do, Restrict, Eventual, InUse;
    var t := Do(s, step);
    StepKeys(s, step);
    ActorStep(s, step);
    forall j | j in s.caches && j != step.id
      ensures t.caches[j] == s.caches[j] && CacheInv(t.store, t.caches[j], t.modes[j], j in t.early)
    {
      OthersUntouched(s, step, j);
      SameInv(s.store, t.store, s.caches[j], s.modes[j], j in s.early);
    }
  }

  lemma SameInv<V>(store: Store<V>, after: Store<V>, n: Instance<V>, m: Mode, early: bool)
    requires CacheInv(store, n, m, early) && Eventual(after, n) == Eventual(store, n)
    requires n.cursor.Some? ==> after == store
    ensures CacheInv(after, n, m, early)
  {
  }

  lemma {:induction false} RunsKeepInv<V>(states: seq<System<V>>, steps: seq<Step<V>>, k: nat)
    requires IsRun(states, steps) && Inv(states[0]) && k < |states|
    ensures Inv(states[k])
  {
    hide Inv, Enabled, Do;
    if k > 0 {
      RunsKeepInv(states, steps, k - 1);
      StepKeepsInv(states[k - 1], steps[k - 1]);
    }
  }

  /** A cache whose callers await `open` is never written to early. */
  lemma {:induction false} AwaitedIsNeverEarly<V>(states: seq<System<V>>, steps: seq<Step<V>>, k: nat, i: Id)
    requires IsRun(states, steps) && Initial(states[0]) && k < |states|
    requires forall j | 0 <= j < |steps| && steps[j].id == i :: Awaited(states[j], steps[j])
    ensures i !in states[k].early
  {
    hide Enabled, Do, Awaited;
    if k > 0 {
      AwaitedIsNeverEarly(states, steps, k - 1, i);
      AwaitedStep(states[k - 1], steps[k - 1], i);
    }
  }

  lemma AwaitedStep<V>(s: System<V>, step: Step<V>, i: Id)
    requires Enabled(s, step) && i !in s.early && (step.id == i ==> Awaited(s, step))
    ensures i !in Do(s, step).early
  {
    hide WriteOf, QueueWrite, CommitFirst;
  }

  /** Write-behind refinement: in every reachable state, an opened cache that was not written to early shows, with
      timestamps, exactly what the store will hold for its file once the cache's queued writes are done. */
  lemma CacheShowsEventualStore<V>(states: seq<System<V>>, steps: seq<Step<V>>, k: nat, i: Id)
    requires IsRun(states, steps) && Initial(states[0]) && k < |states|
    requires i in states[k].caches && i in states[k].modes && states[k].modes[i] == Opened && i !in states[k].early
    ensures var s, n := states[k], states[k].caches[i];
            && n.cache == Restrict(ApplyAll(s.store, n.filename, n.pending), n.filename)
            && (n.pending == [] ==> n.cache == Restrict(s.store, n.filename))
  {
    RunsKeepInv(states, steps, k);
  }

  /** Reads: `has`, `get` and `getTimestamp` of an opened cache answer, from memory, what the store will hold under
      that key when the queued writes are done. */
  lemma ReadsAnswerEventualStore<V>(states: seq<System<V>>, steps: seq<Step<V>>, k: nat, i: Id, key: string)
    requires IsRun(states, steps) && Initial(states[0]) && k < |states|
    requires i in states[k].caches && i in states[k].modes && states[k].modes[i] == Opened && i !in states[k].early
    ensures var n := states[k].caches[i];
            var stored := ApplyAll(states[k].store, n.filename, n.pending);
            && (HasAnswer(n, key) <==> (n.filename, key) in stored)
            && GetAnswer(n, key)
               == (if (n.filename, key) in stored then Some(stored[(n.filename, key)].value) else None)
            && TimestampAnswer(n, key)
               == (if (n.filename, key) in stored then stored[(n.filename, key)].timestamp else None)
  {
    hide ApplyAll;
    CacheShowsEventualStore(states, steps, k, i);
    var n := states[k].caches[i];
    RestrictHolds(ApplyAll(states[k].store, n.filename, n.pending), n.filename, key);
  }

  lemma RestrictHolds<V>(store: Store<V>, filename: string, key: string)
    ensures key in Restrict(store, filename) <==> (filename, key) in store
    ensures (filename, key) in store ==> Restrict(store, filename)[key] == store[(filename, key)]
  {
  }

  /** Once an opened cache agrees with what the store is going to hold - also after early writes - it goes on doing so
      under every step, other than its own `open` or `close`. */
  lemma AgreementIsKept<V>(s: System<V>, step: Step<V>, i: Id)
    requires Inv(s) && Enabled(s, step) && i in s.caches && i in s.modes && s.modes[i] == Opened
    requires s.caches[i].cache == Eventual(s.store, s.caches[i])
    requires step.id == i ==> !step.OpenCall? && !step.CloseCall?
    ensures var t := Do(s, step);
            && i in t.caches && i in t.modes && t.modes[i] == Opened
            && t.caches[i].cache == Eventual(t.store, t.caches[i])
  {
    hide Eventual, NewEntry, WriteOf, ApplyLocal, NobodyReads, ReadSoFar, Within;
    if step.id != i {
      OthersUntouched(s, step, i);
    } else if IsWrite(step) {
      QueueKeepsInv(s.store, s.caches[i], Opened, i in s.early, WriteOf(s.caches[i], step));
    } else {
      ActorStep(s, step);
    }
  }

  lemma {:induction false} AgreementLasts<V>(states: seq<System<V>>, steps: seq<Step<V>>, i: Id, k: nat)
    requires IsRun(states, steps) && Inv(states[0]) && k < |states|
    requires i in states[0].caches && i in states[0].modes && states[0].modes[i] == Opened
    requires states[0].caches[i].cache == Eventual(states[0].store, states[0].caches[i])
    requires forall j | 0 <= j < |steps| && steps[j].id == i :: !steps[j].OpenCall? && !steps[j].CloseCall?
    ensures i in states[k].caches && i in states[k].modes && states[k].modes[i] == Opened
    ensures states[k].caches[i].cache == Eventual(states[k].store, states[k].caches[i])
  {
    hide Inv, Enabled, Do, Eventual;
    if k > 0 {
      AgreementLasts(states, steps, i, k - 1);
      RunsKeepInv(states, steps, k - 1);
      AgreementIsKept(states[k - 1], steps[k - 1], i);
    }
  }

  lemma {:induction false} EventualSurvives<V>(states: seq<System<V>>, steps: seq<Step<V>>, i: Id, k: nat)
    requires IsRun(states, steps) && Inv(states[0]) && k < |states| && i in states[0].caches
    requires forall j | 0 <= j < |steps| && steps[j].id == i :: !IsWrite(steps[j])
    ensures i in states[k].caches && (i in states[k].early ==> i in states[0].early)
    ensures Eventual(states[k].store, states[k].caches[i]) == Eventual(states[0].store, states[0].caches[i])
  {
    hide Inv, Enabled, Do, Eventual;
    if k > 0 {
      EventualSurvives(states, steps, i, k - 1);
      RunsKeepInv(states, steps, k - 1);
      SurvivesStep(states[k - 1], steps[k - 1], i);
    }
  }

  lemma SurvivesStep<V>(s: System<V>, step: Step<V>, i: Id)
    requires Inv(s) && Enabled(s, step) && i in s.caches && (step.id == i ==> !IsWrite(step))
    ensures i in Do(s, step).caches && (i in Do(s, step).early ==> i in s.early)
    ensures Eventual(Do(s, step).store, Do(s, step).caches[i]) == Eventual(s.store, s.caches[i])
  {
    hide Eventual, NewEntry, Restrict, QueueWrite, CommitFirst, CacheInv, WriteOf;
    if step.id == i {
      ActorStep(s, step);
    } else {
      OthersUntouched(s, step, i);
    }
  }

  /** Durability: from a reachable state with an opened cache, closing and opening it again - whatever the other
      caches do meanwhile, and however far its own queued writes had come - restores exactly the same content. */
  lemma ReopenRestoresContent<V>(before: seq<System<V>>, past: seq<Step<V>>, states: seq<System<V>>,
                                 steps: seq<Step<V>>, i: Id)
    requires IsRun(before, past) && Initial(before[0]) && IsRun(states, steps) && states[0] == before[|past|]
    requires forall j | 0 <= j < |steps| && steps[j].id == i :: !IsWrite(steps[j])
    requires var s, t := states[0], states[|steps|];
             && i in s.caches && i in s.modes && s.modes[i] == Opened && i !in s.early
             && i in t.modes && t.modes[i] == Opened
    ensures i in states[|steps|].caches && states[|steps|].caches[i].cache == states[0].caches[i].cache
  {
    hide Enabled, Do, Eventual, GoodQueue, Within, ScanAt;
    RunsKeepInv(before, past, |past|);
    RunsKeepInv(states, steps, |steps|);
    EventualSurvives(states, steps, i, |steps|);
  }

  // ---- What a write achieves

  /** The records, once the queue of this cache is done. */
  function Stored<V>(store: Store<V>, n: Instance<V>): Store<V> {
    ApplyAll(store, n.filename, n.pending)
  }

  /** `set`: afterwards the key has the given value, with the current time or, if the timestamp is not to be updated,
      with the one it had; the store is going to hold the same record; and nothing else changes. */
  lemma SetIsStored<V>(s: System<V>, i: Id, key: string, value: V, updateTimestamp: bool, now: int)
    requires Enabled(s, SetCall(i, key, value, updateTimestamp, now))
    ensures var t := Do(s, SetCall(i, key, value, updateTimestamp, now));
            var n, m := s.caches[i], t.caches[i];
            var before, after := Stored(s.store, n), Stored(t.store, m);
            var timestamp := if updateTimestamp then Some(now)
                             else if key in n.cache then n.cache[key].timestamp else None;
            && key in m.cache && m.cache[key] == Entry(value, timestamp)
            && (forall k | k != key :: (k in m.cache <==> k in n.cache) && (k in m.cache ==> m.cache[k] == n.cache[k]))
            && (n.filename, key) in after && after[(n.filename, key)] == Entry(value, timestamp)
            && (forall p | p != (n.filename, key) ::
                  (p in after <==> p in before) && (p in after ==> after[p] == before[p]))
  {
    hide ApplyAll;
    var n := s.caches[i];
    AppliedAllAppend(s.store, n.filename, n.pending, Change(WriteOf(n, SetCall(i, key, value, updateTimestamp, now))));
  }

  /** `delete`: the key is gone from memory and from what the store is going to hold, and nothing else changes. */
  lemma DeleteIsStored<V>(s: System<V>, i: Id, key: string)
    requires Enabled(s, DeleteCall(i, key))
    ensures var t := Do(s, DeleteCall(i, key));
            var n, m := s.caches[i], t.caches[i];
            var before, after := Stored(s.store, n), Stored(t.store, m);
            && key !in m.cache && (n.filename, key) !in after
            && (forall k | k != key :: (k in m.cache <==> k in n.cache) && (k in m.cache ==> m.cache[k] == n.cache[k]))
            && (forall p | p != (n.filename, key) ::
                  (p in after <==> p in before) && (p in after ==> after[p] == before[p]))
  {
    hide ApplyAll;
    AppliedAllAppend(s.store, s.caches[i].filename, s.caches[i].pending, Change(DeleteRecord(key)));
  }

  /** `clear`: memory is empty, and the store is going to hold no record of this file but all those of others. */
  lemma ClearIsStored<V>(s: System<V>, i: Id)
    requires Enabled(s, ClearCall(i))
    ensures var t := Do(s, ClearCall(i));
            var n, m := s.caches[i], t.caches[i];
            var before, after := Stored(s.store, n), Stored(t.store, m);
            && m.cache == map[]
            && (forall p :: p in after <==> p in before && p.0 != n.filename)
            && (forall p | p in after :: after[p] == before[p])
  {
    hide ApplyAll;
    AppliedAllAppend(s.store, s.caches[i].filename, s.caches[i].pending, Change(ClearRecords));
  }

  /** Whatever happens after a `set` - to this cache anything but writes - the store holds that record as soon as the
      cache's queue is empty. */
  lemma SetReachesStore<V>(states: seq<System<V>>, steps: seq<Step<V>>, k: nat)
    requires IsRun(states, steps) && Inv(states[0]) && 0 < k < |states| && steps[0].SetCall?
    requires forall j | 0 < j < |steps| && steps[j].id == steps[0].id :: !IsWrite(steps[j])
    ensures var n, call := states[0].caches[steps[0].id], steps[0];
            && call.id in states[k].caches && states[k].caches[call.id].filename == n.filename
            && (states[k].caches[call.id].pending == [] ==>
                  && (n.filename, call.key) in states[k].store
                  && states[k].store[(n.filename, call.key)]
                     == Entry(call.value, if call.updateTimestamp then Some(call.now)
                                          else if call.key in n.cache then n.cache[call.key].timestamp else None))
  {
    hide Inv, Enabled, Do, Eventual, Restrict, ApplyAll;
    var i, call := steps[0].id, steps[0];
    assert Enabled(states[0], steps[0]) && states[1] == Do(states[0], steps[0]);
    StepKeepsInv(states[0], steps[0]);
    SetIsStored(states[0], i, call.key, call.value, call.updateTimestamp, call.now);
    ActorIsThere(states[0], call);
    EventualSurvives(states[1..], steps[1..], i, k - 1);
    FilenameStays(states, steps, i, k);
    if states[k].caches[i].pending == [] {
      NothingQueued(states[k].store, states[k].caches[i]);
      EventualIsStored(states[1].store, states[1].caches[i]);
      RestrictHolds(Stored(states[1].store, states[1].caches[i]), states[0].caches[i].filename, call.key);
      RestrictHolds(states[k].store, states[0].caches[i].filename, call.key);
    }
  }

  lemma EventualIsStored<V>(store: Store<V>, n: Instance<V>)
    ensures Eventual(store, n) == Restrict(Stored(store, n), n.filename)
  {
  }

  lemma NothingQueued<V>(store: Store<V>, n: Instance<V>)
    requires n.pending == []
    ensures Eventual(store, n) == Restrict(store, n.filename)
  {
  }

  lemma ActorIsThere<V>(s: System<V>, step: Step<V>)
    requires Inv(s) && Enabled(s, step) && !step.Create?
    ensures step.id in s.caches && step.id in Do(s, step).caches
    ensures Do(s, step).caches[step.id].filename == s.caches[step.id].filename
  {
    hide CacheInv, Eventual, NobodyReads;
    StepKeys(s, step);
    ActorStep(s, step);
  }

  lemma {:induction false} FilenameStays<V>(states: seq<System<V>>, steps: seq<Step<V>>, i: Id, k: nat)
    requires IsRun(states, steps) && Inv(states[0]) && k < |states| && i in states[0].caches
    ensures i in states[k].caches && states[k].caches[i].filename == states[0].caches[i].filename
  {
    hide Inv, Enabled, Do;
    if k > 0 {
      FilenameStays(states, steps, i, k - 1);
      RunsKeepInv(states, steps, k - 1);
      FilenameStep(states[k - 1], steps[k - 1], i);
    }
  }

  lemma FilenameStep<V>(s: System<V>, step: Step<V>, i: Id)
    requires Inv(s) && Enabled(s, step) && i in s.caches
    ensures i in Do(s, step).caches && Do(s, step).caches[i].filename == s.caches[i].filename
  {
    hide Inv, Do;
    if step.id == i {
      assert !step.Create?;
      ActorIsThere(s, step);
    } else {
      OthersUntouched(s, step, i);
    }
  }
}
