/** Why `open` must be awaited: what becomes of a cache that is written to before `open` resolves. */
module WriteBehindEarly {
  import opened WriteBehind
  import opened WriteBehindRuns
  import opened Wrappers

  /** Applying writes in order. */
  function Local<V>(c: Content<V>, ws: seq<Write<V>>): Content<V> {
    if ws == [] then c else ApplyLocal(Local(c, ws[..|ws| - 1]), ws[|ws| - 1])
  }

  function Changes<V>(ws: seq<Write<V>>): seq<Request<V>> {
    seq(|ws|, k requires 0 <= k < |ws| => Change(ws[k]))
  }

  lemma LocalAppend<V>(c: Content<V>, ws: seq<Write<V>>, w: Write<V>)
    ensures Local(c, ws + [w]) == ApplyLocal(Local(c, ws), w)
    ensures Changes(ws + [w]) == Changes(ws) + [Change(w)]
  {
    assert (ws + [w])[..|ws|] == ws;
  }

  /** What the store holds once exactly these writes are done. */
  lemma {:induction false} ChangesAreLocal<V>(store: Store<V>, filename: string, ws: seq<Write<V>>)
    ensures Restrict(ApplyAll(store, filename, Changes(ws)), filename) == Local(Restrict(store, filename), ws)
  {
    hide Restrict, ApplyWrite, ApplyAll, ApplyLocal;
    if ws == [] {
      NoChanges(store, filename);
    } else {
      var init, w := ws[..|ws| - 1], ws[|ws| - 1];
      ChangesAreLocal(store, filename, init);
      assert ws == init + [w];
      LocalAppend(Restrict(store, filename), init, w);
      AppliedAllAppend(store, filename, Changes(init), Change(w));
      OwnWrite(ApplyAll(store, filename, Changes(init)), filename, w);
    }
  }

  lemma NoChanges<V>(store: Store<V>, filename: string)
    ensures ApplyAll(store, filename, Changes([])) == store
  {
  }

  /** Where two contents agree on a key, they still do after the same writes. */
  lemma {:induction false} LocalAgrees<V>(c: Content<V>, d: Content<V>, ws: seq<Write<V>>, key: string)
    requires (key in c <==> key in d) && (key in c ==> c[key] == d[key])
    ensures key in Local(c, ws) <==> key in Local(d, ws)
    ensures key in Local(c, ws) ==> Local(c, ws)[key] == Local(d, ws)[key]
  {
    if ws != [] {
      LocalAgrees(c, d, ws[..|ws| - 1], key);
    }
  }

  // ---- What happens to a cache while it is opening

  /** Since `open` was called: a write, or the cursor comes to the record of a key. */
  datatype Event<V> = Written(write: Write<V>) | Read(key: string)

  function WritesIn<V>(es: seq<Event<V>>): seq<Write<V>> {
    if es == [] then []
    else WritesIn(es[..|es| - 1]) + (if es[|es| - 1].Written? then [es[|es| - 1].write] else [])
  }

  /** What an event does to memory, if the cursor reads `base`. */
  function ShowEvent<V>(c: Content<V>, base: Content<V>, e: Event<V>): Content<V> {
    match e
    case Written(w) => ApplyLocal(c, w)
    case Read(key) => if key in base then c[key := base[key]] else c
  }

  /** What memory shows after these events, if it held `c0` before. */
  function Shown<V>(c0: Content<V>, base: Content<V>, es: seq<Event<V>>): Content<V> {
    if es == [] then c0 else ShowEvent(Shown(c0, base, es[..|es| - 1]), base, es[|es| - 1])
  }

  predicate Touches<V>(w: Write<V>, key: string) {
    w.ClearRecords? || w.key == key
  }

  predicate IsTouch<V>(e: Event<V>, key: string) {
    e.Written? && Touches(e.write, key)
  }

  ghost predicate TouchedAfter<V>(es: seq<Event<V>>, v: nat, key: string) {
    exists j | v < j < |es| :: IsTouch(es[j], key)
  }

  /** After these events, the store is going to hold under `key` what it held before. */
  ghost predicate LeftAlone<V>(base: Content<V>, es: seq<Event<V>>, key: string) {
    var after := Local(base, WritesIn(es));
    (key in base <==> key in after) && (key in base ==> after[key] == base[key])
  }

  /** Some write touches the key after its record was read, or the writes before that leave the entry as it was. */
  ghost predicate KeyIsSafe<V>(base: Content<V>, es: seq<Event<V>>, key: string) {
    exists v | 0 <= v < |es| :: es[v] == Read(key) && (TouchedAfter(es, v, key) || LeftAlone(base, es[..v], key))
  }

  ghost predicate SameAt<V>(c: Content<V>, d: Content<V>, key: string) {
    (key in c <==> key in d) && (key in c ==> c[key] == d[key])
  }

  lemma EventAppend<V>(c0: Content<V>, base: Content<V>, es: seq<Event<V>>, e: Event<V>)
    ensures WritesIn(es + [e]) == WritesIn(es) + (if e.Written? then [e.write] else [])
    ensures Shown(c0, base, es + [e]) == ShowEvent(Shown(c0, base, es), base, e)
  {
    assert (es + [e])[..|es|] == es;
  }

  lemma CountAppend<V>(es: seq<Event<V>>, e: Event<V>, key: string)
    ensures multiset(es + [e])[Read(key)] == multiset(es)[Read(key)] + if e == Read(key) then 1 else 0
    ensures multiset(es)[Read(key)] > 0 <==> Read(key) in es
  {
  }

  /** An event other than reading the key makes the key safe if it touches it, and otherwise changes nothing. */
  lemma SafeAfter<V>(base: Content<V>, es: seq<Event<V>>, e: Event<V>, key: string)
    requires Read(key) in es && e != Read(key)
    ensures KeyIsSafe(base, es + [e], key) <==> KeyIsSafe(base, es, key) || IsTouch(e, key)
  {
    hide LeftAlone, Touches, IsTouch;
    var after := es + [e];
    assert forall v | 0 <= v < |es| :: after[v] == es[v] && after[..v] == es[..v];
    forall v: nat | v < |es| ensures TouchedAfter(after, v, key) <==> TouchedAfter(es, v, key) || IsTouch(e, key) {
      assert after[|es|] == e;
      if j :| v < j < |es| && IsTouch(es[j], key) {
        assert IsTouch(after[j], key);
      }
    }
    var v :| 0 <= v < |es| && es[v] == Read(key);
    assert after[v] == Read(key);
  }

  /** Right after the key is read, it is safe if the writes so far leave it alone. */
  lemma SafeWhenRead<V>(base: Content<V>, es: seq<Event<V>>, key: string)
    requires Read(key) !in es
    ensures KeyIsSafe(base, es + [Read(key)], key) <==> LeftAlone(base, es, key)
  {
    hide LeftAlone, IsTouch;
    var after := es + [Read(key)];
    assert after[|es|] == Read(key) && after[..|es|] == es;
    assert forall v | 0 <= v < |es| :: after[v] == es[v];
  }

  /** A stored key whose record was read once: memory and the eventual store agree on it exactly if it is safe. */
  lemma {:induction false} StoredKeyIff<V>(c0: Content<V>, base: Content<V>, es: seq<Event<V>>, key: string)
    requires key in base && multiset(es)[Read(key)] == 1
    ensures SameAt(Shown(c0, base, es), Local(base, WritesIn(es)), key) <==> KeyIsSafe(base, es, key)
    decreases |es|
  {
    hide Shown, WritesIn, Local, KeyIsSafe;
    var init, e := es[..|es| - 1], es[|es| - 1];
    assert es == init + [e];
    EventAppend(c0, base, init, e);
    CountAppend(init, e, key);
    if e == Read(key) {
      SafeWhenRead(base, init, key);
      assert WritesIn(init) + [] == WritesIn(init);
    } else {
      StoredKeyIff(c0, base, init, key);
      SafeAfter(base, init, e, key);
      if e.Written? {
        LocalAppend(base, WritesIn(init), e.write);
        TouchDecides(Shown(c0, base, init), Local(base, WritesIn(init)), e.write, key);
      } else {
        assert WritesIn(init) + [] == WritesIn(init);
      }
    }
  }

  /** A write that touches a key makes two contents agree on it; any other write leaves that as it was. */
  lemma TouchDecides<V>(c: Content<V>, d: Content<V>, w: Write<V>, key: string)
    ensures SameAt(ApplyLocal(c, w), ApplyLocal(d, w), key) <==> Touches(w, key) || SameAt(c, d, key)
  {
  }

  /** On keys that were not stored, memory and the eventual store always agree. */
  lemma {:induction false} OtherKeysAgree<V>(c0: Content<V>, base: Content<V>, es: seq<Event<V>>, key: string)
    requires key !in base && key !in c0
    ensures SameAt(Shown(c0, base, es), Local(base, WritesIn(es)), key)
    decreases |es|
  {
    hide Shown, WritesIn, Local;
    if es == [] {
      NoEvents(c0, base);
    } else {
      var init, e := es[..|es| - 1], es[|es| - 1];
      assert es == init + [e];
      OtherKeysAgree(c0, base, init, key);
      EventAppend(c0, base, init, e);
      if e.Written? {
        LocalAppend(base, WritesIn(init), e.write);
        TouchDecides(Shown(c0, base, init), Local(base, WritesIn(init)), e.write, key);
      } else {
        assert WritesIn(init) + [] == WritesIn(init);
      }
    }
  }

  lemma NoEvents<V>(c0: Content<V>, base: Content<V>)
    ensures Shown(c0, base, []) == c0 && WritesIn<V>([]) == [] && Local(base, []) == base
  {
  }

  /** When every stored record has been read once, memory agrees with what the store is going to hold exactly if every
      stored key is safe. */
  lemma AgreesIff<V>(c0: Content<V>, base: Content<V>, es: seq<Event<V>>)
    requires Within(c0, base) && forall key | key in base :: multiset(es)[Read(key)] == 1
    ensures Shown(c0, base, es) == Local(base, WritesIn(es)) <==> forall key | key in base :: KeyIsSafe(base, es, key)
  {
    hide Shown, Local, WritesIn, KeyIsSafe;
    var shown, all := Shown(c0, base, es), Local(base, WritesIn(es));
    forall key ensures SameAt(shown, all, key) <==> (key in base ==> KeyIsSafe(base, es, key)) {
      if key in base {
        StoredKeyIff(c0, base, es, key);
      } else {
        OtherKeysAgree(c0, base, es, key);
      }
    }
    SameEverywhere(shown, all);
  }

  lemma SameEverywhere<V>(c: Content<V>, d: Content<V>)
    ensures c == d <==> forall key :: SameAt(c, d, key)
  {
    if forall key :: SameAt(c, d, key) {
      assert forall key :: key in c <==> key in d by {
        forall key ensures key in c <==> key in d {
          assert SameAt(c, d, key);
        }
      }
      forall key | key in c ensures c[key] == d[key] {
        assert SameAt(c, d, key);
      }
    }
  }

  /** Writes that in the end leave a stored entry as it was do no harm to it, whenever its record is read. */
  lemma UndoneWritesAreSafe<V>(base: Content<V>, es: seq<Event<V>>, key: string)
    requires key in base && Read(key) in es && LeftAlone(base, es, key)
    ensures KeyIsSafe(base, es, key)
  {
    hide LeftAlone;
    var v :| 0 <= v < |es| && es[v] == Read(key);
    if !TouchedAfter(es, v, key) {
      UntouchedSince(base, es, v, key);
    }
  }

  lemma {:induction false} UntouchedSince<V>(base: Content<V>, es: seq<Event<V>>, v: nat, key: string)
    requires v < |es| && !IsTouch(es[v], key) && !TouchedAfter(es, v, key)
    ensures LeftAlone(base, es, key) <==> LeftAlone(base, es[..v], key)
    decreases |es|
  {
    hide Local, WritesIn;
    var init, e := es[..|es| - 1], es[|es| - 1];
    assert es == init + [e] && !IsTouch(e, key);
    EventAppend(base, base, init, e);
    if e.Written? {
      LocalAppend(base, WritesIn(init), e.write);
      OnlyTouchesChange(Local(base, WritesIn(init)), e.write, key);
    } else {
      assert WritesIn(init) + [] == WritesIn(init);
    }
    if v < |init| {
      assert forall j | v < j < |init| :: init[j] == es[j];
      UntouchedSince(base, init, v, key);
      assert init[..v] == es[..v];
    } else {
      assert init == es[..v];
    }
  }

  lemma OnlyTouchesChange<V>(c: Content<V>, w: Write<V>, key: string)
    requires !Touches(w, key)
    ensures SameAt(ApplyLocal(c, w), c, key)
  {
  }

  /** A `set` after the record was read is seen by both, although it changes what was stored. */
  lemma LateSetIsSeen<V>(old': Entry<V>, entry: Entry<V>)
    requires old' != entry
    ensures var base, es := map["a" := old'], [Read("a"), Written(PutRecord("a", entry))];
            && Shown(map[], base, es) == Local(base, WritesIn(es)) == map["a" := entry]
            && KeyIsSafe(base, es, "a") && !LeftAlone(base, es, "a")
  {
    var base, r, w := map["a" := old'], Read("a"), Written(PutRecord("a", entry));
    var c0: Content<V> := map[];
    NoEvents(c0, base);
    EventAppend(c0, base, [], r);
    EventAppend(c0, base, [r], w);
    LocalAppend(base, [], w.write);
    assert [] + [r] == [r] && [r] + [w] == [r, w];
    assert IsTouch([r, w][1], "a");
    assert TouchedAfter([r, w], 0, "a");
  }

  // ---- One cache while it is opening

  /** What the cache sees in the store once these requests are done. */
  function SeenAfter<V>(store: Store<V>, filename: string, pending: seq<Request<V>>): Content<V> {
    Restrict(ApplyAll(store, filename, pending), filename)
  }

  /** The record of a stored key has been read. */
  predicate WasRead<V>(n: Instance<V>, base: Content<V>, key: string) {
    key in base && n.cursor.Some? && (n.filename, key) !in n.cursor.value
  }

  ghost predicate ReadsCounted<V>(n: Instance<V>, base: Content<V>, es: seq<Event<V>>) {
    forall key :: multiset(es)[Read(key)] == if WasRead(n, base, key) then 1 else 0
  }

  /** `c0` is what memory held when `open` was called, `base` what its cursor reads, `es` what happened since then;
      the reading transaction is at position `k` of the queue. */
  ghost predicate EarlyInv<V>(store: Store<V>, n: Instance<V>, c0: Content<V>, base: Content<V>, es: seq<Event<V>>,
                              k: nat) {
    && k < |n.pending| && n.pending[k].Scan? && NoScan(n.pending[..k])
    && n.pending[k + 1..] == Changes(WritesIn(es))
    && n.cache == Shown(c0, base, es)
    && SeenAfter(store, n.filename, n.pending[..k]) == base
    && (n.cursor.Some? ==> k == 0)
    && ReadsCounted(n, base, es)
  }

  lemma NothingBefore<V>(store: Store<V>, n: Instance<V>)
    requires n.pending != []
    ensures SeenAfter(store, n.filename, n.pending[..0]) == Restrict(store, n.filename)
  {
    assert n.pending[..0] == [];
  }

  /** When the cursor comes to the end, memory agrees with what the store is going to hold exactly if every stored key
      is safe. */
  lemma ReadyIff<V>(store: Store<V>, n: Instance<V>, c0: Content<V>, base: Content<V>, es: seq<Event<V>>)
    requires EarlyInv(store, n, c0, base, es, 0) && n.cursor == Some({}) && Within(c0, base)
    ensures EndScan(n).cache == Eventual(store, EndScan(n))
            <==> forall key | key in base :: KeyIsSafe(base, es, key)
  {
    hide Restrict, ApplyAll, Local, Shown, WritesIn, KeyIsSafe;
    NothingBefore(store, n);
    ChangesAreLocal(store, n.filename, WritesIn(es));
    assert forall key | key in base :: WasRead(n, base, key);
    AgreesIff(c0, base, es);
  }

  // ---- Runs

  /** What a step means for cache `i`. */
  function StepEvents<V>(s: System<V>, step: Step<V>, i: Id): seq<Event<V>> {
    if step.id != i || i !in s.caches then []
    else if IsWrite(step) then [Written(WriteOf(s.caches[i], step))]
    else if step.Visit? && step.record.0 == s.caches[i].filename then [Read(step.record.1)]
    else []
  }

  function Events<V>(states: seq<System<V>>, steps: seq<Step<V>>, i: Id): seq<Event<V>>
    requires |states| >= |steps|
    decreases |steps|
  {
    if steps == [] then []
    else
      var n := |steps| - 1;
      Events(states, steps[..n], i) + StepEvents(states[n], steps[n], i)
  }

  ghost predicate HasMode<V>(s: System<V>, i: Id, m: Mode) {
    i in s.caches && i in s.modes && s.modes[i] == m
  }

  lemma OpenStarts<V>(s: System<V>, i: Id)
    requires Inv(s) && Enabled(s, OpenCall(i))
    ensures var t, n := Do(s, OpenCall(i)), s.caches[i];
            HasMode(t, i, Opening)
            && EarlyInv(t.store, t.caches[i], n.cache, Eventual(s.store, n), [], |n.pending|)
  {
    hide Restrict, ApplyAll, ReadSoFar;
    var n := s.caches[i];
    assert CacheInv(s.store, n, s.modes[i], i in s.early);
    assert (n.pending + [Scan])[..|n.pending|] == n.pending;
    assert (n.pending + [Scan])[|n.pending| + 1..] == [];
    NoEvents(n.cache, Eventual(s.store, n));
  }

  /** While the cache stays opening, a step adds its event, and may move the reading transaction forward. */
  lemma OpeningStep<V>(s: System<V>, step: Step<V>, i: Id, c0: Content<V>, base: Content<V>, es: seq<Event<V>>, k: nat)
    returns (after: nat)
    requires Inv(s) && Enabled(s, step) && HasMode(s, i, Opening) && HasMode(Do(s, step), i, Opening)
    requires EarlyInv(s.store, s.caches[i], c0, base, es, k)
    ensures var t := Do(s, step);
            EarlyInv(t.store, t.caches[i], c0, base, es + StepEvents(s, step, i), after)
  {
    hide Inv, Shown, SeenAfter, CommitFirst, NewEntry, WriteOf, ReadsCounted, WritesIn;
    hide VisitRecord, StartScan, QueueWrite;
    after := k;
    var n := s.caches[i];
    assert es + [] == es;
    if step.id != i {
      OthersUntouched(s, step, i);
      BaseUntouched(s, step, i, k);
    } else if IsWrite(step) {
      WriteWhileOpening(s.store, n, c0, base, es, k, WriteOf(n, step));
    } else {
      match step
      case Commit(_) =>
        CommitWhileOpening(s.store, n, c0, base, es, k);
        after := k - 1;
      case StartRead(_) =>
        StartWhileOpening(s.store, n, c0, base, es, k);
        after := 0;
      case Visit(_, p) => VisitWhileOpening(s.store, n, c0, base, es, k, p);
    }
  }

  lemma BaseUntouched<V>(s: System<V>, step: Step<V>, i: Id, k: nat)
    requires Inv(s) && Enabled(s, step) && i in s.caches && step.id != i && k <= |s.caches[i].pending|
    ensures var filename, part := s.caches[i].filename, s.caches[i].pending[..k];
            SeenAfter(Do(s, step).store, filename, part) == SeenAfter(s.store, filename, part)
  {
    hide CacheInv, Restrict, ApplyAll, NewEntry, QueueWrite, WriteOf, ApplyWrite, NobodyReads;
    if step.Commit? {
      CommitLeavesOthers(s.store, s.caches[step.id], s.caches[i].(pending := s.caches[i].pending[..k]));
    }
  }

  lemma WriteWhileOpening<V>(store: Store<V>, n: Instance<V>, c0: Content<V>, base: Content<V>, es: seq<Event<V>>,
                             k: nat, w: Write<V>)
    requires EarlyInv(store, n, c0, base, es, k)
    ensures EarlyInv(store, QueueWrite(n, w), c0, base, es + [Written(w)], k)
  {
    hide Shown, SeenAfter, ApplyLocal, WritesIn;
    var e := Written(w);
    EventAppend(c0, base, es, e);
    LocalAppend(c0, WritesIn(es), w);
    var pending := n.pending + [Change(w)];
    assert pending[..k] == n.pending[..k];
    assert pending[k + 1..] == n.pending[k + 1..] + [Change(w)];
    forall key ensures multiset(es + [e])[Read(key)] == multiset(es)[Read(key)] {
      CountAppend(es, e, key);
    }
  }

  lemma CommitWhileOpening<V>(store: Store<V>, n: Instance<V>, c0: Content<V>, base: Content<V>, es: seq<Event<V>>,
                              k: nat)
    requires EarlyInv(store, n, c0, base, es, k) && n.pending[0].Change?
    ensures k > 0
    ensures var (storeAfter, after) := CommitFirst(store, n); EarlyInv(storeAfter, after, c0, base, es, k - 1)
  {
    hide Shown, Restrict, ApplyWrite, WritesIn;
    assert n.pending[1..][..k - 1] == n.pending[..k][1..];
    assert n.pending[1..][k..] == n.pending[k + 1..];
    assert forall key :: WasRead(n, base, key) == WasRead(CommitFirst(store, n).1, base, key);
  }

  lemma HeadIsChange<V>(pending: seq<Request<V>>, k: nat)
    requires 0 < k <= |pending| && NoScan(pending[..k])
    ensures pending[0].Change?
  {
    assert pending[..k][0] == pending[0];
  }

  lemma StartWhileOpening<V>(store: Store<V>, n: Instance<V>, c0: Content<V>, base: Content<V>, es: seq<Event<V>>,
                             k: nat)
    requires EarlyInv(store, n, c0, base, es, k) && n.pending[0].Scan? && n.cursor.None?
    ensures EarlyInv(store, StartScan(store, n), c0, base, es, 0)
  {
    hide Shown, Restrict, ApplyAll, WritesIn;
    if k > 0 {
      HeadIsChange(n.pending, k);
    }
    NothingBefore(store, n);
    forall key ensures !WasRead(StartScan(store, n), base, key) {
      RestrictHolds(store, n.filename, key);
    }
    assert forall key :: !WasRead(n, base, key);
  }

  lemma VisitWhileOpening<V>(store: Store<V>, n: Instance<V>, c0: Content<V>, base: Content<V>, es: seq<Event<V>>,
                             k: nat, p: (string, string))
    requires EarlyInv(store, n, c0, base, es, k) && n.cursor.Some? && p in n.cursor.value && p in store
    ensures EarlyInv(store, VisitRecord(store, n, p), c0, base,
                     es + (if p.0 == n.filename then [Read(p.1)] else []), k)
  {
    hide Shown, Restrict, ApplyAll, WritesIn;
    var after := VisitRecord(store, n, p);
    NothingBefore(store, n);
    if p.0 == n.filename {
      var e := Read(p.1);
      EventAppend(c0, base, es, e);
      RestrictHolds(store, n.filename, p.1);
      assert WritesIn(es) + [] == WritesIn(es);
      forall key ensures multiset(es + [e])[Read(key)] == if WasRead(after, base, key) then 1 else 0 {
        CountAppend(es, e, key);
        assert WasRead(after, base, key) <==> WasRead(n, base, key) || key == p.1;
      }
    } else {
      assert es + [] == es;
      assert forall key :: WasRead(after, base, key) == WasRead(n, base, key);
    }
  }

  /** The first `m` steps, of which the first one calls `open`, leave the cache opening. */
  ghost predicate StaysOpening<V>(states: seq<System<V>>, steps: seq<Step<V>>, i: Id, m: nat) {
    && IsRun(states, steps) && Inv(states[0]) && 0 < m <= |steps| && steps[0] == OpenCall(i) && i in states[0].caches
    && forall j | 0 < j <= m :: HasMode(states[j], i, Opening)
  }

  ghost predicate EarlyAfter<V>(states: seq<System<V>>, steps: seq<Step<V>>, i: Id, m: nat, k: nat)
    requires StaysOpening(states, steps, i, m)
  {
    var n := states[0].caches[i];
    var base, es := Eventual(states[0].store, n), Events(states, steps[..m], i);
    EarlyInv(states[m].store, states[m].caches[i], n.cache, base, es, k)
  }

  lemma {:induction false} OpeningRun<V>(states: seq<System<V>>, steps: seq<Step<V>>, i: Id, m: nat) returns (k: nat)
    requires StaysOpening(states, steps, i, m)
    ensures EarlyAfter(states, steps, i, m, k)
  {
    if m == 1 {
      hide EarlyInv, Eventual, Inv, Do;
      OpenStarts(states[0], i);
      k := |states[0].caches[i].pending|;
      OpenIsNoEvent(states, steps[..1], i);
    } else {
      hide *;
      StaysBefore(states, steps, i, m);
      k := OpeningRun(states, steps, i, m - 1);
      k := OpeningRunStep(states, steps, i, m - 1, k);
    }
  }

  lemma StaysBefore<V>(states: seq<System<V>>, steps: seq<Step<V>>, i: Id, m: nat)
    requires StaysOpening(states, steps, i, m) && m != 1
    ensures m > 1 && StaysOpening(states, steps, i, m - 1)
  {
    hide Inv, HasMode;
  }

  lemma OpeningRunStep<V>(states: seq<System<V>>, steps: seq<Step<V>>, i: Id, m: nat, k: nat) returns (after: nat)
    requires StaysOpening(states, steps, i, m + 1) && StaysOpening(states, steps, i, m)
    requires EarlyAfter(states, steps, i, m, k)
    ensures EarlyAfter(states, steps, i, m + 1, after)
  {
    hide Inv, Do, Enabled, EarlyInv, Eventual, StepEvents, HasMode;
    RunsKeepInv(states, steps, m);
    assert HasMode(states[m], i, Opening) && HasMode(states[m + 1], i, Opening);
    assert states[m + 1] == Do(states[m], steps[m]);
    var n := states[0].caches[i];
    var base, es := Eventual(states[0].store, n), Events(states, steps[..m], i);
    after := OpeningStep(states[m], steps[m], i, n.cache, base, es, k);
    assert steps[..m + 1][..m] == steps[..m];
  }

  lemma EnabledOpen<V>(s: System<V>, i: Id)
    requires Enabled(s, OpenCall(i))
    ensures i in s.caches
  {
  }

  lemma OpenIsNoEvent<V>(states: seq<System<V>>, steps: seq<Step<V>>, i: Id)
    requires |states| >= |steps| == 1 && steps[0] == OpenCall(i)
    ensures Events(states, steps, i) == []
  {
    assert steps[..0] == [];
  }

  /** The only step after which a cache is no longer opening is the end of its cursor. */
  lemma OpeningEnds<V>(s: System<V>, step: Step<V>, i: Id)
    requires Inv(s) && Enabled(s, step) && HasMode(s, i, Opening) && HasMode(Do(s, step), i, Opened)
    ensures step == EndRead(i) && i in s.caches && s.caches[i].pending != [] && s.caches[i].cursor == Some({})
    ensures var t := Do(s, step); t.caches[i] == EndScan(s.caches[i]) && t.store == s.store
  {
    hide CacheInv, WriteOf, QueueWrite, NobodyReads, CommitFirst, VisitRecord;
    if step.id != i {
      OthersUntouched(s, step, i);
    }
  }

  /** `open` is called in a reachable state and resolves after `steps`; meanwhile callers may write as they like, also
      between two events of the cursor, the other caches too, and earlier writes may still be queued.  When it
      resolves, memory agrees with what the store is going to hold exactly if, for every key that was, or was about to
      be, stored, some write touches the key after its record was read, or the writes before that leave the entry as
      it was. */
  lemma EarlyWritesIff<V>(before: seq<System<V>>, past: seq<Step<V>>, states: seq<System<V>>, steps: seq<Step<V>>,
                          i: Id)
    requires IsRun(before, past) && Initial(before[0]) && IsRun(states, steps) && states[0] == before[|past|]
    requires |steps| > 1 && steps[0] == OpenCall(i) && i !in states[0].early
    requires forall j | 0 < j < |steps| :: HasMode(states[j], i, Opening)
    requires HasMode(states[|steps|], i, Opened)
    ensures i in states[0].caches
    ensures var base := Eventual(states[0].store, states[0].caches[i]);
            var t := states[|steps|];
            t.caches[i].cache == Eventual(t.store, t.caches[i])
            <==> forall key | key in base :: KeyIsSafe(base, Events(states, steps, i), key)
  {
    hide Do, Eventual, KeyIsSafe, EarlyInv, CacheInv, Within, HasMode, Inv, Enabled;
    InitialInv(before[0]);
    RunsKeepInv(before, past, |past|);
    EnabledOpen(states[0], i);
    var m := |steps| - 1;
    var n, s := states[0].caches[i], states[m];
    var k := OpeningRun(states, steps, i, m);
    RunsKeepInv(states, steps, m);
    assert HasMode(s, i, Opening) && states[m + 1] == Do(s, steps[m]);
    OpeningEnds(s, steps[m], i);
    var base, es := Eventual(states[0].store, n), Events(states, steps[..m], i);
    assert Events(states, steps, i) == es + StepEvents(s, steps[m], i) == es;
    CursorIsFirst(s.store, s.caches[i], n.cache, base, es, k);
    WithinAtOpen(states[0], i);
    ReadyIff(s.store, s.caches[i], n.cache, base, es);
  }

  lemma InitialInv<V>(s: System<V>)
    requires Initial(s)
    ensures Inv(s)
  {
  }

  lemma CursorIsFirst<V>(store: Store<V>, n: Instance<V>, c0: Content<V>, base: Content<V>, es: seq<Event<V>>, k: nat)
    requires EarlyInv(store, n, c0, base, es, k) && n.cursor.Some?
    ensures EarlyInv(store, n, c0, base, es, 0)
  {
  }

  lemma WithinAtOpen<V>(s: System<V>, i: Id)
    requires Inv(s) && i in s.caches && i !in s.early
    ensures Within(s.caches[i].cache, Eventual(s.store, s.caches[i]))
  {
    assert CacheInv(s.store, s.caches[i], s.modes[i], false);
  }

  // ---- A run in which memory and store disagree for good

  ghost predicate IsReached<V(!new)>(s: System<V>) {
    exists states: seq<System<V>>, steps: seq<Step<V>> ::
      IsRun(states, steps) && Initial(states[0]) && states[|steps|] == s
  }

  lemma ReachedStep<V(!new)>(s: System<V>, step: Step<V>)
    requires IsReached(s) && Enabled(s, step)
    ensures IsReached(Do(s, step))
  {
    hide Enabled, Do, Initial;
    var states: seq<System<V>>, steps: seq<Step<V>> :|
      IsRun(states, steps) && Initial(states[0]) && states[|steps|] == s;
    assert IsRun(states + [Do(s, step)], steps + [step]);
  }

  /** A cache is opened, closed and opened again, and a key is set before the second `open` resolves.  Afterwards,
      with nothing queued any more, the store holds the new value and the cache answers the old one. */
  lemma EarlySetIsHidden()
    ensures exists s: System<int> ::
              && IsReached(s) && HasMode(s, 0, Opened) && s.caches[0].pending == []
              && GetAnswer(s.caches[0], "k") == Some(1)
              && ("f", "k") in s.store && s.store[("f", "k")].value == 2
  {
    hide IsReached;
    var s: System<int> := System(map[("f", "k") := Entry(1, None)], map[], map[], {});
    assert IsReached(s) by { StartIsReached(s); }
    var first := OpenAlone(s);
    var opening := Reopen(first);
    var done := SetAndFinish(opening);
    assert GetAnswer(done.caches[0], "k") == Some(1);
  }

  lemma Reopen(s: System<int>) returns (t: System<int>)
    requires IsReached(s) && HasMode(s, 0, Opened)
    requires s.caches == map[0 := Instance("f", map["k" := Entry(1, None)], [], None)]
    ensures IsReached(t) && HasMode(t, 0, Opening) && t.store == s.store
    ensures t.caches == map[0 := Instance("f", map[], [Scan], None)]
  {
    hide IsReached;
    ReachedStep(s, CloseCall(0));
    var closed := Do(s, CloseCall(0));
    ReachedStep(closed, OpenCall(0));
    t := Do(closed, OpenCall(0));
    assert t.caches[0].pending == [Scan];
  }

  lemma SetAndFinish(s: System<int>) returns (t: System<int>)
    requires IsReached(s) && HasMode(s, 0, Opening) && s.caches == map[0 := Instance("f", map[], [Scan], None)]
    requires s.store == map[("f", "k") := Entry(1, None)]
    ensures IsReached(t) && HasMode(t, 0, Opened)
    ensures t.caches[0] == Instance("f", map["k" := Entry(1, None)], [], None)
    ensures t.store == s.store[("f", "k") := Entry(2, Some(0))]
  {
    hide IsReached;
    var entry := Entry(2, Some(0));
    var put := Change(PutRecord("k", entry));
    ReachedStep(s, SetCall(0, "k", 2, true, 0));
    var written := Do(s, SetCall(0, "k", 2, true, 0));
    assert written.caches[0] == Instance("f", map["k" := entry], [Scan] + [put], None);
    var ready := ReadOne(written, map["k" := entry], [put]);
    ReachedStep(ready, Commit(0));
    t := Do(ready, Commit(0));
  }

  /** The cursor reads the only record. */
  lemma ReadOne(s: System<int>, c0: Content<int>, rest: seq<Request<int>>) returns (t: System<int>)
    requires IsReached(s) && HasMode(s, 0, Opening) && c0.Keys <= {"k"}
    requires s.caches == map[0 := Instance("f", c0, [Scan] + rest, None)]
    requires s.store == map[("f", "k") := Entry(1, None)]
    ensures IsReached(t) && HasMode(t, 0, Opened) && t.store == s.store && t.early == s.early
    ensures t.caches == map[0 := Instance("f", map["k" := Entry(1, None)], rest, None)]
  {
    hide IsReached;
    var p := ("f", "k");
    ReachedStep(s, StartRead(0));
    var started := Do(s, StartRead(0));
    assert s.store.Keys == {p};
    assert started.caches[0].cursor == Some({p});
    ReachedStep(started, Visit(0, p));
    var visited := Do(started, Visit(0, p));
    assert {p} - {p} == {};
    assert visited.caches[0] == Instance("f", map["k" := Entry(1, None)], [Scan] + rest, Some({}));
    ReachedStep(visited, EndRead(0));
    t := Do(visited, EndRead(0));
    assert ([Scan] + rest)[1..] == rest;
  }

  lemma StartIsReached<V(!new)>(s: System<V>)
    requires Initial(s)
    ensures IsReached(s)
  {
    var steps: seq<Step<V>> := [];
    assert IsRun([s], steps);
  }

  /** Creating a cache and opening it, when nothing else is going on. */
  lemma OpenAlone(s: System<int>) returns (t: System<int>)
    requires IsReached(s) && s == System(map[("f", "k") := Entry(1, None)], map[], map[], {})
    ensures IsReached(t) && HasMode(t, 0, Opened) && t.store == s.store
    ensures t.caches == map[0 := Instance("f", map["k" := Entry(1, None)], [], None)]
  {
    hide IsReached;
    ReachedStep(s, Create(0, "f"));
    var created := Do(s, Create(0, "f"));
    ReachedStep(created, OpenCall(0));
    var opening := Do(created, OpenCall(0));
    assert opening.caches[0].pending == [Scan] + [];
    t := ReadOne(opening, map[], []);
  }
}
