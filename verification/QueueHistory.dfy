/** What happens to the items of an `AsyncQueue` over every interleaving of calls: nothing is lost or doubled,
    and items are served in the order in which they were accepted. */
module QueueHistory {
  import opened AsyncQueues
  import opened Collections
  import opened Wrappers

  /** A queue together with what happened so far.  Accepted items are told apart by their position in `accepted`:
      `held` are the positions of the backlog, `delivered` of the items handed out, `removed` of those taken back,
      `discarded` of those thrown away by `abort`.  `served` are the pulls that got an item, `got` those items, and
      `waited` the pulls that had to wait for one. */
  datatype History<T> = History(
    q: Queue<T>, accepted: seq<T>, held: seq<nat>, delivered: seq<nat>, removed: set<nat>, discarded: seq<nat>,
    served: seq<Pull>, got: seq<T>, waited: set<Pull>)

  datatype Call<T> = AddCall(items: seq<T>) | NextCall | RemoveCall(item: T) | EndCall | AbortCall

  function Range(a: nat, b: nat): seq<nat>
    requires a <= b
  {
    seq(b - a, i requires 0 <= i < b - a => a + i)
  }

  function Start<T>(): History<T> {
    History(Empty(), [], [], [], {}, [], [], [], {})
  }

  /** The queue's part of a call is the contract of the method of that name. */
  function Do<T(==)>(h: History<T>, call: Call<T>): History<T>
    requires |h.held| == |h.q.backlog|
  {
    match call
    case AddCall(items) => DoAdd(h, items)
    case NextCall =>
      var counted := h.(q := AfterNext(h.q).0);
      if h.q.backlog == [] then
        if h.q.ended then counted else counted.(waited := h.waited + {h.q.pulls})
      else counted.(held := h.held[1..], delivered := h.delivered + [h.held[0]],
                    served := h.served + [h.q.pulls], got := h.got + [h.q.backlog[0]])
    case RemoveCall(item) =>
      if !CanRemove(h.q, item) then h.(q := Removed(h.q, item))
      else
        var i := IndexOf(h.q.backlog, item);
        h.(q := Removed(h.q, item), held := h.held[..i] + h.held[i + 1..], removed := h.removed + {h.held[i]})
    case EndCall => h.(q := Ended(h.q))
    case AbortCall => h.(q := Aborted(h.q), held := [], discarded := h.discarded + h.held)
  }

  function DoAdd<T>(h: History<T>, items: seq<T>): History<T> {
    if h.q.ended then h.(q := Added(h.q, items))
    else
      var n, m := Min(|items|, |h.q.listeners|), |h.accepted|;
      h.(q := Added(h.q, items), accepted := h.accepted + items,
         delivered := h.delivered + Range(m, m + n), held := h.held + Range(m + n, m + |items|),
         served := h.served + h.q.listeners[..n], got := h.got + items[..n])
  }

  // ---- The invariant

  /** The positions below `n` that were not removed, in order. */
  function Kept(n: nat, removed: set<nat>): seq<nat> {
    if n == 0 then [] else Kept(n - 1, removed) + (if n - 1 in removed then [] else [n - 1])
  }

  ghost predicate Ascending(s: seq<nat>) {
    forall i, j | 0 <= i < j < |s| :: s[i] < s[j]
  }

  /** Each of `at` is the position of the corresponding item. */
  ghost predicate PositionsOf<T>(at: seq<nat>, items: seq<T>, accepted: seq<T>) {
    |at| == |items| && forall i | 0 <= i < |at| :: at[i] < |accepted| && items[i] == accepted[at[i]]
  }

  ghost predicate Conserved<T>(h: History<T>) {
    && h.delivered + h.held + h.discarded == Kept(|h.accepted|, h.removed)
    && PositionsOf(h.held, h.q.backlog, h.accepted)
    && PositionsOf(h.delivered, h.got, h.accepted)
    && (forall r | r in h.removed :: r < |h.accepted|)
    && (h.discarded != [] ==> h.q.ended && h.held == [])
  }

  ghost predicate Orderly<T>(h: History<T>) {
    && (h.q.listeners == [] || h.q.backlog == [])
    && |h.served| == |h.delivered|
    && Ascending(h.served + h.q.listeners)
    && (forall i | 0 <= i < |h.served + h.q.listeners| :: (h.served + h.q.listeners)[i] < h.q.pulls)
  }

  /** A pull that had to wait is resolved with the item it is served, and with `undefined` only by `abort`. */
  ghost predicate Handed<T>(h: History<T>) {
    && |h.got| == |h.served|
    && (forall k | 0 <= k < |h.served| && h.served[k] in h.waited ::
          h.served[k] in h.q.settled && h.q.settled[h.served[k]] == Some(h.got[k]))
    && (forall p | p in h.q.settled :: p in h.waited)
    && (forall p | p in h.q.listeners :: p in h.waited && (p in h.q.settled ==> h.q.ended && h.q.settled[p] == None))
    && (forall p | p in h.waited :: p < h.q.pulls)
  }

  ghost predicate Inv<T>(h: History<T>) {
    Conserved(h) && Orderly(h) && Handed(h)
  }

  // ---- Adding

  lemma {:induction false} KeptGrows(n: nat, m: nat, removed: set<nat>)
    requires n <= m && forall r | r in removed :: r < n
    ensures Kept(m, removed) == Kept(n, removed) + Range(n, m)
    decreases m - n
  {
    if n < m {
      KeptGrows(n, m - 1, removed);
      assert Range(n, m) == Range(n, m - 1) + [m - 1];
    }
  }

  /** A part of the new items is recorded after what was recorded before. */
  lemma PositionsAppend<T>(at: seq<nat>, items: seq<T>, accepted: seq<T>, more: seq<T>, a: nat, b: nat)
    requires PositionsOf(at, items, accepted) && a <= b <= |more|
    ensures PositionsOf(at + Range(|accepted| + a, |accepted| + b), items + more[a..b], accepted + more)
  {
  }

  lemma InsertTwice(d: seq<nat>, r1: seq<nat>, h: seq<nat>, r2: seq<nat>)
    requires h == [] || r1 == []
    ensures (d + r1) + (h + r2) + [] == (d + h) + (r1 + r2)
  {
  }

  lemma AddConserves<T>(h: History<T>, items: seq<T>)
    requires Inv(h) && !h.q.ended
    ensures Conserved(DoAdd(h, items))
  {
    hide Kept, ResolveWith, PositionsOf, Range;
    var t, n, m := DoAdd(h, items), Min(|items|, |h.q.listeners|), |h.accepted|;
    HeldIsEmpty(h);
    KeptGrows(m, m + |items|, h.removed);
    SplitRange(m, m + n, m + |items|);
    InsertTwice(h.delivered, Range(m, m + n), h.held, Range(m + n, m + |items|));
    assert h.delivered + h.held + h.discarded == h.delivered + h.held;
    PositionsAppend(h.delivered, h.got, h.accepted, items, 0, n);
    PositionsAppend(h.held, h.q.backlog, h.accepted, items, n, |items|);
    assert items[..n] == items[0..n] && items[n..] == items[n..|items|];
    assert t.q.backlog == h.q.backlog + items[n..];
  }

  lemma HeldIsEmpty<T>(h: History<T>)
    requires Inv(h)
    ensures h.q.listeners != [] ==> h.held == []
  {
  }

  lemma SplitRange(a: nat, b: nat, c: nat)
    requires a <= b <= c
    ensures Range(a, c) == Range(a, b) + Range(b, c)
    ensures a == b ==> Range(a, b) == []
  {
  }

  /** The pulls served or waiting stay the same; only the line between them moves. */
  lemma AddKeepsPulls<T>(h: History<T>, items: seq<T>)
    requires !h.q.ended
    ensures var t := DoAdd(h, items);
            t.served + t.q.listeners == h.served + h.q.listeners && t.q.pulls == h.q.pulls
  {
    hide ResolveWith, Range;
    var n := Min(|items|, |h.q.listeners|);
    assert h.q.listeners == h.q.listeners[..n] + h.q.listeners[n..];
  }

  lemma AddIsOrderly<T>(h: History<T>, items: seq<T>)
    requires Inv(h) && !h.q.ended
    ensures Orderly(DoAdd(h, items))
  {
    hide ResolveWith, Conserved, Handed, Ascending;
    AddKeepsPulls(h, items);
  }

  /** `r` is `settled` with each of `ps` resolved with the corresponding item. */
  ghost predicate IsResolved<T>(settled: map<Pull, Option<T>>, ps: seq<Pull>, items: seq<T>, r: map<Pull, Option<T>>) {
    && |ps| == |items|
    && (forall i | 0 <= i < |ps| :: ps[i] in r && r[ps[i]] == Some(items[i]))
    && (forall p | p in r :: p in ps || p in settled)
    && (forall p | p in settled :: p in r && r[p] == settled[p])
  }

  lemma {:induction false} ResolvedWith<T>(settled: map<Pull, Option<T>>, ps: seq<Pull>, items: seq<T>)
    requires |ps| == |items| && Ascending(ps) && forall i | 0 <= i < |ps| :: ps[i] !in settled
    ensures IsResolved(settled, ps, items, ResolveWith(settled, ps, items))
  {
    hide IsResolved, Resolve, Ascending;
    if ps == [] {
      NoneResolved(settled, ps, items);
    } else {
      var n := |ps| - 1;
      LastIsNew(ps);
      ResolvedWith(settled, ps[..n], items[..n]);
      ResolvedOne(settled, ps[..n], ps[n], items[..n], items[n], ResolveWith(settled, ps[..n], items[..n]));
      assert ps == ps[..n] + [ps[n]] && items == items[..n] + [items[n]];
    }
  }

  lemma LastIsNew(ps: seq<Pull>)
    requires Ascending(ps) && ps != []
    ensures ps[|ps| - 1] !in ps[..|ps| - 1] && Ascending(ps[..|ps| - 1])
  {
  }

  lemma NoneResolved<T>(settled: map<Pull, Option<T>>, ps: seq<Pull>, items: seq<T>)
    requires ps == [] && items == []
    ensures IsResolved(settled, ps, items, settled)
  {
  }

  lemma ResolvedOne<T>(settled: map<Pull, Option<T>>, ps: seq<Pull>, p: Pull, items: seq<T>, v: T, r: map<Pull,
                       Option<T>>)
    requires p !in settled && p !in ps && IsResolved(settled, ps, items, r)
    ensures IsResolved(settled, ps + [p], items + [v], Resolve(r, p, Some(v)))
  {
  }

  lemma AddHandsOver<T>(h: History<T>, items: seq<T>)
    requires Inv(h) && !h.q.ended
    ensures Handed(DoAdd(h, items))
  {
    hide Kept, ResolveWith, Conserved, Orderly, IsResolved;
    if items == [] {
      EmptyAdd(h);
    } else {
      var n := Min(|items|, |h.q.listeners|);
      var ps := h.q.listeners[..n];
      WaitersAreApart(h, n);
      ResolvedWith(h.q.settled, ps, items[..n]);
      HandOver(h.q.settled, ps, items[..n], DoAdd(h, items).q.settled, h.served, h.got, h.waited, h.q.listeners[n..]);
    }
  }

  lemma WaitersAreApart<T>(h: History<T>, n: nat)
    requires Orderly(h) && n <= |h.q.listeners|
    ensures Ascending(h.q.listeners[..n])
    ensures forall p | p in h.q.listeners[n..] :: p !in h.q.listeners[..n]
    ensures forall p | p in h.q.listeners :: p !in h.served
  {
    var both := h.served + h.q.listeners;
    assert forall i | 0 <= i < |h.q.listeners| :: h.q.listeners[i] == both[|h.served| + i];
    assert forall k | 0 <= k < |h.served| :: h.served[k] == both[k];
  }

  /** Resolving waiting pulls keeps what was handed over before and hands over the new items. */
  lemma HandOver<T>(settled: map<Pull, Option<T>>, ps: seq<Pull>, items: seq<T>, r: map<Pull, Option<T>>,
                    served: seq<Pull>, got: seq<T>, waited: set<Pull>, rest: seq<Pull>)
    requires IsResolved(settled, ps, items, r)
    requires |got| == |served|
    requires forall k | 0 <= k < |served| && served[k] in waited ::
               served[k] in settled && settled[served[k]] == Some(got[k])
    requires forall p | p in settled :: p in waited
    requires forall p | p in ps :: p in waited
    requires forall p | p in rest :: p !in ps && p !in settled
    ensures forall k | 0 <= k < |served + ps| && (served + ps)[k] in waited ::
              (served + ps)[k] in r && r[(served + ps)[k]] == Some((got + items)[k])
    ensures forall p | p in r :: p in waited
    ensures forall p | p in rest :: p !in r
  {
  }

  lemma EmptyAdd<T>(h: History<T>)
    ensures DoAdd(h, []) == h
  {
  }

  // ---- Pulling

  lemma NextHandsOver<T>(h: History<T>)
    requires Inv(h)
    ensures Handed(Do(h, NextCall))
  {
    hide Kept;
    if h.q.backlog == [] && !h.q.ended {
      assert forall k | 0 <= k < |h.served| :: h.served[k] == (h.served + h.q.listeners)[k];
    }
  }

  lemma NextKeepsInv<T>(h: History<T>)
    requires Inv(h)
    ensures Inv(Do(h, NextCall))
  {
    hide Kept, Handed;
    NextHandsOver(h);
    var t := Do(h, NextCall);
    if h.q.backlog != [] {
      assert h.held == [h.held[0]] + h.held[1..];
      assert t.delivered + t.held + t.discarded == h.delivered + h.held + h.discarded;
      assert h.served + h.q.listeners == h.served;
      assert t.served + t.q.listeners == h.served + [h.q.pulls];
    } else if !h.q.ended {
      assert t.served + t.q.listeners == (h.served + h.q.listeners) + [h.q.pulls];
    }
  }

  // ---- Removing

  lemma {:induction false} KeptBounds(n: nat, removed: set<nat>)
    ensures forall i | 0 <= i < |Kept(n, removed)| :: Kept(n, removed)[i] < n && Kept(n, removed)[i] !in removed
    ensures Ascending(Kept(n, removed))
    ensures forall p | 0 <= p < n && p !in removed :: p in Kept(n, removed)
  {
    if n > 0 {
      KeptBounds(n - 1, removed);
    }
  }

  /** Taking one position back takes exactly that position out of the list. */
  lemma {:induction false} KeptWithout(n: nat, removed: set<nat>, k: nat)
    requires k < |Kept(n, removed)|
    ensures var s := Kept(n, removed);
            Kept(n, removed + {s[k]}) == s[..k] + s[k + 1..]
  {
    hide Ascending;
    var s, t := Kept(n, removed), Kept(n - 1, removed);
    if k < |t| {
      assert t[k] < n - 1 by { KeptBounds(n - 1, removed); }
      KeptWithout(n - 1, removed, k);
      var last := if n - 1 in removed then [] else [n - 1];
      assert s[..k] == t[..k] && s[k + 1..] == t[k + 1..] + last;
      assert Kept(n, removed + {s[k]}) == Kept(n - 1, removed + {s[k]}) + last;
    } else {
      KeptSame(n - 1, removed, n - 1);
      assert s[..k] == t && s[k + 1..] == [];
    }
  }

  lemma {:induction false} KeptSame(n: nat, removed: set<nat>, p: nat)
    requires n <= p
    ensures Kept(n, removed + {p}) == Kept(n, removed)
  {
    if n > 0 {
      KeptSame(n - 1, removed, p);
    }
  }

  lemma RemoveConserves<T>(h: History<T>, item: T)
    requires Inv(h) && CanRemove(h.q, item)
    ensures var t := Do(h, RemoveCall(item));
            t.delivered + t.held + t.discarded == Kept(|t.accepted|, t.removed)
  {
    hide Kept, Handed, Orderly;
    var t := Do(h, RemoveCall(item));
    var i := IndexOf(h.q.backlog, item);
    var s, k := h.delivered + h.held + h.discarded, |h.delivered| + i;
    KeptWithout(|h.accepted|, h.removed, k);
    assert s[k] == h.held[i];
    assert s[..k] == h.delivered + h.held[..i];
    assert s[k + 1..] == h.held[i + 1..] + h.discarded;
    assert t.held == h.held[..i] + h.held[i + 1..];
  }

  lemma RemoveKeepsInv<T>(h: History<T>, item: T)
    requires Inv(h) && CanRemove(h.q, item)
    ensures Inv(Do(h, RemoveCall(item)))
  {
    hide Kept;
    RemoveConserves(h, item);
  }

  // ---- Ending

  lemma {:induction false} ResolvedUndefined<T>(settled: map<Pull, Option<T>>, ps: seq<Pull>)
    ensures var r := ResolveUndefined(settled, ps);
            && (forall p | p in settled :: p in r && r[p] == settled[p])
            && (forall p | p in r && p !in settled :: p in ps && r[p] == None)
  {
    if ps != [] {
      ResolvedUndefined(settled, ps[..|ps| - 1]);
    }
  }

  lemma AbortHandsOver<T>(h: History<T>)
    requires Inv(h)
    ensures Handed(Do(h, AbortCall))
  {
    hide Kept, Conserved, Orderly, ResolveUndefined;
    ResolvedUndefined(h.q.settled, h.q.listeners);
    assert |h.held| == |h.q.backlog| by { HeldMatches(h); }
  }

  lemma HeldMatches<T>(h: History<T>)
    requires Inv(h)
    ensures |h.held| == |h.q.backlog| && |h.served| == |h.delivered| == |h.got|
  {
  }

  lemma AbortKeepsInv<T>(h: History<T>)
    requires Inv(h)
    ensures Inv(Do(h, AbortCall))
  {
    hide Kept, ResolveUndefined, Handed;
    AbortHandsOver(h);
    var t := Do(h, AbortCall);
    assert t.delivered + t.held + t.discarded == h.delivered + h.held + h.discarded;
  }

  // ---- Every run

  lemma CallKeepsInv<T>(h: History<T>, call: Call<T>)
    requires Inv(h)
    ensures Inv(Do(h, call))
  {
    hide Kept, Orderly;
    match call
    case AddCall(items) =>
      if h.q.ended {
        assert Do(h, call) == h;
      } else {
        AddConserves(h, items);
        AddIsOrderly(h, items);
        AddHandsOver(h, items);
      }
    case NextCall => NextKeepsInv(h);
    case RemoveCall(item) =>
      if CanRemove(h.q, item) {
        RemoveKeepsInv(h, item);
      }
    case EndCall => EndKeepsInv(h);
    case AbortCall => AbortKeepsInv(h);
  }

  lemma EndKeepsInv<T>(h: History<T>)
    requires Inv(h)
    ensures Inv(Do(h, EndCall))
  {
  }

  /** The history after a sequence of calls on a new queue. */
  ghost function After<T>(calls: seq<Call<T>>): (h: History<T>)
    ensures Inv(h)
    decreases |calls|
  {
    if calls == [] then
      StartInv<T>();
      Start()
    else
      var before := After(calls[..|calls| - 1]);
      CallKeepsInv(before, calls[|calls| - 1]);
      Do(before, calls[|calls| - 1])
  }

  lemma StartInv<T>()
    ensures Inv(Start<T>())
  {
  }

  /** Waiting consumers and backlog are never both non-empty. */
  lemma NeverWaitingWithBacklog<T>(calls: seq<Call<T>>)
    ensures var q := After(calls).q; q.listeners == [] || q.backlog == []
  {
  }

  /** Conservation: every accepted item is exactly one of delivered, in the backlog, removed or discarded, and is
      so once. */
  lemma ItemsAreConserved<T>(calls: seq<Call<T>>, p: nat)
    requires p < |After(calls).accepted|
    ensures var h := After(calls);
            multiset(h.delivered)[p] + multiset(h.held)[p] + multiset(h.discarded)[p]
            + (if p in h.removed then 1 else 0) == 1
    ensures var h := After(calls);
            PositionsOf(h.held, h.q.backlog, h.accepted) && PositionsOf(h.delivered, h.got, h.accepted)
  {
    hide After, Kept, PositionsOf;
    var h := After(calls);
    assert multiset(h.delivered + h.held + h.discarded)[p]
           == multiset(h.delivered)[p] + multiset(h.held)[p] + multiset(h.discarded)[p];
    KeptOnce(|h.accepted|, h.removed, p);
  }

  lemma {:induction false} KeptOnce(n: nat, removed: set<nat>, p: nat)
    ensures multiset(Kept(n, removed))[p] == if p < n && p !in removed then 1 else 0
  {
    if n > 0 {
      KeptOnce(n - 1, removed, p);
    }
  }

  /** Order: consumers are served in the order of their calls, and the k-th pull that is served gets the k-th
      accepted item that was not removed. */
  lemma ServedInOrder<T>(calls: seq<Call<T>>, k: nat)
    requires k < |After(calls).served|
    ensures var h := After(calls);
            && Ascending(h.served)
            && k < |h.got| && k < |Kept(|h.accepted|, h.removed)|
            && h.got[k] == h.accepted[Kept(|h.accepted|, h.removed)[k]]
            && (h.served[k] in h.waited ==> h.served[k] in h.q.settled && h.q.settled[h.served[k]] == Some(h.got[k]))
  {
    hide After, Kept;
    var h := After(calls);
    assert (h.delivered + h.held + h.discarded)[k] == h.delivered[k];
    forall i, j | 0 <= i < j < |h.served| ensures h.served[i] < h.served[j] {
      assert (h.served + h.q.listeners)[i] < (h.served + h.q.listeners)[j];
    }
  }

  lemma {:induction false} AllResolved<T>(settled: map<Pull, Option<T>>, ps: seq<Pull>)
    ensures forall p | p in ps :: p in ResolveUndefined(settled, ps)
  {
    if ps != [] {
      AllResolved(settled, ps[..|ps| - 1]);
      assert ps == ps[..|ps| - 1] + [ps[|ps| - 1]];
    }
  }

  /** Once the queue has ended, its listeners stay; only `abort` resolves promises, and it resolves all of them. */
  lemma EndedStep<T>(h: History<T>, call: Call<T>)
    requires Inv(h) && h.q.ended
    ensures var q := Do(h, call).q;
            && q.ended && q.listeners == h.q.listeners
            && (call != AbortCall ==> q.settled == h.q.settled)
            && (forall p | p in h.q.settled :: p in q.settled)
            && (call == AbortCall ==> forall p | p in q.listeners :: p in q.settled)
  {
    hide Kept, ResolveUndefined, Conserved, Orderly, Handed;
    assert |h.held| == |h.q.backlog| by { HeldMatches(h); }
    if call == AbortCall {
      ResolvedUndefined(h.q.settled, h.q.listeners);
      AllResolved(h.q.settled, h.q.listeners);
    }
  }

  /** The state after `end` and any further calls, as far as waiting consumers are concerned. */
  ghost predicate AfterEnd<T>(before: Queue<T>, more: seq<Call<T>>, q: Queue<T>) {
    && q.ended && q.listeners == before.listeners
    && (AbortCall !in more ==> q.settled == before.settled)
    && (AbortCall in more ==> forall p | p in q.listeners :: p in q.settled)
  }

  lemma {:induction false} CallsAfterEnd<T>(calls: seq<Call<T>>, more: seq<Call<T>>)
    ensures AfterEnd(After(calls).q, more, After(calls + [EndCall] + more).q)
    decreases |more|
  {
    hide Inv, Do;
    var all := calls + [EndCall] + more;
    if more == [] {
      assert all[..|all| - 1] == calls && all[|all| - 1] == EndCall;
      EndStep(After(calls));
    } else {
      var init, last := more[..|more| - 1], more[|more| - 1];
      assert all[..|all| - 1] == calls + [EndCall] + init && all[|all| - 1] == last;
      assert more == init + [last];
      CallsAfterEnd(calls, init);
      EndedStep(After(calls + [EndCall] + init), last);
    }
  }

  lemma EndStep<T>(h: History<T>)
    requires Inv(h)
    ensures Do(h, EndCall).q == Ended(h.q)
  {
  }

  /** `end` does not wake waiting consumers: whoever waits then is resolved exactly if `abort` is called later. */
  lemma WaitingAfterEndIff<T>(calls: seq<Call<T>>, more: seq<Call<T>>, p: Pull)
    requires p in After(calls).q.listeners && !After(calls).q.ended
    ensures p in After(calls + [EndCall] + more).q.settled <==> AbortCall in more
  {
    hide After, Conserved, Orderly;
    CallsAfterEnd(calls, more);
  }

  /** Such a consumer exists: the first pull of a new queue waits, and goes on waiting after `end`. */
  lemma EndLeavesConsumersWaiting<T>()
    ensures var q := After<T>([NextCall]).q; q.listeners == [0] && !q.ended
    ensures 0 !in After<T>([NextCall, EndCall]).q.settled
  {
    var calls: seq<Call<T>> := [NextCall];
    assert calls[..0] == [];
    assert calls + [EndCall] + [] == [NextCall, EndCall];
    WaitingAfterEndIff(calls, [], 0);
  }

  // ---- What a further call returns

  lemma {:induction false} EndedIff<T>(calls: seq<Call<T>>)
    ensures After(calls).q.ended <==> EndCall in calls || AbortCall in calls
    decreases |calls|
  {
    hide Kept, Inv;
    if calls != [] {
      HeldMatches(After(calls[..|calls| - 1]));
      var init, last := calls[..|calls| - 1], calls[|calls| - 1];
      EndedIff(init);
      assert calls == init + [last];
      EndedByCall(After(init), last);
    }
  }

  lemma EndedByCall<T>(h: History<T>, call: Call<T>)
    requires |h.held| == |h.q.backlog|
    ensures Do(h, call).q.ended <==> h.q.ended || call == EndCall || call == AbortCall
  {
    hide ResolveWith, ResolveUndefined;
  }

  /** A further pull, after any calls of which `k` pulls were served: it gets the k-th accepted item that was not
      removed if there is one that was not discarded; otherwise it waits, as the last in line, as long as neither `end`
      nor `abort` was called, and is done from then on. */
  lemma NextPullGets<T>(calls: seq<Call<T>>, q: Queue<T>, r: Pulled<T>)
    requires (q, r) == AfterNext(After(calls).q)
    ensures var h := After(calls);
            var kept, k := Kept(|h.accepted|, h.removed), |h.served|;
            var ended := EndCall in calls || AbortCall in calls;
            && k + |h.discarded| <= |kept|
            && (k + |h.discarded| < |kept| ==> r == Item(h.accepted[kept[k]]) && q.listeners == h.q.listeners)
            && (k + |h.discarded| == |kept| && ended ==> r == Done && q.listeners == h.q.listeners)
            && (k + |h.discarded| == |kept| && !ended ==> r == Waiting && q.listeners == h.q.listeners + [h.q.pulls])
  {
    hide After, Kept, Ascending;
    EndedIff(calls);
    var h := After(calls);
    KeptBounds(|h.accepted|, h.removed);
    assert h.held != [] ==> (h.delivered + h.held + h.discarded)[|h.served|] == h.held[0];
  }

  /** What the next `n` pulls return. */
  function PullResults<T>(q: Queue<T>, n: nat): seq<Pulled<T>>
    decreases n
  {
    if n == 0 then [] else [AfterNext(q).1] + PullResults(AfterNext(q).0, n - 1)
  }

  /** A queue that has ended is drained: further pulls get the items of the backlog in order, then all are done. */
  lemma {:induction false} EndedQueueDrains<T>(q: Queue<T>, n: nat)
    requires q.ended
    ensures |PullResults(q, n)| == n
    ensures forall j | 0 <= j < n :: PullResults(q, n)[j] == if j < |q.backlog| then Item(q.backlog[j]) else Done
    decreases n
  {
    if n > 0 {
      EndedQueueDrains(AfterNext(q).0, n - 1);
    }
  }

  /** `remove` takes an item back exactly if it is in the backlog and neither `end` nor `abort` was called; it takes
      the first one. */
  lemma RemovableIff<T>(calls: seq<Call<T>>, item: T, removed: bool)
    requires removed <==> CanRemove(After(calls).q, item)
    ensures var h := After(calls);
            && (removed <==> EndCall !in calls && AbortCall !in calls && exists i :: IsHeld(h, item, i))
            && (!removed ==> After(calls + [RemoveCall(item)]) == h)
            && (removed ==> exists i :: IsHeld(h, item, i) && (forall j | 0 <= j < i :: !IsHeld(h, item, j))
                                        && After(calls + [RemoveCall(item)]).removed == h.removed + {h.held[i]})
  {
    hide Kept;
    EndedIff(calls);
    var h := After(calls);
    assert (calls + [RemoveCall(item)])[..|calls|] == calls;
    HeldIsBacklog(h, item);
    if removed {
      var i := IndexOf(h.q.backlog, item);
      assert IsHeld(h, item, i);
      assert forall j | 0 <= j < i :: h.q.backlog[j] == h.q.backlog[..i][j];
    }
  }

  /** The i-th item of the backlog is this item. */
  ghost predicate IsHeld<T>(h: History<T>, item: T, i: int) {
    0 <= i < |h.held| && h.held[i] < |h.accepted| && h.accepted[h.held[i]] == item
  }

  lemma HeldIsBacklog<T>(h: History<T>, item: T)
    requires Inv(h)
    ensures |h.held| == |h.q.backlog|
    ensures forall i | 0 <= i < |h.held| :: IsHeld(h, item, i) <==> h.q.backlog[i] == item
  {
  }
}
