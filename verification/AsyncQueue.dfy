/** `AsyncQueue`: items that were added but not pulled, and consumers that wait for items. */
module AsyncQueues {
  import opened Collections
  import opened Wrappers

  /** The number of a call of the iterator's `next`; it also names the promise that call may wait for. */
  type Pull = nat

  /** `settled` records how waiting consumers were resolved: with an item, or with `undefined` on abort. */
  datatype Queue<T> = Queue(
    backlog: seq<T>, listeners: seq<Pull>, ended: bool, settled: map<Pull, Option<T>>, pulls: nat)

  function Empty<T>(): Queue<T> {
    Queue([], [], false, map[], 0)
  }

  function Min(a: nat, b: nat): nat {
    if a < b then a else b
  }

  /** A promise keeps its first resolution. */
  function Resolve<T>(settled: map<Pull, Option<T>>, p: Pull, v: Option<T>): map<Pull, Option<T>> {
    if p in settled then settled else settled[p := v]
  }

  function ResolveWith<T>(settled: map<Pull, Option<T>>, ps: seq<Pull>, items: seq<T>): map<Pull, Option<T>>
    requires |ps| == |items|
    decreases |ps|
  {
    if ps == [] then settled
    else Resolve(ResolveWith(settled, ps[..|ps| - 1], items[..|ps| - 1]), ps[|ps| - 1], Some(items[|ps| - 1]))
  }

  function ResolveUndefined<T>(settled: map<Pull, Option<T>>, ps: seq<Pull>): map<Pull, Option<T>>
    decreases |ps|
  {
    if ps == [] then settled
    else Resolve(ResolveUndefined(settled, ps[..|ps| - 1]), ps[|ps| - 1], None)
  }

  function Added<T>(q: Queue<T>, items: seq<T>): Queue<T> {
    if items == [] || q.ended then q
    else
      var n := Min(|items|, |q.listeners|);
      q.(settled := ResolveWith(q.settled, q.listeners[..n], items[..n]),
         listeners := q.listeners[n..],
         backlog := q.backlog + items[n..])
  }

  predicate CanRemove<T(==)>(q: Queue<T>, item: T) {
    !q.ended && item in q.backlog
  }

  function Removed<T(==)>(q: Queue<T>, item: T): Queue<T> {
    if CanRemove(q, item) then
      var i := IndexOf(q.backlog, item);
      q.(backlog := q.backlog[..i] + q.backlog[i + 1..])
    else q
  }

  function Ended<T>(q: Queue<T>): Queue<T> {
    q.(ended := true)
  }

  function Aborted<T>(q: Queue<T>): Queue<T> {
    q.(ended := true, backlog := [], settled := ResolveUndefined(q.settled, q.listeners))
  }

  /** What a call of `next` starts with: an item, waiting for one, or the end. */
  datatype Pulled<T> = Item(value: T) | Waiting | Done

  function AfterNext<T>(q: Queue<T>): (Queue<T>, Pulled<T>) {
    var counted := q.(pulls := q.pulls + 1);
    if q.backlog != [] then (counted.(backlog := q.backlog[1..]), Item(q.backlog[0]))
    else if !q.ended then (counted.(listeners := q.listeners + [q.pulls]), Waiting)
    else (counted, Done)
  }

  class AsyncQueue<T(==)> {
    var backlog: seq<T>
    var listeners: seq<Pull>
    var ended: bool
    var settled: map<Pull, Option<T>>
    var pulls: nat

    function View(): Queue<T>
      reads this
    {
      Queue(backlog, listeners, ended, settled, pulls)
    }

    constructor ()
      ensures View() == Empty()
    {
      backlog, listeners, ended, settled, pulls := [], [], false, map[], 0;
    }

    method Add(arguments: seq<T>)
      modifies this
      ensures View() == Added(old(View()), arguments)
    {
      if |arguments| == 0 || ended {
        return;
      }
      var items := arguments;
      ghost var n := 0;
      while |items| > 0 && |listeners| > 0
        invariant n <= |arguments| && n <= |old(listeners)|
        invariant items == arguments[n..] && listeners == old(listeners)[n..]
        invariant settled == ResolveWith(old(settled), old(listeners)[..n], arguments[..n])
        invariant backlog == old(backlog) && ended == old(ended) && pulls == old(pulls)
        decreases |items|
      {
        var promise := listeners[0];
        listeners := listeners[1..];
        var item := items[0];
        items := items[1..];
        settled := Resolve(settled, promise, Some(item));
        assert old(listeners)[..n + 1][..n] == old(listeners)[..n] && arguments[..n + 1][..n] == arguments[..n];
        n := n + 1;
      }
      backlog := backlog + items;
    }

    method Remove(item: T) returns (removed: bool)
      modifies this
      ensures removed <==> !old(ended) && item in old(backlog)
      ensures View() == Removed(old(View()), item)
    {
      if ended {
        return false;
      }
      var index := IndexOf(backlog, item);
      if index < |backlog| {
        backlog := backlog[..index] + backlog[index + 1..];
        return true;
      }
      return false;
    }

    method End()
      modifies this
      ensures View() == Ended(old(View()))
    {
      ended := true;
    }

    method Abort()
      modifies this
      ensures View() == Aborted(old(View()))
    {
      ended := true;
      while |backlog| > 0
        invariant ended && listeners == old(listeners) && settled == old(settled) && pulls == old(pulls)
      {
        backlog := backlog[..|backlog| - 1];
      }
      for i := 0 to |listeners|
        invariant ended && listeners == old(listeners) && backlog == [] && pulls == old(pulls)
        invariant settled == ResolveUndefined(old(settled), listeners[..i])
      {
        assert listeners[..i + 1][..i] == listeners[..i];
        settled := Resolve(settled, listeners[i], None);
      }
      assert listeners[..|listeners|] == listeners;
    }

    /** `next`, up to the point where it may have to wait. */
    method Next() returns (r: Pulled<T>)
      modifies this
      ensures (View(), r) == AfterNext(old(View()))
      ensures if old(backlog) != [] then r == Item(old(backlog)[0]) else r == if old(ended) then Done else Waiting
    {
      if |backlog| > 0 {
        r := Item(backlog[0]);
        backlog := backlog[1..];
      } else if !ended {
        listeners := listeners + [pulls];
        r := Waiting;
      } else {
        r := Done;
      }
      pulls := pulls + 1;
    }
  }
}
