/** `IndexedDBCache`: an in-memory map that answers all reads, while writes to a store shared by all caches are
    queued in the background.  Transactions of one cache run in the order in which it created them, and those of
    different caches may interleave in any way, but nothing is written while a transaction is reading.  A reading
    transaction gets one event per record, and other code may run between two of them. */
module WriteBehind {
  import opened Wrappers

  datatype Entry<V> = Entry(value: V, timestamp: Option<int>)

  /** A cache's content: entries by value ID. */
  type Content<V> = map<string, Entry<V>>

  /** The store's records by file name and value ID. */
  type Store<V> = map<(string, string), Entry<V>>

  datatype Write<V> = PutRecord(key: string, entry: Entry<V>) | DeleteRecord(key: string) | ClearRecords

  /** A transaction that a cache has created: a write, or the cursor that `open` reads with. */
  datatype Request<V> = Change(write: Write<V>) | Scan

  // ---- What transactions do to the store

  function ApplyWrite<V>(store: Store<V>, filename: string, w: Write<V>): Store<V> {
    match w
    case PutRecord(key, entry) => store[(filename, key) := entry]
    case DeleteRecord(key) => store - {(filename, key)}
    case ClearRecords => map p | p in store && p.0 != filename :: store[p]
  }

  /** The records of one file. */
  function Restrict<V>(store: Store<V>, filename: string): Content<V> {
    map p | p in store && p.0 == filename :: p.1 := store[p]
  }

  /** Performing the queued writes in order. */
  function ApplyAll<V>(store: Store<V>, filename: string, pending: seq<Request<V>>): Store<V>
    decreases pending
  {
    if pending == [] then store
    else
      var next := if pending[0].Change? then ApplyWrite(store, filename, pending[0].write) else store;
      ApplyAll(next, filename, pending[1..])
  }

  /** The same writes seen by a single cache. */
  function ApplyLocal<V>(c: Content<V>, w: Write<V>): Content<V> {
    match w
    case PutRecord(key, entry) => c[key := entry]
    case DeleteRecord(key) => c - {key}
    case ClearRecords => map[]
  }

  lemma OwnWrite<V>(store: Store<V>, filename: string, w: Write<V>)
    ensures Restrict(ApplyWrite(store, filename, w), filename) == ApplyLocal(Restrict(store, filename), w)
  {
  }

  lemma OtherWrite<V>(store: Store<V>, filename: string, w: Write<V>, other: string)
    requires filename != other
    ensures Restrict(ApplyWrite(store, filename, w), other) == Restrict(store, other)
  {
  }

  lemma {:induction false} AppliedAllSameFile<V>(store: Store<V>, other: Store<V>, filename: string,
                                                 pending: seq<Request<V>>)
    requires Restrict(store, filename) == Restrict(other, filename)
    ensures Restrict(ApplyAll(store, filename, pending), filename)
            == Restrict(ApplyAll(other, filename, pending), filename)
    decreases pending
  {
    if pending != [] {
      if pending[0].Change? {
        OwnWrite(store, filename, pending[0].write);
        OwnWrite(other, filename, pending[0].write);
        AppliedAllSameFile(ApplyWrite(store, filename, pending[0].write), ApplyWrite(other, filename, pending[0].write),
                           filename, pending[1..]);
      } else {
        AppliedAllSameFile(store, other, filename, pending[1..]);
      }
    }
  }

  lemma {:induction false} AppliedAllAppend<V>(store: Store<V>, filename: string, pending: seq<Request<V>>,
                                               r: Request<V>)
    ensures ApplyAll(store, filename, pending + [r])
            == if r.Change? then ApplyWrite(ApplyAll(store, filename, pending), filename, r.write)
               else ApplyAll(store, filename, pending)
    decreases pending
  {
    if pending == [] {
      assert pending + [r] == [r];
      assert [r][1..] == [];
    } else {
      assert (pending + [r])[0] == pending[0];
      assert (pending + [r])[1..] == pending[1..] + [r];
      var next := if pending[0].Change? then ApplyWrite(store, filename, pending[0].write) else store;
      AppliedAllAppend(next, filename, pending[1..], r);
    }
  }

  // ---- One cache

  /** The records that a reading cursor has not come to yet. */
  type Cursor = set<(string, string)>

  /** The state of one cache object, with the transactions it has queued, and the cursor of the first one if that is
      reading. */
  datatype Instance<V> = Instance(
    filename: string, cache: Content<V>, pending: seq<Request<V>>, cursor: Option<Cursor>)

  /** What the store will hold for this cache once its queued writes are done. */
  function Eventual<V>(store: Store<V>, n: Instance<V>): Content<V> {
    Restrict(ApplyAll(store, n.filename, n.pending), n.filename)
  }

  function QueueWrite<V>(n: Instance<V>, w: Write<V>): Instance<V> {
    n.(cache := ApplyLocal(n.cache, w), pending := n.pending + [Change(w)])
  }

  /** A queued write gets its turn. */
  function CommitFirst<V>(store: Store<V>, n: Instance<V>): (Store<V>, Instance<V>)
    requires n.pending != [] && n.pending[0].Change?
  {
    (ApplyWrite(store, n.filename, n.pending[0].write), n.(pending := n.pending[1..]))
  }

  /** The reading transaction gets its turn. */
  function StartScan<V>(store: Store<V>, n: Instance<V>): Instance<V> {
    n.(cursor := Some(store.Keys))
  }

  /** The cursor comes to a record. */
  function VisitRecord<V>(store: Store<V>, n: Instance<V>, p: (string, string)): Instance<V>
    requires n.cursor.Some? && p in store
  {
    n.(cursor := Some(n.cursor.value - {p}),
       cache := if p.0 == n.filename then n.cache[p.1 := store[p]] else n.cache)
  }

  /** The cursor comes to the end. */
  function EndScan<V>(n: Instance<V>): Instance<V>
    requires n.pending != []
  {
    n.(pending := n.pending[1..], cursor := None)
  }

  /** The entry that `set` stores: a fresh timestamp, or the one the key has. */
  function NewEntry<V>(n: Instance<V>, key: string, value: V, updateTimestamp: bool, now: int): Entry<V> {
    Entry(value, if updateTimestamp then Some(now) else TimestampAnswer(n, key))
  }

  /** What the three ways to read answer; `WriteBehindRuns` says how that relates to the store. */
  predicate HasAnswer<V>(n: Instance<V>, key: string) {
    key in n.cache
  }

  function GetAnswer<V>(n: Instance<V>, key: string): Option<V> {
    if HasAnswer(n, key) then Some(n.cache[key].value) else None
  }

  function TimestampAnswer<V>(n: Instance<V>, key: string): Option<int> {
    if HasAnswer(n, key) then n.cache[key].timestamp else None
  }

  class IndexedDBCache<V(==)> {
    const filename: string
    var cache: Content<V>
    var pending: seq<Request<V>>
    var cursor: Option<Cursor>

    function View(): Instance<V>
      reads this
    {
      Instance(filename, cache, pending, cursor)
    }

    constructor (filename: string)
      ensures View() == Instance(filename, map[], [], None)
    {
      this.filename := filename;
      cache, pending, cursor := map[], [], None;
    }

    method Has(key: string) returns (r: bool)
      ensures r <==> HasAnswer(View(), key)
    {
      r := key in cache;
    }

    method Get(key: string) returns (r: Option<V>)
      ensures r == GetAnswer(View(), key)
    {
      r := None;
      if key in cache {
        r := Some(cache[key].value);
      }
    }

    method GetTimestamp(key: string) returns (r: Option<int>)
      ensures r == TimestampAnswer(View(), key)
    {
      r := None;
      if key in cache {
        r := cache[key].timestamp;
      }
    }

    method Set(key: string, value: V, updateTimestamp: bool, now: int)
      modifies this
      ensures View() == QueueWrite(old(View()), PutRecord(key, NewEntry(old(View()), key, value, updateTimestamp, now)))
      ensures key in cache && cache[key].value == value
      ensures cache[key].timestamp
              == if updateTimestamp then Some(now) else if key in old(cache) then old(cache)[key].timestamp else None
      ensures forall k | k != key ::
                (k in cache <==> k in old(cache)) && (k in cache ==> cache[k] == old(cache)[k])
      ensures pending == old(pending) + [Change(PutRecord(key, cache[key]))]
    {
      var timestamp := GetTimestamp(key);
      var entry := Entry(value, if updateTimestamp then Some(now) else timestamp);
      cache := cache[key := entry];
      pending := pending + [Change(PutRecord(key, entry))];
    }

    method Delete(key: string) returns (r: bool)
      modifies this
      ensures r <==> key in old(cache)
      ensures View() == QueueWrite(old(View()), DeleteRecord(key))
      ensures cache == old(cache) - {key} && pending == old(pending) + [Change(DeleteRecord(key))]
    {
      r := key in cache;
      cache := cache - {key};
      pending := pending + [Change(DeleteRecord(key))];
    }

    method Clear()
      modifies this
      ensures View() == QueueWrite(old(View()), ClearRecords)
      ensures cache == map[] && pending == old(pending) + [Change(ClearRecords)]
    {
      cache := map[];
      pending := pending + [Change(ClearRecords)];
    }

    method Close()
      modifies this
      ensures View() == old(View()).(cache := map[])
    {
      cache := map[];
    }

    /** `open` creates a transaction with a cursor, which waits for its turn. */
    method Open()
      modifies this
      ensures View() == old(View()).(pending := old(pending) + [Scan])
    {
      pending := pending + [Scan];
    }

    /** The first queued transaction is a write and gets its turn. */
    method Commit(store: Store<V>) returns (after: Store<V>)
      requires pending != [] && pending[0].Change?
      modifies this
      ensures (after, View()) == CommitFirst(store, old(View()))
    {
      var write := pending[0].write;
      pending := pending[1..];
      match write
      case PutRecord(key, entry) => after := store[(filename, key) := entry];
      case DeleteRecord(key) => after := store - {(filename, key)};
      case ClearRecords => after := DeleteWithCursor(store);
    }

    /** The first queued transaction is the one of `open`, gets its turn and opens its cursor. */
    method OpenCursor(store: Store<V>)
      modifies this`cursor
      ensures View() == StartScan(store, old(View()))
    {
      cursor := Some(store.Keys);
    }

    /** The `success` event of that cursor; without a record, `open` resolves. */
    method OnSuccess(store: Store<V>, record: Option<(string, string)>)
      requires pending != [] && cursor.Some?
      requires record.Some? ==> record.value in store
      modifies this`cache, this`cursor, this`pending
      ensures View() == if record.Some? then VisitRecord(store, old(View()), record.value) else EndScan(old(View()))
    {
      if record.Some? {
        var p := record.value;
        if p.0 == filename {
          cache := cache[p.1 := store[p]];
        }
        cursor := Some(cursor.value - {p});
      } else {
        pending := pending[1..];
        cursor := None;
      }
    }

    /** If nothing else runs between its events, the cursor of `open` adds exactly the records of this file. */
    method ReadWithCursor(store: Store<V>)
      requires pending != [] && pending[0].Scan?
      modifies this
      ensures View() == EndScan(old(View())).(cache := old(cache) + Restrict(store, filename))
    {
      hide Restrict, Visited;
      OpenCursor(store);
      VisitedEnds(store, filename);
      while cursor.value != {}
        invariant cursor.Some? && cursor.value <= store.Keys && pending == old(pending)
        invariant cache == old(cache) + Restrict(Visited(store, cursor.value), filename)
        decreases cursor.value
      {
        var p :| p in cursor.value;
        VisitOne(store, cursor.value, p, filename);
        OnSuccess(store, Some(p));
      }
      OnSuccess(store, None);
    }

    /** The cursor of `clear` deletes the records of this file. */
    method DeleteWithCursor(store: Store<V>) returns (after: Store<V>)
      ensures after == ApplyWrite(store, filename, ClearRecords)
    {
      after := store;
      var rest := store.Keys;
      while rest != {}
        invariant rest <= store.Keys
        invariant after == map p | p in store && (p in rest || p.0 != filename) :: store[p]
        decreases rest
      {
        var p :| p in rest;
        if p.0 == filename {
          after := after - {p};
        }
        rest := rest - {p};
      }
    }
  }

  ghost function Visited<V>(store: Store<V>, rest: set<(string, string)>): Store<V> {
    map p | p in store && p !in rest :: store[p]
  }

  lemma VisitedEnds<V>(store: Store<V>, filename: string)
    ensures Restrict(Visited(store, store.Keys), filename) == map[]
    ensures Visited(store, {}) == store
  {
  }

  lemma VisitOne<V>(store: Store<V>, rest: set<(string, string)>, p: (string, string), filename: string)
    requires p in rest && rest <= store.Keys
    ensures Restrict(Visited(store, rest - {p}), filename)
            == if p.0 == filename then Restrict(Visited(store, rest), filename)[p.1 := store[p]]
               else Restrict(Visited(store, rest), filename)
  {
  }
}
