/** The open-addressing hash table of hcreate_r and hsearch_r (src/search.c:54-148). */
module HashTable {
  import opened Machine
  import opened Bits
  import opened Ring
  import opened Sequences

  datatype Action = FIND | ENTER

  /** A slot; one whose key is NULL is empty. */
  datatype Slot<+D> = Empty | Entry(key: string, data: D)

  datatype Call<+D> = Call(key: string, data: D, action: Action)

  /** The slots and the counter of entries. */
  datatype Tab<+D> = Tab(d: seq<Slot<D>>, size: nat)

  // ----- What a call does to a table -----

  /** The slot where the search for an item starts: the code hashes the data, not the key. */
  function Start<D>(hash: D -> nat, data: D, n: nat): nat
    requires n > 0
  {
    And(hash(data), n - 1)
  }

  /** Where at most `steps` probe steps from `i` lead, stopping at an empty slot and at the key. */
  function Search<D>(d: seq<Slot<D>>, key: string, i: nat, steps: nat, n: nat): nat
    requires n > 0
    decreases steps
  {
    if steps == 0 || i >= |d| || d[i].Empty? || d[i].key == key then i
    else Search(d, key, And(i + 1, n - 1), steps - 1, n)
  }

  function Stop<D>(t: Tab<D>, call: Call<D>, hash: D -> nat, n: nat): nat
    requires n > 0
  {
    Search(t.d, call.key, Start(hash, call.data, n), RingSize(n), n)
  }

  predicate Holds<D>(d: seq<Slot<D>>, i: nat, key: string) { i < |d| && d[i].Entry? && d[i].key == key }

  /** The data of the entry that a call points its caller to, if any. */
  function Answer<D>(t: Tab<D>, call: Call<D>, hash: D -> nat, n: nat): Option<D>
    requires n > 0
  {
    var i := Stop(t, call, hash, n);
    if Holds(t.d, i, call.key) then Some(t.d[i].data)
    else if call.action == FIND || t.size == n then None
    else Some(call.data)
  }

  function After<D>(t: Tab<D>, call: Call<D>, hash: D -> nat, n: nat): Tab<D>
    requires n > 0
  {
    var i := Stop(t, call, hash, n);
    if Holds(t.d, i, call.key) || call.action == FIND || t.size == n || i >= |t.d| then t
    else Tab(t.d[i := Entry(call.key, call.data)], t.size + 1)
  }

  function NewTable<D>(space: nat): Tab<D> { Tab(seq(space, _ => Empty), 0) }

  /** The table of capacity `n` in `space` slots after the calls. */
  function RunTable<D>(calls: seq<Call<D>>, hash: D -> nat, n: nat, space: nat): Tab<D>
    requires n > 0
  {
    if calls == [] then NewTable(space)
    else After(RunTable(calls[..|calls| - 1], hash, n, space), calls[|calls| - 1], hash, n)
  }

  // ----- What it is meant to be: a bounded map that only grows -----

  function Bounded<D>(m: map<string, D>, call: Call<D>, n: nat): map<string, D> {
    if call.action == ENTER && call.key !in m && |m| < n then m[call.key := call.data] else m
  }

  function Run<D>(calls: seq<Call<D>>, n: nat): map<string, D> {
    if calls == [] then map[] else Bounded(Run(calls[..|calls| - 1], n), calls[|calls| - 1], n)
  }

  function MapAnswer<D>(m: map<string, D>, call: Call<D>, n: nat): Option<D> {
    if call.key in m then Some(m[call.key])
    else if call.action == ENTER && |m| < n then Some(call.data)
    else None
  }

  /** Every call of the run is answered as the bounded map answers it. */
  ghost predicate BehavesAsMap<D>(calls: seq<Call<D>>, hash: D -> nat, n: nat, space: nat)
    requires n > 0
  {
    forall i :: 0 <= i < |calls| ==>
      Answer(RunTable(calls[..i], hash, n, space), calls[i], hash, n) == MapAnswer(Run(calls[..i], n), calls[i], n)
  }

  // ----- Searching -----

  lemma StartIsMasked<D>(hash: D -> nat, data: D, n: nat)
    requires n > 0
    ensures Masked(Start(hash, data, n), n)
  {
    AndIsMasked(hash(data), n - 1);
  }

  /** The first `m` slots from `s` on hold other keys. */
  ghost predicate Passed<D>(d: seq<Slot<D>>, key: string, s: nat, m: nat, n: nat)
    requires n > 0
  {
    forall a :: 0 <= a < m ==> Taken(d, Nth(s, a, n)) && d[Nth(s, a, n)].key != key
  }

  ghost predicate Taken<D>(d: seq<Slot<D>>, p: int) { 0 <= p < |d| && d[p].Entry? }

  /** A search stops `m` steps from its start. */
  ghost predicate Stops<D>(d: seq<Slot<D>>, key: string, s: nat, m: nat, n: nat)
    requires n > 0
  {
    && m <= RingSize(n) && Passed(d, key, s, m, n)
    && (m == RingSize(n) || !Taken(d, Nth(s, m, n)) || d[Nth(s, m, n)].key == key)
  }

  lemma {:induction false} SearchFrom<D>(d: seq<Slot<D>>, key: string, s: nat, a: nat, m: nat, n: nat)
    requires 0 < n <= |d| && Masked(s, n) && Stops(d, key, s, m, n) && a <= m
    ensures Nth(s, a, n) >= 0 && Search(d, key, Nth(s, a, n), RingSize(n) - a, n) == Nth(s, m, n)
    decreases m - a
  {
    WalkRing(s, n);
    if a < m {
      assert Taken(d, Nth(s, a, n)) && d[Nth(s, a, n)].key != key;
      StepOnRing(s, a, n);
      SearchFrom(d, key, s, a + 1, m, n);
      hide Passed, Stops, Nth, RingSize;
    } else {
      hide Passed, Nth, RingSize;
    }
  }

  /** Where a search stops is where it leads. */
  lemma SearchLeads<D>(d: seq<Slot<D>>, key: string, s: nat, m: nat, n: nat)
    requires 0 < n <= |d| && Masked(s, n) && Stops(d, key, s, m, n)
    ensures Search(d, key, s, RingSize(n), n) == Nth(s, m, n) < n
  {
    WalkRing(s, n);
    SearchFrom(d, key, s, 0, m, n);
  }

  /** Every search stops. */
  lemma {:induction false} SearchStops<D>(d: seq<Slot<D>>, key: string, s: nat, a: nat, n: nat) returns (m: nat)
    requires 0 < n <= |d| && Masked(s, n) && a <= RingSize(n) && Passed(d, key, s, a, n)
    ensures Stops(d, key, s, m, n)
    decreases RingSize(n) - a
  {
    WalkRing(s, n);
    if a == RingSize(n) || !Taken(d, Nth(s, a, n)) || d[Nth(s, a, n)].key == key {
      m := a;
    } else {
      m := SearchStops(d, key, s, a + 1, n);
    }
  }

  /** The stop of a call, counted in steps from the start. */
  lemma StopOf<D>(t: Tab<D>, call: Call<D>, hash: D -> nat, n: nat) returns (m: nat)
    requires 0 < n <= |t.d|
    ensures var s := Start(hash, call.data, n);
      Masked(s, n) && Stops(t.d, call.key, s, m, n) && Stop(t, call, hash, n) == Nth(s, m, n) < n
  {
    var s := Start(hash, call.data, n);
    StartIsMasked(hash, call.data, n);
    m := SearchStops(t.d, call.key, s, 0, n);
    SearchLeads(t.d, call.key, s, m, n);
  }

  // ----- Counting the entries -----

  ghost function Occupied<D>(d: seq<Slot<D>>): nat {
    if d == [] then 0 else Occupied(d[..|d| - 1]) + if d[|d| - 1].Entry? then 1 else 0
  }

  lemma {:induction false} OccupiedAfter<D>(d: seq<Slot<D>>, i: nat, e: Slot<D>)
    requires i < |d| && d[i].Empty? && e.Entry?
    ensures Occupied(d[i := e]) == Occupied(d) + 1
  {
    var n := |d| - 1;
    if i < n {
      OccupiedAfter(d[..n], i, e);
      assert d[i := e][..n] == d[..n][i := e];
    } else {
      assert d[i := e][..n] == d[..n];
    }
  }

  lemma {:induction false} AllOccupied<D>(d: seq<Slot<D>>, n: nat)
    requires n <= |d|
    requires forall p :: 0 <= p < |d| ==> (d[p].Entry? <==> p < n)
    ensures Occupied(d) == n
  {
    if d != [] {
      var k := |d| - 1;
      AllOccupied(d[..k], if n <= k then n else k);
    }
  }

  lemma {:induction false} FullyOccupied<D>(d: seq<Slot<D>>, n: nat)
    requires n <= |d| && Occupied(d) == n
    requires forall p :: n <= p < |d| ==> d[p].Empty?
    ensures forall p :: 0 <= p < n ==> d[p].Entry?
  {
    if |d| > n {
      FullyOccupied(d[..|d| - 1], n);
    } else {
      OccupiedBound(d);
      if n > 0 {
        OccupiedBound(d[..n - 1]);
        FullyOccupied(d[..n - 1], n - 1);
      }
    }
  }

  lemma {:induction false} OccupiedBound<D>(d: seq<Slot<D>>)
    ensures Occupied(d) <= |d|
  {
    if d != [] {
      OccupiedBound(d[..|d| - 1]);
    }
  }

  lemma {:induction false} NothingOccupied<D>(d: seq<Slot<D>>)
    requires forall p :: 0 <= p < |d| ==> d[p].Empty?
    ensures Occupied(d) == 0
  {
    if d != [] {
      NothingOccupied(d[..|d| - 1]);
    }
  }

  /** What holds of the table after every run. For a power of two `size` counts the entries. */
  ghost predicate Shape<D>(t: Tab<D>, n: nat, space: nat) {
    && n <= space == |t.d| && t.size <= n
    && (forall p :: n <= p < space ==> t.d[p].Empty?)
    && (PowerOfTwo(n) ==> Occupied(t.d) == t.size)
  }

  /** For a power of two a search comes back to its start only in a table without room. */
  lemma WrapMeansFull<D>(t: Tab<D>, key: string, s: nat, n: nat, space: nat)
    requires n > 0 && Shape(t, n, space) && PowerOfTwo(n) && Masked(s, n) && Passed(t.d, key, s, RingSize(n), n)
    ensures t.size == n
  {
    forall p | 0 <= p < |t.d|
      ensures t.d[p].Entry? <==> p < n
    {
      if p < n {
        EverySlotOnRing(s, p, n);
        assert Taken(t.d, Nth(s, Dist(s, p, n), n));
      }
    }
    AllOccupied(t.d, n);
  }

  lemma AfterKeepsShape<D>(t: Tab<D>, call: Call<D>, hash: D -> nat, n: nat, space: nat)
    requires n > 0 && Shape(t, n, space)
    ensures Shape(After(t, call, hash, n), n, space)
  {
    hide PowerOfTwo, Masked, Nth, RingSize, Start, Occupied, Search;
    var m := StopOf(t, call, hash, n);
    var i := Stop(t, call, hash, n);
    if !Holds(t.d, i, call.key) && call.action == ENTER && t.size != n {
      if PowerOfTwo(n) {
        if m == RingSize(n) {
          WrapMeansFull(t, call.key, Start(hash, call.data, n), n, space);
        }
        OccupiedAfter(t.d, i, Entry(call.key, call.data));
      }
    }
  }

  lemma {:induction false} RunHasShape<D>(calls: seq<Call<D>>, hash: D -> nat, n: nat, space: nat)
    requires 0 < n <= space
    ensures Shape(RunTable(calls, hash, n, space), n, space)
  {
    hide After, Shape;
    if calls == [] {
      EmptyShape<D>(n, space);
    } else {
      RunHasShape(calls[..|calls| - 1], hash, n, space);
      AfterKeepsShape(RunTable(calls[..|calls| - 1], hash, n, space), calls[|calls| - 1], hash, n, space);
    }
  }

  lemma EmptyShape<D>(n: nat, space: nat)
    requires n <= space
    ensures Shape(NewTable<D>(space), n, space)
  {
    NothingOccupied(NewTable<D>(space).d);
  }

  /** A table of a power of two without room finds any stored key, whatever was hashed and whatever is hashed. */
  lemma FullTableMissesNothing<D>(calls: seq<Call<D>>, call: Call<D>, hash: D -> nat, n: nat, space: nat)
    requires 0 < n <= space && PowerOfTwo(n) && RunTable(calls, hash, n, space).size == n
    ensures var t := RunTable(calls, hash, n, space);
      Answer(t, call, hash, n).Some? <==> exists p :: 0 <= p < n && Holds(t.d, p, call.key)
  {
    var t := RunTable(calls, hash, n, space);
    RunHasShape(calls, hash, n, space);
    FullyOccupied(t.d, n);
    var m := StopOf(t, call, hash, n);
    var s := Start(hash, call.data, n);
    hide RunTable, PowerOfTwo, Masked, Start, Occupied, Search, Nth, RingSize, Dist;
    forall p | 0 <= p < n && Holds(t.d, p, call.key)
      ensures Answer(t, call, hash, n).Some?
    {
      EverySlotOnRing(s, p, n);
    }
  }

  // ----- Items whose hash fits their key -----

  /** The map that the entries stand for. */
  ghost function Contents<D>(d: seq<Slot<D>>): map<string, D> {
    if d == [] then map[]
    else
      var (rest, last) := (Contents(d[..|d| - 1]), d[|d| - 1]);
      if last.Entry? then rest[last.key := last.data] else rest
  }

  ghost predicate DistinctKeys<D>(d: seq<Slot<D>>) {
    forall p, q :: 0 <= p < q < |d| && d[p].Entry? && d[q].Entry? ==> d[p].key != d[q].key
  }

  lemma {:induction false} ContentsOf<D>(d: seq<Slot<D>>)
    requires DistinctKeys(d)
    ensures forall k :: k in Contents(d) <==> exists p :: 0 <= p < |d| && Holds(d, p, k)
    ensures forall p :: 0 <= p < |d| && d[p].Entry? ==> d[p].key in Contents(d) && Contents(d)[d[p].key] == d[p].data
  {
    if d != [] {
      var n := |d| - 1;
      ContentsOf(d[..n]);
      forall k
        ensures k in Contents(d) <==> exists p :: 0 <= p < |d| && Holds(d, p, k)
      {
        if k in Contents(d[..n]) {
          var p :| 0 <= p < n && Holds(d[..n], p, k);
          assert Holds(d, p, k);
        }
        if p :| 0 <= p < |d| && Holds(d, p, k) {
          assert p < n ==> Holds(d[..n], p, k);
        } else if d[n].Entry? {
          assert Holds(d, n, d[n].key);
        }
      }
    }
  }

  lemma {:induction false} ContentsAfter<D>(d: seq<Slot<D>>, i: nat, e: Slot<D>)
    requires i < |d| && d[i].Empty? && e.Entry? && forall p :: 0 <= p < |d| ==> !Holds(d, p, e.key)
    ensures Contents(d[i := e]) == Contents(d)[e.key := e.data]
  {
    var n := |d| - 1;
    assert !Holds(d, n, e.key);
    if i < n {
      forall p | 0 <= p < n
        ensures !Holds(d[..n], p, e.key)
      {
        assert !Holds(d, p, e.key);
      }
      ContentsAfter(d[..n], i, e);
      assert d[i := e][..n] == d[..n][i := e];
    } else {
      assert d[i := e][..n] == d[..n];
    }
  }

  /** The entry at `p` is on the probe chain of `s`: no empty slot comes before it. */
  ghost predicate Chained<D>(d: seq<Slot<D>>, s: nat, p: nat, n: nat)
    requires n > 0
  {
    var m := Dist(s, p, n);
    0 <= m < RingSize(n) && Nth(s, m, n) == p && forall a :: 0 <= a < m ==> Taken(d, Nth(s, a, n))
  }

  /** Keys are distinct, and every entry is on the probe chain that `home` gives its key. */
  ghost predicate Table<D>(d: seq<Slot<D>>, home: string -> nat, n: nat)
    requires n > 0
  {
    && DistinctKeys(d)
    && forall p :: 0 <= p < |d| && d[p].Entry? ==> Chained(d, home(d[p].key), p, n)
  }

  /** Each call of the run starts where `home` says. */
  ghost predicate Agrees<D>(call: Call<D>, hash: D -> nat, home: string -> nat, n: nat)
    requires n > 0
  {
    Start(hash, call.data, n) == home(call.key)
  }

  /** In such a table a search finds the entry with its key exactly when there is one. */
  lemma FindsItsKey<D>(t: Tab<D>, call: Call<D>, hash: D -> nat, home: string -> nat, n: nat)
    requires 0 < n <= |t.d| && Table(t.d, home, n) && Agrees(call, hash, home, n)
    ensures var i := Stop(t, call, hash, n);
      i < n && (Holds(t.d, i, call.key) <==> call.key in Contents(t.d))
    ensures var i := Stop(t, call, hash, n);
      call.key in Contents(t.d) ==> t.d[i].data == Contents(t.d)[call.key]
  {
    ContentsOf(t.d);
    var m := StopOf(t, call, hash, n);
    var s, i := Start(hash, call.data, n), Stop(t, call, hash, n);
    hide PowerOfTwo, Masked, Nth, Dist, RingSize, Start, Contents, Search, Stop;
    if call.key in Contents(t.d) {
      var p :| 0 <= p < |t.d| && Holds(t.d, p, call.key);
      ChainIsPassed(t.d, call.key, s, p, n);
      assert Masked(s, n);
      SearchLeads(t.d, call.key, s, Dist(s, p, n), n);
      assert i == p by {
        StopIsSearch(t, call, hash, n);
      }
    }
  }

  lemma StopIsSearch<D>(t: Tab<D>, call: Call<D>, hash: D -> nat, n: nat)
    requires n > 0
    ensures Stop(t, call, hash, n) == Search(t.d, call.key, Start(hash, call.data, n), RingSize(n), n)
  {
  }

  /** The other entries on a key's chain hold other keys, so the search for it stops at its own. */
  lemma ChainIsPassed<D>(d: seq<Slot<D>>, key: string, s: nat, p: nat, n: nat)
    requires n > 0 && DistinctKeys(d) && Masked(s, n) && Holds(d, p, key) && Chained(d, s, p, n)
    ensures Dist(s, p, n) >= 0 && Stops(d, key, s, Dist(s, p, n), n)
  {
    var m := Dist(s, p, n);
    WalkRing(s, n);
    hide Masked, RingSize, Nth, Dist;
    forall a | 0 <= a < m
      ensures Taken(d, Nth(s, a, n)) && d[Nth(s, a, n)].key != key
    {
      var q := Nth(s, a, n);
      assert q != p;
      assert Taken(d, q);
    }
  }

  /** Storing an absent item where its search stopped keeps that so. */
  lemma StoreKeepsTable<D>(d: seq<Slot<D>>, home: string -> nat, n: nat, e: Slot<D>, m: nat, i: nat)
    requires 0 < n <= |d| && Table(d, home, n) && e.Entry? && Masked(home(e.key), n) && m < RingSize(n)
    requires i == Nth(home(e.key), m, n) && i < n && d[i].Empty? && Passed(d, e.key, home(e.key), m, n)
    requires forall p :: 0 <= p < |d| ==> !Holds(d, p, e.key)
    ensures Table(d[i := e], home, n)
  {
    WalkRing(home(e.key), n);
    var d' := d[i := e];
    hide Masked, RingSize, Nth, Dist;
    forall p, q | 0 <= p < q < |d'| && d'[p].Entry? && d'[q].Entry?
      ensures d'[p].key != d'[q].key
    {
      assert !Holds(d, p, e.key) && !Holds(d, q, e.key);
    }
    forall p | 0 <= p < |d'| && d'[p].Entry?
      ensures Chained(d', home(d'[p].key), p, n)
    {
      if p != i {
        assert Chained(d, home(d[p].key), p, n);
        assert forall q :: Taken(d, q) ==> Taken(d', q);
      } else {
        forall a | 0 <= a < m
          ensures Taken(d', Nth(home(e.key), a, n))
        {
          assert Taken(d, Nth(home(e.key), a, n));
        }
      }
    }
  }

  /** The table stands for the map `m`. */
  ghost predicate StandsFor<D>(t: Tab<D>, m: map<string, D>, home: string -> nat, n: nat, space: nat)
    requires n > 0
  {
    Shape(t, n, space) && Table(t.d, home, n) && Contents(t.d) == m && |m| == t.size
  }

  /** A search for a new key comes back to its start only in a table without room. */
  ghost predicate HasRoom<D>(t: Tab<D>, m: map<string, D>, key: string, s: nat, n: nat)
    requires n > 0
  {
    key !in m && Passed(t.d, key, s, RingSize(n), n) ==> t.size == n
  }

  /** One call: it is answered as by the map, and the table stands for the new map. */
  lemma CallIsMapStep<D>(t: Tab<D>, m: map<string, D>, call: Call<D>, hash: D -> nat, home: string -> nat, n: nat,
                         space: nat)
    requires 0 < n <= space && StandsFor(t, m, home, n, space) && Agrees(call, hash, home, n)
    requires HasRoom(t, m, call.key, home(call.key), n)
    ensures Answer(t, call, hash, n) == MapAnswer(m, call, n)
    ensures StandsFor(After(t, call, hash, n), Bounded(m, call, n), home, n, space)
  {
    FindsItsKey(t, call, hash, home, n);
    AfterKeepsShape(t, call, hash, n, space);
    ContentsOf(t.d);
    var i, s := Stop(t, call, hash, n), Start(hash, call.data, n);
    var k := StopOf(t, call, hash, n);
    hide PowerOfTwo, Masked, Nth, Dist, RingSize, Start, Contents, Search, Stop, Table, Shape;
    if call.key !in m && call.action == ENTER && t.size != n {
      assert forall p :: 0 <= p < |t.d| ==> !Holds(t.d, p, call.key);
      SlotIsEmpty(t.d, call.key, i);
      ContentsAfter(t.d, i, Entry(call.key, call.data));
      StoreKeepsTable(t.d, home, n, Entry(call.key, call.data), k, i);
      assert |m[call.key := call.data]| == |m| + 1;
    }
  }

  lemma SlotIsEmpty<D>(d: seq<Slot<D>>, key: string, i: nat)
    requires i < |d| && (!Taken(d, i) || d[i].key == key) && !Holds(d, i, key)
    ensures d[i].Empty?
  {
  }

  // ----- Keys that have room -----

  /** The keys whose home lies on the ring that begins at `b`. */
  ghost function RingKeys(keys: set<string>, home: string -> nat, n: nat, b: nat): set<string>
    requires n > 0
  {
    set k | k in keys && RingBase(home(k), n) == b
  }

  /** No ring is the home of more keys than it has slots; for a power of two the table's own bound does instead. */
  ghost predicate Roomy(keys: set<string>, home: string -> nat, n: nat)
    requires n > 0
  {
    && (forall k :: k in keys ==> Masked(home(k), n))
    && (PowerOfTwo(n) || forall b: nat :: |RingKeys(keys, home, n, b)| <= RingSize(n))
  }

  lemma RoomyHasRoom<D>(t: Tab<D>, m: map<string, D>, key: string, keys: set<string>, home: string -> nat, n: nat,
                        space: nat)
    requires 0 < n <= space && StandsFor(t, m, home, n, space) && Roomy(keys, home, n) && m.Keys <= keys && key in keys
    ensures HasRoom(t, m, key, home(key), n)
  {
    var s := home(key);
    if key !in m && Passed(t.d, key, s, RingSize(n), n) {
      if PowerOfTwo(n) {
        WrapMeansFull(t, key, s, n, space);
      } else {
        hide Contents, Shape;
        RingOfOthers(t, m, key, keys, home, n);
      }
    }
  }

  /** A full ring holds as many keys with their home on it as it has slots. */
  lemma RingOfOthers<D>(t: Tab<D>, m: map<string, D>, key: string, keys: set<string>, home: string -> nat, n: nat)
    requires n > 0 && Table(t.d, home, n) && Contents(t.d) == m && m.Keys <= keys && key in keys && key !in m
    requires forall k :: k in keys ==> Masked(home(k), n)
    requires Passed(t.d, key, home(key), RingSize(n), n)
    ensures |RingKeys(keys, home, n, RingBase(home(key), n))| > RingSize(n)
  {
    var s, c := home(key), RingSize(n);
    ContentsOf(t.d);
    WalkRing(s, n);
    hide Masked, RingSize, Nth, Dist, RingBase, Contents;
    var there := seq(c, j requires 0 <= j < c => if Taken(t.d, Nth(s, j, n)) then t.d[Nth(s, j, n)].key else "");
    var ring := RingKeys(keys, home, n, RingBase(s, n));
    forall j | 0 <= j < c
      ensures Taken(t.d, Nth(s, j, n)) && there[j] == t.d[Nth(s, j, n)].key && there[j] in ring && there[j] != key
    {
      var p := Nth(s, j, n);
      assert Taken(t.d, p);
      assert Chained(t.d, home(t.d[p].key), p, n);
      NthOnRing(s, j, n);
      NthOnRing(home(t.d[p].key), Dist(home(t.d[p].key), p, n), n);
    }
    forall i, j | 0 <= i < j < c
      ensures there[i] != there[j]
    {
      assert Nth(s, i, n) != Nth(s, j, n);
      assert there[i] == t.d[Nth(s, i, n)].key;
    }
    DistinctInSet(there + [key], ring);
  }

  lemma NthOnRing(s: nat, j: nat, n: nat)
    requires n > 0 && Masked(s, n) && j <= RingSize(n)
    ensures Nth(s, j, n) >= 0 && RingBase(Nth(s, j, n), n) == RingBase(s, n)
  {
    RingBounds(s, n);
    SameRing(s, Nth(s, j, n), n);
  }

  /** The run is the bounded map if items start where their key's home is and the keys have room. */
  lemma {:induction false} RunStandsFor<D>(calls: seq<Call<D>>, keys: set<string>, hash: D -> nat, home: string -> nat,
                                           n: nat, space: nat)
    requires 0 < n <= space && Roomy(keys, home, n)
    requires forall i :: 0 <= i < |calls| ==> Agrees(calls[i], hash, home, n) && calls[i].key in keys
    ensures StandsFor(RunTable(calls, hash, n, space), Run(calls, n), home, n, space) && Run(calls, n).Keys <= keys
  {
    hide Roomy, After, StandsFor, Agrees;
    if calls == [] {
      NewStandsFor<D>(home, n, space);
    } else {
      var k := |calls| - 1;
      RunStandsFor(calls[..k], keys, hash, home, n, space);
      var t, m := RunTable(calls[..k], hash, n, space), Run(calls[..k], n);
      RoomyHasRoom(t, m, calls[k].key, keys, home, n, space);
      hide HasRoom;
      CallIsMapStep(t, m, calls[k], hash, home, n, space);
    }
  }

  lemma NewStandsFor<D>(home: string -> nat, n: nat, space: nat)
    requires 0 < n <= space
    ensures StandsFor(NewTable<D>(space), map[], home, n, space)
  {
    EmptyShape<D>(n, space);
    var d := NewTable<D>(space).d;
    ContentsOf(d);
    assert forall k :: k !in Contents(d);
  }

  lemma RunBehavesAsMap<D>(calls: seq<Call<D>>, keys: set<string>, hash: D -> nat, home: string -> nat, n: nat,
                           space: nat)
    requires 0 < n <= space && Roomy(keys, home, n)
    requires forall i :: 0 <= i < |calls| ==> Agrees(calls[i], hash, home, n) && calls[i].key in keys
    ensures BehavesAsMap(calls, hash, n, space)
  {
    hide Roomy, Answer, MapAnswer, StandsFor, Agrees, RunTable, Run, HasRoom;
    forall i | 0 <= i < |calls|
      ensures Answer(RunTable(calls[..i], hash, n, space), calls[i], hash, n) ==
        MapAnswer(Run(calls[..i], n), calls[i], n)
    {
      RunStandsFor(calls[..i], keys, hash, home, n, space);
      var t, m := RunTable(calls[..i], hash, n, space), Run(calls[..i], n);
      RoomyHasRoom(t, m, calls[i].key, keys, home, n, space);
      CallIsMapStep(t, m, calls[i], hash, home, n, space);
    }
  }

  // ----- When it is not -----

  /** An entry that was hashed elsewhere is not found. */
  lemma OtherStartMisses<D>(key: string, x: D, y: D, hash: D -> nat, n: nat, space: nat)
    requires 0 < n <= space && Start(hash, x, n) != Start(hash, y, n)
    ensures !BehavesAsMap([Call(key, x, ENTER), Call(key, y, FIND)], hash, n, space)
  {
    var enter, find := Call(key, x, ENTER), Call(key, y, FIND);
    var calls := [enter, find];
    var t := RunTable([enter], hash, n, space);
    FirstEntry(enter, hash, n, space);
    FreeStart(t, find, hash, n);
    hide Start, RunTable, Search, Masked, RingSize;
    assert calls[..1] == [enter];
    assert Run([enter], n) == map[key := x] by {
      assert [enter][..0] == [];
    }
    assert Answer(RunTable(calls[..1], hash, n, space), calls[1], hash, n) !=
      MapAnswer(Run(calls[..1], n), calls[1], n);
  }

  lemma FirstEntry<D>(call: Call<D>, hash: D -> nat, n: nat, space: nat)
    requires 0 < n <= space && call.action == ENTER
    ensures var s := Start(hash, call.data, n);
      && s < n
      && RunTable([call], hash, n, space) == Tab(NewTable<D>(space).d[s := Entry(call.key, call.data)], 1)
  {
    var t := NewTable<D>(space);
    FreeStart(t, call, hash, n);
    hide Start, Search, Masked, RingSize;
    assert [call][..0] == [];
  }

  /** A search that starts at an empty slot ends there. */
  lemma FreeStart<D>(t: Tab<D>, call: Call<D>, hash: D -> nat, n: nat)
    requires 0 < n <= |t.d|
    ensures var s := Start(hash, call.data, n); s < n && (t.d[s].Empty? ==> Stop(t, call, hash, n) == s)
  {
    StartIsMasked(hash, call.data, n);
    WalkRing(Start(hash, call.data, n), n);
  }
}
