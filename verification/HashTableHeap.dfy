/** hcreate_r and hsearch_r on a table in memory (src/search.c:54-148). */
module HashTableHeap {
  import opened Machine
  import opened Bits
  import opened Ring
  import opened HashTable

  /** The table is what the calls since hcreate_r make of a new one. */
  ghost predicate Made<D>(t: Tab<D>, calls: seq<Call<D>>, hash: D -> nat, n: nat, mask: int) {
    0 < n <= |t.d| && mask == n - 1 && t == RunTable(calls, hash, n, |t.d|)
  }

  const ENTRY_SIZE: int := 16  // sizeof(ENTRY)

  /** The size of the slots in bytes is a multiple of 2^64 for 2^60 slots and more. */
  lemma SpaceFits(m: SizeT, space: SizeT)
    requires LeastPowerFrom(space, m) <==> 1 <= m <= TWO_63
    requires m == 0 || m > TWO_63 ==> space == 0
    ensures ENTRY_SIZE * space % TWO_64 != 0 <==> 0 < m <= TWO_63 / 16
    ensures 0 < m <= TWO_63 / 16 ==> m <= space <= TWO_63 / 16
  {
    if 1 <= m <= TWO_63 {
      PowersNear2To60();
      if m <= TWO_63 / 16 {
        assert space <= Pow2(59);
      } else {
        var k: nat :| space == Pow2(k);
        LargePower(k);
      }
    }
  }

  /** A power of two above 2^59 times the size of an entry is a multiple of 2^64. */
  lemma LargePower(k: nat)
    requires TWO_63 / 16 < Pow2(k) < TWO_64
    ensures ENTRY_SIZE * Pow2(k) % TWO_64 == 0
  {
    PowersNear2To60();
    if k < 60 {
      Pow2Monotone(k, 59);
    } else if k > 63 {
      Pow2Monotone(64, k);
    }
  }

  lemma PowersNear2To60()
    ensures Pow2(59) == TWO_63 / 16 && Pow2(60) == TWO_63 / 8 && Pow2(61) == TWO_63 / 4 && Pow2(62) == TWO_63 / 2
    ensures Pow2(63) == TWO_63 && Pow2(64) == TWO_64
  {
    Pow2Of64();
  }

  class HsearchData<D> {
    const hash: D -> nat

    var data: array<Slot<D>>
    var capacity: SizeT
    var size: SizeT
    var mask: SizeT

    ghost var calls: seq<Call<D>>

    /** A struct of zeros. */
    constructor (hash: D -> nat)
      ensures this.hash == hash
    {
      this.hash := hash;
      data, capacity, size, mask, calls := new Slot<D>[0], 0, 0, 0, [];
    }

    ghost function Look(): Tab<D>
      reads this, data
    {
      Tab(data[..], size)
    }

    /** The memory is what the calls since hcreate_r make of a new table. */
    ghost predicate Valid()
      reads this, data
    {
      Made(Look(), calls, hash, capacity, mask)
    }

    /** hcreate_r; `memory` says whether the allocation would succeed. */
    method Hcreate(nel: SizeT, memory: bool) returns (ok: bool, errno: Option<Errno>)
      modifies this
      ensures nel == 0 ==> !ok && errno == Some(EINVAL)
      ensures nel != 0 ==> errno == None
      ensures ok <==> memory && (0 < nel <= TWO_63 / 32 || TWO_63 < nel <= TWO_63 + TWO_63 / 32)
      ensures ok ==> capacity == nel && fresh(data)
      ensures ok && nel < TWO_63 ==> Valid() && calls == []
      // The product wraps around: there are fewer slots than the capacity says.
      ensures ok && nel > TWO_63 ==> data.Length < capacity
    {
      if nel == 0 {
        return false, Some(EINVAL);
      }
      errno := None;
      var space := NextPow2((nel * 2) % TWO_64);
      SpaceFits((nel * 2) % TWO_64, space);
      // An allocation of no bytes gives NULL.
      var bytes := ENTRY_SIZE * space % TWO_64;
      if !memory || bytes == 0 {
        return false, None;
      }
      data := new Slot<D>[space](_ => Empty);
      capacity := nel;
      size := 0;
      mask := capacity - 1;
      calls := [];
      ok := true;
    }

    /** Probes from `start` until the key, an empty slot or the start comes. */
    method Probe(key: string, start: nat) returns (i: nat, found: bool)
      requires 0 < capacity <= data.Length && mask == capacity - 1 && Masked(start, capacity)
      ensures i == Search(data[..], key, start, RingSize(capacity), capacity) && i < capacity
      ensures found <==> Holds(data[..], i, key)
    {
      hide RingSize, RingBase, And, Masked, Search, Nth;
      AtStart(start, capacity);
      i := start;
      ghost var m := 0;
      while true
        invariant m < RingSize(capacity) && i == Nth(start, m, capacity) && i < capacity
        invariant Search(data[..], key, i, RingSize(capacity) - m, capacity) ==
                  Search(data[..], key, start, RingSize(capacity), capacity)
        invariant m > 0 ==> !Holds(data[..], start, key)
        decreases RingSize(capacity) - m
      {
        SearchHere(data[..], key, i, RingSize(capacity) - m, capacity);
        if data[i].Empty? {
          return i, false;
        }
        if data[i].key == key {
          return i, true;
        }
        NextOnRing(start, m, capacity);
        i := And(i + 1, mask);
        m := m + 1;
        if i == start {
          SearchHere(data[..], key, i, 0, capacity);
          return i, false;
        }
      }
    }

    /** The search of hsearch_r. */
    method Find(item: Slot<D>) returns (slot: nat, found: bool)
      requires Valid() && item.Entry?
      ensures slot == Search(data[..], item.key, Start(hash, item.data, capacity), RingSize(capacity), capacity)
      ensures slot < capacity && (found <==> Holds(data[..], slot, item.key))
    {
      StartIsMasked(hash, item.data, capacity);
      var start := And(hash(item.data), mask);
      assert start == Start(hash, item.data, capacity);
      hide *;
      assert 0 < capacity <= data.Length && mask == capacity - 1;
      slot, found := Probe(item.key, start);
    }

    /** hsearch_r, with the slot of the entry that it points the caller to. */
    method Hsearch(item: Slot<D>, action: Action) returns (ok: bool, slot: nat)
      requires Valid() && item.Entry?
      modifies this, data
      ensures Valid() && data == old(data) && capacity == old(capacity)
      ensures calls == old(calls) + [Call(item.key, item.data, action)]
      ensures ok ==> slot < capacity && Holds(data[..], slot, item.key)
      ensures (if ok then Some(data[slot].data) else None) ==
        Answer(old(Look()), Call(item.key, item.data, action), hash, capacity)
      ensures !ok ==> Look() == old(Look())
    {
      ghost var call, before := Call(item.key, item.data, action), Look();
      MadeIs(before, calls, hash, capacity, mask);
      hide Search, RingSize, And, RunTable, Masked, After, Answer, Start, Holds, Made;
      var found;
      slot, found := Find(item);
      CallFromStop(before, call, hash, capacity, slot);
      MadeFurther(before, calls, call, hash, capacity, mask);
      calls := calls + [call];
      if found {
        return true, slot;
      }
      if action == FIND || size == capacity {
        return false, slot;
      }
      StoreItem(item, slot);
      return true, slot;
    }

    /** The last lines of hsearch_r. */
    method StoreItem(item: Slot<D>, slot: nat)
      requires slot < data.Length && size < TWO_64 - 1
      modifies this`size, data
      ensures Look() == Tab(old(data[..])[slot := item], old(size) + 1)
    {
      size := size + 1;
      data[slot] := item;
    }
  }

  /** What a call does, from where its search stops. */
  lemma CallFromStop<D>(t: Tab<D>, call: Call<D>, hash: D -> nat, n: nat, i: nat)
    requires 0 < n <= |t.d| && i == Search(t.d, call.key, Start(hash, call.data, n), RingSize(n), n) < n
    ensures Holds(t.d, i, call.key) ==>
      t.d[i].Entry? && After(t, call, hash, n) == t && Answer(t, call, hash, n) == Some(t.d[i].data)
    ensures !Holds(t.d, i, call.key) && (call.action == FIND || t.size == n) ==>
      After(t, call, hash, n) == t && Answer(t, call, hash, n) == None
    ensures !Holds(t.d, i, call.key) && call.action == ENTER && t.size != n ==>
      var t' := Tab(t.d[i := Entry(call.key, call.data)], t.size + 1);
      After(t, call, hash, n) == t' && Answer(t, call, hash, n) == Some(call.data) && Holds(t'.d, i, call.key)
  {
  }

  lemma SearchHere<D>(d: seq<Slot<D>>, key: string, i: nat, steps: nat, n: nat)
    requires n > 0 && i < |d|
    ensures Search(d, key, i, steps, n) ==
      if steps == 0 || d[i].Empty? || d[i].key == key then i else Search(d, key, And(i + 1, n - 1), steps - 1, n)
  {
  }

  lemma AtStart(s: nat, n: nat)
    requires n > 0 && Masked(s, n)
    ensures 0 < RingSize(n) && s < n && Nth(s, 0, n) == s
  {
    WalkRing(s, n);
  }

  /** The next probe step, which is back at the start only after the whole ring. */
  lemma NextOnRing(s: nat, m: nat, n: nat)
    requires n > 0 && Masked(s, n) && m < RingSize(n)
    ensures Nth(s, m, n) >= 0 && And(Nth(s, m, n) + 1, n - 1) == Nth(s, m + 1, n) < n
    ensures Nth(s, m + 1, n) == s <==> m + 1 == RingSize(n)
  {
    WalkRing(s, n);
    StepOnRing(s, m, n);
  }

  lemma MadeFurther<D>(t: Tab<D>, calls: seq<Call<D>>, call: Call<D>, hash: D -> nat, n: nat, mask: int)
    requires Made(t, calls, hash, n, mask)
    ensures Made(After(t, call, hash, n), calls + [call], hash, n, mask)
  {
    assert (calls + [call])[..|calls|] == calls;
  }

  lemma MadeIs<D>(t: Tab<D>, calls: seq<Call<D>>, hash: D -> nat, n: nat, mask: int)
    requires Made(t, calls, hash, n, mask)
    ensures 0 < n <= |t.d| && mask == n - 1 && t.size <= n
  {
    RunHasShape(calls, hash, n, |t.d|);
  }
}
