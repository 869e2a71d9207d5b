/** Exactly which tables are maps, for any capacity and any items (src/search.c:72, src/search.c:117-148). */
module HashTableItems {
  import opened Bits
  import opened Ring
  import opened HashTable
  import opened HashTableLoss
  import opened Sequences

  ghost predicate Over<D>(calls: seq<Call<D>>, items: set<(string, D)>) {
    forall i :: 0 <= i < |calls| ==> (calls[i].key, calls[i].data) in items
  }

  /** Every run over the items is answered as the bounded map answers it. */
  ghost predicate AreAMap<D(!new)>(items: set<(string, D)>, hash: D -> nat, n: nat, space: nat)
    requires n > 0
  {
    forall calls: seq<Call<D>> :: Over(calls, items) ==> BehavesAsMap(calls, hash, n, space)
  }

  /** Items that share a key start at one slot. */
  ghost predicate StartsAgree<D>(items: set<(string, D)>, hash: D -> nat, n: nat)
    requires n > 0
  {
    forall a, b :: a in items && b in items && a.0 == b.0 ==> Start(hash, a.1, n) == Start(hash, b.1, n)
  }

  /** The keys of items that start on the ring that begins at `b`. */
  ghost function KeysOnRing<D>(items: set<(string, D)>, hash: D -> nat, n: nat, b: nat): set<string>
    requires n > 0
  {
    set a | a in items && StartsOn(a, hash, n, b) :: a.0
  }

  ghost predicate StartsOn<D>(a: (string, D), hash: D -> nat, n: nat, b: nat)
    requires n > 0
  {
    RingBase(Start(hash, a.1, n), n) == b
  }

  ghost predicate RingsFit<D>(items: set<(string, D)>, hash: D -> nat, n: nat)
    requires n > 0
  {
    forall b: nat :: |KeysOnRing(items, hash, n, b)| <= RingSize(n)
  }

  // ----- They are a map -----

  /** Where the items with a key start. */
  ghost function Home<D>(items: set<(string, D)>, hash: D -> nat, n: nat, key: string): nat
    requires n > 0
  {
    if a :| a in items && a.0 == key then Start(hash, a.1, n) else 0
  }

  ghost function Keys<D>(items: set<(string, D)>): set<string> { set a | a in items :: a.0 }

  lemma HomesAreRoomy<D>(items: set<(string, D)>, hash: D -> nat, n: nat, home: string -> nat)
    requires n > 0 && StartsAgree(items, hash, n) && (PowerOfTwo(n) || RingsFit(items, hash, n))
    requires forall k :: home(k) == Home(items, hash, n, k)
    ensures Roomy(Keys(items), home, n)
  {
    hide Start, Masked, RingBase, RingSize, PowerOfTwo;
    forall k | k in Keys(items)
      ensures Masked(home(k), n)
    {
      var a :| a in items && a.0 == k;
      StartIsMasked(hash, a.1, n);
    }
    forall b: nat
      ensures RingKeys(Keys(items), home, n, b) == KeysOnRing(items, hash, n, b)
    {
      SameKeys(items, hash, n, home, b);
    }
  }

  lemma SameKeys<D>(items: set<(string, D)>, hash: D -> nat, n: nat, home: string -> nat, b: nat)
    requires n > 0 && StartsAgree(items, hash, n) && forall k :: home(k) == Home(items, hash, n, k)
    ensures RingKeys(Keys(items), home, n, b) == KeysOnRing(items, hash, n, b)
  {
    hide Start, RingBase;
    forall a | a in items
      ensures home(a.0) == Start(hash, a.1, n)
    {
    }
    forall k
      ensures k in RingKeys(Keys(items), home, n, b) <==> k in KeysOnRing(items, hash, n, b)
    {
      if k in Keys(items) {
        var a :| a in items && a.0 == k;
        assert home(a.0) == Start(hash, a.1, n);
      }
    }
  }

  lemma ItemsThatFitAreAMap<D(!new)>(items: set<(string, D)>, hash: D -> nat, n: nat, space: nat)
    requires 0 < n <= space && StartsAgree(items, hash, n) && (PowerOfTwo(n) || RingsFit(items, hash, n))
    ensures AreAMap(items, hash, n, space)
  {
    var home := key => Home(items, hash, n, key);
    HomesAreRoomy(items, hash, n, home);
    hide BehavesAsMap, Roomy, RingsFit, PowerOfTwo;
    forall calls: seq<Call<D>> | Over(calls, items)
      ensures BehavesAsMap(calls, hash, n, space)
    {
      forall i | 0 <= i < |calls|
        ensures Agrees(calls[i], hash, home, n) && calls[i].key in Keys(items)
      {
        assert (calls[i].key, calls[i].data) in items;
      }
      RunBehavesAsMap(calls, Keys(items), hash, home, n, space);
    }
  }

  // ----- They are not -----

  lemma OtherStartsAreNoMap<D(!new)>(items: set<(string, D)>, hash: D -> nat, n: nat, space: nat)
    requires 0 < n <= space && !StartsAgree(items, hash, n)
    ensures !AreAMap(items, hash, n, space)
  {
    hide BehavesAsMap, Start;
    var a, b :| a in items && b in items && a.0 == b.0 && Start(hash, a.1, n) != Start(hash, b.1, n);
    OtherStartMisses(a.0, a.1, b.1, hash, n, space);
    assert Over([Call(a.0, a.1, ENTER), Call(b.0, b.1, FIND)], items);
  }

  /** Items with different keys that start on one ring. */
  ghost predicate Picked<D>(its: seq<(string, D)>, keys: set<string>, items: set<(string, D)>, hash: D -> nat, n: nat,
                            b: nat)
    requires n > 0
  {
    && (forall i :: 0 <= i < |its| ==> its[i] in items && StartsOn(its[i], hash, n, b) && its[i].0 in keys)
    && (forall i, j :: 0 <= i < j < |its| ==> its[i].0 != its[j].0)
  }

  lemma {:induction false} Pick<D>(keys: set<string>, items: set<(string, D)>, hash: D -> nat, n: nat, b: nat, c: nat)
    returns (its: seq<(string, D)>)
    requires n > 0 && keys <= KeysOnRing(items, hash, n, b) && c <= |keys|
    ensures |its| == c && Picked(its, keys, items, hash, n, b)
    decreases c
  {
    hide StartsOn;
    if c == 0 {
      its := [];
    } else {
      var k :| k in keys;
      var a :| a in items && StartsOn(a, hash, n, b) && a.0 == k;
      var rest := Pick(keys - {k}, items, hash, n, b, c - 1);
      its := [a] + rest;
    }
  }

  function EnterItems<D>(its: seq<(string, D)>): (calls: seq<Call<D>>)
    ensures |calls| == |its| && forall i :: 0 <= i < |its| ==> calls[i] == Call(its[i].0, its[i].1, ENTER)
  {
    seq(|its|, i requires 0 <= i < |its| => Call(its[i].0, its[i].1, ENTER))
  }

  ghost predicate Named<D>(its: seq<(string, D)>, key: string) { exists i :: 0 <= i < |its| && its[i].0 == key }

  lemma {:induction false} MapOfItems<D>(its: seq<(string, D)>, n: nat)
    requires |its| <= n && forall i, j :: 0 <= i < j < |its| ==> its[i].0 != its[j].0
    ensures var m := Run(EnterItems(its), n); |m| == |its| && forall k :: k in m <==> Named(its, k)
  {
    if its != [] {
      var k := |its| - 1;
      MapOfItems(its[..k], n);
      assert EnterItems(its)[..k] == EnterItems(its[..k]);
      var m := Run(EnterItems(its[..k]), n);
      assert its[k].0 !in m;
      assert Run(EnterItems(its), n) == m[its[k].0 := its[k].1];
      hide Run, EnterItems;
      forall key: string
        ensures Named(its, key) <==> Named(its[..k], key) || key == its[k].0
      {
        NamedInParts(its, key);
      }
    }
  }

  lemma NamedInParts<D>(its: seq<(string, D)>, key: string)
    requires its != []
    ensures Named(its, key) <==> Named(its[..|its| - 1], key) || key == its[|its| - 1].0
  {
    var k := |its| - 1;
    if i :| 0 <= i < |its| && its[i].0 == key {
      assert i < k ==> its[..k][i].0 == key;
    }
    if i :| 0 <= i < k && its[..k][i].0 == key {
      assert its[i].0 == key;
    }
  }

  /** Where a map that has entered the items finds one of them again: at a slot of their ring that holds its key. */
  lemma FoundOnRing<D(!new)>(its: seq<(string, D)>, items: set<(string, D)>, hash: D -> nat, n: nat, space: nat, b: nat,
                             i: nat)
    requires 0 < n <= space && AreAMap(items, hash, n, space) && i < |its| <= n
    requires Picked(its, KeysOnRing(items, hash, n, b), items, hash, n, b)
    ensures var t := RunTable(EnterItems(its), hash, n, space);
      var p := Stop(t, Call(its[i].0, its[i].1, FIND), hash, n);
      Holds(t.d, p, its[i].0) && b <= p < b + RingSize(n)
  {
    var find := Call(its[i].0, its[i].1, FIND);
    var t := RunTable(EnterItems(its), hash, n, space);
    FindIsAnswered(its, items, hash, n, space, b, i);
    RunHasShape(EnterItems(its), hash, n, space);
    hide AreAMap, KeysOnRing;
    assert StartsOn(its[i], hash, n, b) by {
      hide Start, RingBase;
    }
    var m := StopOf(t, find, hash, n);
    var s := Start(hash, find.data, n);
    NthOnRing(s, m, n);
    StopsInRing(s, m, n);
    hide Start, Run, RunTable, RingBase, RingSize, Search, Masked, Nth, Picked;
  }

  lemma FindIsAnswered<D(!new)>(its: seq<(string, D)>, items: set<(string, D)>, hash: D -> nat, n: nat, space: nat,
                                b: nat, i: nat)
    requires 0 < n <= space && AreAMap(items, hash, n, space) && i < |its| <= n
    requires Picked(its, KeysOnRing(items, hash, n, b), items, hash, n, b)
    ensures Answer(RunTable(EnterItems(its), hash, n, space), Call(its[i].0, its[i].1, FIND), hash, n).Some?
  {
    var find := Call(its[i].0, its[i].1, FIND);
    var calls := EnterItems(its) + [find];
    hide Start, RingBase, Run, RunTable, KeysOnRing, Answer;
    MapOfItems(its, n);
    assert Named(its, its[i].0);
    assert forall k :: 0 <= k < |its| ==> (its[k].0, its[k].1) == its[k];
    assert Over(calls, items);
    assert calls[..|its|] == EnterItems(its) && calls[|its|] == find;
    assert BehavesAsMap(calls, hash, n, space);
  }

  lemma StopsInRing(s: nat, m: nat, n: nat)
    requires n > 0 && Masked(s, n) && m <= RingSize(n)
    ensures RingBase(s, n) <= Nth(s, m, n) < RingBase(s, n) + RingSize(n)
  {
    RingBounds(s, n);
  }

  /** The `c` numbers from `lo` on. */
  ghost function Range(lo: int, c: nat): (r: set<int>)
    ensures |r| == c && forall x :: x in r <==> lo <= x < lo + c
  {
    if c == 0 then {} else Range(lo, c - 1) + {lo + c - 1}
  }

  /** So many items are not found again at so few slots. */
  lemma TooManyAreNoMap<D(!new)>(items: set<(string, D)>, hash: D -> nat, n: nat, space: nat)
    requires 0 < n <= space && !PowerOfTwo(n) && !RingsFit(items, hash, n)
    ensures !AreAMap(items, hash, n, space)
  {
    RingIsSmall(n);
    hide AreAMap, PowerOfTwo, RingSize, KeysOnRing;
    var b: nat :| |KeysOnRing(items, hash, n, b)| > RingSize(n);
    var its := Pick(KeysOnRing(items, hash, n, b), items, hash, n, b, RingSize(n) + 1);
    if AreAMap(items, hash, n, space) {
      TooFewSlots(its, items, hash, n, space, b);
    }
  }

  /** More different keys than the ring has slots are not all found on it. */
  lemma TooFewSlots<D(!new)>(its: seq<(string, D)>, items: set<(string, D)>, hash: D -> nat, n: nat, space: nat, b: nat)
    requires 0 < n <= space && AreAMap(items, hash, n, space) && |its| <= n
    requires Picked(its, KeysOnRing(items, hash, n, b), items, hash, n, b)
    ensures |its| <= RingSize(n)
  {
    AllDifferent(its, KeysOnRing(items, hash, n, b), items, hash, n, b);
    var t := RunTable(EnterItems(its), hash, n, space);
    var slots := seq(|its|, i requires 0 <= i < |its| => Stop(t, Call(its[i].0, its[i].1, FIND), hash, n) as int);
    hide Start, RunTable, Search, Picked, Stop, AreAMap, KeysOnRing, RingSize;
    forall i | 0 <= i < |its|
      ensures slots[i] >= 0 && Holds(t.d, slots[i], its[i].0) && slots[i] in Range(b, RingSize(n))
    {
      FoundOnRing(its, items, hash, n, space, b, i);
    }
    assert Distinct(slots);
    DistinctInSet(slots, Range(b, RingSize(n)));
  }

  lemma AllDifferent<D>(its: seq<(string, D)>, keys: set<string>, items: set<(string, D)>, hash: D -> nat, n: nat,
                        b: nat)
    requires n > 0 && Picked(its, keys, items, hash, n, b)
    ensures forall i, j :: 0 <= i < j < |its| ==> its[i].0 != its[j].0
  {
  }

  // ----- Main results -----

  /**
    * For every capacity and every set of items: all runs over the items behave as the bounded map if and only if items
    * that share a key start at one slot and, unless the capacity is a power of two, no ring is the start of more keys
    * than it has slots.
    */
  lemma MapIffItemsFit<D(!new)>(items: set<(string, D)>, hash: D -> nat, n: nat, space: nat)
    requires 0 < n <= space
    ensures AreAMap(items, hash, n, space) <==>
      StartsAgree(items, hash, n) && (PowerOfTwo(n) || RingsFit(items, hash, n))
  {
    hide *;
    if !StartsAgree(items, hash, n) {
      OtherStartsAreNoMap(items, hash, n, space);
    } else if PowerOfTwo(n) || RingsFit(items, hash, n) {
      ItemsThatFitAreAMap(items, hash, n, space);
    } else {
      TooManyAreNoMap(items, hash, n, space);
    }
  }

  /** For a power of two the starts decide alone. */
  lemma MapIffStartsAgree<D(!new)>(items: set<(string, D)>, hash: D -> nat, n: nat, space: nat)
    requires 0 < n <= space && PowerOfTwo(n)
    ensures AreAMap(items, hash, n, space) <==> StartsAgree(items, hash, n)
  {
    hide *;
    MapIffItemsFit(items, hash, n, space);
  }
}
