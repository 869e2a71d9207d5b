/**
  * A table whose capacity is no power of two loses entries although it has room, whatever the hash function
  * (src/search.c:72, src/search.c:133-145).
  */
module HashTableLoss {
  import opened Machine
  import opened Bits
  import opened Ring
  import opened HashTable
  import opened Sequences

  /** The keys entered one after the other, all with one datum, so that all searches start at one slot. */
  function EnterAll<D>(keys: seq<string>, v: D): (calls: seq<Call<D>>)
    ensures |calls| == |keys| && forall j :: 0 <= j < |keys| ==> calls[j] == Call(keys[j], v, ENTER)
  {
    seq(|keys|, j requires 0 <= j < |keys| => Call(keys[j], v, ENTER))
  }

  /** The keys lie in the ring of `s` in the order of probing, and the rest of the ring is empty. */
  ghost predicate Filled<D>(t: Tab<D>, keys: seq<string>, v: D, s: nat, n: nat)
    requires n > 0
  {
    && n <= |t.d| && t.size == |keys| <= RingSize(n)
    && (forall j :: 0 <= j < |keys| ==> At(t.d, Nth(s, j, n), Entry(keys[j], v)))
    && (forall j :: |keys| <= j < RingSize(n) ==> At(t.d, Nth(s, j, n), Empty))
  }

  ghost predicate At<D>(d: seq<Slot<D>>, p: int, e: Slot<D>) { 0 <= p < |d| && d[p] == e }

  /** A new key goes behind the others, or back to the start if the ring is full. */
  lemma StopsBehind<D>(t: Tab<D>, keys: seq<string>, v: D, key: string, s: nat, n: nat)
    requires n > 0 && Masked(s, n) && Filled(t, keys, v, s, n) && key !in keys
    ensures Stops(t.d, key, s, |keys|, n)
  {
    WalkRing(s, n);
    hide Masked, RingSize, Nth;
    forall a | 0 <= a < |keys|
      ensures Taken(t.d, Nth(s, a, n)) && t.d[Nth(s, a, n)].key != key
    {
      assert At(t.d, Nth(s, a, n), Entry(keys[a], v));
    }
    assert |keys| < RingSize(n) ==> At(t.d, Nth(s, |keys|, n), Empty);
  }

  /** One more key while the ring has room. */
  lemma EnterOne<D>(t: Tab<D>, keys: seq<string>, v: D, key: string, hash: D -> nat, n: nat)
    requires n > 0 && Filled(t, keys, v, Start(hash, v, n), n) && key !in keys && |keys| < RingSize(n) <= n
    ensures Filled(After(t, Call(key, v, ENTER), hash, n), keys + [key], v, Start(hash, v, n), n)
  {
    var s, call := Start(hash, v, n), Call(key, v, ENTER);
    StartIsMasked(hash, v, n);
    StopsBehind(t, keys, v, key, s, n);
    SearchLeads(t.d, key, s, |keys|, n);
    WalkRing(s, n);
    hide Masked, RingSize, Nth, Search, Start;
    var i := Stop(t, call, hash, n);
    assert i == Nth(s, |keys|, n);
    assert At(t.d, i, Empty);
    var t', keys' := After(t, call, hash, n), keys + [key];
    assert t' == Tab(t.d[i := Entry(key, v)], t.size + 1);
    forall j | 0 <= j < |keys'|
      ensures At(t'.d, Nth(s, j, n), Entry(keys'[j], v))
    {
      assert j < |keys| ==> At(t.d, Nth(s, j, n), Entry(keys[j], v));
    }
    forall j | |keys'| <= j < RingSize(n)
      ensures At(t'.d, Nth(s, j, n), Empty)
    {
      assert At(t.d, Nth(s, j, n), Empty);
    }
  }

  lemma {:induction false} FillRing<D>(keys: seq<string>, v: D, hash: D -> nat, n: nat, space: nat)
    requires 0 < n <= space && Distinct(keys) && |keys| <= RingSize(n)
    ensures Filled(RunTable(EnterAll(keys, v), hash, n, space), keys, v, Start(hash, v, n), n)
  {
    StartIsMasked(hash, v, n);
    WalkRing(Start(hash, v, n), n);
    if keys != [] {
      var k := |keys| - 1;
      FillRing(keys[..k], v, hash, n, space);
      assert EnterAll(keys, v)[..k] == EnterAll(keys[..k], v);
      assert keys == keys[..k] + [keys[k]];
      EnterOne(RunTable(EnterAll(keys[..k], v), hash, n, space), keys[..k], v, keys[k], hash, n);
    }
  }

  lemma {:induction false} MapOfKeys<D>(keys: seq<string>, v: D, n: nat)
    requires Distinct(keys) && |keys| <= n
    ensures var m := Run(EnterAll(keys, v), n);
      |m| == |keys| && (forall k :: k in m <==> k in keys) && (forall k :: k in m ==> m[k] == v)
  {
    if keys != [] {
      var k := |keys| - 1;
      MapOfKeys(keys[..k], v, n);
      assert EnterAll(keys, v)[..k] == EnterAll(keys[..k], v);
      assert keys == keys[..k] + [keys[k]];
      var m := Run(EnterAll(keys[..k], v), n);
      assert keys[k] !in m;
      assert Run(EnterAll(keys, v), n) == m[keys[k] := v];
      hide Run, EnterAll, Distinct;
    }
  }

  /** One key more than the ring has slots takes the place of the first one, which then is not found. */
  lemma OneTooMany<D>(t: Tab<D>, keys: seq<string>, v: D, key: string, hash: D -> nat, n: nat)
    requires n > 0 && Filled(t, keys, v, Start(hash, v, n), n) && key !in keys && |keys| == RingSize(n) < n
    requires Distinct(keys)
    ensures var t' := After(t, Call(key, v, ENTER), hash, n);
      t'.size == |keys| + 1 && Answer(t', Call(keys[0], v, FIND), hash, n) == None
  {
    var s, call := Start(hash, v, n), Call(key, v, ENTER);
    StartIsMasked(hash, v, n);
    StopsBehind(t, keys, v, key, s, n);
    SearchLeads(t.d, key, s, |keys|, n);
    WalkRing(s, n);
    RingIsNotEmpty(n);
    hide Masked, RingSize, Nth, Start, Search;
    var i, t' := Stop(t, call, hash, n), After(t, call, hash, n);
    assert i == Nth(s, |keys|, n) == s;
    assert At(t.d, Nth(s, 0, n), Entry(keys[0], v));
    assert t' == Tab(t.d[s := Entry(key, v)], t.size + 1);
    forall a | 0 <= a < |keys|
      ensures Taken(t'.d, Nth(s, a, n)) && t'.d[Nth(s, a, n)].key != keys[0]
    {
      assert At(t.d, Nth(s, a, n), Entry(keys[a], v));
      assert a > 0 ==> keys[0] != keys[a];
    }
    SearchLeads(t'.d, keys[0], s, |keys|, n);
  }

  lemma RingIsNotEmpty(n: nat)
    requires n > 0
    ensures RingSize(n) > 0
  {
  }

  /** For a capacity that is no power of two the ring is at most a third of the table. */
  lemma {:induction false} RingIsSmall(n: nat)
    requires n > 0 && !PowerOfTwo(n)
    ensures 3 * RingSize(n) <= n
  {
    WholeRing(n);
    if n % 2 == 0 {
      Halve(n);
      RingIsSmall(n / 2);
    }
  }

  /**
    * For every hash function, every datum and every capacity that is no power of two: entering any distinct keys with
    * that datum, one more than the ring has slots, loses the first of them, although the table has room left.
    */
  lemma EntersAndLoses<D>(keys: seq<string>, v: D, hash: D -> nat, n: nat, space: nat)
    requires 0 < n <= space && !PowerOfTwo(n) && Distinct(keys) && |keys| == RingSize(n) + 1
    ensures var (calls, find) := (EnterAll(keys, v), Call(keys[0], v, FIND));
      var t := RunTable(calls, hash, n, space);
      && t.size < n && MapAnswer(Run(calls, n), find, n) == Some(v)
      && Answer(t, find, hash, n) == None
  {
    var front, last := keys[..|keys| - 1], keys[|keys| - 1];
    assert Distinct(front) && last !in front && keys[0] in keys;
    assert front[0] == keys[0] by {
      RingIsNotEmpty(n);
    }
    hide *;
    RingIsSmall(n);
    LastEntered(keys, v, hash, n, space);
    FillRing(front, v, hash, n, space);
    OneTooMany(RunTable(EnterAll(front, v), hash, n, space), front, v, last, hash, n);
    MapAnswers(keys, v, n);
  }

  lemma LastEntered<D>(keys: seq<string>, v: D, hash: D -> nat, n: nat, space: nat)
    requires n > 0 && keys != []
    ensures var k := |keys| - 1;
      RunTable(EnterAll(keys, v), hash, n, space) ==
        After(RunTable(EnterAll(keys[..k], v), hash, n, space), Call(keys[k], v, ENTER), hash, n)
  {
    hide After;
    assert EnterAll(keys, v)[..|keys| - 1] == EnterAll(keys[..|keys| - 1], v);
  }

  lemma MapAnswers<D>(keys: seq<string>, v: D, n: nat)
    requires Distinct(keys) && 0 < |keys| <= n
    ensures MapAnswer(Run(EnterAll(keys, v), n), Call(keys[0], v, FIND), n) == Some(v)
  {
    MapOfKeys(keys, v, n);
    hide Run, Distinct;
    assert keys[0] in keys;
  }

  // ----- Exactly when -----

  function KeyOf(j: nat): string { Repeat('k', j) }

  function KeysUpTo(j: nat): (keys: seq<string>)
    ensures |keys| == j && forall i :: 0 <= i < j ==> keys[i] == KeyOf(i)
  {
    seq(j, i requires 0 <= i < j => KeyOf(i))
  }

  ghost predicate AllWith<D>(calls: seq<Call<D>>, v: D) { forall i :: 0 <= i < |calls| ==> calls[i].data == v }

  /** With one datum a table behaves as the bounded map on all runs if and only if its capacity is a power of two. */
  lemma MapIffPowerOfTwo<D(!new)>(v: D, hash: D -> nat, n: nat, space: nat)
    requires 0 < n <= space
    ensures (forall calls: seq<Call<D>> :: AllWith(calls, v) ==> BehavesAsMap(calls, hash, n, space)) <==> PowerOfTwo(n)
  {
    if PowerOfTwo(n) {
      OneDatumIsAMap(v, hash, n, space);
    } else {
      OneDatumIsNoMap(v, hash, n, space);
    }
    hide *;
  }

  lemma OneDatumIsAMap<D(!new)>(v: D, hash: D -> nat, n: nat, space: nat)
    requires 0 < n <= space && PowerOfTwo(n)
    ensures forall calls: seq<Call<D>> :: AllWith(calls, v) ==> BehavesAsMap(calls, hash, n, space)
  {
    hide PowerOfTwo, BehavesAsMap;
    forall calls: seq<Call<D>> | AllWith(calls, v)
      ensures BehavesAsMap(calls, hash, n, space)
    {
      var s := Start(hash, v, n);
      StartIsMasked(hash, v, n);
      var keys := set i | 0 <= i < |calls| :: calls[i].key;
      RunBehavesAsMap(calls, keys, hash, _ => s, n, space);
    }
  }

  lemma OneDatumIsNoMap<D(!new)>(v: D, hash: D -> nat, n: nat, space: nat)
    requires 0 < n <= space && !PowerOfTwo(n)
    ensures exists calls: seq<Call<D>> :: AllWith(calls, v) && !BehavesAsMap(calls, hash, n, space)
  {
    var keys := KeysUpTo(RingSize(n) + 1);
    KeysDiffer(RingSize(n) + 1);
    EntersAndLoses(keys, v, hash, n, space);
    var calls := EnterAll(keys, v) + [Call(keys[0], v, FIND)];
    hide PowerOfTwo, RunTable, Run, Answer, MapAnswer, RingSize;
    assert calls[..|keys|] == EnterAll(keys, v);
    assert AllWith(calls, v);
    assert !BehavesAsMap(calls, hash, n, space) by {
      assert Answer(RunTable(calls[..|keys|], hash, n, space), calls[|keys|], hash, n) == None;
    }
  }

  lemma KeysDiffer(j: nat)
    ensures Distinct(KeysUpTo(j))
  {
    forall a, b | 0 <= a < b < j
      ensures KeysUpTo(j)[a] != KeysUpTo(j)[b]
    {
      assert |KeyOf(a)| == a && |KeyOf(b)| == b;
    }
  }
}
