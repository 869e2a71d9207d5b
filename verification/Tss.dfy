/**
  * Thread-specific storage (src/tls.c:62-154): a shared growing table of destructors and one lazily grown table of
  * values per thread, against a history of the calls made. Destructors and values are addresses, 0 standing for NULL.
  */
module Tss {
  import opened Machine
  import opened Sequences

  /** A call that succeeded; calls that fail change nothing. */
  datatype Call = Created(dtor: int) | Stored(thread: nat, key: nat, val: int) | Deleted(key: nat)

  // ----- What the history says -----

  /** The number of keys given out. */
  function Issued(calls: seq<Call>): nat {
    if calls == [] then 0 else Issued(calls[..|calls| - 1]) + if calls[|calls| - 1].Created? then 1 else 0
  }

  /** The destructor of a key: the one it was created with until it is deleted. */
  function DtorOf(calls: seq<Call>, key: nat): int {
    if calls == [] then 0
    else
      var (before, last) := (calls[..|calls| - 1], calls[|calls| - 1]);
      if last.Created? && Issued(before) == key then last.dtor
      else if last == Deleted(key) then 0
      else DtorOf(before, key)
  }

  /** What a thread stored last under a key, NULL if nothing. */
  function ValueOf(calls: seq<Call>, thread: nat, key: nat): int {
    if calls == [] then 0
    else
      var last := calls[|calls| - 1];
      if last.Stored? && last.thread == thread && last.key == key then last.val
      else ValueOf(calls[..|calls| - 1], thread, key)
  }

  /** Only key `k` has another destructor than before, namely `dtor`, and no value is another. */
  ghost predicate OnlyDtor(before: seq<Call>, after: seq<Call>, k: nat, dtor: int) {
    && DtorOf(after, k) == dtor && (forall j: nat :: j != k ==> DtorOf(after, j) == DtorOf(before, j))
    && forall u: nat, j: nat :: ValueOf(after, u, j) == ValueOf(before, u, j)
  }

  /** Only the value of thread `t` under key `k` is another, namely `val`. */
  ghost predicate OnlyValue(before: seq<Call>, after: seq<Call>, t: nat, k: nat, val: int) {
    && ValueOf(after, t, k) == val
    && (forall u: nat, j: nat :: u != t || j != k ==> ValueOf(after, u, j) == ValueOf(before, u, j))
    && forall j: nat :: DtorOf(after, j) == DtorOf(before, j)
  }

  lemma CallChanges(calls: seq<Call>, c: Call)
    ensures c.Created? ==> OnlyDtor(calls, calls + [c], Issued(calls), c.dtor)
    ensures c.Deleted? ==> OnlyDtor(calls, calls + [c], c.key, 0)
    ensures c.Stored? ==> OnlyValue(calls, calls + [c], c.thread, c.key, c.val)
  {
    Unlast(calls, c);
  }

  // ----- Tables that agree with the history -----

  ghost predicate MetaOk(meta: seq<int>, next: nat, calls: seq<Call>) {
    && next == Issued(calls) <= |meta|
    && (forall k :: 0 <= k < |meta| ==> meta[k] == DtorOf(calls, k))
    && (forall k: nat :: next <= k ==> DtorOf(calls, k) == 0)
  }

  /** One thread's table: as long as the shared one at most, and holding all that the thread has stored. */
  ghost predicate DataOk(data: seq<int>, capacity: nat, calls: seq<Call>, thread: nat) {
    && |data| <= capacity
    && (forall k :: 0 <= k < |data| ==> data[k] == ValueOf(calls, thread, k))
    && (forall k :: |data| <= k ==> ValueOf(calls, thread, k) == 0)
  }

  ghost predicate AllDataOk(data: seq<seq<int>>, capacity: nat, calls: seq<Call>) {
    forall t :: 0 <= t < |data| ==> DataOk(data[t], capacity, calls, t)
  }

  lemma Unlast(calls: seq<Call>, c: Call)
    ensures (calls + [c])[..|calls|] == calls
  {
  }

  lemma CreateKeepsMeta(meta: seq<int>, next: nat, calls: seq<Call>, dtor: int)
    requires MetaOk(meta, next, calls) && next < |meta|
    ensures MetaOk(meta[next := dtor], next + 1, calls + [Created(dtor)])
  {
    Unlast(calls, Created(dtor));
    assert forall k: nat :: DtorOf(calls + [Created(dtor)], k) == if k == next then dtor else DtorOf(calls, k);
  }

  lemma DeleteKeepsMeta(meta: seq<int>, next: nat, calls: seq<Call>, key: nat)
    requires MetaOk(meta, next, calls) && key < next
    ensures MetaOk(meta[key := 0], next, calls + [Deleted(key)])
  {
    Unlast(calls, Deleted(key));
    assert forall k: nat :: DtorOf(calls + [Deleted(key)], k) == if k == key then 0 else DtorOf(calls, k);
  }

  lemma StoreKeepsMeta(meta: seq<int>, next: nat, calls: seq<Call>, t: nat, key: nat, val: int)
    requires MetaOk(meta, next, calls)
    ensures MetaOk(meta, next, calls + [Stored(t, key, val)])
  {
    Unlast(calls, Stored(t, key, val));
  }

  lemma OtherCallKeepsData(data: seq<seq<int>>, capacity: nat, calls: seq<Call>, c: Call, capacity': nat)
    requires AllDataOk(data, capacity, calls) && !c.Stored? && capacity <= capacity'
    ensures AllDataOk(data, capacity', calls + [c])
  {
    Unlast(calls, c);
    forall t | 0 <= t < |data|
      ensures DataOk(data[t], capacity', calls + [c], t)
    {
      assert DataOk(data[t], capacity, calls, t);
      forall k: nat
        ensures ValueOf(calls + [c], t, k) == ValueOf(calls, t, k)
      {
      }
    }
  }

  lemma GrowKeepsMeta(meta: seq<int>, next: nat, calls: seq<Call>, zeros: seq<int>)
    requires MetaOk(meta, next, calls) && next == |meta| && forall k :: 0 <= k < |zeros| ==> zeros[k] == 0
    ensures MetaOk(meta + zeros, next, calls)
  {
  }

  lemma GrowKeepsData(data: seq<seq<int>>, capacity: nat, calls: seq<Call>, t: nat, zeros: seq<int>)
    requires AllDataOk(data, capacity, calls) && t < |data| && |data[t]| + |zeros| <= capacity
    requires forall k :: 0 <= k < |zeros| ==> zeros[k] == 0
    ensures AllDataOk(data[t := data[t] + zeros], capacity, calls)
  {
    hide ValueOf;
    assert DataOk(data[t], capacity, calls, t);
  }

  lemma StoreKeepsData(data: seq<seq<int>>, capacity: nat, calls: seq<Call>, t: nat, key: nat, val: int)
    requires AllDataOk(data, capacity, calls) && t < |data| && key < |data[t]|
    ensures AllDataOk(data[t := data[t][key := val]], capacity, calls + [Stored(t, key, val)])
  {
    var calls' := calls + [Stored(t, key, val)];
    var data' := data[t := data[t][key := val]];
    Unlast(calls, Stored(t, key, val));
    forall u | 0 <= u < |data|
      ensures DataOk(data'[u], capacity, calls', u)
    {
      assert DataOk(data[u], capacity, calls, u);
      assert forall k: nat :: ValueOf(calls', u, k) == if u == t && k == key then val else ValueOf(calls, u, k);
    }
  }

  // ----- What the calls do -----

  /** The history, the size of the shared table, and the size of each thread's own. */
  datatype View = View(calls: seq<Call>, shared: nat, own: seq<nat>)

  /** A call made while a destructor runs; an allocation it may need succeeds if `granted` says so. */
  datatype Op =
    | DoCreate(dtor: int, granted: bool)
    | DoSet(thread: nat, key: nat, val: int, granted: bool)
    | DoDelete(key: nat)

  /** Only a full table needs memory for one key more; it doubles, and starts with 8. */
  function AfterCreate(v: View, dtor: int, granted: bool): View {
    if Issued(v.calls) < v.shared then v.(calls := v.calls + [Created(dtor)])
    else if granted then View(v.calls + [Created(dtor)], if v.shared == 0 then 8 else v.shared * 2, v.own)
    else v
  }

  /** Only a key behind the thread's own table needs memory; the table becomes as long as the shared one. */
  function AfterSet(v: View, t: nat, key: nat, val: int, granted: bool): View
    requires t < |v.own|
  {
    if key < v.own[t] then v.(calls := v.calls + [Stored(t, key, val)])
    else if granted then v.(calls := v.calls + [Stored(t, key, val)], own := v.own[t := v.shared])
    else v
  }

  function AfterDelete(v: View, key: nat): View { v.(calls := v.calls + [Deleted(key)]) }

  /** Only keys that were given out, and only threads that exist, are used. */
  function After(v: View, op: Op): View {
    match op
    case DoCreate(dtor, granted) => AfterCreate(v, dtor, granted)
    case DoSet(t, key, val, granted) =>
      if t < |v.own| && key < Issued(v.calls) then AfterSet(v, t, key, val, granted) else v
    case DoDelete(key) => if key < Issued(v.calls) then AfterDelete(v, key) else v
  }

  function AfterAll(v: View, ops: seq<Op>): View
    decreases |ops|
  {
    if ops == [] then v else AfterAll(After(v, ops[0]), ops[1..])
  }

  /** A destructor was called with a value. */
  datatype Ran = Ran(key: nat, dtor: int, val: int)

  predicate Live(calls: seq<Call>, t: nat, key: nat) {
    DtorOf(calls, key) != 0 && ValueOf(calls, t, key) != 0
  }

  function Own(v: View, t: nat): nat { if t < |v.own| then v.own[t] else 0 }

  /**
    * The destructors that thread t runs from key i on, and the tables afterwards: those of the keys that are live when
    * their turn comes. While the n-th of them runs, the calls of the n-th entry of `script` are made.
    */
  function Exit(v: View, t: nat, i: nat, script: seq<seq<Op>>): (seq<Ran>, View)
    decreases |script|, Own(v, t) - i
  {
    if i >= Own(v, t) then ([], v)
    else if !Live(v.calls, t, i) then Exit(v, t, i + 1, script)
    else
      var (v', later) := if script == [] then (v, []) else (AfterAll(v, script[0]), script[1..]);
      var (log, end) := Exit(v', t, i + 1, later);
      ([Ran(i, DtorOf(v.calls, i), ValueOf(v.calls, t, i))] + log, end)
  }

  /** 8 doubled any number of times. */
  predicate EightDoubled(n: nat) { n == 8 || (n > 8 && n % 2 == 0 && EightDoubled(n / 2)) }

  /** The size of the shared table: none without a key, else the least of 8, 16, 32, ... that has room for all keys. */
  ghost predicate LeastSize(capacity: nat, keys: nat) {
    if keys == 0 then capacity == 0
    else capacity >= keys && EightDoubled(capacity) && (capacity == 8 || capacity / 2 < keys)
  }

  // ----- The code -----

  /** The tables; `data[t]` is thread t's own. Allocations come back zeroed, or fail when `granted` says so. */
  class Storage {
    var meta: seq<int>          // tss_meta
    var metaCapacity: nat       // tss_meta_capacity
    var next: nat               // tss_next
    var data: seq<seq<int>>     // __tss_data
    var capacity: seq<nat>      // __tss_data_capacity
    ghost var calls: seq<Call>

    ghost predicate Valid()
      reads this
    {
      && metaCapacity == |meta| && LeastSize(metaCapacity, next)
      && MetaOk(meta, next, calls)
      && |capacity| == |data| && (forall t :: 0 <= t < |data| ==> capacity[t] == |data[t]|)
      && AllDataOk(data, metaCapacity, calls)
    }

    ghost function Look(): View
      reads this
    {
      View(calls, metaCapacity, capacity)
    }

    constructor (threads: nat)
      ensures Valid() && Look() == View([], 0, seq(threads, _ => 0))
    {
      meta, metaCapacity, next, calls := [], 0, 0, [];
      data, capacity := seq(threads, _ => []), seq(threads, _ => 0);
    }

    /** tss_create: a key never given out before, or a failure that changes nothing. */
    method Create(dtor: int, granted: bool) returns (key: Option<nat>)
      requires Valid()
      modifies this
      ensures Valid() && Look() == AfterCreate(old(Look()), dtor, granted)
      ensures key == if granted || Issued(old(calls)) < old(metaCapacity) then Some(Issued(old(calls))) else None
      ensures key.Some? ==> OnlyDtor(old(calls), calls, key.value, dtor)
    {
      CallChanges(calls, Created(dtor));
      hide MetaOk, DataOk, AllDataOk, Issued, OnlyDtor;
      MetaFits(meta, next, calls);
      ghost var oldCapacity := metaCapacity;
      if metaCapacity <= next {
        var newCapacity := if metaCapacity == 0 then 8 else metaCapacity * 2;
        if !granted {
          return None;
        }
        GrowKeepsMeta(meta, next, calls, Zeros(newCapacity - metaCapacity));
        meta := meta + Zeros(newCapacity - metaCapacity);
        metaCapacity := newCapacity;
      }
      CreateKeepsMeta(meta, next, calls, dtor);
      OtherCallKeepsData(data, oldCapacity, calls, Created(dtor), metaCapacity);
      key := Some(next);
      next := next + 1;
      meta := meta[key.value := dtor];
      calls := calls + [Created(dtor)];
    }

    /** tss_get: what this thread stored last. */
    method Get(t: nat, key: nat) returns (val: int)
      requires Valid() && t < |capacity|
      ensures val == ValueOf(calls, t, key)
    {
      assert DataOk(data[t], metaCapacity, calls, t);
      if capacity[t] <= key {
        return 0;
      }
      return data[t][key];
    }

    /** tss_set under a key that was given out; the thread's own table grows to the size of the shared one if needed. */
    method Set(t: nat, key: nat, val: int, granted: bool) returns (ok: bool)
      requires Valid() && t < |capacity| && key < Issued(calls)
      modifies this
      ensures Valid() && Look() == AfterSet(old(Look()), t, key, val, granted)
      ensures ok <==> granted || key < old(capacity[t])
      ensures ok ==> OnlyValue(old(calls), calls, t, key, val)
    {
      CallChanges(calls, Stored(t, key, val));
      hide MetaOk, DataOk, AllDataOk, Issued, OnlyValue;
      MetaFits(meta, next, calls);
      DataFits(data, metaCapacity, calls, t);
      if capacity[t] <= key {
        var newCapacity := metaCapacity;
        assert newCapacity > key; // src/tls.c:108
        if !granted {
          return false;
        }
        GrowKeepsData(data, metaCapacity, calls, t, Zeros(newCapacity - capacity[t]));
        data := data[t := data[t] + Zeros(newCapacity - capacity[t])];
        capacity := capacity[t := newCapacity];
      }
      StoreKeepsData(data, metaCapacity, calls, t, key, val);
      StoreKeepsMeta(meta, next, calls, t, key, val);
      data := data[t := data[t][key := val]];
      calls := calls + [Stored(t, key, val)];
      return true;
    }

    /** tss_delete of a key that was given out. */
    method Delete(key: nat)
      requires Valid() && key < Issued(calls)
      modifies this
      ensures Valid() && Look() == AfterDelete(old(Look()), key) && OnlyDtor(old(calls), calls, key, 0)
    {
      CallChanges(calls, Deleted(key));
      hide MetaOk, DataOk, AllDataOk, Issued, OnlyDtor;
      MetaFits(meta, next, calls);
      DeleteKeepsMeta(meta, next, calls, key);
      OtherCallKeepsData(data, metaCapacity, calls, Deleted(key), metaCapacity);
      meta := meta[key := 0];
      calls := calls + [Deleted(key)];
    }

    /** A call made while a destructor runs, by it or by another thread. */
    method Perform(op: Op)
      requires Valid()
      modifies this
      ensures Valid() && Look() == After(old(Look()), op)
    {
      hide MetaOk, DataOk, AllDataOk, Issued;
      MetaFits(meta, next, calls);
      match op
      case DoCreate(dtor, granted) => var _ := Create(dtor, granted);
      case DoSet(t, key, val, granted) =>
        if t < |data| && key < next {
          var _ := Set(t, key, val, granted);
        }
      case DoDelete(key) =>
        if key < next {
          Delete(key);
        }
    }

    method PerformAll(ops: seq<Op>)
      requires Valid()
      modifies this
      ensures Valid() && Look() == AfterAll(old(Look()), ops)
    {
      hide MetaOk, DataOk, AllDataOk, Issued, After;
      for i := 0 to |ops|
        invariant Valid() && AfterAll(Look(), ops[i..]) == AfterAll(old(Look()), ops)
      {
        Perform(ops[i]);
        assert ops[i..][1..] == ops[i + 1..];
      }
    }

    /**
      * __run_tss_destructors in thread t, with the calls of `script` made while the destructors run. Of the keys that
      * these calls leave alone, the destructors run of exactly those that are live at the start.
      */
    method RunDestructors(t: nat, script: seq<seq<Op>>) returns (log: seq<Ran>)
      requires Valid() && t < |capacity|
      modifies this
      ensures Valid() && (log, Look()) == Exit(old(Look()), t, 0, script)
      ensures RunsUntouched(old(Look()), t, script, log) && KeysRise(log, 0)
      ensures Look() == Played(old(Look()), script[..Min(|log|, |script|)])
    {
      hide MetaOk, DataOk, AllDataOk, Issued, AfterAll, Exit, Live;
      TablesCover(data, metaCapacity, meta, next, calls, t);
      ExitRunsUntouched(Look(), t, script);
      RunsInKeyOrder(Look(), t, 0, script);
      ExitPlays(Look(), t, 0, script);
      hide RunsUntouched, KeysRise, Played;
      log := [];
      var i, used := 0, 0;
      ghost var all := Exit(Look(), t, 0, script);
      assert script[0..] == script;
      ContinuedFromStart(all);
      while i < capacity[t]
        invariant Valid() && t < |capacity| && used <= |script|
        invariant all == Continued(log, Exit(Look(), t, i, script[used..]))
        decreases |script| - used, capacity[t] - i
      {
        DataFits(data, metaCapacity, calls, t);
        TurnOf(Look(), t, i, script, used, data, meta, next);
        if meta[i] != 0 && data[t][i] != 0 {
          var dtor := meta[i];
          ghost var before := log;
          log := log + [Ran(i, dtor, data[t][i])];
          if used < |script| {
            AfterAllKeepsThreads(Look(), script[used]);
            PerformAll(script[used]);
            used := used + 1;
          }
          ContinuedTwice(before, log[|before|], Exit(Look(), t, i + 1, script[used..]));
        }
        i := i + 1;
      }
      ExitOver(Look(), t, i, script[used..]);
      ContinuedToEnd(log, Look());
    }
  }

  ghost function Continued(log: seq<Ran>, rest: (seq<Ran>, View)): (seq<Ran>, View) { (log + rest.0, rest.1) }

  lemma ContinuedTwice(log: seq<Ran>, r: Ran, rest: (seq<Ran>, View))
    ensures Continued(log, Continued([r], rest)) == Continued(log + [r], rest)
  {
    assert log + ([r] + rest.0) == (log + [r]) + rest.0;
  }

  lemma ContinuedFromStart(all: (seq<Ran>, View))
    ensures Continued([], all) == all
  {
    assert [] + all.0 == all.0;
  }

  lemma ContinuedToEnd(log: seq<Ran>, v: View)
    ensures Continued(log, ([], v)) == (log, v)
  {
    assert log + [] == log;
  }

  lemma ExitOver(v: View, t: nat, i: nat, script: seq<seq<Op>>)
    requires i >= Own(v, t)
    ensures Exit(v, t, i, script) == ([], v)
  {
  }

  /** What the tables say about key i decides its turn. */
  lemma TurnOf(v: View, t: nat, i: nat, script: seq<seq<Op>>, used: nat, data: seq<seq<int>>, meta: seq<int>, next: nat)
    requires MetaOk(meta, next, v.calls) && AllDataOk(data, v.shared, v.calls) && v.shared == |meta|
    requires |data| == |v.own| && t < |v.own| && v.own[t] == |data[t]| && i < v.own[t] && used <= |script|
    ensures i < |meta|
    ensures var rest := script[used..];
      Exit(v, t, i, rest) ==
        if meta[i] == 0 || data[t][i] == 0 then Exit(v, t, i + 1, rest)
        else Continued([Ran(i, meta[i], data[t][i])],
                       if used == |script| then Exit(v, t, i + 1, rest)
                       else Exit(AfterAll(v, script[used]), t, i + 1, script[used + 1..]))
  {
    hide DtorOf, ValueOf, Issued, AfterAll;
    assert DataOk(data[t], v.shared, v.calls, t);
    if used < |script| {
      assert script[used..][0] == script[used] && script[used..][1..] == script[used + 1..];
    }
  }

  lemma {:induction false} AfterAllKeepsThreads(v: View, ops: seq<Op>)
    ensures |AfterAll(v, ops).own| == |v.own|
    decreases |ops|
  {
    if ops != [] {
      AfterAllKeepsThreads(After(v, ops[0]), ops[1..]);
    }
  }

  lemma MetaFits(meta: seq<int>, next: nat, calls: seq<Call>)
    requires MetaOk(meta, next, calls)
    ensures next == Issued(calls) <= |meta|
  {
  }

  lemma DataFits(data: seq<seq<int>>, capacity: nat, calls: seq<Call>, t: nat)
    requires AllDataOk(data, capacity, calls) && t < |data|
    ensures |data[t]| <= capacity
  {
    assert DataOk(data[t], capacity, calls, t);
  }

  lemma TablesCover(data: seq<seq<int>>, capacity: nat, meta: seq<int>, next: nat, calls: seq<Call>, t: nat)
    requires AllDataOk(data, capacity, calls) && MetaOk(meta, next, calls) && |meta| == capacity && t < |data|
    ensures Covered(View(calls, capacity, seq(|data|, u requires 0 <= u < |data| => |data[u]|)), t)
  {
    assert DataOk(data[t], capacity, calls, t);
  }

  // ----- Main results -----

  /** Keys are given out in increasing order, so none twice. */
  lemma {:induction false} KeysAreNew(calls: seq<Call>, i: nat, j: nat)
    requires i < j <= |calls| && calls[i].Created?
    ensures Issued(calls[..i]) < Issued(calls[..j])
  {
    assert calls[..j][..j - 1] == calls[..j - 1];
    if i < j - 1 {
      KeysAreNew(calls, i, j - 1);
    }
  }

  ghost predicate KeysRise(s: seq<Ran>, from: int) {
    && (forall i :: 0 <= i < |s| ==> from <= s[i].key)
    && (forall i, j :: 0 <= i < j < |s| ==> s[i].key < s[j].key)
  }

  lemma KeysRiseOn(r: Ran, s: seq<Ran>)
    requires KeysRise(s, r.key + 1)
    ensures KeysRise(s, r.key) && KeysRise([r] + s, r.key)
  {
  }

  /** Destructors run in key order, each key's at most once. */
  lemma {:induction false} RunsInKeyOrder(v: View, t: nat, i: nat, script: seq<seq<Op>>)
    ensures KeysRise(Exit(v, t, i, script).0, i)
    decreases |script|, Own(v, t) - i
  {
    hide DtorOf, ValueOf, Live, AfterAll;
    if i < Own(v, t) {
      if !Live(v.calls, t, i) {
        RunsInKeyOrder(v, t, i + 1, script);
      } else {
        var (v', later) := if script == [] then (v, []) else (AfterAll(v, script[0]), script[1..]);
        RunsInKeyOrder(v', t, i + 1, later);
        KeysRiseOn(Ran(i, DtorOf(v.calls, i), ValueOf(v.calls, t, i)), Exit(v', t, i + 1, later).0);
      }
    }
  }

  // ----- What a destructor cannot undo -----

  /** The view when the destructor after `n` others runs: nothing but the script changes the tables. */
  ghost function Played(v: View, script: seq<seq<Op>>): View
    decreases |script|
  {
    if script == [] then v else Played(AfterAll(v, script[0]), script[1..])
  }

  /** The op may change what thread t finds under a key. */
  ghost predicate Touches(op: Op, t: nat, key: nat) {
    op == DoDelete(key) || (op.DoSet? && op.thread == t && op.key == key)
  }

  /** A key that an op does not touch stays as it is, and given out; no table shrinks. */
  lemma UntouchedAfter(v: View, op: Op, t: nat, key: nat)
    requires key < Issued(v.calls) && !Touches(op, t, key)
    ensures var c := After(v, op).calls;
      key < Issued(c) && DtorOf(c, key) == DtorOf(v.calls, key) && ValueOf(c, t, key) == ValueOf(v.calls, t, key)
  {
    var c := After(v, op).calls;
    if c != v.calls {
      Unlast(v.calls, c[|c| - 1]);
    }
  }

  ghost predicate NoTouch(ops: seq<Op>, t: nat, key: nat) {
    forall i :: 0 <= i < |ops| ==> !Touches(ops[i], t, key)
  }

  lemma {:induction false} UntouchedAfterAll(v: View, ops: seq<Op>, t: nat, key: nat)
    requires key < Issued(v.calls) && NoTouch(ops, t, key)
    ensures var c := AfterAll(v, ops).calls;
      key < Issued(c) && DtorOf(c, key) == DtorOf(v.calls, key) && ValueOf(c, t, key) == ValueOf(v.calls, t, key)
    decreases |ops|
  {
    hide After, DtorOf, ValueOf, Issued, Touches;
    if ops != [] {
      UntouchedAfter(v, ops[0], t, key);
      UntouchedAfterAll(After(v, ops[0]), ops[1..], t, key);
    }
  }

  /** The thread's table holds every value it stored and is no longer than the shared one, which has all the keys. */
  ghost predicate Covered(v: View, t: nat) {
    && Own(v, t) <= v.shared && Issued(v.calls) <= v.shared
    && forall key: nat :: Own(v, t) <= key ==> ValueOf(v.calls, t, key) == 0
  }

  lemma CoveredAfter(v: View, op: Op, t: nat)
    requires Covered(v, t)
    ensures Covered(After(v, op), t) && Own(v, t) <= Own(After(v, op), t)
  {
    match op {
      case DoCreate(dtor, granted) => CoveredAfterCall(v, AfterCreate(v, dtor, granted), Created(dtor), t);
      case DoSet(u, key, val, granted) =>
        if u < |v.own| && key < Issued(v.calls) {
          CoveredAfterCall(v, AfterSet(v, u, key, val, granted), Stored(u, key, val), t);
        }
      case DoDelete(key) => CoveredAfterCall(v, AfterDelete(v, key), Deleted(key), t);
    }
    hide Covered, Issued, ValueOf;
  }

  /** One call more, after which the tables have grown as far as it needs. */
  lemma CoveredAfterCall(v: View, w: View, c: Call, t: nat)
    requires Covered(v, t) && (w == v || w.calls == v.calls + [c])
    requires Own(v, t) <= Own(w, t) <= w.shared && v.shared <= w.shared
    requires w != v && c.Created? ==> Issued(v.calls) < w.shared
    requires w != v && c.Stored? && c.thread == t ==> c.key < Own(w, t)
    ensures Covered(w, t)
  {
    OneMoreCall(v.calls, c, t);
    hide Issued, ValueOf;
  }

  ghost predicate Stores(c: Call, t: nat, key: nat) { c.Stored? && c.thread == t && c.key == key }

  lemma OneMoreCall(calls: seq<Call>, c: Call, t: nat)
    ensures Issued(calls + [c]) == Issued(calls) + if c.Created? then 1 else 0
    ensures forall key: nat :: !Stores(c, t, key) ==> ValueOf(calls + [c], t, key) == ValueOf(calls, t, key)
  {
    Unlast(calls, c);
  }

  lemma {:induction false} CoveredAfterAll(v: View, ops: seq<Op>, t: nat)
    requires Covered(v, t)
    ensures Covered(AfterAll(v, ops), t) && Own(v, t) <= Own(AfterAll(v, ops), t)
    decreases |ops|
  {
    hide After, Covered;
    if ops != [] {
      CoveredAfter(v, ops[0], t);
      CoveredAfterAll(After(v, ops[0]), ops[1..], t);
    }
  }

  /** The log has the destructors of exactly the live keys among those that no call of `script` touches. */
  ghost predicate RunsUntouched(v: View, t: nat, script: seq<seq<Op>>, log: seq<Ran>) {
    forall r: Ran :: r.key < Issued(v.calls) && (forall n :: 0 <= n < |script| ==> NoTouch(script[n], t, r.key)) ==>
      (r in log <==>
         r.dtor == DtorOf(v.calls, r.key) != 0 && r.val == ValueOf(v.calls, t, r.key) != 0)
  }

  lemma ExitRunsUntouched(v: View, t: nat, script: seq<seq<Op>>)
    requires Covered(v, t)
    ensures RunsUntouched(v, t, script, Exit(v, t, 0, script).0)
  {
    forall r: Ran | r.key < Issued(v.calls) && forall n :: 0 <= n < |script| ==> NoTouch(script[n], t, r.key)
      ensures r in Exit(v, t, 0, script).0 <==>
        r.dtor == DtorOf(v.calls, r.key) != 0 && r.val == ValueOf(v.calls, t, r.key) != 0
    {
      UntouchedKeyRuns(v, t, 0, script, r.key, r.dtor, r.val);
    }
  }

  /**
    * Whatever destructors and other threads do in the meantime, a key that they neither delete nor store to keeps its
    * turn: its destructor runs, once, if and only if there was one and the thread's value was not NULL.
    */
  lemma {:induction false} UntouchedKeyRuns(v: View, t: nat, i: nat, script: seq<seq<Op>>, key: nat, d: int, x: int)
    requires Covered(v, t)
    requires i <= key < Issued(v.calls) && forall n :: 0 <= n < |script| ==> NoTouch(script[n], t, key)
    ensures Ran(key, d, x) in Exit(v, t, i, script).0 <==>
      d == DtorOf(v.calls, key) != 0 && x == ValueOf(v.calls, t, key) != 0
    decreases |script|, Own(v, t) - i
  {
    hide DtorOf, ValueOf, AfterAll, NoTouch, Issued;
    if i < Own(v, t) {
      if !Live(v.calls, t, i) {
        RunsInKeyOrder(v, t, i + 1, script);
        if i < key {
          UntouchedKeyRuns(v, t, i + 1, script, key, d, x);
        }
      } else {
        var (v', later) := if script == [] then (v, []) else (AfterAll(v, script[0]), script[1..]);
        RunsInKeyOrder(v', t, i + 1, later);
        if i < key {
          if script != [] {
            UntouchedAfterAll(v, script[0], t, key);
            CoveredAfterAll(v, script[0], t);
          }
          UntouchedKeyRuns(v', t, i + 1, later, key, d, x);
        }
      }
    }
  }

  lemma DeadAfter(v: View, op: Op, key: nat)
    requires key < Issued(v.calls) && DtorOf(v.calls, key) == 0
    ensures key < Issued(After(v, op).calls) && DtorOf(After(v, op).calls, key) == 0
  {
    var c := After(v, op).calls;
    if c != v.calls {
      Unlast(v.calls, c[|c| - 1]);
    }
  }

  lemma {:induction false} DeadAfterAll(v: View, ops: seq<Op>, key: nat)
    requires key < Issued(v.calls) && DtorOf(v.calls, key) == 0
    ensures key < Issued(AfterAll(v, ops).calls) && DtorOf(AfterAll(v, ops).calls, key) == 0
    decreases |ops|
  {
    hide After, DtorOf, Issued;
    if ops != [] {
      DeadAfter(v, ops[0], key);
      DeadAfterAll(After(v, ops[0]), ops[1..], key);
    }
  }

  /** A key without a destructor gets none by whatever is called, so nothing runs for it. */
  lemma {:induction false} DeadKeyNeverRuns(v: View, t: nat, i: nat, script: seq<seq<Op>>, key: nat)
    requires key < Issued(v.calls) && DtorOf(v.calls, key) == 0
    ensures forall r :: r in Exit(v, t, i, script).0 ==> r.key != key
    decreases |script|, Own(v, t) - i
  {
    hide DtorOf, ValueOf, AfterAll, Issued;
    if i < Own(v, t) {
      if !Live(v.calls, t, i) {
        DeadKeyNeverRuns(v, t, i + 1, script, key);
      } else if script == [] {
        DeadKeyNeverRuns(v, t, i + 1, [], key);
      } else {
        DeadAfterAll(v, script[0], key);
        DeadKeyNeverRuns(AfterAll(v, script[0]), t, i + 1, script[1..], key);
      }
    }
  }

  lemma {:induction false} AfterAllOfConcat(v: View, a: seq<Op>, b: seq<Op>)
    ensures AfterAll(v, a + b) == AfterAll(AfterAll(v, a), b)
    decreases |a|
  {
    hide After;
    if a == [] {
      assert a + b == b;
    } else {
      assert (a + b)[0] == a[0] && (a + b)[1..] == a[1..] + b;
      AfterAllOfConcat(After(v, a[0]), a[1..], b);
    }
  }

  /** Once some of the calls delete a key it is dead. */
  lemma DeletionKills(v: View, a: seq<Op>, key: nat, b: seq<Op>)
    requires key < Issued(AfterAll(v, a).calls)
    ensures var c := AfterAll(v, a + [DoDelete(key)] + b).calls; key < Issued(c) && DtorOf(c, key) == 0
  {
    hide Issued, DtorOf;
    var u := AfterAll(v, a);
    AfterAllOfConcat(v, a + [DoDelete(key)], b);
    AfterAllOfConcat(v, a, [DoDelete(key)]);
    var w := AfterAll(u, [DoDelete(key)]);
    assert w == After(u, DoDelete(key));
    DeletedIsDead(u, key);
    DeadAfterAll(w, b, key);
  }

  lemma DeletedIsDead(u: View, key: nat)
    requires key < Issued(u.calls)
    ensures var c := After(u, DoDelete(key)).calls; key < Issued(c) && DtorOf(c, key) == 0
  {
    Unlast(u.calls, Deleted(key));
  }

  /**
    * A key that is deleted while the destructor of an earlier key runs, by it or by another thread, has its own
    * destructor run neither then nor later. The deletion may stand anywhere among the calls of the n-th destructor.
    */
  lemma {:induction false} DeletedKeyDoesNotRun(v: View, t: nat, i: nat, script: seq<seq<Op>>, n: nat, a: seq<Op>,
                                                key: nat, b: seq<Op>)
    requires n < |script| && script[n] == a + [DoDelete(key)] + b
    requires key < Issued(AfterAll(Played(v, script[..n]), a).calls)
    requires var log := Exit(v, t, i, script).0; n < |log| && log[n].key < key
    ensures forall r :: r in Exit(v, t, i, script).0 ==> r.key != key
    decreases |script|, Own(v, t) - i
  {
    hide DtorOf, ValueOf, AfterAll, Issued;
    if !Live(v.calls, t, i) {
      DeletedKeyDoesNotRun(v, t, i + 1, script, n, a, key, b);
    } else {
      var v', log := AfterAll(v, script[0]), Exit(v, t, i, script).0;
      var more := Exit(v', t, i + 1, script[1..]).0;
      assert log[1..] == more && log[0].key == i;
      RunsInKeyOrder(v, t, i, script);
      if n == 0 {
        assert Played(v, script[..0]) == v;
        DeletionKills(v, a, key, b);
        DeadKeyNeverRuns(v', t, i + 1, script[1..], key);
      } else {
        assert log[n] == more[n - 1] && script[1..][n - 1] == script[n];
        assert script[..n][1..] == script[1..][..n - 1] && script[..n][0] == script[0];
        DeletedKeyDoesNotRun(v', t, i + 1, script[1..], n - 1, a, key, b);
      }
    }
  }

  /** How many of the destructors run before the turn of `key`. */
  ghost function Earlier(log: seq<Ran>, key: nat): nat {
    if log == [] || log[0].key >= key then 0 else 1 + Earlier(log[1..], key)
  }

  /** A destructor runs exactly when its key is live after the calls made during the earlier ones, and as it stands. */
  lemma {:induction false} RunsExactlyTheLive(v: View, t: nat, i: nat, script: seq<seq<Op>>, r: Ran)
    requires i <= r.key
    ensures var log := Exit(v, t, i, script).0;
      var now := Played(v, script[..Min(Earlier(log, r.key), |script|)]);
      r in log <==>
        r.key < Own(now, t) && r.dtor == DtorOf(now.calls, r.key) != 0 && r.val == ValueOf(now.calls, t, r.key) != 0
    decreases |script|, Own(v, t) - i
  {
    hide DtorOf, ValueOf, AfterAll;
    var log := Exit(v, t, i, script).0;
    RunsInKeyOrder(v, t, i, script);
    if i >= Own(v, t) {
      assert Played(v, script[..0]) == v;
    } else if !Live(v.calls, t, i) {
      RunsInKeyOrder(v, t, i + 1, script);
      if i < r.key {
        RunsExactlyTheLive(v, t, i + 1, script, r);
      } else {
        assert Played(v, script[..0]) == v;
      }
    } else {
      var (v', later) := if script == [] then (v, []) else (AfterAll(v, script[0]), script[1..]);
      var more := Exit(v', t, i + 1, later).0;
      assert log[1..] == more && log[0].key == i;
      RunsInKeyOrder(v', t, i + 1, later);
      if i < r.key {
        RunsExactlyTheLive(v', t, i + 1, later, r);
        var m := Min(Earlier(more, r.key), |later|);
        if script == [] {
          assert Played(v, script[..0]) == v && later[..m] == [];
        } else {
          assert script[..m + 1][1..] == later[..m] && script[..m + 1][0] == script[0];
        }
        InTail(log, r);
      } else {
        assert Played(v, script[..0]) == v;
      }
    }
  }

  /** What is left at the end: the calls of as many entries of the script as destructors have run. */
  lemma {:induction false} ExitPlays(v: View, t: nat, i: nat, script: seq<seq<Op>>)
    ensures var (log, end) := Exit(v, t, i, script); end == Played(v, script[..Min(|log|, |script|)])
    decreases |script|, Own(v, t) - i
  {
    hide DtorOf, ValueOf, AfterAll, Live;
    if i >= Own(v, t) {
    } else if !Live(v.calls, t, i) {
      ExitPlays(v, t, i + 1, script);
    } else if script == [] {
      ExitPlays(v, t, i + 1, []);
    } else {
      ExitPlays(AfterAll(v, script[0]), t, i + 1, script[1..]);
      var m := Min(|Exit(AfterAll(v, script[0]), t, i + 1, script[1..]).0|, |script| - 1);
      assert script[..m + 1][1..] == script[1..][..m] && script[..m + 1][0] == script[0];
    }
  }

  lemma InTail(log: seq<Ran>, r: Ran)
    requires log != [] && log[0] != r
    ensures r in log <==> r in log[1..]
  {
    assert log == [log[0]] + log[1..];
  }
}
