/**
  * tss_create, tss_set and tss_delete by any number of threads, one memory access at a time (src/tls.c:62-133). The
  * mutex is released between the look at the shared table's size and the stores into the thread's own table.
  */
module TssThreads {
  import opened Sequences
  import opened Tss

  /** Where a call stands; `Idle` between calls. */
  datatype Pc =
    | Idle
    | CreateLock(dtor: int)
    | CreateGrow(dtor: int)                  // compares the sizes, and makes a larger table if needed
    | CreateSize(dtor: int, size: nat)       // tss_meta_capacity = new_capacity
    | CreateTake(dtor: int)                  // *tss_key = tss_next++
    | CreateStore(dtor: int, key: nat)       // tss_meta[*tss_key].dtor = dtor
    | Unlock
    | SetLook(key: nat, val: int)            // compares with the size of the thread's own table
    | SetLock(key: nat, val: int)
    | SetRead(key: nat, val: int)            // new_capacity = tss_meta_capacity
    | SetUnlock(key: nat, val: int, size: nat)
    | SetGrow(key: nat, val: int, size: nat) // the assertion, and the larger table of the thread
    | SetStore(key: nat, val: int)           // __tss_data[tss_key] = val
    | DeleteLock(key: nat)
    | DeleteStore(key: nat)                  // tss_meta[tss_key].dtor = NULL

  /** `meta`, `capacity` and `next` are shared, `data[t]` is thread t's own; `calls` is history. */
  datatype State = State(mutex: bool, meta: seq<int>, capacity: nat, next: nat, data: seq<seq<int>>, threads: seq<Pc>,
                         calls: seq<Call>)

  /** One thread's turn: what it calls if it is about to start a call, and whether an allocation succeeds. */
  datatype Turn = Turn(thread: nat, start: Pc, granted: bool)

  function Step(s: State, turn: Turn): State {
    if turn.thread < |s.threads| && |s.data| == |s.threads| then Access(s, turn.thread, turn.start, turn.granted)
    else s
  }

  /** A call begins with a key that was given out, if it takes one. */
  predicate Begins(s: State, start: Pc) {
    || start.CreateLock?
    || ((start.SetLook? || start.DeleteLock?) && start.key < Issued(s.calls))
  }

  /** What a turn leaves in the shared variables and in the thread's own table. */
  datatype Effect = Effect(pc: Pc, mutex: bool, meta: seq<int>, capacity: nat, next: nat, own: seq<int>)

  /** The call that the next access of thread i completes. */
  function Done(pc: Pc, i: nat): seq<Call> {
    match pc
    case CreateStore(dtor, _) => [Created(dtor)]
    case SetStore(key, val) => [Stored(i, key, val)]
    case DeleteStore(key) => [Deleted(key)]
    case _ => []
  }

  function Access(s: State, i: nat, start: Pc, granted: bool): State
    requires i < |s.threads| == |s.data|
  {
    var e := Turned(s, i, start, granted);
    State(e.mutex, e.meta, e.capacity, e.next, s.data[i := e.own], s.threads[i := e.pc],
          s.calls + Done(s.threads[i], i))
  }

  function Turned(s: State, i: nat, start: Pc, granted: bool): Effect
    requires i < |s.threads| == |s.data|
  {
    var (pc, own) := (s.threads[i], s.data[i]);
    var e := Effect(pc, s.mutex, s.meta, s.capacity, s.next, own);
    match pc
    case Idle => if Begins(s, start) then e.(pc := start) else e
    case CreateLock(dtor) => if s.mutex then e else e.(pc := CreateGrow(dtor), mutex := true)
    case CreateGrow(dtor) =>
      if s.capacity > s.next then e.(pc := CreateTake(dtor))
      else if !granted then e.(pc := Unlock)
      else
        var size := if s.capacity == 0 then 8 else s.capacity * 2;
        e.(pc := CreateSize(dtor, size), meta := s.meta + Zeros(size - s.capacity))
    case CreateSize(dtor, size) => e.(pc := CreateTake(dtor), capacity := size)
    case CreateTake(dtor) => e.(pc := CreateStore(dtor, s.next), next := s.next + 1)
    case CreateStore(dtor, key) => e.(pc := Unlock, meta := Put(s.meta, key, dtor))
    case Unlock => e.(pc := Idle, mutex := false)
    case SetLook(key, val) => e.(pc := if |own| <= key then SetLock(key, val) else SetStore(key, val))
    case SetLock(key, val) => if s.mutex then e else e.(pc := SetRead(key, val), mutex := true)
    case SetRead(key, val) => e.(pc := SetUnlock(key, val, s.capacity))
    case SetUnlock(key, val, size) => e.(pc := SetGrow(key, val, size), mutex := false)
    case SetGrow(key, val, size) =>
      if !granted then e.(pc := Idle) else e.(pc := SetStore(key, val), own := own + Zeros(size - |own|))
    case SetStore(key, val) => e.(pc := Idle, own := Put(own, key, val))
    case DeleteLock(key) => if s.mutex then e else e.(pc := DeleteStore(key), mutex := true)
    case DeleteStore(key) => e.(pc := Unlock, meta := Put(s.meta, key, 0))
  }

  /** A store into a table; `InBounds` says that none is out of bounds. */
  function Put(table: seq<int>, key: nat, val: int): seq<int> {
    if key < |table| then table[key := val] else table
  }

  function Run(s: State, schedule: seq<Turn>): State
    decreases |schedule|
  {
    if schedule == [] then s else Run(Step(s, schedule[0]), schedule[1..])
  }

  ghost predicate Start(s: State) {
    && !s.mutex && s.meta == [] && s.capacity == 0 && s.next == 0 && s.calls == []
    && |s.data| == |s.threads|
    && forall i :: 0 <= i < |s.threads| ==> s.threads[i].Idle? && s.data[i] == []
  }

  // ----- The invariant -----

  /** The thread has the mutex. */
  ghost predicate Inside(pc: Pc) {
    || pc.CreateGrow? || pc.CreateSize? || pc.CreateTake? || pc.CreateStore? || pc.Unlock?
    || pc.SetRead? || pc.SetUnlock? || pc.DeleteStore?
  }

  ghost predicate SomeInside(threads: seq<Pc>) { exists i :: 0 <= i < |threads| && Inside(threads[i]) }

  ghost predicate OneInside(threads: seq<Pc>, mutex: bool) {
    && (mutex <==> SomeInside(threads))
    && (forall i, j :: 0 <= i < j < |threads| ==> !(Inside(threads[i]) && Inside(threads[j])))
  }

  /** The shared table, of `size` elements, as it is between the locked sections; `keys` were given out. */
  ghost predicate Settled(size: nat, capacity: nat, next: nat, keys: nat) {
    capacity == size && next == keys <= capacity
  }

  ghost predicate IsSettled(s: State) { Settled(|s.meta|, s.capacity, s.next, Issued(s.calls)) }

  /** What a thread whose own table has `own` elements knows of the shared one. */
  ghost predicate Knows(pc: Pc, size: nat, capacity: nat, next: nat, keys: nat, own: nat) {
    match pc
    case CreateSize(_, newSize) => next == keys < newSize == size
    case CreateTake(_) => Settled(size, capacity, next, keys) && next < capacity
    case CreateStore(_, key) => key == keys < capacity == size && next == key + 1
    case SetLook(key, _) => key < keys
    case SetLock(key, _) => own <= key < keys
    case SetRead(key, _) => Settled(size, capacity, next, keys) && own <= key < keys
    case SetUnlock(key, _, read) => Settled(size, capacity, next, keys) && own <= key < read <= size
    case SetGrow(key, _, read) => own <= key < read <= size
    case SetStore(key, _) => key < own
    case DeleteLock(key) => key < keys
    case DeleteStore(key) => Settled(size, capacity, next, keys) && key < keys
    case _ => Inside(pc) ==> Settled(size, capacity, next, keys)
  }

  ghost predicate PcOk(s: State, i: nat)
    requires i < |s.threads| == |s.data|
  {
    Knows(s.threads[i], |s.meta|, s.capacity, s.next, Issued(s.calls), |s.data[i]|)
  }

  /** The tables agree with the history, as between the calls of a single thread. */
  ghost predicate TablesOk(s: State) {
    MetaOk(s.meta, Issued(s.calls), s.calls) && AllDataOk(s.data, |s.meta|, s.calls)
  }

  ghost predicate Invariant(s: State) {
    && |s.data| == |s.threads|
    && OneInside(s.threads, s.mutex)
    && (!s.mutex ==> IsSettled(s))
    && (forall i :: 0 <= i < |s.threads| ==> PcOk(s, i))
    && TablesOk(s)
  }

  // ----- Each step keeps it -----

  lemma StartIsInvariant(s: State)
    requires Start(s)
    ensures Invariant(s)
  {
    forall t | 0 <= t < |s.data|
      ensures DataOk(s.data[t], 0, s.calls, t)
    {
    }
  }

  lemma KeepsOneInside(s: State, i: nat, start: Pc, granted: bool)
    requires i < |s.threads| == |s.data| && OneInside(s.threads, s.mutex)
    ensures var s' := Access(s, i, start, granted); OneInside(s'.threads, s'.mutex)
  {
    EntersFree(s, i, start, granted);
    ChangesOnePc(s, i, start, granted);
    var s' := Access(s, i, start, granted);
    hide Access;
    if Inside(s'.threads[i]) {
      assert SomeInside(s'.threads);
    } else if j :| 0 <= j < |s.threads| && Inside(s.threads[j]) && j != i {
      assert Inside(s'.threads[j]);
    }
  }

  /** A thread enters only if the mutex is free; the mutex is set by entering and cleared by leaving. */
  lemma EntersFree(s: State, i: nat, start: Pc, granted: bool)
    requires i < |s.threads| == |s.data| && (Inside(s.threads[i]) ==> s.mutex)
    ensures var (s', was) := (Access(s, i, start, granted), Inside(s.threads[i]));
      && |s'.threads| == |s.threads|
      && (Inside(s'.threads[i]) && !was ==> !s.mutex)
      && s'.mutex == (Inside(s'.threads[i]) || (!was && s.mutex))
  {
    hide Zeros, Issued, Put;
  }

  lemma ChangesOnePc(s: State, i: nat, start: Pc, granted: bool)
    requires i < |s.threads| == |s.data|
    ensures var s' := Access(s, i, start, granted);
      |s'.data| == |s'.threads| == |s.threads|
      && forall j :: 0 <= j < |s.threads| && j != i ==> s'.threads[j] == s.threads[j] && s'.data[j] == s.data[j]
  {
    hide Turned;
  }

  lemma KeepsTables(s: State, i: nat, start: Pc, granted: bool)
    requires i < |s.threads| == |s.data| && PcOk(s, i) && TablesOk(s)
    ensures TablesOk(Access(s, i, start, granted))
  {
    var pc := s.threads[i];
    if pc.CreateGrow? {
      GrowKeepsTables(s, i, start, granted);
    } else if pc.CreateStore? || pc.DeleteStore? {
      MetaStoreKeepsTables(s, i, start, granted);
    } else if pc.SetGrow? || pc.SetStore? {
      OwnStoreKeepsTables(s, i, start, granted);
    } else {
      OthersKeepTables(s, i, start, granted);
      hide Access, MetaOk, AllDataOk;
    }
  }

  lemma GrowKeepsTables(s: State, i: nat, start: Pc, granted: bool)
    requires i < |s.threads| == |s.data| && PcOk(s, i) && TablesOk(s) && s.threads[i].CreateGrow?
    ensures TablesOk(Access(s, i, start, granted))
  {
    hide MetaOk, AllDataOk, DataOk, Issued, Zeros;
    assert s.data[i := s.data[i]] == s.data && s.calls + [] == s.calls;
    if s.capacity <= s.next {
      var zeros := Zeros((if s.capacity == 0 then 8 else s.capacity * 2) - s.capacity);
      GrowKeepsMeta(s.meta, Issued(s.calls), s.calls, zeros);
      MoreRoomKeepsData(s.data, |s.meta|, s.calls, |s.meta| + |zeros|);
    }
  }

  lemma MetaStoreKeepsTables(s: State, i: nat, start: Pc, granted: bool)
    requires i < |s.threads| == |s.data| && PcOk(s, i) && TablesOk(s)
    requires s.threads[i].CreateStore? || s.threads[i].DeleteStore?
    ensures TablesOk(Access(s, i, start, granted))
  {
    hide MetaOk, AllDataOk, DataOk, Issued;
    var (pc, keys) := (s.threads[i], Issued(s.calls));
    var c := if pc.CreateStore? then Created(pc.dtor) else Deleted(pc.key);
    assert s.data[i := s.data[i]] == s.data;
    IssuedAfter(s.calls, c);
    OtherCallKeepsData(s.data, |s.meta|, s.calls, c, |s.meta|);
    if pc.CreateStore? {
      CreateKeepsMeta(s.meta, keys, s.calls, pc.dtor);
    } else {
      DeleteKeepsMeta(s.meta, keys, s.calls, pc.key);
    }
  }

  lemma OwnStoreKeepsTables(s: State, i: nat, start: Pc, granted: bool)
    requires i < |s.threads| == |s.data| && PcOk(s, i) && TablesOk(s)
    requires s.threads[i].SetGrow? || s.threads[i].SetStore?
    ensures TablesOk(Access(s, i, start, granted))
  {
    hide MetaOk, AllDataOk, DataOk, Issued, Zeros;
    var pc := s.threads[i];
    assert s.data[i := s.data[i]] == s.data && s.calls + [] == s.calls;
    if pc.SetGrow? {
      GrowKeepsData(s.data, |s.meta|, s.calls, i, Zeros(pc.size - |s.data[i]|));
    } else {
      StoreKeepsMeta(s.meta, Issued(s.calls), s.calls, i, pc.key, pc.val);
      IssuedAfter(s.calls, Stored(i, pc.key, pc.val));
      StoreKeepsData(s.data, |s.meta|, s.calls, i, pc.key, pc.val);
    }
  }

  ghost predicate WritesTables(pc: Pc) {
    pc.CreateGrow? || pc.CreateStore? || pc.DeleteStore? || pc.SetGrow? || pc.SetStore?
  }

  lemma OthersKeepTables(s: State, i: nat, start: Pc, granted: bool)
    requires i < |s.threads| == |s.data| && !WritesTables(s.threads[i])
    ensures var s' := Access(s, i, start, granted); s'.meta == s.meta && s'.data == s.data && s'.calls == s.calls
  {
    hide Zeros, Issued, Put, Begins;
    assert s.data[i := s.data[i]] == s.data && s.calls + [] == s.calls;
  }

  lemma IssuedAfter(calls: seq<Call>, c: Call)
    ensures Issued(calls + [c]) == Issued(calls) + if c.Created? then 1 else 0
  {
    Unlast(calls, c);
  }

  lemma MoreRoomKeepsData(data: seq<seq<int>>, capacity: nat, calls: seq<Call>, capacity': nat)
    requires AllDataOk(data, capacity, calls) && capacity <= capacity'
    ensures AllDataOk(data, capacity', calls)
  {
    forall t | 0 <= t < |data|
      ensures DataOk(data[t], capacity', calls, t)
    {
      assert DataOk(data[t], capacity, calls, t);
    }
  }

  /** What others see of a turn: nothing shrinks, and without the mutex the shared table stays as it is. */
  ghost predicate SharedOk(s: State, s': State, pc: Pc) {
    && |s.meta| <= |s'.meta| && Issued(s.calls) <= Issued(s'.calls)
    && (!Inside(pc) ==> s'.meta == s.meta && s'.capacity == s.capacity && s'.next == s.next
                        && Issued(s'.calls) == Issued(s.calls))
  }

  lemma KeepsShared(s: State, i: nat, start: Pc, granted: bool)
    requires i < |s.threads| == |s.data| && PcOk(s, i)
    ensures SharedOk(s, Access(s, i, start, granted), s.threads[i])
  {
    hide Zeros, Issued, Put, Begins;
    var pc := s.threads[i];
    PutKeepsSize(s, pc);
    if WritesTables(pc) {
      NewCall(s, i, start, granted);
    } else {
      OthersKeepTables(s, i, start, granted);
    }
  }

  lemma PutKeepsSize(s: State, pc: Pc)
    ensures pc.CreateStore? ==> |Put(s.meta, pc.key, pc.dtor)| == |s.meta|
    ensures pc.DeleteStore? ==> |Put(s.meta, pc.key, 0)| == |s.meta|
  {
  }

  /** Only the last store of tss_create gives out a key. */
  lemma NewCall(s: State, i: nat, start: Pc, granted: bool)
    requires i < |s.threads| == |s.data|
    ensures var s' := Access(s, i, start, granted);
      Issued(s'.calls) == Issued(s.calls) + if s.threads[i].CreateStore? then 1 else 0
  {
    var done := Done(s.threads[i], i);
    hide Turned, Issued;
    if done == [] {
      assert s.calls + done == s.calls;
    } else {
      IssuedAfter(s.calls, done[0]);
    }
  }

  /** After its turn thread i still knows what it relies on, and it leaves the shared table settled. */
  lemma KeepsOwnPc(s: State, i: nat, start: Pc, granted: bool)
    requires i < |s.threads| == |s.data| && PcOk(s, i) && (!s.mutex ==> IsSettled(s))
    ensures var s' := Access(s, i, start, granted);
      && i < |s'.threads| == |s'.data| && PcOk(s', i)
      && (Inside(s.threads[i]) && !Inside(s'.threads[i]) ==> IsSettled(s'))
  {
    EffectIsKnown(s, i, start, granted);
    NewCall(s, i, start, granted);
    hide Turned, Issued, Knows, Settled, Inside, Creates;
  }

  ghost predicate EffectOk(pc: Pc, e: Effect, keys: nat) {
    && Knows(e.pc, |e.meta|, e.capacity, e.next, keys, |e.own|)
    && (Inside(pc) && !Inside(e.pc) ==> Settled(|e.meta|, e.capacity, e.next, keys))
  }

  ghost predicate Creates(pc: Pc) {
    pc.CreateLock? || pc.CreateGrow? || pc.CreateSize? || pc.CreateTake? || pc.CreateStore?
  }

  lemma EffectIsKnown(s: State, i: nat, start: Pc, granted: bool)
    requires i < |s.threads| == |s.data| && PcOk(s, i) && (!s.mutex ==> IsSettled(s))
    ensures var pc := s.threads[i];
      EffectOk(pc, Turned(s, i, start, granted), Issued(s.calls) + if pc.CreateStore? then 1 else 0)
  {
    if Creates(s.threads[i]) {
      CreateIsKnown(s, i, start, granted);
    } else if s.threads[i].Idle? || s.threads[i].Unlock? || s.threads[i].DeleteLock? || s.threads[i].DeleteStore? {
      DeleteIsKnown(s, i, start, granted);
    } else {
      SetIsKnown(s, i, start, granted);
    }
    hide Turned, Knows, EffectOk;
  }

  lemma CreateIsKnown(s: State, i: nat, start: Pc, granted: bool)
    requires i < |s.threads| == |s.data| && PcOk(s, i) && (!s.mutex ==> IsSettled(s)) && Creates(s.threads[i])
    ensures var pc := s.threads[i];
      EffectOk(pc, Turned(s, i, start, granted), Issued(s.calls) + if pc.CreateStore? then 1 else 0)
  {
    hide Issued, Zeros, Begins;
  }

  lemma SetIsKnown(s: State, i: nat, start: Pc, granted: bool)
    requires i < |s.threads| == |s.data| && PcOk(s, i) && (!s.mutex ==> IsSettled(s)) && !Creates(s.threads[i])
    requires var pc := s.threads[i]; !pc.Idle? && !pc.Unlock? && !pc.DeleteLock? && !pc.DeleteStore?
    ensures EffectOk(s.threads[i], Turned(s, i, start, granted), Issued(s.calls))
  {
    hide Issued, Zeros, Begins;
  }

  lemma DeleteIsKnown(s: State, i: nat, start: Pc, granted: bool)
    requires i < |s.threads| == |s.data| && PcOk(s, i) && (!s.mutex ==> IsSettled(s))
    requires var pc := s.threads[i]; pc.Idle? || pc.Unlock? || pc.DeleteLock? || pc.DeleteStore?
    ensures EffectOk(s.threads[i], Turned(s, i, start, granted), Issued(s.calls))
  {
    hide Issued, Zeros;
  }

  lemma KeepsOtherPcs(s: State, i: nat, start: Pc, granted: bool)
    requires Invariant(s) && i < |s.threads|
    ensures var s' := Access(s, i, start, granted);
      |s'.data| == |s'.threads| && forall j :: 0 <= j < |s.threads| && j != i ==> PcOk(s', j)
  {
    var s' := Access(s, i, start, granted);
    assert PcOk(s, i);
    KeepsShared(s, i, start, granted);
    ChangesOnePc(s, i, start, granted);
    hide Access, Issued, TablesOk;
    forall j | 0 <= j < |s.threads| && j != i
      ensures PcOk(s', j)
    {
      assert PcOk(s, j);
      assert !(Inside(s.threads[i]) && Inside(s.threads[j]));
    }
  }

  lemma StaysSettled(s: State, i: nat, start: Pc, granted: bool)
    requires Invariant(s) && i < |s.threads|
    ensures var s' := Access(s, i, start, granted); !s'.mutex ==> IsSettled(s')
  {
    assert PcOk(s, i);
    EntersFree(s, i, start, granted);
    KeepsOwnPc(s, i, start, granted);
    KeepsShared(s, i, start, granted);
    hide Access, TablesOk, PcOk, Issued;
  }

  lemma StepKeeps(s: State, turn: Turn)
    requires Invariant(s)
    ensures Invariant(Step(s, turn))
  {
    if turn.thread < |s.threads| {
      var i, start, granted := turn.thread, turn.start, turn.granted;
      assert PcOk(s, i);
      KeepsOneInside(s, i, start, granted);
      KeepsTables(s, i, start, granted);
      KeepsOwnPc(s, i, start, granted);
      KeepsOtherPcs(s, i, start, granted);
      ChangesOnePc(s, i, start, granted);
      StaysSettled(s, i, start, granted);
      hide Access, PcOk, TablesOk, OneInside, IsSettled;
    }
  }

  lemma {:induction false} RunKeeps(s: State, schedule: seq<Turn>)
    requires Invariant(s)
    ensures Invariant(Run(s, schedule))
    decreases |schedule|
  {
    hide Invariant, Step;
    if schedule != [] {
      StepKeeps(s, schedule[0]);
      RunKeeps(Step(s, schedule[0]), schedule[1..]);
    }
  }

  // ----- Main result -----

  /** The index that a thread is about to use in a table is in it. */
  ghost predicate InBounds(s: State) {
    forall i :: 0 <= i < |s.threads| && i < |s.data| ==>
      match s.threads[i]
      case CreateStore(_, key) => key < |s.meta|
      case DeleteStore(key) => key < |s.meta|
      case SetStore(key, _) => key < |s.data[i]|
      case _ => true
  }

  /** The assertion of tss_set (src/tls.c:108) holds wherever a thread is about to make it. */
  ghost predicate AssertionHolds(s: State) {
    forall i :: 0 <= i < |s.threads| && s.threads[i].SetGrow? ==> s.threads[i].size > s.threads[i].key
  }

  /** tss_get in thread t. */
  function Get(s: State, t: nat, key: nat): int
    requires t < |s.data|
  {
    if |s.data[t]| <= key then 0 else s.data[t][key]
  }

  /**
    * Under every interleaving the assertion of tss_set holds and no store is out of bounds, although tables grow
    * between the look at the shared table and the stores; tss_get gives what this thread stored last; and whenever
    * nobody has the mutex the shared table holds the destructors of the history.
    */
  lemma EveryThreadKeepsItsValues(s: State, schedule: seq<Turn>, t: nat, key: nat)
    requires Start(s) && t < |s.threads|
    ensures var r := Run(s, schedule);
      && AssertionHolds(r) && InBounds(r)
      && t < |r.data| && Get(r, t, key) == ValueOf(r.calls, t, key)
      && (!r.mutex ==> r.capacity == |r.meta| && MetaOk(r.meta, r.next, r.calls))
      && (forall i, j :: 0 <= i < j < |r.threads| ==> !(Inside(r.threads[i]) && Inside(r.threads[j])))
  {
    StartIsInvariant(s);
    RunKeeps(s, schedule);
    SameThreads(s, schedule);
    var r := Run(s, schedule);
    hide Run, MetaOk, Issued, ValueOf;
    assert DataOk(r.data[t], |r.meta|, r.calls, t);
    assert forall i :: 0 <= i < |r.threads| ==> PcOk(r, i);
    KnownIsSafe(r);
  }

  lemma KnownIsSafe(r: State)
    requires |r.data| == |r.threads| && forall i :: 0 <= i < |r.threads| ==> PcOk(r, i)
    ensures AssertionHolds(r) && InBounds(r)
  {
    hide Issued;
    forall i | 0 <= i < |r.threads| && r.threads[i].SetGrow?
      ensures r.threads[i].size > r.threads[i].key
    {
      assert PcOk(r, i);
    }
    forall i | 0 <= i < |r.threads| && i < |r.data|
      ensures match r.threads[i]
        case CreateStore(_, key) => key < |r.meta|
        case DeleteStore(key) => key < |r.meta|
        case SetStore(key, _) => key < |r.data[i]|
        case _ => true
    {
      assert PcOk(r, i);
    }
  }

  lemma {:induction false} SameThreads(s: State, schedule: seq<Turn>)
    ensures |Run(s, schedule).threads| == |s.threads|
    decreases |schedule|
  {
    hide Begins, Put, Zeros;
    if schedule != [] {
      SameThreads(Step(s, schedule[0]), schedule[1..]);
    }
  }

  // ----- Progress -----

  /** The accesses that a call has left at most. */
  ghost function Left(pc: Pc): nat {
    match pc
    case Idle => 0
    case Unlock => 1
    case SetStore(_, _) => 1
    case CreateStore(_, _) => 2
    case SetGrow(_, _, _) => 2
    case DeleteStore(_) => 2
    case CreateTake(_) => 3
    case SetUnlock(_, _, _) => 3
    case DeleteLock(_) => 3
    case CreateSize(_, _) => 4
    case SetRead(_, _) => 4
    case CreateGrow(_) => 5
    case SetLock(_, _) => 5
    case CreateLock(_) => 6
    case SetLook(_, _) => 6
  }

  /** What thread i has called and is not yet in the history. */
  ghost function Due(pc: Pc, i: nat): seq<Call> {
    match pc
    case Idle => []
    case Unlock => []
    case CreateLock(dtor) => [Created(dtor)]
    case CreateGrow(dtor) => [Created(dtor)]
    case CreateSize(dtor, _) => [Created(dtor)]
    case CreateTake(dtor) => [Created(dtor)]
    case CreateStore(dtor, _) => [Created(dtor)]
    case SetLook(key, val) => [Stored(i, key, val)]
    case SetLock(key, val) => [Stored(i, key, val)]
    case SetRead(key, val) => [Stored(i, key, val)]
    case SetUnlock(key, val, _) => [Stored(i, key, val)]
    case SetGrow(key, val, _) => [Stored(i, key, val)]
    case SetStore(key, val) => [Stored(i, key, val)]
    case DeleteLock(key) => [Deleted(key)]
    case DeleteStore(key) => [Deleted(key)]
  }

  ghost function AllLeft(threads: seq<Pc>): nat {
    if threads == [] then 0 else AllLeft(threads[..|threads| - 1]) + Left(threads[|threads| - 1])
  }

  ghost function AllDue(threads: seq<Pc>): multiset<Call> {
    if threads == [] then multiset{}
    else AllDue(threads[..|threads| - 1]) + multiset(Due(threads[|threads| - 1], |threads| - 1))
  }

  lemma {:induction false} CountsAfterUpdate(threads: seq<Pc>, i: nat, pc: Pc)
    requires i < |threads|
    ensures AllLeft(threads[i := pc]) + Left(threads[i]) == AllLeft(threads) + Left(pc)
    ensures AllDue(threads[i := pc]) + multiset(Due(threads[i], i)) == AllDue(threads) + multiset(Due(pc, i))
  {
    hide Left, Due;
    var n := |threads| - 1;
    if i < n {
      CountsAfterUpdate(threads[..n], i, pc);
      assert threads[i := pc][..n] == threads[..n][i := pc];
      OneMore(AllDue(threads[..n][i := pc]), multiset(Due(threads[i], i)), AllDue(threads[..n]), multiset(Due(pc, i)),
              multiset(Due(threads[n], n)));
    } else {
      assert threads[i := pc][..n] == threads[..n];
      Swapped(AllDue(threads[..n]), multiset(Due(pc, i)), multiset(Due(threads[i], i)));
    }
  }

  lemma OneMore<T>(a: multiset<T>, b: multiset<T>, c: multiset<T>, d: multiset<T>, e: multiset<T>)
    requires a + b == c + d
    ensures a + e + b == c + e + d
  {
    assert a + e + b == (a + b) + e && c + e + d == (c + d) + e;
  }

  lemma Swapped<T>(a: multiset<T>, b: multiset<T>, c: multiset<T>)
    ensures a + b + c == a + c + b
  {
  }

  ghost predicate AllIdle(threads: seq<Pc>) { forall i :: 0 <= i < |threads| ==> threads[i].Idle? }

  lemma {:induction false} NothingDue(threads: seq<Pc>)
    requires AllIdle(threads)
    ensures AllDue(threads) == multiset{}
  {
    if threads != [] {
      NothingDue(threads[..|threads| - 1]);
    }
  }

  /** The call comes further, and into the history once. */
  ghost predicate Advances(pc: Pc, next: Pc, i: nat) {
    && Left(next) < Left(pc)
    && if Done(pc, i) == [] then Due(next, i) == Due(pc, i) else Due(next, i) == [] && Done(pc, i) == Due(pc, i)
  }

  /** A turn of a thread that need not wait brings its call further. */
  lemma TurnAdvances(s: State, i: nat)
    requires i < |s.threads| == |s.data| && !s.threads[i].Idle? && (s.mutex ==> Inside(s.threads[i]))
    ensures Advances(s.threads[i], Turned(s, i, Idle, true).pc, i)
  {
    if Creates(s.threads[i]) {
      CreateAdvances(s, i);
    } else if s.threads[i].Unlock? || s.threads[i].DeleteLock? || s.threads[i].DeleteStore? {
      DeleteAdvances(s, i);
    } else {
      SetAdvances(s, i);
    }
    hide Turned, Advances;
  }

  lemma CreateAdvances(s: State, i: nat)
    requires i < |s.threads| == |s.data| && Creates(s.threads[i]) && (s.mutex ==> Inside(s.threads[i]))
    ensures Advances(s.threads[i], Turned(s, i, Idle, true).pc, i)
  {
    hide Zeros, Put, Begins;
    match s.threads[i] {
      case CreateLock(_) =>
      case CreateGrow(_) =>
      case CreateSize(_, _) =>
      case CreateTake(_) =>
      case CreateStore(_, _) =>
    }
  }

  lemma DeleteAdvances(s: State, i: nat)
    requires i < |s.threads| == |s.data| && (s.mutex ==> Inside(s.threads[i]))
    requires var pc := s.threads[i]; pc.Unlock? || pc.DeleteLock? || pc.DeleteStore?
    ensures Advances(s.threads[i], Turned(s, i, Idle, true).pc, i)
  {
    hide Zeros, Put, Begins;
    match s.threads[i] {
      case Unlock =>
      case DeleteLock(_) =>
      case DeleteStore(_) =>
    }
  }

  lemma SetAdvances(s: State, i: nat)
    requires i < |s.threads| == |s.data| && !Creates(s.threads[i]) && (s.mutex ==> Inside(s.threads[i]))
    requires var pc := s.threads[i]; !pc.Idle? && !pc.Unlock? && !pc.DeleteLock? && !pc.DeleteStore?
    ensures Advances(s.threads[i], Turned(s, i, Idle, true).pc, i)
  {
    hide Zeros, Put, Begins;
    match s.threads[i] {
      case SetLook(_, _) =>
      case SetLock(_, _) =>
      case SetRead(_, _) =>
      case SetUnlock(_, _, _) =>
      case SetGrow(_, _, _) =>
      case SetStore(_, _) =>
    }
  }

  lemma StepIs(s: State, i: nat, start: Pc)
    requires i < |s.threads| == |s.data|
    ensures var s' := Step(s, Turn(i, start, true));
      && s'.threads == s.threads[i := Turned(s, i, start, true).pc]
      && multiset(s'.calls) == multiset(s.calls) + multiset(Done(s.threads[i], i))
  {
    hide Turned, Done;
  }

  lemma Balance<T>(after: multiset<T>, was: seq<T>, before: multiset<T>, now: seq<T>, done: seq<T>)
    requires after + multiset(was) == before + multiset(now)
    requires if done == [] then now == was else now == [] && done == was
    ensures after + multiset(done) == before
  {
    forall x
      ensures (after + multiset(done))[x] == before[x]
    {
      assert (after + multiset(was))[x] == (before + multiset(now))[x];
    }
  }

  lemma StepAdvances(s: State, i: nat)
    requires i < |s.threads| == |s.data| && !s.threads[i].Idle? && (s.mutex ==> Inside(s.threads[i]))
    ensures var s' := Step(s, Turn(i, Idle, true));
      && AllLeft(s'.threads) < AllLeft(s.threads)
      && multiset(s'.calls) + AllDue(s'.threads) == multiset(s.calls) + AllDue(s.threads)
  {
    TurnAdvances(s, i);
    hide Turned, Left, Due, Done, AllLeft, AllDue, Inside, Step;
    CountsAfterUpdate(s.threads, i, Turned(s, i, Idle, true).pc);
    StepIs(s, i, Idle);
    var (pc, s') := (s.threads[i], Step(s, Turn(i, Idle, true)));
    Balance(AllDue(s'.threads), Due(pc, i), AllDue(s.threads), Due(Turned(s, i, Idle, true).pc, i), Done(pc, i));
  }

  /** The thread that has the mutex, or else any that is in a call. */
  lemma SomeThreadMayGo(s: State) returns (i: nat)
    requires Invariant(s) && !AllIdle(s.threads)
    ensures i < |s.threads| == |s.data| && !s.threads[i].Idle? && (s.mutex ==> Inside(s.threads[i]))
  {
    if s.mutex {
      i :| 0 <= i < |s.threads| && Inside(s.threads[i]);
    } else {
      i :| 0 <= i < |s.threads| && !s.threads[i].Idle?;
    }
    hide PcOk, TablesOk, IsSettled;
  }

  lemma {:induction false} CanFinish(s: State) returns (rest: seq<Turn>)
    requires Invariant(s)
    ensures var r := Run(s, rest);
      AllIdle(r.threads) && !r.mutex && multiset(r.calls) == multiset(s.calls) + AllDue(s.threads)
    decreases AllLeft(s.threads)
  {
    if AllIdle(s.threads) {
      rest := [];
      NothingDue(s.threads);
      hide PcOk, TablesOk, IsSettled;
    } else {
      var i := SomeThreadMayGo(s);
      hide *;
      var turn := Turn(i, Idle, true);
      StepAdvances(s, i);
      StepKeeps(s, turn);
      var more := CanFinish(Step(s, turn));
      rest := [turn] + more;
      FirstTurn(s, turn, more);
    }
  }

  lemma FirstTurn(s: State, turn: Turn, more: seq<Turn>)
    ensures Run(s, [turn] + more) == Run(Step(s, turn), more)
  {
    assert ([turn] + more)[1..] == more;
  }

  /** No run deadlocks: each can be continued until all calls in progress have returned, each in the history once. */
  lemma EveryRunCanFinish(s: State, schedule: seq<Turn>) returns (rest: seq<Turn>)
    requires Start(s)
    ensures var (r, e) := (Run(s, schedule), Run(Run(s, schedule), rest));
      AllIdle(e.threads) && !e.mutex && multiset(e.calls) == multiset(r.calls) + AllDue(r.threads)
  {
    hide *;
    StartIsInvariant(s);
    RunKeeps(s, schedule);
    rest := CanFinish(Run(s, schedule));
  }

  /** At any time an idle thread can begin a call of any kind, for a key that was given out, and it gets through. */
  lemma EveryCallGetsThrough(s: State, schedule: seq<Turn>, i: nat, start: Pc) returns (rest: seq<Turn>)
    requires Start(s) && i < |Run(s, schedule).threads| && Run(s, schedule).threads[i].Idle?
    requires start.CreateLock? || start.SetLook? || start.DeleteLock?
    requires !start.CreateLock? ==> start.key < Issued(Run(s, schedule).calls)
    ensures var (r, e) := (Run(s, schedule), Run(Run(s, schedule), [Turn(i, start, true)] + rest));
      && AllIdle(e.threads) && !e.mutex
      && multiset(e.calls) == multiset(r.calls) + AllDue(r.threads) +
           multiset{if start.CreateLock? then Created(start.dtor)
                    else if start.SetLook? then Stored(i, start.key, start.val)
                    else Deleted(start.key)}
  {
    var r, turn := Run(s, schedule), Turn(i, start, true);
    hide Run, Step, AllDue, AllIdle, Invariant, Issued, Start;
    StartIsInvariant(s);
    RunKeeps(s, schedule);
    HasTables(r);
    CallBegins(r, i, start);
    StepKeeps(r, turn);
    rest := CanFinish(Step(r, turn));
    FirstTurn(r, turn, rest);
  }

  lemma HasTables(r: State)
    requires Invariant(r)
    ensures |r.threads| == |r.data|
  {
  }

  lemma CallBegins(r: State, i: nat, start: Pc)
    requires i < |r.threads| == |r.data| && r.threads[i].Idle?
    requires start.CreateLock? || start.SetLook? || start.DeleteLock?
    requires !start.CreateLock? ==> start.key < Issued(r.calls)
    ensures var s' := Step(r, Turn(i, start, true));
      multiset(s'.calls) == multiset(r.calls) && AllDue(s'.threads) == AllDue(r.threads) + multiset(Due(start, i))
  {
    hide Issued, AllDue, AllLeft, Left, Step;
    CountsAfterUpdate(r.threads, i, start);
    StepIs(r, i, start);
    assert Turned(r, i, start, true).pc == start;
  }

  /** No table grows in a turn whose allocation would fail. */
  lemma NoGrowthWithoutMemory(s: State, turn: Turn)
    requires !turn.granted && turn.thread < |s.threads| == |s.data|
    ensures var s' := Step(s, turn);
      |s'.meta| == |s.meta| && |s'.data| == |s.data| && forall i :: 0 <= i < |s.data| ==> |s'.data[i]| == |s.data[i]|
  {
    hide Zeros, Begins;
  }
}
