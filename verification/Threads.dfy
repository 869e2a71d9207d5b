/**
  * The life of thread objects (src/threads.c:36-65 and 161-191): the thread itself and the one caller of thrd_join or
  * thrd_detach share an object under its spin lock, and either of them may be the one to free it. Every step is one
  * access to the object.
  */
module Threads {
  import opened Machine

  /** What a thread does when it ends, from taking the lock to its exit system call. */
  datatype Exiter =
    | ExitLock
    | ExitTest               // thr->refs == 1
    | ExitFree
    | ExitAssert             // assert(thr->refs == 2)
    | ExitResult
    | ExitLoad               // thr->refs--, the read
    | ExitStore(refs: int)   // and the write
    | ExitUnlock
    | Exited(freed: bool)

  /** What the holder of the other reference does. */
  datatype Owner =
    | JoinLock
    | JoinTest               // thr->refs == 2
    | JoinUnlock
    | JoinYield
    | JoinAssert             // assert(thr->refs == 1)
    | JoinResult
    | JoinFree(res: Int32)
    | Joined(res: Int32)
    | DetachLock
    | DetachLoad
    | DetachStore(refs: int)
    | DetachTest             // thr->refs == 0
    | DetachFree
    | DetachAssert           // assert(thr->refs == 1)
    | DetachUnlock
    | Detached(freed: bool)

  /**
    * The fields of a thread object, the value its thread will exit with, and both positions. `frees` counts calls of
    * free_thrd_t; `late` records an access after one of them, and `aborted` a failed assertion.
    */
  datatype Object = Object(spin: bool, refs: int, result: Int32, exitValue: Int32, exiter: Exiter, owner: Owner,
                           frees: nat, late: bool, aborted: bool)

  /** An object as create_thrd_t leaves it: two references, and the result not yet written. */
  ghost predicate Created(o: Object) {
    && !o.spin && o.refs == 2 && o.frees == 0 && !o.late && !o.aborted
    && o.exiter == ExitLock && (o.owner == JoinLock || o.owner == DetachLock)
  }

  // ----- Steps -----

  /** An access to the object: too late once it has been freed. */
  function Access(o: Object): Object { o.(late := o.late || o.frees > 0) }

  /** The thread's next step; taking a lock that is held leaves it waiting. */
  function ExiterStep(o: Object): Object {
    match o.exiter
    case ExitLock => var o := Access(o); if o.spin then o else o.(spin := true, exiter := ExitTest)
    case ExitTest => var o := Access(o); o.(exiter := if o.refs == 1 then ExitFree else ExitAssert)
    case ExitFree => Access(o).(frees := o.frees + 1, exiter := Exited(true))
    case ExitAssert => var o := Access(o); if o.refs == 2 then o.(exiter := ExitResult) else o.(aborted := true)
    case ExitResult => Access(o).(result := o.exitValue, exiter := ExitLoad)
    case ExitLoad => Access(o).(exiter := ExitStore(o.refs))
    case ExitStore(refs) => Access(o).(refs := refs - 1, exiter := ExitUnlock)
    case ExitUnlock => Access(o).(spin := false, exiter := Exited(false))
    case Exited(_) => o
  }

  /** The next step of the join or detach. */
  function OwnerStep(o: Object): Object {
    match o.owner
    case JoinLock => var o := Access(o); if o.spin then o else o.(spin := true, owner := JoinTest)
    case JoinTest => var o := Access(o); o.(owner := if o.refs == 2 then JoinUnlock else JoinAssert)
    case JoinUnlock => Access(o).(spin := false, owner := JoinYield)
    case JoinYield => o.(owner := JoinLock)
    case JoinAssert => var o := Access(o); if o.refs == 1 then o.(owner := JoinResult) else o.(aborted := true)
    case JoinResult => Access(o).(owner := JoinFree(o.result))
    case JoinFree(res) => Access(o).(frees := o.frees + 1, owner := Joined(res))
    case DetachLock => var o := Access(o); if o.spin then o else o.(spin := true, owner := DetachLoad)
    case DetachLoad => Access(o).(owner := DetachStore(o.refs))
    case DetachStore(refs) => Access(o).(refs := refs - 1, owner := DetachTest)
    case DetachTest => var o := Access(o); o.(owner := if o.refs == 0 then DetachFree else DetachAssert)
    case DetachFree => Access(o).(frees := o.frees + 1, owner := Detached(true))
    case DetachAssert => var o := Access(o); if o.refs == 1 then o.(owner := DetachUnlock) else o.(aborted := true)
    case DetachUnlock => Access(o).(spin := false, owner := Detached(false))
    case Joined(_) => o
    case Detached(_) => o
  }

  datatype Turn = Turn(which: nat, exiter: bool)

  /** One step of a program with any number of thread objects. */
  function Step(objects: seq<Object>, turn: Turn): seq<Object> {
    if turn.which < |objects| then
      var o := objects[turn.which];
      objects[turn.which := if turn.exiter then ExiterStep(o) else OwnerStep(o)]
    else objects
  }

  function Run(objects: seq<Object>, schedule: seq<Turn>): seq<Object>
    decreases |schedule|
  {
    if schedule == [] then objects else Run(Step(objects, schedule[0]), schedule[1..])
  }

  // ----- The invariant -----

  /** The thread is between its lock and its unlock; a freed object stays locked for ever. */
  ghost predicate ExiterHolds(e: Exiter) { !e.ExitLock? && e != Exited(false) }

  ghost predicate OwnerHolds(w: Owner) {
    !w.JoinLock? && !w.JoinYield? && !w.DetachLock? && w != Detached(false)
  }

  /** The thread has given its reference back. */
  ghost predicate GaveUp(e: Exiter) { e.ExitUnlock? || e == Exited(false) }

  /** The detacher has given its reference back; a joiner frees the object without counting down. */
  ghost predicate LetGo(w: Owner) {
    w.DetachTest? || w.DetachFree? || w.DetachAssert? || w.DetachUnlock? || w.Detached?
  }

  ghost function Refs(o: Object): int {
    2 - (if GaveUp(o.exiter) then 1 else 0) - (if LetGo(o.owner) then 1 else 0)
  }

  ghost function Frees(o: Object): int {
    (if o.exiter == Exited(true) then 1 else 0) + (if o.owner.Joined? || o.owner == Detached(true) then 1 else 0)
  }

  /** What the thread knows at each point. */
  ghost predicate ExiterKnows(o: Object) {
    match o.exiter
    case ExitLock => true
    case ExitTest => true
    case ExitFree => o.owner == Detached(false)
    case ExitAssert => !LetGo(o.owner)
    case ExitResult => !LetGo(o.owner)
    case ExitLoad => !LetGo(o.owner) && o.result == o.exitValue
    case ExitStore(refs) => !LetGo(o.owner) && o.result == o.exitValue && refs == 2
    case ExitUnlock => !LetGo(o.owner) && o.result == o.exitValue
    case Exited(freed) =>
      if freed then o.owner == Detached(false)
      else o.result == o.exitValue && !o.owner.DetachAssert? && !o.owner.DetachUnlock? && o.owner != Detached(false)
  }

  ghost predicate OwnerKnows(o: Object) {
    match o.owner
    case JoinAssert => o.exiter == Exited(false)
    case JoinResult => o.exiter == Exited(false)
    case JoinFree(res) => o.exiter == Exited(false) && res == o.exitValue
    case Joined(res) => o.exiter == Exited(false) && res == o.exitValue
    case JoinUnlock => true
    case DetachStore(refs) => refs == o.refs
    case DetachFree => o.exiter == Exited(false)
    case DetachAssert => o.exiter == ExitLock
    case DetachUnlock => o.exiter == ExitLock
    case Detached(freed) => if freed then o.exiter == Exited(false) else true
    case _ => true
  }

  ghost predicate Invariant(o: Object) {
    && (o.spin <==> ExiterHolds(o.exiter) || OwnerHolds(o.owner))
    && !(ExiterHolds(o.exiter) && OwnerHolds(o.owner))
    && o.refs == Refs(o)
    && o.frees == Frees(o)
    && ExiterKnows(o) && OwnerKnows(o)
    && !o.late && !o.aborted
  }

  lemma CreatedIsInvariant(o: Object)
    requires Created(o)
    ensures Invariant(o)
  {
  }

  lemma ExiterStepKeeps(o: Object)
    requires Invariant(o)
    ensures Invariant(ExiterStep(o)) && ExiterStep(o).exitValue == o.exitValue
  {
  }

  lemma OwnerStepKeeps(o: Object)
    requires Invariant(o)
    ensures Invariant(OwnerStep(o)) && OwnerStep(o).exitValue == o.exitValue
  {
  }

  // ----- Main results -----

  ghost predicate ExiterDone(o: Object) { o.exiter.Exited? }

  ghost predicate OwnerDone(o: Object) { o.owner.Joined? || o.owner.Detached? }

  /** What holds of an object at any time. */
  ghost predicate Promise(o: Object, exitValue: Int32) {
    && o.refs == 2 - (if GaveUp(o.exiter) then 1 else 0) - (if LetGo(o.owner) then 1 else 0)
    && !o.aborted && (o.exiter.ExitAssert? ==> o.refs == 2)
    && (o.owner.JoinAssert? || o.owner.DetachAssert? ==> o.refs == 1)
    && !o.late
    && o.frees == (if ExiterDone(o) && OwnerDone(o) then 1 else 0)
    && (o.owner.Joined? ==> o.owner.res == exitValue)
  }

  lemma InvariantPromises(o: Object)
    requires Invariant(o)
    ensures Promise(o, o.exitValue)
  {
  }

  ghost predicate AllInvariant(objects: seq<Object>, from: seq<Object>) {
    && |objects| == |from|
    && forall k :: 0 <= k < |objects| ==> Invariant(objects[k]) && objects[k].exitValue == from[k].exitValue
  }

  lemma StepKeepsAll(objects: seq<Object>, turn: Turn, from: seq<Object>)
    requires AllInvariant(objects, from)
    ensures AllInvariant(Step(objects, turn), from)
  {
    hide Invariant, ExiterStep, OwnerStep;
    if turn.which < |objects| {
      var o := objects[turn.which];
      assert Invariant(o);
      ExiterStepKeeps(o);
      OwnerStepKeeps(o);
    }
  }

  lemma {:induction false} RunKeepsAll(objects: seq<Object>, schedule: seq<Turn>, from: seq<Object>)
    requires AllInvariant(objects, from)
    ensures AllInvariant(Run(objects, schedule), from)
    decreases |schedule|
  {
    hide AllInvariant, Step;
    if schedule != [] {
      StepKeepsAll(objects, schedule[0], from);
      RunKeepsAll(Step(objects, schedule[0]), schedule[1..], from);
    }
  }

  lemma AllCreatedIsInvariant(objects: seq<Object>)
    requires forall k :: 0 <= k < |objects| ==> Created(objects[k])
    ensures AllInvariant(objects, objects)
  {
    hide Invariant, Created;
    forall k | 0 <= k < |objects|
      ensures Invariant(objects[k])
    {
      assert Created(objects[k]);
      CreatedIsInvariant(objects[k]);
    }
  }

  /**
    * Under every interleaving, of every object: the reference count is two less the references given back, both
    * assertions hold, no access follows a free, the object has been freed once if both sides are through and not at
    * all otherwise, and a join that has returned delivered the value the thread exited with.
    */
  lemma ObjectsAreFreedOnce(objects: seq<Object>, schedule: seq<Turn>)
    requires forall k :: 0 <= k < |objects| ==> Created(objects[k])
    ensures |Run(objects, schedule)| == |objects|
    ensures forall k :: 0 <= k < |objects| ==> Promise(Run(objects, schedule)[k], objects[k].exitValue)
  {
    hide Invariant, Created, Promise, Run;
    AllCreatedIsInvariant(objects);
    RunKeepsAll(objects, schedule, objects);
    var r := Run(objects, schedule);
    forall k | 0 <= k < |objects|
      ensures Promise(r[k], objects[k].exitValue)
    {
      assert Invariant(r[k]);
      InvariantPromises(r[k]);
    }
  }

  // ----- Progress -----

  ghost function ExiterRank(e: Exiter): nat {
    match e
    case ExitLock => 8
    case ExitTest => 7
    case ExitAssert => 6
    case ExitResult => 5
    case ExitLoad => 4
    case ExitStore(_) => 3
    case ExitUnlock => 2
    case ExitFree => 1
    case Exited(_) => 0
  }

  /** While the thread has not exited a join goes round its loop: the test leads back to the lock. */
  ghost function OwnerRank(w: Owner, waiting: bool): nat {
    match w
    case JoinUnlock => 10
    case JoinYield => if waiting then 1 else 9
    case JoinLock => if waiting then 0 else 8
    case JoinTest => if waiting then 11 else 7
    case JoinAssert => 6
    case JoinResult => 5
    case JoinFree(_) => 4
    case DetachLock => 8
    case DetachLoad => 7
    case DetachStore(_) => 6
    case DetachTest => 5
    case DetachAssert => 4
    case DetachUnlock => 3
    case DetachFree => 2
    case Joined(_) => 0
    case Detached(_) => 0
  }

  ghost function Rank(o: Object): nat { 20 * ExiterRank(o.exiter) + OwnerRank(o.owner, o.refs == 2) }

  ghost predicate Done(o: Object) { ExiterDone(o) && OwnerDone(o) }

  /** While a side is not through, one of the two comes nearer to it with its next step. */
  lemma OneSideAdvances(o: Object) returns (exiter: bool)
    requires Invariant(o) && !Done(o)
    ensures Rank(if exiter then ExiterStep(o) else OwnerStep(o)) < Rank(o)
  {
    exiter := !OwnerHolds(o.owner) && !ExiterDone(o);
  }

  ghost function TotalRank(objects: seq<Object>): nat {
    if objects == [] then 0 else Rank(objects[0]) + TotalRank(objects[1..])
  }

  lemma {:induction false} RankAfterUpdate(objects: seq<Object>, k: nat, o: Object)
    requires k < |objects| && Rank(o) < Rank(objects[k])
    ensures TotalRank(objects[k := o]) < TotalRank(objects)
  {
    hide Rank;
    if k > 0 {
      RankAfterUpdate(objects[1..], k - 1, o);
      assert objects[k := o][1..] == objects[1..][k - 1 := o];
    } else {
      assert objects[k := o][1..] == objects[1..];
    }
  }

  lemma SomeTurnAdvances(objects: seq<Object>, from: seq<Object>) returns (turn: Turn)
    requires AllInvariant(objects, from) && exists k :: 0 <= k < |objects| && !Done(objects[k])
    ensures TotalRank(Step(objects, turn)) < TotalRank(objects)
  {
    hide Invariant, Done, Rank, ExiterStep, OwnerStep, TotalRank;
    var k :| 0 <= k < |objects| && !Done(objects[k]);
    var exiter := OneSideAdvances(objects[k]);
    turn := Turn(k, exiter);
    RankAfterUpdate(objects, k, if exiter then ExiterStep(objects[k]) else OwnerStep(objects[k]));
  }

  lemma CanFinish(objects: seq<Object>, from: seq<Object>) returns (rest: seq<Turn>)
    requires AllInvariant(objects, from)
    ensures var r := Run(objects, rest); forall k :: 0 <= k < |r| ==> Done(r[k])
    decreases TotalRank(objects)
  {
    if forall k :: 0 <= k < |objects| ==> Done(objects[k]) {
      rest := [];
    } else {
      hide *;
      var turn := SomeTurnAdvances(objects, from);
      StepKeepsAll(objects, turn, from);
      var more := CanFinish(Step(objects, turn), from);
      rest := [turn] + more;
      FirstStep(objects, turn, more);
    }
  }

  lemma FirstStep(objects: seq<Object>, turn: Turn, more: seq<Turn>)
    ensures Run(objects, [turn] + more) == Run(Step(objects, turn), more)
  {
    assert ([turn] + more)[1..] == more;
  }

  /** No run deadlocks: each can be continued until every thread has exited and been joined or detached. */
  lemma EveryRunCanFinish(objects: seq<Object>, schedule: seq<Turn>) returns (rest: seq<Turn>)
    requires forall k :: 0 <= k < |objects| ==> Created(objects[k])
    ensures var r := Run(Run(objects, schedule), rest); forall k :: 0 <= k < |r| ==> Done(r[k])
  {
    hide *;
    AllCreatedIsInvariant(objects);
    RunKeepsAll(objects, schedule, objects);
    rest := CanFinish(Run(objects, schedule), objects);
  }
}
