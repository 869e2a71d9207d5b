/**
  * Any number of threads adding to one counter under a spin lock, one memory access at a time
  * (src/spinlock.c:10-18, src/atomic-flag-set.S:10-15 and 34-39, tests/threads2-test.c:11-28).
  */
module Spinlock {
  import opened Machine

  // Before an exchange on the flag, before the read, before the write (holding what was read), before the clear.
  datatype Pc = Trying | Reading | Writing(b: int) | Clearing

  /** `left` counts the rounds of the adder's loop whose unlock has not happened yet. */
  datatype Thread = Thread(pc: Pc, left: nat)

  datatype State = State(flag: bool, a: int, threads: seq<Thread>)

  /** What the adder stores for a value it read. */
  function Bump(b: int): int { if b == -1 then b + 3 else if b == -2 then b + 2 else b + 1 }

  /** The next access of thread `i`; a thread whose loop is over does nothing. */
  function Step(s: State, i: nat): State {
    if i < |s.threads| then Access(s, i) else s
  }

  function Access(s: State, i: nat): State
    requires i < |s.threads|
  {
    var t := s.threads[i];
    match t.pc
    case Trying =>
      if t.left == 0 then s
      else s.(flag := true, threads := s.threads[i := if s.flag then t else t.(pc := Reading)])
    case Reading => s.(threads := s.threads[i := t.(pc := Writing(s.a))])
    case Writing(b) => s.(a := Bump(b), threads := s.threads[i := t.(pc := Clearing)])
    case Clearing =>
      s.(flag := false, threads := s.threads[i := Thread(Trying, if t.left == 0 then 0 else t.left - 1)])
  }

  /** The state after the threads named by `schedule` have taken their accesses in that order. */
  function Run(s: State, schedule: seq<nat>): State
    decreases |schedule|
  {
    if schedule == [] then s else Run(Step(s, schedule[0]), schedule[1..])
  }

  // ----- What the state promises -----

  ghost predicate Inside(t: Thread) { !t.pc.Trying? }

  ghost function Insiders(ts: seq<Thread>): nat {
    if ts == [] then 0 else Insiders(ts[..|ts| - 1]) + if Inside(ts[|ts| - 1]) then 1 else 0
  }

  /** Rounds of one thread whose store has not happened yet. */
  ghost function Unstored(t: Thread): int { if t.pc.Clearing? then t.left - 1 else t.left }

  ghost function Pending(ts: seq<Thread>): int {
    if ts == [] then 0 else Pending(ts[..|ts| - 1]) + Unstored(ts[|ts| - 1])
  }

  /** `n` additions one after the other. */
  ghost function Bumps(start: int, n: int): int
    decreases n
  {
    if n <= 0 then start else Bump(Bumps(start, n - 1))
  }

  ghost predicate Start(s: State) {
    !s.flag && forall i :: 0 <= i < |s.threads| ==> s.threads[i].pc.Trying?
  }

  /** `total` additions are to be made from `start`. */
  ghost predicate Invariant(s: State, start: int, total: int) {
    && Insiders(s.threads) == (if s.flag then 1 else 0)
    && Pending(s.threads) <= total
    && s.a == Bumps(start, total - Pending(s.threads))
    && (forall i :: 0 <= i < |s.threads| ==> ThreadOk(s.threads[i], s.a))
  }

  ghost predicate ThreadOk(t: Thread, a: int) {
    (Inside(t) ==> t.left > 0) && (t.pc.Writing? ==> t.pc.b == a)
  }

  lemma {:induction false} CountsAfterUpdate(ts: seq<Thread>, i: nat, t: Thread)
    requires i < |ts|
    ensures Insiders(ts[i := t]) == Insiders(ts) - (if Inside(ts[i]) then 1 else 0) + if Inside(t) then 1 else 0
    ensures Pending(ts[i := t]) == Pending(ts) - Unstored(ts[i]) + Unstored(t)
  {
    var n := |ts| - 1;
    if i < n {
      CountsAfterUpdate(ts[..n], i, t);
      assert ts[i := t][..n] == ts[..n][i := t];
    } else {
      assert ts[i := t][..n] == ts[..n];
    }
  }

  lemma {:induction false} InsiderCounts(ts: seq<Thread>, i: nat)
    requires i < |ts| && Inside(ts[i])
    ensures Insiders(ts) >= 1
  {
    var out := Thread(Trying, 0);
    CountsAfterUpdate(ts, i, out);
  }

  /** A count of at most one leaves room for one insider only. */
  lemma OnlyOneInside(ts: seq<Thread>, i: nat, j: nat)
    requires Insiders(ts) <= 1
    requires i < |ts| && j < |ts| && Inside(ts[i]) && Inside(ts[j])
    ensures i == j
  {
    if i != j {
      var out := Thread(Trying, 0);
      CountsAfterUpdate(ts, i, out);
      InsiderCounts(ts[i := out], j);
    }
  }

  /** Somebody holds a flag that is set. */
  lemma {:induction false} SomeoneInside(ts: seq<Thread>) returns (i: nat)
    requires Insiders(ts) >= 1
    ensures i < |ts| && Inside(ts[i])
  {
    var n := |ts| - 1;
    if Inside(ts[n]) {
      i := n;
    } else {
      i := SomeoneInside(ts[..n]);
    }
  }

  lemma StepKeeps(s: State, i: nat, start: int, total: int)
    requires Invariant(s, start, total)
    ensures Invariant(Step(s, i), start, total)
  {
    if i < |s.threads| {
      AccessKeepsCounts(s, i, start, total);
      AccessKeepsThreads(s, i, start, total);
    }
  }

  lemma AccessKeepsCounts(s: State, i: nat, start: int, total: int)
    requires Invariant(s, start, total) && i < |s.threads|
    ensures var s' := Access(s, i);
      && Insiders(s'.threads) == (if s'.flag then 1 else 0)
      && Pending(s'.threads) <= total
      && s'.a == Bumps(start, total - Pending(s'.threads))
  {
    hide Insiders, Pending;
    var t, t' := s.threads[i], Access(s, i).threads[i];
    CountsAfterUpdate(s.threads, i, t');
    AccessIsUpdate(s, i);
    assert ThreadOk(t, s.a);
    if Inside(t) {
      InsiderCounts(s.threads, i);
    }
  }

  lemma AccessIsUpdate(s: State, i: nat)
    requires i < |s.threads|
    ensures Access(s, i).threads == s.threads[i := Access(s, i).threads[i]]
  {
  }

  lemma AccessKeepsThreads(s: State, i: nat, start: int, total: int)
    requires Invariant(s, start, total) && i < |s.threads|
    ensures var s' := Access(s, i);
      |s'.threads| == |s.threads| && forall j :: 0 <= j < |s'.threads| ==> ThreadOk(s'.threads[j], s'.a)
  {
    var s' := Access(s, i);
    assert ThreadOk(s.threads[i], s.a);
    forall j | 0 <= j < |s'.threads|
      ensures ThreadOk(s'.threads[j], s'.a)
    {
      hide Insiders, Pending, Bumps, Bump;
      assert ThreadOk(s.threads[j], s.a);
      if j != i && Inside(s.threads[j]) && Inside(s.threads[i]) {
        OnlyOneInside(s.threads, i, j);
      }
    }
  }

  lemma {:induction false} StartHolds(ts: seq<Thread>)
    requires forall i :: 0 <= i < |ts| ==> ts[i].pc.Trying?
    ensures Insiders(ts) == 0
  {
    if ts != [] {
      StartHolds(ts[..|ts| - 1]);
    }
  }

  lemma {:induction false} RunKeeps(s: State, schedule: seq<nat>, start: int, total: int)
    requires Invariant(s, start, total)
    ensures Invariant(Run(s, schedule), start, total)
    decreases |schedule|
  {
    hide Invariant, Step;
    if schedule != [] {
      StepKeeps(s, schedule[0], start, total);
      RunKeeps(Step(s, schedule[0]), schedule[1..], start, total);
    }
  }

  lemma StartIsInvariant(s: State)
    requires Start(s)
    ensures Invariant(s, s.a, Pending(s.threads))
  {
    StartHolds(s.threads);
  }

  // ----- Main results -----

  /**
    * Under every interleaving the flag is set exactly when one thread is inside, never are two inside together, and
    * the counter is the start with every completed addition made on it, none lost.
    */
  lemma LockConservesAdditions(s: State, schedule: seq<nat>)
    requires Start(s)
    ensures var r := Run(s, schedule);
      && (r.flag <==> exists i :: 0 <= i < |r.threads| && Inside(r.threads[i]))
      && (forall i, j :: 0 <= i < j < |r.threads| ==> !(Inside(r.threads[i]) && Inside(r.threads[j])))
      && r.a == Bumps(s.a, Pending(s.threads) - Pending(r.threads))
  {
    var r := Run(s, schedule);
    StartIsInvariant(s);
    RunKeeps(s, schedule, s.a, Pending(s.threads));
    if r.flag {
      var i := SomeoneInside(r.threads);
      assert Inside(r.threads[i]);
    }
    forall i | 0 <= i < |r.threads| && Inside(r.threads[i])
      ensures r.flag
    {
      InsiderCounts(r.threads, i);
    }
    forall i, j | 0 <= i < j < |r.threads|
      ensures !(Inside(r.threads[i]) && Inside(r.threads[j]))
    {
      if Inside(r.threads[i]) && Inside(r.threads[j]) {
        OnlyOneInside(r.threads, i, j);
      }
    }
  }

  /** The additions count one each exactly when the counter never has to leave -1 or -2. */
  lemma {:induction false} BumpsCountOneEach(start: int, n: nat)
    ensures Bumps(start, n) ==
      start + n + (if n == 0 || start >= 0 || start + n <= -2 then 0 else if start == -1 then 2 else 1)
    ensures Bumps(start, n) == start + n <==> n == 0 || start >= 0 || start + n <= -2
    ensures Bumps(start, n) >= start + n
  {
    if n > 0 {
      BumpsCountOneEach(start, n - 1);
    }
  }

  // ----- Progress -----

  /** Accesses a thread still has to make, not counting failed exchanges. */
  ghost function Work(t: Thread): int {
    4 * t.left - match t.pc case Trying => 0 case Reading => 1 case Writing(_) => 2 case Clearing => 3
  }

  ghost function TotalWork(ts: seq<Thread>): int {
    if ts == [] then 0 else TotalWork(ts[..|ts| - 1]) + Work(ts[|ts| - 1])
  }

  ghost predicate Finished(s: State) {
    forall i :: 0 <= i < |s.threads| ==> s.threads[i].pc.Trying? && s.threads[i].left == 0
  }

  lemma {:induction false} WorkAfterUpdate(ts: seq<Thread>, i: nat, t: Thread)
    requires i < |ts|
    ensures TotalWork(ts[i := t]) == TotalWork(ts) - Work(ts[i]) + Work(t)
  {
    var n := |ts| - 1;
    if i < n {
      WorkAfterUpdate(ts[..n], i, t);
      assert ts[i := t][..n] == ts[..n][i := t];
    } else {
      assert ts[i := t][..n] == ts[..n];
    }
  }

  lemma {:induction false} WorkIsLeft(ts: seq<Thread>, a: int)
    requires forall i :: 0 <= i < |ts| ==> ThreadOk(ts[i], a)
    ensures TotalWork(ts) >= 0
  {
    if ts != [] {
      WorkIsLeft(ts[..|ts| - 1], a);
      assert ThreadOk(ts[|ts| - 1], a);
    }
  }

  /** While a thread is unfinished, some thread's next access brings the end nearer. */
  lemma SomeThreadAdvances(s: State, start: int, total: int) returns (i: nat)
    requires Invariant(s, start, total) && !Finished(s)
    ensures i < |s.threads| && TotalWork(Step(s, i).threads) < TotalWork(s.threads)
  {
    if s.flag {
      i := SomeoneInside(s.threads);
    } else {
      i :| 0 <= i < |s.threads| && !(s.threads[i].pc.Trying? && s.threads[i].left == 0);
      if Inside(s.threads[i]) {
        InsiderCounts(s.threads, i);
      }
    }
    assert ThreadOk(s.threads[i], s.a);
    WorkAfterUpdate(s.threads, i, Step(s, i).threads[i]);
  }

  lemma CanFinish(s: State, start: int, total: int) returns (rest: seq<nat>)
    requires Invariant(s, start, total)
    ensures Finished(Run(s, rest)) && Run(s, rest).a == Bumps(start, total)
    decreases TotalWork(s.threads)
  {
    if Finished(s) {
      rest := [];
      NothingPending(s.threads);
    } else {
      hide *;
      var i := SomeThreadAdvances(s, start, total);
      StepKeeps(s, i, start, total);
      TotalWorkIsLeft(s, start, total);
      var more := CanFinish(Step(s, i), start, total);
      rest := [i] + more;
      FirstStep(s, i, more);
    }
  }

  lemma TotalWorkIsLeft(s: State, start: int, total: int)
    requires Invariant(s, start, total)
    ensures TotalWork(s.threads) >= 0
  {
    WorkIsLeft(s.threads, s.a);
  }

  lemma FirstStep(s: State, i: nat, more: seq<nat>)
    ensures Run(s, [i] + more) == Run(Step(s, i), more)
  {
    assert ([i] + more)[1..] == more;
  }

  /** No run deadlocks: each can be continued until every thread is finished, and then all additions are in. */
  lemma EveryRunCanFinish(s: State, schedule: seq<nat>) returns (rest: seq<nat>)
    requires Start(s)
    ensures var r := Run(Run(s, schedule), rest); Finished(r) && r.a == Bumps(s.a, Pending(s.threads))
  {
    StartIsInvariant(s);
    RunKeeps(s, schedule, s.a, Pending(s.threads));
    rest := CanFinish(Run(s, schedule), s.a, Pending(s.threads));
  }

  lemma {:induction false} NothingPending(ts: seq<Thread>)
    requires forall i :: 0 <= i < |ts| ==> ts[i].pc.Trying? && ts[i].left == 0
    ensures Pending(ts) == 0
  {
    if ts != [] {
      NothingPending(ts[..|ts| - 1]);
    }
  }

  // ----- The counter is an int -----

  lemma {:induction false} BumpsGrow(start: int, m: int, n: int)
    requires m <= n
    ensures Bumps(start, m) <= Bumps(start, n) && start <= Bumps(start, n)
    decreases n - m, n
  {
    if n > 0 {
      BumpsGrow(start, if m < n then m else n - 1, n - 1);
    }
  }

  lemma {:induction false} PendingIsLeft(ts: seq<Thread>, a: int)
    requires forall i :: 0 <= i < |ts| ==> ThreadOk(ts[i], a)
    ensures Pending(ts) >= 0
  {
    if ts != [] {
      PendingIsLeft(ts[..|ts| - 1], a);
      assert ThreadOk(ts[|ts| - 1], a);
    }
  }

  /** No run overflows the int counter if and only if all additions made one after the other do not. */
  lemma CounterFitsInt(s: State)
    requires Start(s) && INT_MIN <= s.a <= INT_MAX
    ensures (forall schedule: seq<nat> :: INT_MIN <= Run(s, schedule).a <= INT_MAX) <==>
      Bumps(s.a, Pending(s.threads)) <= INT_MAX
  {
    var total := Pending(s.threads);
    hide Run, Insiders, Bumps;
    StartIsInvariant(s);
    if Bumps(s.a, total) <= INT_MAX {
      forall schedule: seq<nat>
        ensures INT_MIN <= Run(s, schedule).a <= INT_MAX
      {
        var r := Run(s, schedule);
        RunKeeps(s, schedule, s.a, total);
        PendingIsLeft(r.threads, r.a);
        BumpsGrow(s.a, total - Pending(r.threads), total);
        BumpsGrow(s.a, 0, total - Pending(r.threads));
      }
    } else {
      var schedule := CanFinish(s, s.a, total);
      assert Run(s, schedule).a == Bumps(s.a, total);
    }
  }
}
