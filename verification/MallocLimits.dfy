/**
  * What malloc's safety rests on: the mutex, and sizes whose increment does not wrap round (src/malloc.c:47-66,
  * src/unistd.c:9-21).
  */
module MallocLimits {
  import opened Machine
  import opened Malloc

  lemma RunOne(s: State, t: Turn, rest: seq<Turn>, locks: bool)
    ensures Run(s, [t] + rest, locks) == Run(Step(s, t, locks), rest, locks)
  {
    assert ([t] + rest)[1..] == rest;
  }

  lemma {:induction false} RunConcat(s: State, a: seq<Turn>, b: seq<Turn>, locks: bool)
    ensures Run(s, a + b, locks) == Run(Run(s, a, locks), b, locks)
    decreases |a|
  {
    hide Step;
    if a == [] {
      assert a + b == b;
    } else {
      assert (a + b)[0] == a[0] && (a + b)[1..] == a[1..] + b;
      RunConcat(Step(s, a[0], locks), a[1..], b, locks);
    }
  }

  function Times(t: Turn, k: nat): (r: seq<Turn>)
    ensures |r| == k && forall i :: 0 <= i < k ==> r[i] == t
  {
    if k == 0 then [] else [t] + Times(t, k - 1)
  }

  lemma RunTimes(s: State, t: Turn, k: nat, locks: bool)
    requires k > 0
    ensures Run(s, Times(t, k), locks) == Run(Step(s, t, locks), Times(t, k - 1), locks)
  {
    RunOne(s, t, Times(t, k - 1), locks);
  }

  // ----- Single steps -----

  /** The kernel moves the break up by the size and the header, from the break that was read. */
  lemma StepMoving(s: State, t: Turn, n: SizeT, cur: int, locks: bool)
    requires t.thread < |s.threads| && s.threads[t.thread] == Moving(n, cur) && t.grant && n > 0
    requires 0 <= s.bottom <= cur && cur + HEADER + n <= s.top < TWO_63
    ensures Step(s, t, locks) == s.(brk := cur + HEADER + n, blocks := s.blocks + [Block(cur, n)],
                                    threads := s.threads[t.thread := Leaving(n, Some(cur))])
  {
    SmallMoves(s.(brk := cur), n, true);
    SameGrant(s, n, cur);
    hide Increment, Target, Grants;
  }

  lemma SameGrant(s: State, n: SizeT, cur: int)
    ensures Grants(s, n, cur, true) == Grants(s.(brk := cur), n, cur, true)
  {
  }

  lemma StepLeaving(s: State, t: Turn, n: SizeT, at: int, locks: bool)
    requires t.thread < |s.threads| && s.threads[t.thread] == Leaving(n, Some(at))
    ensures Step(s, t, locks) == s.(mutex := s.mutex && !locks, threads := s.threads[t.thread := Writing(n, at)])
  {
    hide Increment, Target, Grants;
  }

  lemma StepWriting(s: State, t: Turn, n: SizeT, at: int, locks: bool)
    requires t.thread < |s.threads| && s.threads[t.thread] == Writing(n, at)
    ensures Step(s, t, locks) == s.(headers := s.headers[at := n], out := s.out + [Block(at, n)],
                                    threads := s.threads[t.thread := Returning(n, Some(at + HEADER))])
  {
    hide Increment, Target, Grants;
  }

  // ----- The mutex -----

  /** Without the mutex two calls of any sizes that fit can be given the same bytes. */
  lemma WithoutMutexBlocksOverlap(brk: int, top: int, m: SizeT, n: SizeT) returns (s: State, schedule: seq<Turn>)
    requires 0 <= brk && m > 0 && n > 0 && brk + HEADER + m <= top < TWO_63 && brk + HEADER + n <= top
    ensures Start(s) && s.brk == brk && s.top == top && AllSmall(schedule, s.bottom, s.top)
    ensures Run(s, schedule, false).out == [Block(brk, m), Block(brk, n)]
  {
    s := State(false, brk, brk, top, map[], [Idle, Idle], [], []);
    var (t, u) := (Turn(0, m, true), Turn(1, n, true));
    var turns := Alternate(t, u);
    schedule := Times(t, 3) + (Times(u, 3) + turns);
    var asked := s.(threads := [Moving(m, brk), Idle]);
    var read := s.(threads := [Moving(m, brk), Moving(n, brk)]);
    assert s.threads[0 := Moving(m, brk)] == asked.threads && asked.threads[1 := Moving(n, brk)] == read.threads;
    hide Step, Run;
    // both read the break before either moves it
    ReadBreak(s, t);
    ReadBreak(asked, u);
    RunConcat(s, Times(t, 3), Times(u, 3) + turns, false);
    RunConcat(asked, Times(u, 3), turns, false);
    BothMove(read, m, n);
  }

  lemma ReadBreak(s: State, t: Turn)
    requires t.thread < |s.threads| && s.threads[t.thread].Idle? && t.size > 0 && Small(t.size, s.bottom, s.top)
    requires 0 <= s.bottom <= s.brk <= s.top < TWO_63
    ensures Run(s, Times(t, 3), false) == s.(threads := s.threads[t.thread := Moving(t.size, s.brk)])
  {
    SmallMoves(s, t.size, t.grant);
    hide Increment, Target, Grants, Small;
    RunTimes(s, t, 3, false);
    var s1 := Step(s, t, false);
    RunTimes(s1, t, 2, false);
    RunTimes(Step(s1, t, false), t, 1, false);
  }

  lemma BothMove(s: State, m: SizeT, n: SizeT)
    requires s.threads == [Moving(m, s.brk), Moving(n, s.brk)] && s.out == []
    requires 0 <= s.bottom <= s.brk && m > 0 && n > 0
    requires s.brk + HEADER + m <= s.top < TWO_63 && s.brk + HEADER + n <= s.top
    ensures Run(s, Alternate(Turn(0, m, true), Turn(1, n, true)), false).out == [Block(s.brk, m), Block(s.brk, n)]
  {
    hide Step, Run;
    var (t, u, at) := (Turn(0, m, true), Turn(1, n, true), s.brk);
    var s1, s2 := Step(s, t, false), Step(Step(s, t, false), u, false);
    var s3, s4 := Step(s2, t, false), Step(Step(s2, t, false), u, false);
    var s5, s6 := Step(s4, t, false), Step(Step(s4, t, false), u, false);
    StepMoving(s, t, m, at, false);
    StepMoving(s1, u, n, at, false);
    StepLeaving(s2, t, m, at, false);
    StepLeaving(s3, u, n, at, false);
    StepWriting(s4, t, m, at, false);
    StepWriting(s5, u, n, at, false);
    RunOne(s, t, [u] + ([t] + ([u] + ([t] + ([u] + [])))), false);
    RunOne(s1, u, [t] + ([u] + ([t] + ([u] + []))), false);
    RunOne(s2, t, [u] + ([t] + ([u] + [])), false);
    RunOne(s3, u, [t] + ([u] + []), false);
    RunOne(s4, t, [u] + [], false);
    RunOne(s5, u, [], false);
    RunNone(s6, false);
    assert s.out + [Block(at, m)] + [Block(at, n)] == [Block(at, m), Block(at, n)];
  }

  function Alternate(t: Turn, u: Turn): seq<Turn> { [t] + ([u] + ([t] + ([u] + ([t] + ([u] + []))))) }

  lemma RunNone(s: State, locks: bool)
    ensures Run(s, [], locks) == s
  {
  }

  // ----- Sizes -----

  ghost predicate UpTo(schedule: seq<Turn>, max: SizeT) {
    forall k :: 0 <= k < |schedule| ==> schedule[k].size <= max
  }

  /** A call from start to end by thread 0, granted. */
  lemma WholeCall(s: State, t: Turn)
    requires t.thread == 0 < |s.threads| && s.threads[0].Idle? && !s.mutex && t.size > 0 && t.grant
    requires Increment(t.size) != 0 && Grants(s, t.size, s.brk, true)
    ensures var b := Block(s.brk, t.size);
      Run(s, Times(t, 7), true) ==
        s.(brk := Target(t.size, s.brk), blocks := s.blocks + [b], out := s.out + [b],
           headers := s.headers[s.brk := t.size], threads := s.threads[0 := Idle])
  {
    hide Increment, Target, Grants, Step, Run, Times;
    var b := Block(s.brk, t.size);
    var s3 := s.(mutex := true, threads := s.threads[0 := Moving(t.size, s.brk)]);
    CallAsks(s, t);
    StepGranted(s, t);
    var s4 := Step(s3, t, true);
    RunTimes(s3, t, 4, true);
    StepLeaving(s4, t, t.size, s.brk, true);
    var s5 := Step(s4, t, true);
    RunTimes(s4, t, 3, true);
    StepWriting(s5, t, t.size, s.brk, true);
    var s6 := Step(s5, t, true);
    RunTimes(s5, t, 2, true);
    StepReturning(s6, t, t.size, Some(s.brk + HEADER), true);
    var s7 := Step(s6, t, true);
    RunTimes(s6, t, 1, true);
    NoTimes(t);
    RunNone(s7, true);
    assert s7.threads == s.threads[0 := Idle];
  }

  lemma NoTimes(t: Turn)
    ensures Times(t, 0) == []
  {
  }

  /** The break moves to the target of a call that the kernel grants. */
  lemma StepGranted(s: State, t: Turn)
    requires t.thread == 0 < |s.threads| && t.grant && Grants(s, t.size, s.brk, true)
    ensures Step(s.(mutex := true, threads := s.threads[0 := Moving(t.size, s.brk)]), t, true) ==
      s.(mutex := true, brk := Target(t.size, s.brk), blocks := s.blocks + [Block(s.brk, t.size)],
         threads := s.threads[0 := Leaving(t.size, Some(s.brk))])
  {
    var s3 := s.(mutex := true, threads := s.threads[0 := Moving(t.size, s.brk)]);
    GrantsUnlocked(s, s3, t.size);
    hide Increment, Target, Grants;
  }

  lemma GrantsUnlocked(s: State, s3: State, n: SizeT)
    requires s3.bottom == s.bottom && s3.top == s.top
    ensures Grants(s3, n, s.brk, true) == Grants(s, n, s.brk, true)
  {
  }

  lemma StepReturning(s: State, t: Turn, n: SizeT, ret: Option<int>, locks: bool)
    requires t.thread < |s.threads| && s.threads[t.thread] == Returning(n, ret)
    ensures Step(s, t, locks) == s.(threads := s.threads[t.thread := Idle])
  {
    hide Increment, Target, Grants;
  }

  lemma CallAsks(s: State, t: Turn)
    requires t.thread == 0 < |s.threads| && s.threads[0].Idle? && !s.mutex && t.size > 0 && Increment(t.size) != 0
    ensures Run(s, Times(t, 7), true) ==
      Run(s.(mutex := true, threads := s.threads[0 := Moving(t.size, s.brk)]), Times(t, 4), true)
  {
    hide Increment, Target, Grants;
    var s1, s2 := Step(s, t, true), Step(Step(s, t, true), t, true);
    assert s1.threads == s.threads[0 := Locking(t.size)];
    assert s2 == s.(mutex := true, threads := s.threads[0 := Asking(t.size)]);
    assert Step(s2, t, true) == s.(mutex := true, threads := s.threads[0 := Moving(t.size, s.brk)]);
    hide Step, Run;
    RunTimes(s, t, 7, true);
    RunTimes(s1, t, 6, true);
    RunTimes(s2, t, 5, true);
  }

  /** A size that is not small can take a break that has reached the top back to the bottom, below its own block. */
  lemma HugeSizeFallsBack(s: State, max: SizeT) returns (schedule: seq<Turn>)
    requires Start(s) && |s.threads| > 0 && s.bottom + HEADER < s.top && !Small(max, s.bottom, s.top)
    ensures UpTo(schedule, max) && !BlocksOk(Run(s, schedule, true))
  {
    var m: SizeT := s.top - s.bottom - HEADER;
    var n: SizeT := TWO_64 - HEADER - (s.top - s.bottom);
    var (t, u) := (Turn(0, m, true), Turn(0, n, true));
    schedule := Times(t, 7) + Times(u, 7);
    SmallMoves(s, m, true);
    WholeCall(s, t);
    var full := Run(s, Times(t, 7), true);
    FallsBack(full, n);
    WholeCall(full, u);
    hide Run, Target, Increment, Grants;
    RunConcat(s, Times(t, 7), Times(u, 7), true);
    var r := Run(s, schedule, true);
    assert r.out == [Block(s.brk, m), Block(s.top, n)] && r.brk == s.bottom;
    assert r.out[1].End() > r.brk;
  }

  lemma FallsBack(s: State, n: SizeT)
    requires 0 <= s.bottom < s.brk == s.top < TWO_63 && n == TWO_64 - HEADER - (s.top - s.bottom)
    ensures Increment(n) != 0 && Target(n, s.brk) == s.bottom && Grants(s, n, s.brk, true)
  {
    assert Increment(n) == s.bottom - s.top;
  }

  /**
    * Calls with sizes up to `max` are safe under every schedule if and only if the largest of them, with its header
    * and all the room there is for the break, still fits size_t.
    */
  lemma SafeIffSmall(s: State, max: SizeT)
    requires Start(s) && |s.threads| > 0 && s.bottom + HEADER < s.top
    ensures (forall schedule :: UpTo(schedule, max) ==> BlocksOk(Run(s, schedule, true))) <==>
      Small(max, s.bottom, s.top)
  {
    hide BlocksOk, Run;
    if Small(max, s.bottom, s.top) {
      forall schedule | UpTo(schedule, max)
        ensures BlocksOk(Run(s, schedule, true))
      {
        assert AllSmall(schedule, s.bottom, s.top);
        BlocksNeverOverlap(s, schedule);
      }
    } else {
      var schedule := HugeSizeFallsBack(s, max);
    }
  }
}
