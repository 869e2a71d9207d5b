/**
  * malloc under any number of threads (src/malloc.c:47-66) on an sbrk made of two separate system calls
  * (src/unistd.c:9-21). Every step is one access to memory shared between the threads.
  */
module Malloc {
  import opened Machine
  import opened Sequences

  const HEADER: int := 8  // sizeof(malloc_metadata)

  datatype Block = Block(at: int, size: int) {
    ghost function End(): int { at + HEADER + size }
  }

  /** Where a call of malloc(size) stands; `Idle` between calls. */
  datatype Pc =
    | Idle
    | Locking(size: SizeT)
    | Asking(size: SizeT)                           // the first brk call, which reads the break
    | Moving(size: SizeT, cur: int)                 // the second, which moves it
    | Leaving(size: SizeT, ret: Option<int>)        // the result is decided, the unlock still to come
    | Writing(size: SizeT, at: int)                 // meta->size = size
    | Returning(size: SizeT, ret: Option<int>)

  /**
    * The kernel moves the break only between `bottom`, where it was at the start, and `top`. `headers` holds what the
    * size fields contain. Two fields are history: `blocks`, what sbrk returned, and `out`, what was given to callers.
    */
  datatype State = State(mutex: bool, brk: int, bottom: int, top: int, headers: map<int, int>, threads: seq<Pc>,
                         blocks: seq<Block>, out: seq<Block>)

  /**
    * One thread's turn. `size` is what it asks for if it is about to start a call; `grant` is the kernel's answer if
    * it is about to move the break; `locks` says whether the mutex is used at all.
    */
  datatype Turn = Turn(thread: nat, size: SizeT, grant: bool)

  function Step(s: State, turn: Turn, locks: bool): State {
    if turn.thread < |s.threads| then Access(s, turn.thread, turn.size, turn.grant, locks) else s
  }

  /** The argument of sbrk: the sum wraps around in size_t and is then read as an intptr_t. */
  function Increment(n: SizeT): IntMax { ToIntMax((n + HEADER) % TWO_64) }

  /** The break that is asked for, in uint64_t. */
  function Target(n: SizeT, cur: int): int { (cur + Increment(n)) % TWO_64 }

  predicate Grants(s: State, n: SizeT, cur: int, grant: bool) { grant && s.bottom <= Target(n, cur) <= s.top }

  function Access(s: State, i: nat, size: SizeT, grant: bool, locks: bool): State
    requires i < |s.threads|
  {
    match s.threads[i]
    case Idle => Go(s, i, if size == 0 then Returning(0, None) else Locking(size))
    case Locking(n) =>
      if !locks then Go(s, i, Asking(n))
      else if s.mutex then s
      else Go(s, i, Asking(n)).(mutex := true)
    case Asking(n) =>
      if Increment(n) == 0 then Go(s, i, Leaving(n, Some(s.brk))).(blocks := s.blocks + [Block(s.brk, n)])
      else Go(s, i, Moving(n, s.brk))
    case Moving(n, cur) =>
      // brk either sets the break and returns it, or leaves it and returns what it is
      var granted := Grants(s, n, cur, grant);
      var actual := if granted then Target(n, cur) else s.brk;
      var moved := Go(s, i, Leaving(n, if Target(n, cur) != actual then None else Some(cur)));
      if granted then moved.(brk := actual, blocks := s.blocks + [Block(cur, n)]) else moved
    case Leaving(n, ret) =>
      var s := if locks then s.(mutex := false) else s;
      Go(s, i, if ret.None? then Returning(n, None) else Writing(n, ret.value))
    case Writing(n, at) =>
      Go(s, i, Returning(n, Some(at + HEADER))).(headers := s.headers[at := n], out := s.out + [Block(at, n)])
    case Returning(_, _) => Go(s, i, Idle)
  }

  function Go(s: State, i: nat, pc: Pc): State
    requires i < |s.threads|
  {
    s.(threads := s.threads[i := pc])
  }

  function Run(s: State, schedule: seq<Turn>, locks: bool): State
    decreases |schedule|
  {
    if schedule == [] then s else Run(Step(s, schedule[0], locks), schedule[1..], locks)
  }

  /** Nothing is allocated, and the break is in the lower half of the address space, as user space is. */
  ghost predicate Start(s: State) {
    && !s.mutex && s.blocks == [] && s.out == []
    && 0 <= s.brk == s.bottom <= s.top < TWO_63
    && forall i :: 0 <= i < |s.threads| ==> s.threads[i].Idle?
  }

  // ----- Sizes -----

  /** Adding the header does not wrap the increment round to a break that the kernel would set. */
  predicate Small(n: int, bottom: int, top: int) { n + HEADER + (top - bottom) < TWO_64 }

  /** The target of a request of such a size is above the break by the size and the header, or out of bounds. */
  lemma SmallTarget(n: SizeT, bottom: int, top: int, cur: int)
    requires n > 0 && Small(n, bottom, top) && 0 <= bottom <= cur <= top < TWO_63
    ensures Increment(n) != 0 && Target(n, cur) != cur
    ensures bottom <= Target(n, cur) <= top <==> cur + HEADER + n <= top
    ensures cur + HEADER + n <= top ==> Target(n, cur) == cur + HEADER + n
  {
    if n + HEADER < TWO_63 {
      assert Increment(n) == n + HEADER;
      assert Target(n, cur) == cur + HEADER + n;
    } else {
      assert Increment(n) == n + HEADER - TWO_64;
      assert Target(n, cur) == if cur + n + HEADER < TWO_64 then cur + n + HEADER else cur + n + HEADER - TWO_64;
    }
  }

  /** What a request of such a size can do to the break: move it up by the size and the header, or nothing. */
  lemma SmallMoves(s: State, n: SizeT, grant: bool)
    requires n > 0 && Small(n, s.bottom, s.top) && 0 <= s.bottom <= s.brk <= s.top < TWO_63
    ensures Increment(n) != 0 && Target(n, s.brk) != s.brk
    ensures Grants(s, n, s.brk, grant) ==> Target(n, s.brk) == s.brk + HEADER + n
    ensures Grants(s, n, s.brk, grant) <==> grant && s.brk + HEADER + n <= s.top
  {
    SmallTarget(n, s.bottom, s.top, s.brk);
  }

  // ----- The invariant -----

  ghost predicate Inside(pc: Pc) { pc.Asking? || pc.Moving? || pc.Leaving? }

  /** The blocks with their headers fill the space from `from` to `to`, one after the other. */
  ghost predicate Tiles(blocks: seq<Block>, from: int, to: int) {
    if blocks == [] then from == to
    else
      var b := blocks[|blocks| - 1];
      b.size > 0 && b.End() == to && Tiles(blocks[..|blocks| - 1], from, b.at)
  }

  /** The block that a call has been granted, until the pointer to it is with the caller. */
  ghost function Held(pc: Pc): Option<Block> {
    match pc
    case Leaving(n, ret) => if ret.Some? then Some(Block(ret.value, n)) else None
    case Writing(n, at) => Some(Block(at, n))
    case Returning(n, ret) => if ret.Some? then Some(Block(ret.value - HEADER, n)) else None
    case _ => None
  }

  ghost predicate SomeInside(threads: seq<Pc>) { exists i :: 0 <= i < |threads| && Inside(threads[i]) }

  ghost predicate OneInside(threads: seq<Pc>, mutex: bool) {
    && (mutex <==> SomeInside(threads))
    && (forall i, j :: 0 <= i < j < |threads| ==> !(Inside(threads[i]) && Inside(threads[j])))
  }

  ghost predicate Early(pc: Pc) { pc.Locking? || pc.Asking? || pc.Moving? }

  ghost predicate PcOk(pc: Pc, s: State) {
    && (pc.Moving? ==> pc.cur == s.brk)
    && (Early(pc) ==> pc.size > 0 && Small(pc.size, s.bottom, s.top))
  }

  ghost predicate BreakOk(s: State) { 0 <= s.bottom <= s.brk <= s.top < TWO_63 && Tiles(s.blocks, s.bottom, s.brk) }

  /** What a call holds is a granted block of its size, out of its hands only when it returns, and no other call's. */
  ghost predicate HeldOk(threads: seq<Pc>, blocks: seq<Block>, out: seq<Block>) {
    && (forall i :: 0 <= i < |threads| && Held(threads[i]).Some? ==>
          Held(threads[i]).value in blocks && (Held(threads[i]).value in out <==> threads[i].Returning?))
    && (forall i, j :: 0 <= i < j < |threads| && Held(threads[i]).Some? ==> Held(threads[i]) != Held(threads[j]))
  }

  /** What callers hold: distinct granted blocks, whose headers tell their sizes. */
  ghost predicate OutOk(blocks: seq<Block>, out: seq<Block>, headers: map<int, int>) {
    && Distinct(out)
    && forall k :: 0 <= k < |out| ==> out[k] in blocks && out[k].at in headers && headers[out[k].at] == out[k].size
  }

  ghost predicate IsHeld(threads: seq<Pc>, b: Block) { exists i :: 0 <= i < |threads| && Held(threads[i]) == Some(b) }

  /** No granted block is lost: it is in a caller's hands or on its way there. */
  ghost predicate Accounted(threads: seq<Pc>, blocks: seq<Block>, out: seq<Block>) {
    forall k :: 0 <= k < |blocks| ==> blocks[k] in out || IsHeld(threads, blocks[k])
  }

  ghost predicate Invariant(s: State) {
    && OneInside(s.threads, s.mutex)
    && BreakOk(s)
    && (forall i :: 0 <= i < |s.threads| ==> PcOk(s.threads[i], s))
    && HeldOk(s.threads, s.blocks, s.out)
    && OutOk(s.blocks, s.out, s.headers)
    && Accounted(s.threads, s.blocks, s.out)
  }

  // ----- Tilings -----

  lemma {:induction false} TilesAreApart(blocks: seq<Block>, from: int, to: int)
    requires Tiles(blocks, from, to)
    ensures from <= to
    ensures forall k :: 0 <= k < |blocks| ==> from <= blocks[k].at && blocks[k].size > 0 && blocks[k].End() <= to
    ensures forall k, l :: 0 <= k < l < |blocks| ==> blocks[k].End() <= blocks[l].at
  {
    if blocks != [] {
      TilesAreApart(blocks[..|blocks| - 1], from, blocks[|blocks| - 1].at);
    }
  }

  lemma SameStart(blocks: seq<Block>, from: int, to: int, b: Block, c: Block)
    requires Tiles(blocks, from, to) && b in blocks && c in blocks && b.at == c.at
    ensures b == c
  {
    TilesAreApart(blocks, from, to);
    var k :| 0 <= k < |blocks| && blocks[k] == b;
    var l :| 0 <= l < |blocks| && blocks[l] == c;
  }

  lemma NewTile(blocks: seq<Block>, from: int, to: int, size: int)
    requires Tiles(blocks, from, to) && size > 0
    ensures Block(to, size) !in blocks
    ensures Tiles(blocks + [Block(to, size)], from, to + HEADER + size)
  {
    TilesAreApart(blocks, from, to);
    var more := blocks + [Block(to, size)];
    assert more[..|more| - 1] == blocks;
  }

  // ----- Each step keeps it -----

  lemma StartIsInvariant(s: State)
    requires Start(s)
    ensures Invariant(s)
  {
  }

  /** The turn of thread i, which asks for no size that wraps round. */
  ghost predicate Fine(s: State, i: nat, size: SizeT) {
    i < |s.threads| && Small(size, s.bottom, s.top) && PcOk(s.threads[i], s)
  }

  lemma KeepsOneInside(s: State, i: nat, size: SizeT, grant: bool)
    requires i < |s.threads| && OneInside(s.threads, s.mutex)
    ensures var s' := Access(s, i, size, grant, true); OneInside(s'.threads, s'.mutex)
  {
    hide Increment, Grants, Target;
    var s' := Access(s, i, size, grant, true);
    if Inside(s'.threads[i]) {
      assert SomeInside(s'.threads);
    } else if j :| 0 <= j < |s.threads| && Inside(s.threads[j]) && j != i {
      assert Inside(s'.threads[j]);
    }
  }

  lemma KeepsBreak(s: State, i: nat, size: SizeT, grant: bool)
    requires Fine(s, i, size) && BreakOk(s)
    ensures BreakOk(Access(s, i, size, grant, true))
  {
    hide Increment, Grants, Target, Tiles;
    var pc := s.threads[i];
    if Early(pc) {
      SmallMoves(s, pc.size, grant);
      NewTile(s.blocks, s.bottom, s.brk, pc.size);
      GrantedIsBelowTop(s, pc.size, grant);
    }
  }

  lemma GrantedIsBelowTop(s: State, n: SizeT, grant: bool)
    ensures Grants(s, n, s.brk, grant) ==> s.bottom <= Target(n, s.brk) <= s.top
  {
  }

  lemma KeepsPcs(s: State, i: nat, size: SizeT, grant: bool)
    requires Fine(s, i, size) && OneInside(s.threads, s.mutex) && BreakOk(s)
    requires forall j :: 0 <= j < |s.threads| ==> PcOk(s.threads[j], s)
    ensures var s' := Access(s, i, size, grant, true); forall j :: 0 <= j < |s'.threads| ==> PcOk(s'.threads[j], s')
  {
    hide Increment, Grants, Target, Tiles, Small;
    var s', pc := Access(s, i, size, grant, true), s.threads[i];
    forall j | 0 <= j < |s'.threads|
      ensures PcOk(s'.threads[j], s')
    {
      assert PcOk(s.threads[j], s);
    }
  }

  /** A thread may drop what it holds, hand it out, or take up a block that is new. */
  lemma HeldAfter(threads: seq<Pc>, blocks: seq<Block>, out: seq<Block>, i: nat, pc: Pc, blocks': seq<Block>,
                  out': seq<Block>)
    requires i < |threads| && HeldOk(threads, blocks, out)
    requires blocks' == blocks || exists b :: blocks' == blocks + [b]
    requires out' == out || (Held(threads[i]).Some? && out' == out + [Held(threads[i]).value])
    requires Held(pc).Some? ==> Held(pc) == Held(threads[i]) || Held(pc).value !in blocks
    requires Held(pc).Some? ==> Held(pc).value in blocks' && (Held(pc).value in out' <==> pc.Returning?)
    ensures HeldOk(threads[i := pc], blocks', out')
  {
    var threads' := threads[i := pc];
    hide Held;
    forall j | 0 <= j < |threads'| && Held(threads'[j]).Some?
      ensures Held(threads'[j]).value in blocks' && (Held(threads'[j]).value in out' <==> threads'[j].Returning?)
    {
      if j != i {
        assert Held(threads[j]) != Held(threads[i]);
      }
    }
    forall j, k | 0 <= j < k < |threads'| && Held(threads'[j]).Some?
      ensures Held(threads'[j]) != Held(threads'[k])
    {
    }
  }

  lemma KeepsHeld(s: State, i: nat, size: SizeT, grant: bool)
    requires Fine(s, i, size) && BreakOk(s)
    requires HeldOk(s.threads, s.blocks, s.out) && OutOk(s.blocks, s.out, s.headers)
    ensures var s' := Access(s, i, size, grant, true); HeldOk(s'.threads, s'.blocks, s'.out)
  {
    hide Increment, Grants, Target, Tiles, Small;
    var pc, s' := s.threads[i], Access(s, i, size, grant, true);
    if Early(pc) {
      SmallMoves(s, pc.size, grant);
      NewTile(s.blocks, s.bottom, s.brk, pc.size);
    }
    hide HeldOk;
    HeldIs(s.threads, s.blocks, s.out, i);
    assert Held(s'.threads[i]).Some? && pc.Moving? ==> Held(s'.threads[i]).value !in s.out;
    HeldAfter(s.threads, s.blocks, s.out, i, s'.threads[i], s'.blocks, s'.out);
    assert s'.threads == s.threads[i := s'.threads[i]];
  }

  lemma HeldIs(threads: seq<Pc>, blocks: seq<Block>, out: seq<Block>, i: nat)
    requires i < |threads| && HeldOk(threads, blocks, out)
    ensures Held(threads[i]).Some? ==>
      Held(threads[i]).value in blocks && (Held(threads[i]).value in out <==> threads[i].Returning?)
  {
  }

  lemma KeepsOut(s: State, i: nat, size: SizeT, grant: bool)
    requires Fine(s, i, size) && BreakOk(s)
    requires HeldOk(s.threads, s.blocks, s.out) && OutOk(s.blocks, s.out, s.headers)
    ensures var s' := Access(s, i, size, grant, true); OutOk(s'.blocks, s'.out, s'.headers)
  {
    hide Increment, Grants, Target, Tiles, Small;
    var pc := s.threads[i];
    if pc.Writing? {
      var b := Block(pc.at, pc.size);
      assert Held(pc) == Some(b);
      forall k | 0 <= k < |s.out|
        ensures s.out[k].at != pc.at
      {
        if s.out[k].at == pc.at {
          SameStart(s.blocks, s.bottom, s.brk, s.out[k], b);
        }
      }
    }
  }

  lemma KeepsAccounted(s: State, i: nat, size: SizeT, grant: bool)
    requires Fine(s, i, size) && BreakOk(s) && Accounted(s.threads, s.blocks, s.out)
    requires OutOk(s.blocks, s.out, s.headers) && HeldOk(s.threads, s.blocks, s.out)
    ensures var s' := Access(s, i, size, grant, true); Accounted(s'.threads, s'.blocks, s'.out)
  {
    hide Increment, Grants, Target, Tiles, Small, OutOk;
    var s' := Access(s, i, size, grant, true);
    if Early(s.threads[i]) {
      SmallMoves(s, s.threads[i].size, grant);
    }
    forall k | 0 <= k < |s'.blocks|
      ensures s'.blocks[k] in s'.out || IsHeld(s'.threads, s'.blocks[k])
    {
      var b := s'.blocks[k];
      if k == |s.blocks| {
        assert Held(s'.threads[i]) == Some(b);
      } else {
        assert b == s.blocks[k];
        StillAccounted(s, s', i, size, grant, b);
      }
    }
  }

  lemma StillAccounted(s: State, s': State, i: nat, size: SizeT, grant: bool, b: Block)
    requires i < |s.threads| && s' == Access(s, i, size, grant, true) && HeldOk(s.threads, s.blocks, s.out)
    requires b in s.out || IsHeld(s.threads, b)
    ensures b in s'.out || IsHeld(s'.threads, b)
  {
    hide Increment, Grants, Target;
    if b !in s.out {
      var j :| 0 <= j < |s.threads| && Held(s.threads[j]) == Some(b);
      if j == i && s.threads[i].Writing? {
        assert s'.out[|s.out|] == b;
      } else {
        assert Held(s'.threads[j]) == Some(b);
      }
    }
  }

  lemma StepKeeps(s: State, turn: Turn)
    requires Invariant(s) && Small(turn.size, s.bottom, s.top)
    ensures Invariant(Step(s, turn, true)) && SameLimits(s, Step(s, turn, true))
  {
    var i := turn.thread;
    if i < |s.threads| {
      assert PcOk(s.threads[i], s);
      hide OneInside, PcOk, HeldOk, OutOk, Accounted, Access, BreakOk, Small;
      KeepsOneInside(s, i, turn.size, turn.grant);
      KeepsBreak(s, i, turn.size, turn.grant);
      KeepsPcs(s, i, turn.size, turn.grant);
      KeepsHeld(s, i, turn.size, turn.grant);
      KeepsOut(s, i, turn.size, turn.grant);
      KeepsAccounted(s, i, turn.size, turn.grant);
      KeepsLimits(s, i, turn.size, turn.grant, true);
    }
  }

  ghost predicate SameLimits(s: State, s': State) {
    s'.bottom == s.bottom && s'.top == s.top && |s'.threads| == |s.threads|
  }

  lemma KeepsLimits(s: State, i: nat, size: SizeT, grant: bool, locks: bool)
    requires i < |s.threads|
    ensures SameLimits(s, Access(s, i, size, grant, locks))
  {
    hide Increment, Grants, Target;
  }

  /** Every size asked for is one that does not wrap round. */
  ghost predicate AllSmall(schedule: seq<Turn>, bottom: int, top: int) {
    forall k :: 0 <= k < |schedule| ==> Small(schedule[k].size, bottom, top)
  }

  lemma {:induction false} RunKeeps(s: State, schedule: seq<Turn>)
    requires Invariant(s) && AllSmall(schedule, s.bottom, s.top)
    ensures Invariant(Run(s, schedule, true)) && SameLimits(s, Run(s, schedule, true))
    decreases |schedule|
  {
    hide Invariant, Step, Small;
    if schedule != [] {
      StepKeeps(s, schedule[0]);
      RunKeeps(Step(s, schedule[0], true), schedule[1..]);
    }
  }

  // ----- Main results -----

  ghost predicate Apart(b: Block, c: Block) { b.End() <= c.at || c.End() <= b.at }

  /** The bytes granted, headers included. */
  ghost function Taken(blocks: seq<Block>): int {
    if blocks == [] then 0 else Taken(blocks[..|blocks| - 1]) + HEADER + blocks[|blocks| - 1].size
  }

  lemma {:induction false} TilesTake(blocks: seq<Block>, from: int, to: int)
    requires Tiles(blocks, from, to)
    ensures to == from + Taken(blocks)
  {
    if blocks != [] {
      TilesTake(blocks[..|blocks| - 1], from, blocks[|blocks| - 1].at);
    }
  }

  /** What callers can rely on: the blocks in their hands lie apart, below the break, and tell their sizes. */
  ghost predicate BlocksOk(r: State) {
    && (forall k, l :: 0 <= k < l < |r.out| ==> Apart(r.out[k], r.out[l]))
    && (forall k :: 0 <= k < |r.out| ==> r.bottom <= r.out[k].at && r.out[k].size > 0 && r.out[k].End() <= r.brk)
    && (forall k :: 0 <= k < |r.out| ==> r.out[k].at in r.headers && r.headers[r.out[k].at] == r.out[k].size)
  }

  /**
    * Under every interleaving the blocks in callers' hands, headers included, lie apart from each other between the
    * first break and the present one and each header tells its block's size; what a call returns is a block of the
    * size it asked for and no other call's; no granted block is lost; and the break has moved by what was granted.
    */
  lemma BlocksNeverOverlap(s: State, schedule: seq<Turn>)
    requires Start(s) && AllSmall(schedule, s.bottom, s.top)
    ensures var r := Run(s, schedule, true);
      BlocksOk(r) && HeldOk(r.threads, r.blocks, r.out) && Accounted(r.threads, r.blocks, r.out)
      && r.brk == s.brk + Taken(r.blocks)
  {
    StartIsInvariant(s);
    RunKeeps(s, schedule);
    assert s.brk == s.bottom;
    hide OneInside, Tiles, PcOk, HeldOk, Accounted, Taken, Start, Run;
    var r := Run(s, schedule, true);
    TilesTake(r.blocks, r.bottom, r.brk);
    forall k | 0 <= k < |r.out|
      ensures r.bottom <= r.out[k].at && r.out[k].size > 0 && r.out[k].End() <= r.brk
    {
      TilesAreApart(r.blocks, r.bottom, r.brk);
    }
    forall k, l | 0 <= k < l < |r.out|
      ensures Apart(r.out[k], r.out[l])
    {
      ElementsAreApart(r.blocks, r.bottom, r.brk, r.out[k], r.out[l]);
    }
  }

  lemma ElementsAreApart(blocks: seq<Block>, from: int, to: int, b: Block, c: Block)
    requires Tiles(blocks, from, to) && b in blocks && c in blocks && b != c
    ensures Apart(b, c)
  {
    TilesAreApart(blocks, from, to);
  }

  /** A call fails exactly when the kernel refuses, and then the break is where it was; else it gets the old break. */
  lemma FailureLeavesBreak(s: State, schedule: seq<Turn>, turn: Turn)
    requires Start(s) && AllSmall(schedule, s.bottom, s.top)
    requires var r := Run(s, schedule, true); turn.thread < |r.threads| && r.threads[turn.thread].Moving?
    ensures var r := Run(s, schedule, true);
      var (r', n) := (Step(r, turn, true), r.threads[turn.thread].size);
      var granted := turn.grant && r.brk + HEADER + n <= r.top;
      && r'.threads[turn.thread] == Leaving(n, if granted then Some(r.brk) else None)
      && r'.brk == (if granted then r.brk + HEADER + n else r.brk)
      && r'.blocks == (if granted then r.blocks + [Block(r.brk, n)] else r.blocks)
  {
    StartIsInvariant(s);
    RunKeeps(s, schedule);
    hide OneInside, Tiles, HeldOk, OutOk, Accounted, Start, Run, Grants, Target, Increment;
    var r := Run(s, schedule, true);
    var pc := r.threads[turn.thread];
    assert PcOk(pc, r);
    SmallMoves(r, pc.size, turn.grant);
  }

  // ----- Progress -----

  /** Steps until the call is over, if every one of them gets through. */
  ghost function Rank(pc: Pc): nat {
    match pc
    case Locking(_) => 6
    case Asking(_) => 5
    case Moving(_, _) => 4
    case Leaving(_, _) => 3
    case Writing(_, _) => 2
    case Returning(_, _) => 1
    case Idle => 0
  }

  ghost function TotalRank(threads: seq<Pc>): nat {
    if threads == [] then 0 else Rank(threads[0]) + TotalRank(threads[1..])
  }

  lemma {:induction false} RankAfterUpdate(threads: seq<Pc>, i: nat, pc: Pc)
    requires i < |threads| && Rank(pc) < Rank(threads[i])
    ensures TotalRank(threads[i := pc]) < TotalRank(threads)
  {
    if i > 0 {
      RankAfterUpdate(threads[1..], i - 1, pc);
      assert threads[i := pc][1..] == threads[1..][i - 1 := pc];
    } else {
      assert threads[i := pc][1..] == threads[1..];
    }
  }

  ghost predicate AllIdle(s: State) { forall i :: 0 <= i < |s.threads| ==> s.threads[i].Idle? }

  /** While a call is under way, some thread's turn brings one nearer to its end. */
  lemma SomeTurnAdvances(s: State) returns (turn: Turn)
    requires OneInside(s.threads, s.mutex) && !AllIdle(s)
    ensures turn.size == 0 && TotalRank(Step(s, turn, true).threads) < TotalRank(s.threads)
  {
    hide Increment, Grants, Target;
    var i: nat;
    if s.mutex {
      i :| 0 <= i < |s.threads| && Inside(s.threads[i]);
    } else {
      i :| 0 <= i < |s.threads| && !s.threads[i].Idle?;
      assert !Inside(s.threads[i]);
    }
    turn := Turn(i, 0, false);
    RankAfterUpdate(s.threads, i, Step(s, turn, true).threads[i]);
  }

  lemma CanFinish(s: State) returns (rest: seq<Turn>)
    requires Invariant(s)
    ensures AllIdle(Run(s, rest, true))
    decreases TotalRank(s.threads)
  {
    if AllIdle(s) {
      rest := [];
    } else {
      hide *;
      InvariantParts(s);
      var turn := SomeTurnAdvances(s);
      StepKeeps(s, turn);
      var more := CanFinish(Step(s, turn, true));
      rest := [turn] + more;
      FirstStep(s, turn, more);
    }
  }

  lemma InvariantParts(s: State)
    requires Invariant(s)
    ensures OneInside(s.threads, s.mutex) && Small(0, s.bottom, s.top)
  {
  }

  lemma FirstStep(s: State, turn: Turn, more: seq<Turn>)
    ensures Run(s, [turn] + more, true) == Run(Step(s, turn, true), more, true)
  {
    assert ([turn] + more)[1..] == more;
  }

  /** No run deadlocks: each can be continued until every call has returned. */
  lemma EveryRunCanFinish(s: State, schedule: seq<Turn>) returns (rest: seq<Turn>)
    requires Start(s) && AllSmall(schedule, s.bottom, s.top)
    ensures AllIdle(Run(Run(s, schedule, true), rest, true))
  {
    hide *;
    StartIsInvariant(s);
    RunKeeps(s, schedule);
    rest := CanFinish(Run(s, schedule, true));
  }
}
