/**
  * What realloc does after its malloc (src/malloc.c:75-93) while other threads allocate and store into their own
  * blocks. The blocks are those of the concurrent malloc; memory is one map, headers included.
  */
module ReallocThreads {
  import opened Machine
  import opened Malloc
  import opened Heap

  /** The thread in realloc is about to read the old size, or has copied `k` of `n` bytes. */
  datatype Phase = Reading | Copying(n: int, k: nat)

  datatype World = World(m: State, mem: map<int, int>, phase: Phase)

  /** A step of some thread's malloc, a store by some other thread, or the next access of the thread in realloc. */
  datatype Move = Alloc(turn: Turn) | Put(p: int, v: int) | Mine

  /** The address belongs to a caller other than the one in realloc, which holds `a` and `b`. */
  ghost predicate Others(out: seq<Block>, a: Block, b: Block, p: int) {
    exists c :: c in out && c != a && c != b && Data(c) <= p < c.End()
  }

  /** The header that a step of malloc writes. */
  function Headed(s: State, turn: Turn, mem: map<int, int>): map<int, int> {
    if turn.thread < |s.threads| && s.threads[turn.thread].Writing?
    then mem[s.threads[turn.thread].at := s.threads[turn.thread].size] else mem
  }

  /** realloc copies from block `a` to block `b`. */
  ghost function Next(w: World, move: Move, a: Block, b: Block): World {
    match move
    case Alloc(turn) => w.(m := Step(w.m, turn, true), mem := Headed(w.m, turn, w.mem))
    case Put(p, v) => if Others(w.m.out, a, b, p) then w.(mem := w.mem[p := v]) else w
    case Mine =>
      match w.phase
      case Reading => w.(phase := Copying(Min(Byte(w.mem, a.at), b.size), 0))
      case Copying(n, k) =>
        if k >= n then w
        else w.(mem := w.mem[Data(b) + k := Byte(w.mem, Data(a) + k)], phase := Copying(n, k + 1))
  }

  ghost function RunAll(w: World, moves: seq<Move>, a: Block, b: Block): World
    decreases |moves|
  {
    if moves == [] then w else RunAll(Next(w, moves[0], a, b), moves[1..], a, b)
  }

  // ----- The invariant -----

  /** The cell at the start of every block in a caller's hands holds the block's size. */
  ghost predicate HeadersTell(w: World) { forall c :: c in w.m.out ==> Byte(w.mem, c.at) == c.size }

  ghost predicate InHands(m: State, a: Block, b: Block) { Invariant(m) && a in m.out && b in m.out && a != b }

  /** The old block holds `was`, and so does the new one as far as it has been copied. */
  ghost predicate Copied(w: World, a: Block, b: Block, was: seq<int>) {
    && Contents(w.mem, a) == was && |was| == a.size
    && match w.phase
       case Reading => true
       case Copying(n, k) => k <= n == Min(a.size, b.size) && Bytes(w.mem, Data(b), k) == was[..k]
  }

  ghost predicate Good(w: World, a: Block, b: Block, was: seq<int>) {
    InHands(w.m, a, b) && HeadersTell(w) && Copied(w, a, b, was)
  }

  lemma OutApart(m: State, x: Block, y: Block)
    requires Invariant(m) && x in m.out && y in m.out && x != y
    ensures Apart(x, y) && x.size > 0 && y.size > 0
  {
    hide OneInside, PcOk, HeldOk, Accounted, Tiles;
    ElementsAreApart(m.blocks, m.bottom, m.brk, x, y);
    TilesAreApart(m.blocks, m.bottom, m.brk);
  }

  /** A store inside one block changes no other. */
  lemma StoreElsewhere(mem: map<int, int>, p: int, v: int, home: Block, c: Block)
    requires home.at <= p < home.End() && Apart(home, c) && c.size > 0
    ensures Contents(mem[p := v], c) == Contents(mem, c) && Byte(mem[p := v], c.at) == Byte(mem, c.at)
  {
    SameContents(mem, mem[p := v], p, p + 1, c);
    hide Contents;
  }

  lemma BytesElsewhere(mem: map<int, int>, p: int, v: int, home: Block, b: Block, k: nat)
    requires home.at <= p < home.End() && Apart(home, b) && k <= b.size
    ensures Bytes(mem[p := v], Data(b), k) == Bytes(mem, Data(b), k)
  {
    forall i | 0 <= i < k
      ensures Bytes(mem[p := v], Data(b), k)[i] == Bytes(mem, Data(b), k)[i]
    {
      assert Byte(mem[p := v], Data(b) + i) == Byte(mem, Data(b) + i);
    }
  }

  /** A store into a block `home` other than a and b. */
  lemma ForeignStore(w: World, a: Block, b: Block, was: seq<int>, home: Block, p: int, v: int, w': World)
    requires InHands(w'.m, a, b) && Copied(w, a, b, was) && home in w'.m.out && home != a && home != b
    requires home.at <= p < home.End() && w'.mem == w.mem[p := v] && w'.phase == w.phase
    ensures Copied(w', a, b, was)
  {
    hide Contents, Bytes, Byte, Invariant;
    OutApart(w'.m, home, a);
    OutApart(w'.m, home, b);
    StoreElsewhere(w.mem, p, v, home, a);
    if w.phase.Copying? {
      BytesElsewhere(w.mem, p, v, home, b, w.phase.k);
    }
  }

  lemma PutKeeps(w: World, p: int, v: int, a: Block, b: Block, was: seq<int>)
    requires Good(w, a, b, was)
    ensures Good(Next(w, Put(p, v), a, b), a, b, was)
  {
    if Others(w.m.out, a, b, p) {
      var home :| home in w.m.out && home != a && home != b && Data(home) <= p < home.End();
      var w' := Next(w, Put(p, v), a, b);
      ForeignStore(w, a, b, was, home, p, v, w');
      hide Invariant, Copied;
      StoreKeepsHeaders(w, home, p, v, w');
    }
  }

  /** A store into the data of a block hits no header. */
  lemma StoreKeepsHeaders(w: World, home: Block, p: int, v: int, w': World)
    requires Invariant(w.m) && HeadersTell(w) && home in w.m.out && Data(home) <= p < home.End()
    requires w'.m == w.m && w'.mem == w.mem[p := v]
    ensures HeadersTell(w')
  {
    hide Invariant;
    forall c | c in w'.m.out
      ensures Byte(w'.mem, c.at) == c.size
    {
      if c != home {
        OutApart(w.m, home, c);
      }
      assert c.at != p;
    }
  }

  lemma MineKeeps(w: World, a: Block, b: Block, was: seq<int>)
    requires Good(w, a, b, was)
    ensures Good(Next(w, Mine, a, b), a, b, was)
  {
    hide Invariant, Contents, Bytes;
    OutApart(w.m, a, b);
    if w.phase.Copying? && w.phase.k < w.phase.n {
      var (k, v) := (w.phase.k, Byte(w.mem, Data(a) + w.phase.k));
      StoreElsewhere(w.mem, Data(b) + k, v, b, a);
      StoreKeepsHeaders(w, b, Data(b) + k, v, Next(w, Mine, a, b));
      OneMoreByte(w.mem, Data(b), k, v);
      ByteOf(w.mem, a, k);
      assert was[..k] + [was[k]] == was[..k + 1];
    } else if w.phase.Reading? {
      NoBytes(w.mem, Data(b));
      assert was[..0] == [];
    }
  }

  lemma ByteOf(mem: map<int, int>, a: Block, k: nat)
    requires k < a.size
    ensures |Contents(mem, a)| == a.size && Contents(mem, a)[k] == Byte(mem, Data(a) + k)
  {
  }

  lemma NoBytes(mem: map<int, int>, p: int)
    ensures Bytes(mem, p, 0) == []
  {
  }

  /** What a step of malloc adds to what callers hold. */
  lemma StepOut(m: State, turn: Turn)
    ensures var m' := Step(m, turn, true);
      if turn.thread < |m.threads| && m.threads[turn.thread].Writing? then
        m'.out == m.out + [Block(m.threads[turn.thread].at, m.threads[turn.thread].size)]
      else m'.out == m.out
  {
    hide Increment, Target, Grants;
  }

  lemma AllocKeeps(w: World, turn: Turn, a: Block, b: Block, was: seq<int>)
    requires Good(w, a, b, was) && Small(turn.size, w.m.bottom, w.m.top)
    ensures Good(Next(w, Alloc(turn), a, b), a, b, was)
    ensures SameLimits(w.m, Next(w, Alloc(turn), a, b).m)
  {
    var w' := Next(w, Alloc(turn), a, b);
    StepKeeps(w.m, turn);
    StepOut(w.m, turn);
    InvariantDistinct(w'.m);
    hide Invariant, Step, Small;
    if turn.thread < |w.m.threads| && w.m.threads[turn.thread].Writing? {
      var given := Block(w.m.threads[turn.thread].at, w.m.threads[turn.thread].size);
      assert given in w'.m.out && given !in w.m.out by {
        assert w'.m.out[|w.m.out|] == given;
      }
      OutApart(w'.m, given, a);
      ForeignStore(w, a, b, was, given, given.at, given.size, w');
      forall c | c in w'.m.out
        ensures Byte(w'.mem, c.at) == c.size
      {
        if c != given {
          OutApart(w'.m, given, c);
        }
      }
    } else {
      hide Copied;
    }
  }

  lemma InvariantDistinct(m: State)
    requires Invariant(m)
    ensures forall i, j :: 0 <= i < j < |m.out| ==> m.out[i] != m.out[j]
  {
  }

  // ----- Whole runs -----

  ghost predicate AllocsSmall(moves: seq<Move>, bottom: int, top: int) {
    forall i :: 0 <= i < |moves| && moves[i].Alloc? ==> Small(moves[i].turn.size, bottom, top)
  }

  lemma NextKeeps(w: World, move: Move, a: Block, b: Block, was: seq<int>)
    requires Good(w, a, b, was) && (move.Alloc? ==> Small(move.turn.size, w.m.bottom, w.m.top))
    ensures Good(Next(w, move, a, b), a, b, was) && SameLimits(w.m, Next(w, move, a, b).m)
  {
    match move {
      case Alloc(turn) => AllocKeeps(w, turn, a, b, was);
      case Put(p, v) => PutKeeps(w, p, v, a, b, was);
      case Mine => MineKeeps(w, a, b, was);
    }
    hide Good, Step;
  }

  /** The accesses that realloc has made. */
  ghost function Made(phase: Phase): nat { if phase.Reading? then 0 else phase.k + 1 }

  lemma MineAdvances(w: World, move: Move, a: Block, b: Block, was: seq<int>)
    requires Good(w, a, b, was)
    ensures Made(Next(w, move, a, b).phase) >=
      Min(Made(w.phase) + (if move.Mine? then 1 else 0), Min(a.size, b.size) + 1)
  {
    hide InHands, HeadersTell, Contents, Bytes, Step;
  }

  lemma {:induction false} RunKeepsAll(w: World, moves: seq<Move>, a: Block, b: Block, was: seq<int>)
    requires Good(w, a, b, was) && AllocsSmall(moves, w.m.bottom, w.m.top)
    ensures Good(RunAll(w, moves, a, b), a, b, was)
    ensures Made(RunAll(w, moves, a, b).phase) >= Min(Made(w.phase) + multiset(moves)[Mine], Min(a.size, b.size) + 1)
    decreases |moves|
  {
    hide Good, Next, Made, Small;
    if moves != [] {
      NextKeeps(w, moves[0], a, b, was);
      MineAdvances(w, moves[0], a, b, was);
      assert moves == [moves[0]] + moves[1..];
      RunKeepsAll(Next(w, moves[0], a, b), moves[1..], a, b, was);
    } else {
      MadeIsBounded(w, a, b, was);
    }
  }

  lemma MadeIsBounded(w: World, a: Block, b: Block, was: seq<int>)
    requires Good(w, a, b, was)
    ensures Made(w.phase) <= Max(0, Min(a.size, b.size) + 1)
  {
  }

  /** The schedule without the accesses of realloc. */
  ghost function Foreign(moves: seq<Move>): seq<Move> {
    if moves == [] then [] else (if moves[0].Mine? then [] else [moves[0]]) + Foreign(moves[1..])
  }

  /** Two worlds that differ in the data of block `b` only. */
  ghost predicate SameButB(w: World, v: World, b: Block) {
    w.m == v.m && SameOutside(w.mem, v.mem, Data(b), b.End())
  }

  lemma MineChangesB(w: World, v: World, a: Block, b: Block, was: seq<int>)
    requires Good(w, a, b, was) && SameButB(w, v, b)
    ensures SameButB(Next(w, Mine, a, b), v, b)
  {
    hide InHands, HeadersTell, Contents, Bytes;
  }

  lemma OtherChangesBoth(w: World, v: World, move: Move, a: Block, b: Block)
    requires SameButB(w, v, b) && !move.Mine?
    ensures SameButB(Next(w, move, a, b), Next(v, move, a, b), b)
  {
    hide Step, Others;
  }

  lemma {:induction false} ForeignRun(w: World, v: World, moves: seq<Move>, a: Block, b: Block, was: seq<int>)
    requires Good(w, a, b, was) && AllocsSmall(moves, w.m.bottom, w.m.top) && SameButB(w, v, b)
    ensures SameButB(RunAll(w, moves, a, b), RunAll(v, Foreign(moves), a, b), b)
    decreases |moves|
  {
    hide Good, Next, SameButB, Small;
    if moves != [] {
      var w' := Next(w, moves[0], a, b);
      NextKeeps(w, moves[0], a, b, was);
      if moves[0].Mine? {
        MineChangesB(w, v, a, b, was);
        ForeignRun(w', v, moves[1..], a, b, was);
        assert [] + Foreign(moves[1..]) == Foreign(moves[1..]);
      } else {
        OtherChangesBoth(w, v, moves[0], a, b);
        ForeignRun(w', Next(v, moves[0], a, b), moves[1..], a, b, was);
        assert ([moves[0]] + Foreign(moves[1..]))[1..] == Foreign(moves[1..]);
      }
    }
  }

  // ----- Main results -----

  /**
    * Whatever other threads allocate and store meanwhile: the old block keeps its contents, and once realloc has read
    * the old size and copied, the new block begins with min(old, new) bytes of it. Every block tells its size.
    */
  lemma ReallocKeepsBytes(s: State, before: seq<Turn>, w: World, a: Block, b: Block, moves: seq<Move>)
    requires Start(s) && AllSmall(before, s.bottom, s.top) && w.m == Run(s, before, true) && w.phase == Reading
    requires HeadersTell(w) && a in w.m.out && b in w.m.out && a != b && AllocsSmall(moves, s.bottom, s.top)
    ensures var (r, n) := (RunAll(w, moves, a, b), Min(a.size, b.size));
      && Contents(r.mem, a) == Contents(w.mem, a) && HeadersTell(r)
      && 0 < n <= |Contents(w.mem, a)|
      && (multiset(moves)[Mine] > n ==> Bytes(r.mem, Data(b), n) == Contents(w.mem, a)[..n])
  {
    var was, r, n := Contents(w.mem, a), RunAll(w, moves, a, b), Min(a.size, b.size);
    hide *;
    BeginsGood(s, before, w, a, b);
    RunKeepsAll(w, moves, a, b, was);
    BeginsAt(w);
    SizesAreRight(w, a, b, was);
    SizesAreRight(r, a, b, was);
    if multiset(moves)[Mine] > n {
      IsAll(Made(w.phase) + multiset(moves)[Mine], n);
    }
  }

  lemma IsAll(x: int, n: int)
    requires x > n
    ensures Min(x, n + 1) == n + 1
  {
  }

  lemma BeginsAt(w: World)
    requires w.phase == Reading
    ensures Made(w.phase) == 0
  {
  }

  lemma SizesAreRight(w: World, a: Block, b: Block, was: seq<int>)
    requires Good(w, a, b, was)
    ensures HeadersTell(w) && Contents(w.mem, a) == was && 0 < Min(a.size, b.size) <= |was|
    ensures Made(w.phase) >= Min(a.size, b.size) + 1 ==>
      Bytes(w.mem, Data(b), Min(a.size, b.size)) == was[..Min(a.size, b.size)]
  {
    hide Invariant, HeadersTell, Contents, Bytes;
    OutApart(w.m, a, b);
  }

  lemma BeginsGood(s: State, before: seq<Turn>, w: World, a: Block, b: Block)
    requires Start(s) && AllSmall(before, s.bottom, s.top) && w.m == Run(s, before, true) && w.phase == Reading
    requires HeadersTell(w) && a in w.m.out && b in w.m.out && a != b
    ensures Good(w, a, b, Contents(w.mem, a)) && w.m.bottom == s.bottom && w.m.top == s.top
  {
    StartIsInvariant(s);
    RunKeeps(s, before);
    OutApart(w.m, a, b);
    hide Invariant, Start, Run;
  }

  /** Other threads see nothing of it: outside the new block memory is as if realloc had not run. */
  lemma ReallocDisturbsNobody(s: State, before: seq<Turn>, w: World, a: Block, b: Block, moves: seq<Move>)
    requires Start(s) && AllSmall(before, s.bottom, s.top) && w.m == Run(s, before, true) && w.phase == Reading
    requires HeadersTell(w) && a in w.m.out && b in w.m.out && a != b && AllocsSmall(moves, s.bottom, s.top)
    ensures SameButB(RunAll(w, moves, a, b), RunAll(w, Foreign(moves), a, b), b)
  {
    BeginsGood(s, before, w, a, b);
    hide *;
    SameAsItself(w, b);
    ForeignRun(w, w, moves, a, b, Contents(w.mem, a));
  }

  lemma SameAsItself(w: World, b: Block)
    ensures SameButB(w, w, b)
  {
  }
}
