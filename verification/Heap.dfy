/**
  * The allocator as one thread sees it: sbrk, malloc, realloc and calloc over memory (src/malloc.c:37-104,
  * src/unistd.c:9-21).
  */
module Heap {
  import opened Machine
  import opened Malloc
  import opened Sequences

  /** The data part of a block. */
  function Data(b: Block): int { b.at + HEADER }

  /** `p` is the address of a byte that some caller may store to. */
  ghost predicate InData(blocks: seq<Block>, p: int) { exists b :: b in blocks && Data(b) <= p < b.End() }

  /** A block's first cell holds its size, and nothing has been written above the break. */
  ghost predicate MemoryOk(mem: map<int, int>, blocks: seq<Block>, brk: int) {
    && (forall b :: b in blocks ==> b.at in mem && mem[b.at] == b.size)
    && (forall a :: a in mem ==> a < brk)
  }

  /** What a byte holds; pages come from the kernel cleared. */
  function Byte(mem: map<int, int>, a: int): int { if a in mem then mem[a] else 0 }

  /** The `n` bytes from address `p` on. */
  function Bytes(mem: map<int, int>, p: int, n: nat): (s: seq<int>)
    ensures |s| == n
  {
    seq(n, i requires 0 <= i < n => Byte(mem, p + i))
  }

  function Contents(mem: map<int, int>, b: Block): seq<int> {
    if b.size >= 0 then Bytes(mem, Data(b), b.size) else []
  }

  /** The two memories agree outside the addresses from `lo` to `hi`. */
  ghost predicate SameOutside(mem: map<int, int>, mem': map<int, int>, lo: int, hi: int) {
    forall a :: a < lo || hi <= a ==> (a in mem <==> a in mem') && (a in mem ==> mem[a] == mem'[a])
  }

  lemma SameContents(mem: map<int, int>, mem': map<int, int>, lo: int, hi: int, b: Block)
    requires SameOutside(mem, mem', lo, hi) && (b.End() <= lo || hi <= b.at)
    ensures Contents(mem', b) == Contents(mem, b)
  {
    forall i | 0 <= i < b.size
      ensures Contents(mem', b)[i] == Contents(mem, b)[i]
    {
      assert Byte(mem', Data(b) + i) == Byte(mem, Data(b) + i);
    }
  }

  lemma OneMoreByte(mem: map<int, int>, p: int, n: nat, v: int)
    ensures Bytes(mem[p + n := v], p, n + 1) == Bytes(mem, p, n) + [v]
  {
    var more := mem[p + n := v];
    forall i | 0 <= i < n + 1
      ensures Bytes(more, p, n + 1)[i] == (Bytes(mem, p, n) + [v])[i]
    {
      assert Byte(more, p + i) == if i < n then Byte(mem, p + i) else v;
    }
  }

  /** Each byte has its address; a header is one cell at the address where it starts. */
  class Process {
    var brk: int
    var mem: map<int, int>
    const from: int          // the break at the start; the kernel keeps it between this
    const limit: int         // and that
    ghost var blocks: seq<Block>

    ghost predicate Valid()
      reads this
    {
      0 <= from <= brk <= limit < TWO_63 && Tiles(blocks, from, brk) && MemoryOk(mem, blocks, brk)
    }

    constructor (brk: int, limit: int)
      requires 0 <= brk <= limit < TWO_63
      ensures Valid() && blocks == [] && this.brk == from == brk && this.limit == limit
    {
      this.brk, this.limit, from := brk, limit, brk;
      mem, blocks := map[], [];
    }

    /** The brk system call: moves the break or leaves it, and returns where it is. */
    method Brk(to: UIntMax) returns (now: int)
      modifies this`brk
      ensures brk == now == if from <= to <= limit then to else old(brk)
    {
      if from <= to <= limit {
        brk := to;
      }
      now := brk;
    }

    /** The sum is one of uint64_t. None stands for (void *)-1. */
    method Sbrk(increment: IntMax) returns (ret: Option<int>)
      modifies this`brk
      ensures var next := (old(brk) + increment) % TWO_64;
        if increment == 0 || next == old(brk) then ret == Some(old(brk)) && brk == old(brk)
        else if from <= next <= limit then ret == Some(old(brk)) && brk == next
        else ret == None && brk == old(brk)
    {
      var cur := brk;
      if increment == 0 {
        return Some(cur);
      }
      var next := (cur + increment) % TWO_64;
      var actual := Brk(next);
      if next != actual {
        return None;
      }
      return Some(cur);
    }

    /**
      * Fails on size 0 and when the kernel refuses, changing nothing; else adds a cleared block above all others,
      * behind the 8 bytes of its metadata.
      */
    method Allocate(size: SizeT) returns (ptr: Option<int>)
      requires Valid() && Small(size, from, limit)
      modifies this
      ensures Valid()
      ensures ptr.Some? <==> size > 0 && old(brk) + 8 + size <= limit
      ensures ptr.None? ==> brk == old(brk) && mem == old(mem) && blocks == old(blocks)
      ensures ptr.Some? ==> blocks == old(blocks) + [Block(old(brk), size)] && ptr.value == old(brk) + 8
      ensures ptr.Some? ==> mem == old(mem)[old(brk) := size] && brk == old(brk) + 8 + size
    {
      if size == 0 {
        return None;
      }
      SmallTarget(size, from, limit, brk);
      hide Increment, Small;
      var ret := Sbrk(Increment(size));
      if ret.None? {
        return None;
      }
      NewTile(blocks, from, ret.value, size);
      TilesAreApart(blocks, from, ret.value);
      mem := mem[ret.value := size];
      blocks := blocks + [Block(ret.value, size)];
      return Some(ret.value + HEADER);
    }

    /** A caller's store into a block it was given. */
    method Store(p: int, v: int)
      requires Valid() && InData(blocks, p)
      modifies this`mem
      ensures Valid() && mem == old(mem)[p := v]
    {
      DataIsNoHeader(blocks, from, brk, p);
      mem := mem[p := v];
    }

    /** memcpy into a block from below it. */
    method Copy(dest: int, src: int, count: nat, ghost b: Block)
      requires Valid() && b in blocks && dest == Data(b) && count <= b.size && src + count <= dest
      modifies this`mem
      ensures Valid() && SameOutside(old(mem), mem, dest, dest + count)
      ensures Bytes(mem, dest, count) == Bytes(old(mem), src, count)
    {
      hide Bytes, Byte;
      assert Bytes(mem, dest, 0) == [];
      for i := 0 to count
        invariant Valid() && SameOutside(old(mem), mem, dest, dest + i)
        invariant Bytes(mem, dest, i) == Bytes(old(mem), src, i)
      {
        OneMoreByte(mem, dest, i, Byte(mem, src + i));
        LastByte(old(mem), src, i);
        SameByte(old(mem), mem, dest, dest + i, src + i);
        Store(dest + i, Byte(mem, src + i));
      }
    }

    method Memset(dest: int, ch: int, count: nat, ghost b: Block)
      requires Valid() && b in blocks && dest == Data(b) && count <= b.size
      modifies this`mem
      ensures Valid() && SameOutside(old(mem), mem, dest, dest + count)
      ensures Bytes(mem, dest, count) == seq(count, _ => ch % 256)
    {
      hide Bytes, Byte;
      assert Bytes(mem, dest, 0) == [];
      for i := 0 to count
        invariant Valid() && SameOutside(old(mem), mem, dest, dest + i)
        invariant Bytes(mem, dest, i) == seq(i, _ => ch % 256)
      {
        OneMoreByte(mem, dest, i, ch % 256);
        Store(dest + i, ch % 256);
        assert Bytes(mem, dest, i + 1) == seq(i + 1, _ => ch % 256);
      }
    }

    /**
      * Gives a new block holding the first min(old, new) bytes and leaves every block there was as it is, the old one
      * too; fails like malloc, changing nothing.
      */
    method Realloc(ptr: Option<int>, newSize: SizeT, ghost c: Block) returns (newPtr: Option<int>)
      requires Valid() && Small(newSize, from, limit)
      requires ptr.Some? ==> c in blocks && ptr.value == Data(c)
      modifies this
      ensures Valid()
      ensures newPtr.Some? <==> newSize > 0 && old(brk) + HEADER + newSize <= limit
      ensures newPtr.None? ==> brk == old(brk) && mem == old(mem) && blocks == old(blocks)
      ensures var b := Block(old(brk), newSize);
        newPtr.Some? ==>
          && newPtr.value == Data(b) && blocks == old(blocks) + [b]
          && (forall o :: o in old(blocks) ==> Contents(mem, o) == Contents(old(mem), o))
          && Contents(mem, b) == Resized(if ptr.None? then [] else Contents(old(mem), c), newSize)
    {
      hide Bytes, Byte, Contents, Resized;
      newPtr := Allocate(newSize);
      if newPtr.None? {
        return;
      }
      ghost var b, given := Block(old(brk), newSize), mem;
      FreshBlock(old(mem), old(blocks), from, b);
      if ptr.None? {
        return;
      }
      TilesAreApart(old(blocks), from, old(brk));
      SameContents(old(mem), mem, b.at, b.End(), c);
      var oldMeta := ptr.value - HEADER;
      var oldSize := mem[oldMeta];
      var minSize := if oldSize < newSize then oldSize else newSize;
      Copy(newPtr.value, ptr.value, minSize, b);
      CopiedBlock(given, mem, b, c, minSize);
      forall o | o in old(blocks)
        ensures Contents(mem, o) == Contents(old(mem), o)
      {
        SameContents(given, mem, Data(b), Data(b) + minSize, o);
      }
    }

    /** The block is all zero although memset is asked to fill no bytes: the kernel's pages are still clear. */
    method Calloc(num: SizeT, size: SizeT) returns (ptr: Option<int>)
      requires Valid() && Small(num * size % TWO_64, from, limit)
      modifies this
      ensures Valid()
      ensures var sz := num * size % TWO_64; ptr.Some? <==> sz > 0 && old(brk) + HEADER + sz <= limit
      ensures ptr.None? ==> brk == old(brk) && mem == old(mem) && blocks == old(blocks)
      ensures var b := Block(old(brk), num * size % TWO_64);
        ptr.Some? ==>
          && ptr.value == Data(b) && blocks == old(blocks) + [b]
          && (forall o :: o in old(blocks) ==> Contents(mem, o) == Contents(old(mem), o))
          && Contents(mem, b) == Zeros(b.size)
    {
      hide Bytes, Byte, Contents;
      var sz := num * size % TWO_64;
      ptr := Allocate(sz);
      if ptr.None? {
        return;
      }
      ghost var b, given := Block(old(brk), sz), mem;
      FreshBlock(old(mem), old(blocks), from, b);
      Memset(ptr.value, size, 0, b);
      UntouchedBlocks(given, mem, Data(b), blocks, from, brk);
    }
  }

  /** `s` cut or filled with zeros to `n` elements. */
  function Resized(s: seq<int>, n: nat): seq<int> {
    if n <= |s| then s[..n] else s + Zeros(n - |s|)
  }

  /** A block added at the break changes none of the others and is all zero. */
  lemma FreshBlock(mem: map<int, int>, blocks: seq<Block>, from: int, b: Block)
    requires Tiles(blocks, from, b.at) && MemoryOk(mem, blocks, b.at) && b.size > 0
    ensures var mem' := mem[b.at := b.size];
      && SameOutside(mem, mem', b.at, b.End())
      && Contents(mem', b) == Zeros(b.size) == Resized([], b.size)
      && forall o :: o in blocks ==> Contents(mem', o) == Contents(mem, o)
  {
    var mem' := mem[b.at := b.size];
    TilesAreApart(blocks, from, b.at);
    forall o | o in blocks
      ensures Contents(mem', o) == Contents(mem, o)
    {
      hide Contents;
      SameContents(mem, mem', b.at, b.End(), o);
    }
    forall i | 0 <= i < b.size
      ensures Contents(mem', b)[i] == 0
    {
      assert Byte(mem', Data(b) + i) == 0;
    }
  }

  /** A change to no bytes changes no block. */
  lemma UntouchedBlocks(mem: map<int, int>, mem': map<int, int>, at: int, blocks: seq<Block>, from: int, to: int)
    requires Tiles(blocks, from, to) && SameOutside(mem, mem', at, at)
    ensures forall o :: o in blocks ==> Contents(mem', o) == Contents(mem, o)
  {
    hide Contents;
    TilesAreApart(blocks, from, to);
    forall o | o in blocks
      ensures Contents(mem', o) == Contents(mem, o)
    {
      SameContents(mem, mem', to, to, o);
    }
  }

  /** Copying the start of `c` over the start of a cleared `b` resizes the contents. */
  lemma CopiedBlock(mem: map<int, int>, mem': map<int, int>, b: Block, c: Block, n: nat)
    requires b.size > 0 && c.size > 0 && n == Min(b.size, c.size)
    requires SameOutside(mem, mem', Data(b), Data(b) + n)
    requires Contents(mem, b) == Zeros(b.size)
    requires Bytes(mem', Data(b), n) == Bytes(mem, Data(c), n)
    ensures Contents(mem', b) == Resized(Contents(mem, c), b.size)
  {
    forall i | 0 <= i < b.size
      ensures Contents(mem', b)[i] == Resized(Contents(mem, c), b.size)[i]
    {
      if i < n {
        assert Bytes(mem', Data(b), n)[i] == Bytes(mem, Data(c), n)[i];
      } else {
        assert Byte(mem', Data(b) + i) == Byte(mem, Data(b) + i);
        assert Contents(mem, b)[i] == 0;
      }
    }
  }

  lemma LastByte(mem: map<int, int>, p: int, n: nat)
    ensures Bytes(mem, p, n + 1) == Bytes(mem, p, n) + [Byte(mem, p + n)]
  {
  }

  lemma SameByte(mem: map<int, int>, mem': map<int, int>, lo: int, hi: int, a: int)
    requires SameOutside(mem, mem', lo, hi) && (a < lo || hi <= a)
    ensures Byte(mem, a) == Byte(mem', a)
  {
  }

  lemma DataIsNoHeader(blocks: seq<Block>, from: int, to: int, p: int)
    requires Tiles(blocks, from, to) && InData(blocks, p)
    ensures p < to && forall b :: b in blocks ==> b.at != p
  {
    TilesAreApart(blocks, from, to);
    var c :| c in blocks && Data(c) <= p < c.End();
    forall b | b in blocks
      ensures b.at != p
    {
      if b != c {
        ElementsAreApart(blocks, from, to, b, c);
      }
    }
  }
}
