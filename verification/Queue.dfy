/** Intrusive doubly linked lists, linear and circular: insque and remque (src/search.c:150-174). */
module Queue {
  import opened Machine
  import opened Sequences

  class Link {
    var next: Link?
    var prev: Link?
  }

  /** The successor and predecessor of the element at `i`: NULL at the ends, or going round. */
  ghost function After(s: seq<Link>, i: int, circular: bool): Link? {
    if 0 <= i < |s| - 1 then s[i + 1] else if circular && |s| > 0 then s[0] else null
  }

  ghost function Before(s: seq<Link>, i: int, circular: bool): Link? {
    if 0 < i < |s| then s[i - 1] else if circular && |s| > 0 then s[|s| - 1] else null
  }

  /** The links of `s` lead forth and back in its order. */
  ghost predicate Linked(s: seq<Link>, circular: bool)
    reads s
  {
    && Distinct(s)
    && (forall i :: 0 <= i < |s| ==> s[i].next == After(s, i, circular) && s[i].prev == Before(s, i, circular))
  }

  // ----- Lists as sequences -----

  ghost function IndexOf<T>(s: seq<T>, x: T): (k: nat)
    requires x in s
    ensures k < |s| && s[k] == x
  {
    if s[0] == x then 0 else 1 + IndexOf(s[1..], x)
  }

  ghost function InsertAfter<T>(s: seq<T>, p: T, e: T): seq<T>
    requires p in s
  {
    var k := IndexOf(s, p);
    s[..k + 1] + [e] + s[k + 1..]
  }

  ghost function Remove<T>(s: seq<T>, e: T): seq<T>
    requires e in s
  {
    var k := IndexOf(s, e);
    s[..k] + s[k + 1..]
  }

  /** Where the element at `i` is once another stands at `k + 1`. */
  ghost function At(i: int, k: int): int { if i <= k then i else i + 1 }

  ghost predicate Inserted<T>(s: seq<T>, t: seq<T>, k: nat, e: T) {
    && k < |s|
    && |t| == |s| + 1
    && Distinct(s) && e !in s
    && (forall i :: 0 <= i < |s| ==> t[At(i, k)] == s[i])
    && t[k + 1] == e
  }

  /** `t` is `s` without its element at `k`. */
  ghost predicate Removed<T>(s: seq<T>, t: seq<T>, k: nat) {
    && k < |s|
    && |t| == |s| - 1
    && Distinct(s)
    && (forall i :: 0 <= i < |t| ==> t[i] == s[At(i, k - 1)])
  }

  lemma InsertIsInserted<T>(s: seq<T>, p: T, e: T)
    requires p in s && Distinct(s) && e !in s
    ensures Inserted(s, InsertAfter(s, p, e), IndexOf(s, p), e) && Distinct(InsertAfter(s, p, e))
  {
    var k: int, t := IndexOf(s, p), InsertAfter(s, p, e);
    assert Inserted(s, t, k, e) by {
      hide IndexOf, Distinct;
      forall i | 0 <= i < |s|
        ensures t[At(i, k)] == s[i]
      {
      }
    }
    hide IndexOf, InsertAfter;
    InsertedIsDistinct(s, t, k, e);
  }

  lemma InsertedIsDistinct<T>(s: seq<T>, t: seq<T>, k: nat, e: T)
    requires Inserted(s, t, k, e) && Distinct(s) && e !in s
    ensures Distinct(t)
  {
    forall i, j | 0 <= i < j < |t|
      ensures t[i] != t[j]
    {
      if i != k + 1 {
        OldPosition(s, t, k, e, i);
      }
      if j != k + 1 {
        OldPosition(s, t, k, e, j);
      }
    }
  }

  lemma OldPosition<T>(s: seq<T>, t: seq<T>, k: nat, e: T, j: nat)
    requires Inserted(s, t, k, e) && j < |t| && j != k + 1
    ensures t[j] == s[if j <= k then j else j - 1]
  {
    var i := if j <= k then j else j - 1;
    assert t[At(i, k)] == s[i];
  }

  lemma RemoveIsRemoved<T>(s: seq<T>, e: T)
    requires e in s && Distinct(s)
    ensures Removed(s, Remove(s, e), IndexOf(s, e)) && Distinct(Remove(s, e))
  {
    var k: int, t := IndexOf(s, e), Remove(s, e);
    forall i, j | 0 <= i < j < |t|
      ensures t[i] != t[j]
    {
      assert t[i] == s[At(i, k - 1)] && t[j] == s[At(j, k - 1)];
    }
  }

  /** Removing right after inserting restores the list. */
  lemma RemoveUndoesInsert<T>(s: seq<T>, p: T, e: T)
    requires Distinct(s) && p in s && e !in s
    ensures e in InsertAfter(s, p, e) && Remove(InsertAfter(s, p, e), e) == s
  {
    var k, t := IndexOf(s, p), InsertAfter(s, p, e);
    assert t[k + 1] == e;
    var j := IndexOf(t, e);
    assert j == k + 1 by {
      InsertIsInserted(s, p, e);
    }
  }

  lemma NextAfterInsertion(s: seq<Link>, t: seq<Link>, k: nat, e: Link, circular: bool, i: nat)
    requires Inserted(s, t, k, e) && i < |s|
    ensures After(t, At(i, k), circular) == if i == k then e else After(s, i, circular)
  {
    assert t[At(0, k)] == s[0];
    if i + 1 < |s| {
      assert t[At(i + 1, k)] == s[i + 1];
    }
  }

  lemma PrevAfterInsertion(s: seq<Link>, t: seq<Link>, k: nat, e: Link, circular: bool, i: nat)
    requires Inserted(s, t, k, e) && i < |s|
    ensures Before(t, At(i, k), circular) == if s[i] == After(s, k, circular) then e else Before(s, i, circular)
  {
    assert t[At(|s| - 1, k)] == s[|s| - 1];
    if i > 0 {
      assert t[At(i - 1, k)] == s[i - 1];
    }
  }

  lemma NewNeighbours(s: seq<Link>, t: seq<Link>, k: nat, e: Link, circular: bool)
    requires Inserted(s, t, k, e)
    ensures After(t, k + 1, circular) == After(s, k, circular) && Before(t, k + 1, circular) == s[k]
  {
    assert t[At(0, k)] == s[0] && t[At(k, k)] == s[k];
    if k + 1 < |s| {
      assert t[At(k + 1, k)] == s[k + 1];
    }
  }

  /** The links an insertion writes, at the old positions, are those of the new list. */
  lemma InsertionLinks(s: seq<Link>, t: seq<Link>, k: nat, e: Link, circular: bool)
    requires Inserted(s, t, k, e) && Distinct(t)
    requires forall i :: 0 <= i < |s| ==> s[i].next == if i == k then e else After(s, i, circular)
    requires forall i :: 0 <= i < |s| ==>
      s[i].prev == if s[i] == After(s, k, circular) then e else Before(s, i, circular)
    requires e.next == After(s, k, circular) && e.prev == s[k]
    ensures Linked(t, circular)
  {
    forall j | 0 <= j < |t|
      ensures t[j].next == After(t, j, circular) && t[j].prev == Before(t, j, circular)
    {
      hide After, Before, Distinct;
      if j != k + 1 {
        var i := if j <= k then j else j - 1;
        assert j == At(i, k);
        NextAfterInsertion(s, t, k, e, circular, i);
        PrevAfterInsertion(s, t, k, e, circular, i);
      } else {
        NewNeighbours(s, t, k, e, circular);
      }
    }
  }

  lemma NeighboursAfterRemoval(s: seq<Link>, t: seq<Link>, k: nat, circular: bool, i: nat)
    requires Removed(s, t, k) && i < |t|
    ensures After(t, i, circular) ==
      if t[i] == Before(s, k, circular) then After(s, k, circular) else After(s, At(i, k - 1), circular)
    ensures Before(t, i, circular) ==
      if t[i] == After(s, k, circular) then Before(s, k, circular) else Before(s, At(i, k - 1), circular)
  {
    assert t[0] == s[At(0, k - 1)] && t[|t| - 1] == s[At(|t| - 1, k - 1)];
    if i + 1 < |t| {
      assert t[i + 1] == s[At(i + 1, k - 1)];
    }
    if i > 0 {
      assert t[i - 1] == s[At(i - 1, k - 1)];
    }
  }

  /** The links a removal writes are those of the new list. */
  lemma RemovalLinks(s: seq<Link>, t: seq<Link>, k: nat, circular: bool)
    requires Removed(s, t, k) && Distinct(t)
    requires forall i :: 0 <= i < |s| && i != k ==>
      s[i].next == if s[i] == Before(s, k, circular) then After(s, k, circular) else After(s, i, circular)
    requires forall i :: 0 <= i < |s| && i != k ==>
      s[i].prev == if s[i] == After(s, k, circular) then Before(s, k, circular) else Before(s, i, circular)
    ensures Linked(t, circular)
  {
    forall i | 0 <= i < |t|
      ensures t[i].next == After(t, i, circular) && t[i].prev == Before(t, i, circular)
    {
      hide After, Before, Distinct;
      NeighboursAfterRemoval(s, t, k, circular, i);
      var j := At(i, k - 1);
      assert t[i] == s[j] && j != k;
    }
  }

  lemma SuccessorIs(s: seq<Link>, k: nat, circular: bool)
    requires Linked(s, circular) && k < |s|
    ensures s[k].next == After(s, k, circular) && s[k].prev == Before(s, k, circular)
    ensures s[k].next != null ==> s[k].next in s
    ensures s[k].prev != null ==> s[k].prev in s
  {
  }

  // ----- The code -----

  /** insque with a predecessor `p` in the list `s`; only `e`, `p` and the old successor are touched. */
  method Insque(e: Link, p: Link, ghost s: seq<Link>, ghost circular: bool)
    requires Linked(s, circular) && p in s && e !in s
    modifies e, p, if p.next != null then {p.next} else {}
    ensures Linked(InsertAfter(s, p, e), circular)
  {
    hide After, Before, InsertAfter, Inserted;
    ghost var k, t := IndexOf(s, p), InsertAfter(s, p, e);
    InsertIsInserted(s, p, e);
    SuccessorIs(s, k, circular);
    e.next := p.next;
    p.next := e;
    e.prev := p;
    if e.next != null {
      e.next.prev := e;
    }
    InsertionLinks(s, t, k, e, circular);
  }

  /** insque without a predecessor starts a linear list. */
  method InsqueFirst(e: Link)
    modifies e
    ensures Linked([e], false)
  {
    e.next := null;
    e.prev := null;
  }

  /** remque of a member of the list `s`; only its neighbours are touched. */
  method Remque(e: Link, ghost s: seq<Link>, ghost circular: bool)
    requires Linked(s, circular) && e in s
    modifies if e.next != null then {e.next} else {}, if e.prev != null then {e.prev} else {}
    ensures Linked(Remove(s, e), circular)
  {
    hide After, Before, Remove, Removed;
    ghost var k, t := IndexOf(s, e), Remove(s, e);
    RemoveIsRemoved(s, e);
    SuccessorIs(s, k, circular);
    if e.next != null {
      e.next.prev := e.prev;
    }
    if e.prev != null {
      e.prev.next := e.next;
    }
    RemovalLinks(s, t, k, circular);
  }

  /** Removing right after inserting puts every link of the list back, not only its order. */
  method InsqueThenRemque(e: Link, p: Link, ghost s: seq<Link>, ghost circular: bool)
    requires Linked(s, circular) && p in s && e !in s
    modifies e, s
    ensures Linked(s, circular)
    ensures forall x :: x in s ==> x.next == old(x.next) && x.prev == old(x.prev)
  {
    hide After, Before, Remove, InsertAfter;
    ghost var t := InsertAfter(s, p, e);
    SuccessorIs(s, IndexOf(s, p), circular);
    RemoveUndoesInsert(s, p, e);
    InsertStaysWithin(s, p, e, {e} + set x | x in s);
    Insque(e, p, s, circular);
    SuccessorIs(t, IndexOf(t, e), circular);
    Remque(e, t, circular);
  }

  // ----- Any run -----

  datatype Op = Put(e: Link, p: Link) | Drop(e: Link)

  /** New elements go in after a member; only members come out. */
  ghost predicate Legal(s: seq<Link>, op: Op) {
    match op
    case Put(e, p) => p in s && e !in s
    case Drop(e) => e in s
  }

  /** The list after the calls `ops`, or None if some call was not legal. */
  ghost function Run(s: seq<Link>, ops: seq<Op>): Option<seq<Link>>
    decreases |ops|
  {
    if ops == [] then Some(s)
    else if !Legal(s, ops[0]) then None
    else if ops[0].Put? then Run(InsertAfter<Link>(s, ops[0].p, ops[0].e), ops[1..])
    else Run(Remove<Link>(s, ops[0].e), ops[1..])
  }

  ghost predicate Within(s: seq<Link>, links: set<Link>) { forall i :: 0 <= i < |s| ==> s[i] in links }

  lemma InsertStaysWithin(s: seq<Link>, p: Link, e: Link, links: set<Link>)
    requires p in s && Within(s, links) && e in links
    ensures Within(InsertAfter<Link>(s, p, e), links)
  {
  }

  lemma RemoveStaysWithin(s: seq<Link>, e: Link, links: set<Link>)
    requires e in s && Within(s, links)
    ensures Within(Remove<Link>(s, e), links)
  {
  }

  /** Whatever the calls, the links spell out the list that inserting and removing on a sequence gives. */
  method Replay(ops: seq<Op>, ghost s: seq<Link>, ghost circular: bool, ghost links: set<Link>)
    requires Linked(s, circular) && Run(s, ops).Some?
    requires Within(s, links) && (forall i :: 0 <= i < |ops| ==> ops[i].e in links)
    modifies links
    ensures Linked(Run(s, ops).value, circular)
    decreases |ops|
  {
    hide After, Before, Remove, InsertAfter;
    if ops == [] {
      return;
    }
    ghost var t: seq<Link>;
    match ops[0] {
    case Put(e, p) =>
      t := InsertAfter<Link>(s, p, e);
      SuccessorIs(s, IndexOf<Link>(s, p), circular);
      Insque(e, p, s, circular);
      InsertStaysWithin(s, p, e, links);
    case Drop(e) =>
      t := Remove<Link>(s, e);
      SuccessorIs(s, IndexOf<Link>(s, e), circular);
      Remque(e, s, circular);
      RemoveStaysWithin(s, e, links);
    }
    Replay(ops[1..], t, circular, links);
  }
}
