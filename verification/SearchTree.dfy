/** The pointer binary search tree of tsearch, tfind, tdelete and twalk (src/search.c:197-319). */
module SearchTree {

  class BNode<K> {
    const val: K
    var l: BNode?<K>
    var r: BNode?<K>

    constructor (key: K)
      ensures val == key && l == null && r == null
    {
      val, l, r := key, null, null;
    }
  }

  /** The shape of a tree, with the nodes that make it up. */
  datatype Tree<K> = Leaf | Node(l: Tree<K>, n: BNode<K>, r: Tree<K>)

  ghost function Nodes<K>(t: Tree<K>): set<BNode<K>> {
    match t
    case Leaf => {}
    case Node(l, n, r) => Nodes(l) + {n} + Nodes(r)
  }

  ghost function Inorder<K>(t: Tree<K>): seq<BNode<K>> {
    match t
    case Leaf => []
    case Node(l, n, r) => Inorder(l) + [n] + Inorder(r)
  }

  /** The links that start at `p` form the shape `t`. */
  ghost predicate Matches<K>(p: BNode?<K>, t: Tree<K>)
    reads Nodes(t)
    decreases t
  {
    match t
    case Leaf => p == null
    case Node(l, n, r) => p == n && Matches(n.l, l) && Matches(n.r, r)
  }

  /** Whatever is linked from an existing node exists. */
  lemma {:induction false} MatchedIsAllocated<K>(p: BNode?<K>, t: Tree<K>)
    requires Matches(p, t)
    ensures forall m :: m in Nodes(t) ==> allocated(m)
    decreases t
  {
    if t.Node? {
      MatchedIsAllocated(t.n.l, t.l);
      MatchedIsAllocated(t.n.r, t.r);
    }
  }

  /** No node occurs twice. */
  ghost predicate Unshared<K>(t: Tree<K>) {
    match t
    case Leaf => true
    case Node(l, n, r) => n !in Nodes(l) && n !in Nodes(r) && Nodes(l) !! Nodes(r) && Unshared(l) && Unshared(r)
  }

  // ----- Comparators and order -----

  function Sign(x: int): int { if x < 0 then -1 else if x > 0 then 1 else 0 }

  /** What tsearch asks of its comparator. */
  ghost predicate TotalOrder<K(!new)>(cmp: (K, K) -> int) {
    && (forall a, b :: Sign(cmp(a, b)) == -Sign(cmp(b, a)))
    && (forall a, b, c :: cmp(a, b) <= 0 && cmp(b, c) <= 0 ==> cmp(a, c) <= 0)
  }

  lemma Opposite<K(!new)>(cmp: (K, K) -> int, a: K, b: K)
    requires TotalOrder(cmp)
    ensures Sign(cmp(a, b)) == -Sign(cmp(b, a))
  {
  }

  lemma Transitive<K(!new)>(cmp: (K, K) -> int, a: K, b: K, c: K)
    requires TotalOrder(cmp) && cmp(a, b) <= 0 && cmp(b, c) <= 0
    ensures cmp(a, c) <= 0 && (cmp(a, b) < 0 || cmp(b, c) < 0 ==> cmp(a, c) < 0)
    ensures cmp(c, a) >= 0 && (cmp(a, b) < 0 || cmp(b, c) < 0 ==> cmp(c, a) > 0)
  {
    assert Sign(cmp(a, c)) == -Sign(cmp(c, a));
    if cmp(c, a) <= 0 {
      assert cmp(b, a) <= 0 && cmp(c, b) <= 0;
      assert Sign(cmp(a, b)) == -Sign(cmp(b, a)) && Sign(cmp(b, c)) == -Sign(cmp(c, b));
    }
  }

  /** Every left subtree holds smaller keys and every right subtree larger ones. */
  ghost predicate Ordered<K(!new)>(t: Tree<K>, cmp: (K, K) -> int) {
    match t
    case Leaf => true
    case Node(l, n, r) =>
      && (forall m :: m in Nodes(l) ==> cmp(m.val, n.val) < 0)
      && (forall m :: m in Nodes(r) ==> cmp(n.val, m.val) < 0)
      && Ordered(l, cmp) && Ordered(r, cmp)
  }

  /** Any key on the left is smaller than any key on the right. */
  lemma LeftBelowRight<K(!new)>(t: Tree<K>, cmp: (K, K) -> int)
    requires TotalOrder(cmp) && t.Node? && Ordered(t, cmp)
    ensures forall m, m' :: m in Nodes(t.l) && m' in Nodes(t.r) ==> cmp(m.val, m'.val) < 0
  {
    forall m, m' | m in Nodes(t.l) && m' in Nodes(t.r)
      ensures cmp(m.val, m'.val) < 0
    {
      Transitive(cmp, m.val, t.n.val, m'.val);
    }
  }

  lemma Irreflexive<K(!new)>(cmp: (K, K) -> int, a: K)
    requires TotalOrder(cmp)
    ensures cmp(a, a) == 0
  {
    Opposite(cmp, a, a);
  }

  /** Order leaves no room for sharing. */
  lemma {:induction false} OrderedIsUnshared<K(!new)>(t: Tree<K>, cmp: (K, K) -> int)
    requires TotalOrder(cmp) && Ordered(t, cmp)
    ensures Unshared(t)
  {
    hide TotalOrder;
    if t.Node? {
      LeftBelowRight(t, cmp);
      OrderedIsUnshared(t.l, cmp);
      OrderedIsUnshared(t.r, cmp);
      forall m | m in Nodes(t.l) && m in Nodes(t.r)
        ensures false
      {
        Irreflexive(cmp, m.val);
      }
      Irreflexive(cmp, t.n.val);
    }
  }

  // ----- The operations on shapes -----

  ghost function Find<K>(t: Tree<K>, key: K, cmp: (K, K) -> int): BNode?<K> {
    match t
    case Leaf => null
    case Node(l, n, r) =>
      if cmp(key, n.val) == 0 then n
      else if cmp(key, n.val) < 0 then Find(l, key, cmp)
      else Find(r, key, cmp)
  }

  /** The last node before the place of `key`; `p` is the one above the whole tree. */
  ghost function ParentOf<K>(t: Tree<K>, p: BNode?<K>, key: K, cmp: (K, K) -> int): BNode?<K> {
    match t
    case Leaf => p
    case Node(l, n, r) =>
      if cmp(key, n.val) == 0 then p
      else if cmp(key, n.val) < 0 then ParentOf(l, n, key, cmp)
      else ParentOf(r, n, key, cmp)
  }

  /** Hangs the node `x` where the search for its key ends. */
  ghost function Insert<K>(t: Tree<K>, x: BNode<K>, cmp: (K, K) -> int): Tree<K> {
    match t
    case Leaf => Node(Leaf, x, Leaf)
    case Node(l, n, r) =>
      if cmp(x.val, n.val) == 0 then t
      else if cmp(x.val, n.val) < 0 then Node(Insert(l, x, cmp), n, r)
      else Node(l, n, Insert(r, x, cmp))
  }

  /** Hangs `r` under the rightmost node of `l`. */
  ghost function Hang<K>(l: Tree<K>, r: Tree<K>): Tree<K> {
    match l
    case Leaf => r
    case Node(ll, n, lr) => Node(ll, n, Hang(lr, r))
  }

  ghost function Splice<K>(l: Tree<K>, r: Tree<K>): Tree<K> {
    if l.Leaf? then r else if r.Leaf? then l else Hang(l, r)
  }

  ghost function Delete<K>(t: Tree<K>, key: K, cmp: (K, K) -> int): Tree<K> {
    match t
    case Leaf => Leaf
    case Node(l, n, r) =>
      if cmp(key, n.val) == 0 then Splice(l, r)
      else if cmp(key, n.val) < 0 then Node(Delete(l, key, cmp), n, r)
      else Node(l, n, Delete(r, key, cmp))
  }

  // ----- What they mean for the sequence of nodes -----

  /** `key` is equal to the key of a node in the tree. */
  ghost predicate Member<K>(t: Tree<K>, key: K, cmp: (K, K) -> int) {
    exists n :: n in Nodes(t) && cmp(key, n.val) == 0
  }

  /** The search finds a node with the key exactly when there is one, and no other node has the key. */
  lemma {:induction false} FindIsMembership<K(!new)>(t: Tree<K>, key: K, cmp: (K, K) -> int)
    requires TotalOrder(cmp) && Ordered(t, cmp)
    ensures Find(t, key, cmp) == null <==> !Member(t, key, cmp)
    ensures Find(t, key, cmp) != null ==> Find(t, key, cmp) in Nodes(t) && cmp(key, Find(t, key, cmp).val) == 0
    ensures forall n :: n in Nodes(t) && cmp(key, n.val) == 0 ==> n == Find(t, key, cmp)
  {
    hide TotalOrder;
    if t.Node? {
      FindIsMembership(t.l, key, cmp);
      FindIsMembership(t.r, key, cmp);
      forall n | n in Nodes(t) && cmp(key, n.val) == 0
        ensures n == Find(t, key, cmp)
      {
        if n in Nodes(t.l) {
          Transitive(cmp, key, n.val, t.n.val);
        } else if n in Nodes(t.r) {
          Opposite(cmp, key, n.val);
          Transitive(cmp, t.n.val, n.val, key);
        }
      }
    }
  }

  /** Inserting an absent key adds its node and keeps the order. */
  lemma {:induction false} InsertOrdered<K(!new)>(t: Tree<K>, x: BNode<K>, cmp: (K, K) -> int)
    requires TotalOrder(cmp) && Ordered(t, cmp) && Find(t, x.val, cmp) == null
    ensures Nodes(Insert(t, x, cmp)) == Nodes(t) + {x}
    ensures Ordered(Insert(t, x, cmp), cmp)
  {
    hide TotalOrder;
    if t.Node? {
      if cmp(x.val, t.n.val) < 0 {
        InsertOrdered(t.l, x, cmp);
      } else {
        Opposite(cmp, x.val, t.n.val);
        InsertOrdered(t.r, x, cmp);
      }
    }
  }

  /** Hanging a tree of larger keys under the maximum keeps the order. */
  lemma {:induction false} HangOrdered<K(!new)>(l: Tree<K>, r: Tree<K>, cmp: (K, K) -> int)
    requires Ordered(l, cmp) && Ordered(r, cmp)
    requires forall m, m' :: m in Nodes(l) && m' in Nodes(r) ==> cmp(m.val, m'.val) < 0
    ensures Ordered(Hang(l, r), cmp)
  {
    if l.Node? {
      HangNodes(l.r, r);
    }
    if l.Node? {
      HangOrdered(l.r, r, cmp);
    }
  }

  lemma {:induction false} FindInNodes<K>(t: Tree<K>, key: K, cmp: (K, K) -> int)
    ensures Find(t, key, cmp) != null ==> Find(t, key, cmp) in Nodes(t)
  {
    if t.Node? {
      FindInNodes(t.l, key, cmp);
      FindInNodes(t.r, key, cmp);
    }
  }

  lemma {:induction false} HangNodes<K>(l: Tree<K>, r: Tree<K>)
    ensures Nodes(Hang(l, r)) == Nodes(l) + Nodes(r)
  {
    if l.Node? {
      HangNodes(l.r, r);
    }
  }

  /** Deleting removes exactly the node that the search finds. */
  lemma {:induction false} DeleteNodes<K>(t: Tree<K>, key: K, cmp: (K, K) -> int)
    requires Unshared(t)
    ensures forall m :: m in Nodes(Delete(t, key, cmp)) <==> m in Nodes(t) && m != Find(t, key, cmp)
  {
    if t.Node? {
      if cmp(key, t.n.val) == 0 {
        HangNodes(t.l, t.r);
      } else if cmp(key, t.n.val) < 0 {
        FindInNodes(t.l, key, cmp);
        DeleteNodes(t.l, key, cmp);
      } else {
        FindInNodes(t.r, key, cmp);
        DeleteNodes(t.r, key, cmp);
      }
    }
  }

  lemma {:induction false} DeleteKeepsNoOther<K>(t: Tree<K>, key: K, cmp: (K, K) -> int)
    ensures forall m :: m in Nodes(Delete(t, key, cmp)) ==> m in Nodes(t)
  {
    if t.Node? {
      HangNodes(t.l, t.r);
      DeleteKeepsNoOther(t.l, key, cmp);
      DeleteKeepsNoOther(t.r, key, cmp);
    }
  }

  /** Deleting keeps the order. */
  lemma {:induction false} DeleteOrdered<K(!new)>(t: Tree<K>, key: K, cmp: (K, K) -> int)
    requires TotalOrder(cmp) && Ordered(t, cmp)
    ensures Ordered(Delete(t, key, cmp), cmp)
  {
    hide TotalOrder;
    if t.Node? {
      if cmp(key, t.n.val) == 0 {
        LeftBelowRight(t, cmp);
        HangOrdered(t.l, t.r, cmp);
      } else if cmp(key, t.n.val) < 0 {
        DeleteKeepsNoOther(t.l, key, cmp);
        DeleteOrdered(t.l, key, cmp);
      } else {
        DeleteKeepsNoOther(t.r, key, cmp);
        DeleteOrdered(t.r, key, cmp);
      }
    }
  }

  lemma {:induction false} HangInorder<K>(l: Tree<K>, r: Tree<K>)
    ensures Inorder(Hang(l, r)) == Inorder(l) + Inorder(r)
  {
    if l.Node? {
      HangInorder(l.r, r);
    }
  }

  function Without<T>(s: seq<T>, k: nat): seq<T>
    requires k < |s|
  {
    s[..k] + s[k + 1..]
  }

  lemma WithoutLeft<T>(a: seq<T>, n: T, b: seq<T>, k: nat)
    requires k < |a|
    ensures (a + [n] + b)[k] == a[k] && Without(a + [n] + b, k) == Without(a, k) + [n] + b
  {
  }

  lemma WithoutMiddle<T>(a: seq<T>, n: T, b: seq<T>)
    ensures (a + [n] + b)[|a|] == n && Without(a + [n] + b, |a|) == a + b
  {
  }

  lemma WithoutRight<T>(a: seq<T>, n: T, b: seq<T>, k: nat)
    requires k < |b|
    ensures (a + [n] + b)[|a| + 1 + k] == b[k] && Without(a + [n] + b, |a| + 1 + k) == a + [n] + Without(b, k)
  {
  }

  /** Deleting takes one node out of the sequence and leaves the others where they were. */
  lemma {:induction false} DeleteInorder<K>(t: Tree<K>, key: K, cmp: (K, K) -> int) returns (k: nat)
    requires Find(t, key, cmp) != null
    ensures k < |Inorder(t)| && Inorder(t)[k] == Find(t, key, cmp)
    ensures Inorder(Delete(t, key, cmp)) == Without(Inorder(t), k)
  {
    var a, b := Inorder(t.l), Inorder(t.r);
    hide Without;
    if cmp(key, t.n.val) == 0 {
      k := |a|;
      HangInorder(t.l, t.r);
      WithoutMiddle(a, t.n, b);
    } else if cmp(key, t.n.val) < 0 {
      k := DeleteInorder(t.l, key, cmp);
      WithoutLeft(a, t.n, b, k);
    } else {
      k := DeleteInorder(t.r, key, cmp);
      WithoutRight(a, t.n, b, k);
      k := |a| + 1 + k;
    }
  }

  // ----- Runs -----

  /** tsearch with the node that it would add, or tdelete. */
  datatype Op<K> = Search(x: BNode<K>) | Remove(key: K)

  ghost function Apply<K>(t: Tree<K>, op: Op<K>, cmp: (K, K) -> int): Tree<K> {
    match op
    case Search(x) => if Find(t, x.val, cmp) == null then Insert(t, x, cmp) else t
    case Remove(key) => Delete(t, key, cmp)
  }

  ghost function Run<K>(ops: seq<Op<K>>, cmp: (K, K) -> int): Tree<K> {
    if ops == [] then Leaf else Apply(Run(ops[..|ops| - 1], cmp), ops[|ops| - 1], cmp)
  }

  /** The set that a run describes: inserted and not deleted since. */
  ghost predicate InSet<K>(ops: seq<Op<K>>, key: K, cmp: (K, K) -> int) {
    ops != [] &&
    var before := InSet(ops[..|ops| - 1], key, cmp);
    match ops[|ops| - 1]
    case Search(x) => before || cmp(key, x.val) == 0
    case Remove(k) => before && cmp(key, k) != 0
  }

  lemma EqualKeys<K(!new)>(cmp: (K, K) -> int, a: K, b: K, c: K)
    requires TotalOrder(cmp) && cmp(a, b) == 0
    ensures cmp(a, c) == 0 <==> cmp(b, c) == 0
  {
    hide TotalOrder;
    Opposite(cmp, a, b);
    Opposite(cmp, a, c);
    Opposite(cmp, b, c);
    if cmp(b, c) == 0 {
      Transitive(cmp, a, b, c);
      Transitive(cmp, c, b, a);
    }
    if cmp(a, c) == 0 {
      Transitive(cmp, b, a, c);
      Transitive(cmp, c, a, b);
    }
  }

  lemma ApplyMember<K(!new)>(t: Tree<K>, op: Op<K>, key: K, cmp: (K, K) -> int)
    requires TotalOrder(cmp) && Ordered(t, cmp)
    ensures Ordered(Apply(t, op, cmp), cmp)
    ensures Member(Apply(t, op, cmp), key, cmp) <==>
      match op case Search(x) => Member(t, key, cmp) || cmp(key, x.val) == 0
      case Remove(k) => Member(t, key, cmp) && cmp(key, k) != 0
  {
    hide TotalOrder;
    match op {
      case Search(x) =>
        FindIsMembership(t, x.val, cmp);
        if Find(t, x.val, cmp) == null {
          InsertOrdered(t, x, cmp);
          assert x in Nodes(Insert(t, x, cmp));
        } else if cmp(key, x.val) == 0 {
          EqualKeys(cmp, key, x.val, Find(t, x.val, cmp).val);
        }
      case Remove(k) =>
        DeleteOrdered(t, k, cmp);
        OrderedIsUnshared(t, cmp);
        DeleteNodes(t, k, cmp);
        FindIsMembership(t, k, cmp);
        FindIsMembership(t, key, cmp);
        var found := Find(t, k, cmp);
        forall n | n in Nodes(t) && cmp(key, n.val) == 0
          ensures cmp(key, k) == 0 <==> n == found
          ensures n in Nodes(Delete(t, k, cmp)) <==> n != found
        {
          EqualKeys(cmp, key, n.val, k);
          Opposite(cmp, k, n.val);
          if found != null && n == found {
            assert cmp(k, n.val) == 0;
          }
        }
        if Member(Delete(t, k, cmp), key, cmp) {
          var n :| n in Nodes(Delete(t, k, cmp)) && cmp(key, n.val) == 0;
          assert n in Nodes(t) && n != found;
        }
        if Member(t, key, cmp) {
          var n :| n in Nodes(t) && cmp(key, n.val) == 0;
          assert n in Nodes(Delete(t, k, cmp)) <==> cmp(key, k) != 0;
        }
    }
  }

  /** After every run the tree is ordered and unshared, and its keys are those inserted and not deleted since. */
  lemma {:induction false} RunIsSet<K(!new)>(ops: seq<Op<K>>, key: K, cmp: (K, K) -> int)
    requires TotalOrder(cmp)
    ensures Ordered(Run(ops, cmp), cmp) && Unshared(Run(ops, cmp))
    ensures Find(Run(ops, cmp), key, cmp) != null <==> InSet(ops, key, cmp)
  {
    hide TotalOrder;
    if ops != [] {
      RunIsSet(ops[..|ops| - 1], key, cmp);
      FindIsMembership(Run(ops[..|ops| - 1], cmp), key, cmp);
      ApplyMember(Run(ops[..|ops| - 1], cmp), ops[|ops| - 1], key, cmp);
    }
    OrderedIsUnshared(Run(ops, cmp), cmp);
    FindIsMembership(Run(ops, cmp), key, cmp);
  }
}
