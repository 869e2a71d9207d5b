/** tsearch, tfind and tdelete on the heap (src/search.c:197-299). */
module SearchTreeHeap {
  import opened SearchTree

  // ----- A snapshot of the links, so that states before and after an update can be compared -----

  datatype Links<!K> = Links(l: map<BNode<K>, BNode?<K>>, r: map<BNode<K>, BNode?<K>>)

  /** `Matches` on a snapshot. */
  ghost predicate Linked<K>(p: BNode?<K>, t: Tree<K>, h: Links<K>) {
    match t
    case Leaf => p == null
    case Node(l, n, r) => p == n && n in h.l && n in h.r && Linked(h.l[n], l, h) && Linked(h.r[n], r, h)
  }

  ghost predicate Covers<K>(h: Links<K>, s: set<BNode<K>>) { forall n :: n in s ==> n in h.l && n in h.r }

  /** The snapshot shows the links that the nodes of `s` have now. */
  ghost predicate Shows<K>(h: Links<K>, s: set<BNode<K>>)
    reads s
  {
    Covers(h, s) && forall n :: n in s ==> h.l[n] == n.l && h.r[n] == n.r
  }

  ghost function Snapshot<K>(s: set<BNode<K>>): (h: Links<K>)
    reads s
    ensures Shows(h, s)
  {
    Links(map n | n in s :: n.l, map n | n in s :: n.r)
  }

  lemma {:induction false} LinkedShows<K>(p: BNode?<K>, t: Tree<K>, h: Links<K>, s: set<BNode<K>>)
    requires Nodes(t) <= s && Shows(h, s)
    ensures Linked(p, t, h) <==> Matches(p, t)
    decreases t
  {
    if t.Node? {
      LinkedShows(t.n.l, t.l, h, s);
      LinkedShows(t.n.r, t.r, h, s);
    }
  }

  /** A shape whose nodes keep their links stays linked. */
  lemma {:induction false} SameLinks<K>(p: BNode?<K>, t: Tree<K>, h: Links<K>, h': Links<K>)
    requires Linked(p, t, h) && Covers(h, Nodes(t)) && Covers(h', Nodes(t))
    requires forall m :: m in Nodes(t) ==> h'.l[m] == h.l[m] && h'.r[m] == h.r[m]
    ensures Linked(p, t, h')
  {
    if t.Node? {
      SameLinks(h.l[t.n], t.l, h, h');
      SameLinks(h.r[t.n], t.r, h, h');
    }
  }

  function RootOf<K>(t: Tree<K>): BNode?<K> { match t case Leaf => null case Node(_, n, _) => n }

  // ----- Insertion -----

  lemma {:induction false} ParentInNodes<K>(t: Tree<K>, p: BNode?<K>, key: K, cmp: (K, K) -> int)
    ensures ParentOf(t, p, key, cmp) == p || ParentOf(t, p, key, cmp) in Nodes(t)
    ensures t.Node? && cmp(key, t.n.val) != 0 ==> ParentOf(t, p, key, cmp) in Nodes(t)
  {
    if t.Node? {
      ParentInNodes(t.l, t.n, key, cmp);
      ParentInNodes(t.r, t.n, key, cmp);
    }
  }

  lemma {:induction false} InsertNodes<K>(t: Tree<K>, x: BNode<K>, cmp: (K, K) -> int)
    requires Find(t, x.val, cmp) == null
    ensures Nodes(Insert(t, x, cmp)) == Nodes(t) + {x}
  {
    if t.Node? {
      if cmp(x.val, t.n.val) < 0 {
        InsertNodes(t.l, x, cmp);
      } else {
        InsertNodes(t.r, x, cmp);
      }
    }
  }

  /** Every node but `parent` keeps its links, and `parent` gets `x` on the side of `key`. */
  ghost predicate OneLinkChanged<K>(s: set<BNode<K>>, h: Links<K>, h': Links<K>, parent: BNode?<K>, key: K,
                                    x: BNode?<K>, cmp: (K, K) -> int)
  {
    && Covers(h, s) && Covers(h', s)
    && (forall m :: m in s && m != parent ==> h'.l[m] == h.l[m] && h'.r[m] == h.r[m])
    && (parent != null && parent in s ==>
          if cmp(key, parent.val) < 0 then h'.l[parent] == x && h'.r[parent] == h.r[parent]
          else h'.r[parent] == x && h'.l[parent] == h.l[parent])
  }

  /** Linking the new node at the parent gives the inserted shape. */
  lemma {:induction false} InsertLinked<K>(p: BNode<K>, t: Tree<K>, q: BNode?<K>, x: BNode<K>, cmp: (K, K) -> int,
                                           h: Links<K>, h': Links<K>)
    requires t.Node? && Linked(p, t, h) && Unshared(t) && Find(t, x.val, cmp) == null && q !in Nodes(t)
    requires Covers(h', {x}) && h'.l[x] == null && h'.r[x] == null
    requires OneLinkChanged(Nodes(t), h, h', ParentOf(t, q, x.val, cmp), x.val, x, cmp)
    ensures Linked(p, Insert(t, x, cmp), h')
  {
    ParentInNodes(t.l, t.n, x.val, cmp);
    ParentInNodes(t.r, t.n, x.val, cmp);
    assert Linked(x, Node(Leaf, x, Leaf), h');
    if cmp(x.val, t.n.val) < 0 {
      SameLinks(h.r[t.n], t.r, h, h');
      if t.l.Node? {
        InsertLinked(t.l.n, t.l, t.n, x, cmp, h, h');
      }
    } else {
      SameLinks(h.l[t.n], t.l, h, h');
      if t.r.Node? {
        InsertLinked(t.r.n, t.r, t.n, x, cmp, h, h');
      }
    }
  }

  // ----- Deletion -----

  /** The rightmost node. */
  ghost function Last<K>(t: Tree<K>): (n: BNode<K>)
    requires t.Node?
    ensures n in Nodes(t)
  {
    if t.r.Leaf? then t.n else Last(t.r)
  }

  /** Linking the right tree to the last node of the left one gives the hanging shape. */
  lemma {:induction false} HangLinked<K>(p: BNode<K>, l: Tree<K>, q: BNode?<K>, r: Tree<K>, h: Links<K>, h': Links<K>)
    requires l.Node? && Linked(p, l, h) && Unshared(l) && Linked(q, r, h')
    requires Covers(h, Nodes(l)) && Covers(h', Nodes(l))
    requires forall m :: m in Nodes(l) ==> h'.l[m] == h.l[m] && (m != Last(l) ==> h'.r[m] == h.r[m])
    requires h'.r[Last(l)] == q
    ensures Linked(p, Hang(l, r), h')
  {
    if l.r.Node? {
      HangLinked(l.r.n, l.r, q, r, h, h');
    }
    SameLinks(h.l[l.n], l.l, h, h');
  }

  /** The subtree whose root the search finds. */
  ghost function Subtree<K>(t: Tree<K>, key: K, cmp: (K, K) -> int): (sub: Tree<K>)
    ensures Find(t, key, cmp) != null ==> sub.Node? && sub.n == Find(t, key, cmp)
  {
    match t
    case Leaf => Leaf
    case Node(l, n, r) =>
      if cmp(key, n.val) == 0 then t
      else if cmp(key, n.val) < 0 then Subtree(l, key, cmp)
      else Subtree(r, key, cmp)
  }

  lemma {:induction false} SubtreeFacts<K>(t: Tree<K>, q: BNode?<K>, key: K, cmp: (K, K) -> int, h: Links<K>,
                                           p: BNode?<K>)
    requires Unshared(t) && Linked(p, t, h) && q !in Nodes(t) && Find(t, key, cmp) != null
    ensures
      var sub := Subtree(t, key, cmp);
      && Nodes(sub) <= Nodes(t) && Unshared(sub)
      && Linked(sub.n, sub, h)
      && ParentOf(t, q, key, cmp) !in Nodes(sub)
  {
    if cmp(key, t.n.val) < 0 {
      SubtreeFacts(t.l, t.n, key, cmp, h, h.l[t.n]);
    } else if cmp(key, t.n.val) > 0 {
      SubtreeFacts(t.r, t.n, key, cmp, h, h.r[t.n]);
    }
  }

  /** Replacing the found subtree by its splice, through the parent's link, gives the shape after deletion. */
  lemma {:induction false} DeleteLinked<K>(p: BNode?<K>, p': BNode?<K>, t: Tree<K>, q: BNode?<K>, key: K,
                                           cmp: (K, K) -> int, h: Links<K>, h': Links<K>)
    requires Linked(p, t, h) && Unshared(t) && Find(t, key, cmp) != null && q !in Nodes(t)
    requires Covers(h, Nodes(t)) && Covers(h', Nodes(t))
    requires
      var sub, parent := Subtree(t, key, cmp), ParentOf(t, q, key, cmp);
      && (forall m :: m in Nodes(t) && m !in Nodes(sub) && m != parent ==> h'.l[m] == h.l[m] && h'.r[m] == h.r[m])
      && (parent == q ==> Linked(p', Splice(sub.l, sub.r), h'))
      && (parent != q ==>
            && p' == p && parent in Nodes(t)
            && (if cmp(key, parent.val) < 0 then
                  Linked(h'.l[parent], Splice(sub.l, sub.r), h') && h'.r[parent] == h.r[parent]
                else Linked(h'.r[parent], Splice(sub.l, sub.r), h') && h'.l[parent] == h.l[parent]))
    ensures Linked(p', Delete(t, key, cmp), h')
  {
    ParentInNodes(t.l, t.n, key, cmp);
    ParentInNodes(t.r, t.n, key, cmp);
    if cmp(key, t.n.val) < 0 {
      SubtreeFacts(t.l, t.n, key, cmp, h, h.l[t.n]);
      SameLinks(h.r[t.n], t.r, h, h');
      DeleteLinked(h.l[t.n], h'.l[t.n], t.l, t.n, key, cmp, h, h');
    } else if cmp(key, t.n.val) > 0 {
      SubtreeFacts(t.r, t.n, key, cmp, h, h.r[t.n]);
      SameLinks(h.l[t.n], t.l, h, h');
      DeleteLinked(h.r[t.n], h'.r[t.n], t.r, t.n, key, cmp, h, h');
    }
  }

  /** The parent holds the found node on the side of the key, and not on the other side. */
  lemma {:induction false} ParentSide<K>(p: BNode?<K>, t: Tree<K>, q: BNode?<K>, key: K, cmp: (K, K) -> int,
                                         h: Links<K>)
    requires Linked(p, t, h) && Unshared(t) && Find(t, key, cmp) != null && q !in Nodes(t)
    requires Covers(h, Nodes(t))
    ensures
      var parent, cur := ParentOf(t, q, key, cmp), Find(t, key, cmp);
      parent != q ==>
        && parent in Nodes(t)
        && (if cmp(key, parent.val) < 0 then h.l[parent] == cur && h.r[parent] != cur
            else h.r[parent] == cur && h.l[parent] != cur)
  {
    FindInNodes(t, key, cmp);
    ParentInNodes(t.l, t.n, key, cmp);
    ParentInNodes(t.r, t.n, key, cmp);
    if cmp(key, t.n.val) < 0 {
      FindInNodes(t.l, key, cmp);
      ParentSide(h.l[t.n], t.l, t.n, key, cmp, h);
    } else if cmp(key, t.n.val) > 0 {
      FindInNodes(t.r, key, cmp);
      ParentSide(h.r[t.n], t.r, t.n, key, cmp, h);
    }
  }

  /** The pointer that replaces the found node. */
  ghost function Promoted<K>(sub: Tree<K>, h: Links<K>): BNode?<K>
    requires sub.Node? && Covers(h, {sub.n})
  {
    if h.l[sub.n] == null then h.r[sub.n] else h.l[sub.n]
  }

  /** The last node of the left tree takes the right tree when both exist; nothing else below changes. */
  ghost predicate Spliced<K>(sub: Tree<K>, h: Links<K>, h': Links<K>)
    requires sub.Node?
  {
    && Covers(h, Nodes(sub)) && Covers(h', Nodes(sub))
    && var both := sub.l.Node? && sub.r.Node?;
       && (forall m :: m in Nodes(sub) ==> h'.l[m] == h.l[m] && ((both && m == Last(sub.l)) || h'.r[m] == h.r[m]))
       && (both ==> h'.r[Last(sub.l)] == h.r[sub.n])
  }

  lemma SpliceLinked<K>(sub: Tree<K>, h: Links<K>, h': Links<K>)
    requires sub.Node? && Linked(sub.n, sub, h) && Unshared(sub) && Spliced(sub, h, h')
    ensures Linked(Promoted(sub, h), Splice(sub.l, sub.r), h')
  {
    SameLinks(h.r[sub.n], sub.r, h, h');
    if sub.l.Node? && sub.r.Node? {
      HangLinked(sub.l.n, sub.l, h.r[sub.n], sub.r, h, h');
    } else {
      SameLinks(h.l[sub.n], sub.l, h, h');
    }
  }

  // ----- The tree behind a root pointer -----

  class SearchRoot<K(!new)> {
    const cmp: (K, K) -> int
    var root: BNode?<K>
    // Every call of tsearch and tdelete so far.
    ghost var ops: seq<Op<K>>

    ghost function Shape(): Tree<K>
      reads this
    {
      Run(ops, cmp)
    }

    /** The heap holds the shape that the calls so far produce. */
    ghost predicate Valid()
      reads this, Nodes(Shape())
    {
      TotalOrder(cmp) && Matches(root, Shape())
    }

    constructor (cmp: (K, K) -> int)
      requires TotalOrder(cmp)
      ensures Valid() && ops == [] && this.cmp == cmp
    {
      this.cmp, root, ops := cmp, null, [];
    }

    /** The descent shared by tfind, tsearch and tdelete. */
    method FindWithParent(key: K, ghost t: Tree<K>) returns (parent: BNode?<K>, cur: BNode?<K>)
      requires Matches(root, t)
      ensures cur == Find(t, key, cmp) && parent == ParentOf(t, null, key, cmp)
      ensures Matches(root, t)
    {
      parent, cur := null, root;
      ghost var s := t;
      while cur != null
        invariant Matches(cur, s)
        invariant Find(s, key, cmp) == Find(t, key, cmp)
        invariant ParentOf(s, parent, key, cmp) == ParentOf(t, null, key, cmp)
        decreases s
      {
        var c := cmp(key, cur.val);
        if c == 0 {
          return;
        }
        parent := cur;
        if c < 0 {
          cur := cur.l;
          s := s.l;
        } else {
          cur := cur.r;
          s := s.r;
        }
      }
    }

    /** tfind answers membership in the set that the calls so far describe. */
    method Tfind(key: K) returns (node: BNode?<K>)
      requires Valid()
      ensures node != null <==> InSet(ops, key, cmp)
      ensures node != null ==> node in Nodes(Shape()) && cmp(key, node.val) == 0
    {
      RunIsSet(ops, key, cmp);
      FindIsMembership(Shape(), key, cmp);
      var parent;
      parent, node := FindWithParent(key, Shape());
    }

    /** The link to a new node: the root pointer, or the side of the parent that the comparator names. */
    method LinkNew(n: BNode<K>, parent: BNode?<K>, ghost t: Tree<K>)
      requires Matches(root, t) && Unshared(t) && Find(t, n.val, cmp) == null
      requires parent == ParentOf(t, null, n.val, cmp) && n !in Nodes(t) && n.l == null && n.r == null
      modifies this`root, Nodes(t)
      ensures Matches(root, Insert(t, n, cmp))
    {
      ghost var h := Snapshot(Nodes(t));
      LinkedShows(root, t, h, Nodes(t));
      ParentInNodes(t, null, n.val, cmp);
      if parent == null {
        root := n;
      } else {
        var c := cmp(n.val, parent.val);
        if c < 0 {
          parent.l := n;
        } else {
          parent.r := n;
        }
      }
      ghost var h' := Snapshot(Nodes(t) + {n});
      if t.Node? {
        InsertLinked(root, t, null, n, cmp, h, h');
      }
      InsertNodes(t, n, cmp);
      LinkedShows(root, Insert(t, n, cmp), h', Nodes(t) + {n});
    }

    /** tsearch; `memory` says whether the allocation would succeed. */
    method Tsearch(key: K, memory: bool) returns (node: BNode?<K>)
      requires Valid()
      modifies this, Nodes(Shape())
      ensures Valid()
      ensures node != null <==> memory || InSet(old(ops), key, cmp)
      ensures node != null ==> cmp(key, node.val) == 0 && node in Nodes(Shape())
      ensures InSet(old(ops), key, cmp) ==> ops == old(ops) && node in Nodes(old(Shape()))
      ensures !InSet(old(ops), key, cmp) && memory ==>
        fresh(node) && node.val == key && ops == old(ops) + [Search(node)]
        && Nodes(Shape()) == Nodes(old(Shape())) + {node}
      ensures node == null ==> ops == old(ops)
    {
      hide TotalOrder, InSet;
      ghost var t := Shape();
      RunIsSet(ops, key, cmp);
      FindIsMembership(t, key, cmp);
      Irreflexive(cmp, key);
      var parent, child := FindWithParent(key, t);
      if child != null {
        return child;
      }
      if !memory {
        return null;
      }
      MatchedIsAllocated(root, t);
      node := new BNode(key);
      LinkNew(node, parent, t);
      ops := ops + [Search(node)];
      assert ops[..|ops| - 1] == old(ops);
      InsertNodes(t, node, cmp);
    }

    /** Stores `v` in the link through which `parent` holds `cur`. */
    method Store(parent: BNode?<K>, cur: BNode<K>, v: BNode?<K>)
      modifies this`root, if parent == null then {} else {parent}
      ensures parent == null ==> root == v
      ensures parent != null ==> root == old(root)
      ensures parent != null && old(parent.l) == cur ==> parent.l == v && parent.r == old(parent.r)
      ensures parent != null && old(parent.l) != cur ==> parent.r == v && parent.l == old(parent.l)
    {
      if parent == null {
        root := v;
      } else if parent.l == cur {
        parent.l := v;
      } else {
        parent.r := v;
      }
    }

    /** The rightmost child of a branch. */
    method Rightmost(n: BNode<K>, ghost t: Tree<K>) returns (m: BNode<K>)
      requires t.Node? && Matches(n, t)
      ensures m == Last(t)
    {
      m := n;
      ghost var s := t;
      while m.r != null
        invariant s.Node? && Matches(m, s) && Last(s) == Last(t)
        decreases s
      {
        m := m.r;
        s := s.r;
      }
    }

    /** tdelete returns the parent of the deleted node, which is NULL for the root and for a missing key. */
    method Tdelete(key: K) returns (node: BNode?<K>)
      requires Valid()
      modifies this, Nodes(Shape())
      ensures Valid() && ops == old(ops) + [Remove(key)]
      ensures forall m :: m in Nodes(Shape()) <==> m in Nodes(old(Shape())) && m != Find(old(Shape()), key, cmp)
      ensures Find(old(Shape()), key, cmp) != null ==> node == ParentOf(old(Shape()), null, key, cmp)
      ensures node != null ==> Holds(old(Shape()), node, Find(old(Shape()), key, cmp))
      ensures node == null <==> !InSet(old(ops), key, cmp) || Find(old(Shape()), key, cmp) == old(root)
    {
      hide TotalOrder, InSet;
      ghost var t := Shape();
      RunIsSet(ops, key, cmp);
      MatchedIsAllocated(root, t);
      var parent, cur := FindWithParent(key, t);
      ParentNull(t, key, cmp);
      ParentHolds(t, null, key, cmp);
      if cur != null {
        Unlink(parent, cur, key, t);
        node := parent;
      } else {
        NothingToDelete(t, key, cmp);
        node := null;
      }
      ops := ops + [Remove(key)];
      assert ops[..|ops| - 1] == old(ops);
      DeleteNodes(t, key, cmp);
    }

    /** Takes the found node out of the links: the parent takes over one branch, whose last node takes the other. */
    method Relink(parent: BNode?<K>, found: BNode<K>, ghost s: set<BNode<K>>, ghost sub: Tree<K>)
      requires sub.Node? && sub.n == found && Matches(found, sub) && Unshared(sub)
      requires Nodes(sub) <= s && (parent != null ==> parent in s && parent !in Nodes(sub))
      requires parent != null && parent.l != found ==> parent.r == found
      modifies this`root, s
      ensures
        var both := sub.l.Node? && sub.r.Node?;
        && (forall m :: m in Nodes(sub) ==> m.l == old(m.l) && ((both && m == Last(sub.l)) || m.r == old(m.r)))
        && (both ==> Last(sub.l).r == old(found.r))
      ensures forall m :: m in s && m !in Nodes(sub) && m != parent ==> m.l == old(m.l) && m.r == old(m.r)
      ensures
        var v := old(if found.l == null then found.r else found.l);
        && (parent == null ==> root == v)
        && (parent != null ==> root == old(root))
        && (parent != null && old(parent.l) == found ==> parent.l == v && parent.r == old(parent.r))
        && (parent != null && old(parent.l) != found ==> parent.r == v && parent.l == old(parent.l))
    {
      var cur := found;
      if cur.l == null {
        Store(parent, cur, cur.r);
      } else if cur.r == null {
        Store(parent, cur, cur.l);
      } else {
        cur := Rightmost(cur.l, sub.l);
        Store(parent, found, found.l);
        cur.r := found.r;
      }
    }

    /** Deletion on the links is deletion on the shape. */
    method Unlink(parent: BNode?<K>, found: BNode<K>, key: K, ghost t: Tree<K>)
      requires Matches(root, t) && Unshared(t) && found == Find(t, key, cmp) && parent == ParentOf(t, null, key, cmp)
      modifies this`root, Nodes(t)
      ensures Matches(root, Delete(t, key, cmp))
    {
      hide Matches, Linked, Snapshot, Find, ParentOf, Subtree, Delete, Splice;
      ghost var h, p, sub := Snapshot(Nodes(t)), root, Subtree(t, key, cmp);
      LinkedShows(root, t, h, Nodes(t));
      SubtreeFacts(t, null, key, cmp, h, root);
      ParentInNodes(t, null, key, cmp);
      ParentSide(root, t, null, key, cmp, h);
      LinkedShows(found, sub, h, Nodes(t));
      Relink(parent, found, Nodes(t), sub);
      ghost var h' := Snapshot(Nodes(t));
      SpliceLinked(sub, h, h');
      DeleteLinked(p, root, t, null, key, cmp, h, h');
      DeleteKeepsNoOther(t, key, cmp);
      LinkedShows(root, Delete(t, key, cmp), h', Nodes(t));
    }
  }

  /** `n` is a child of `p`. */
  ghost predicate Holds<K>(t: Tree<K>, p: BNode?<K>, n: BNode?<K>) {
    match t
    case Leaf => false
    case Node(l, m, r) =>
      (m == p && ((l.Node? && l.n == n) || (r.Node? && r.n == n))) || Holds(l, p, n) || Holds(r, p, n)
  }

  /** The parent of the found node has it as a child; `q` is above the whole tree. */
  lemma {:induction false} ParentHolds<K>(t: Tree<K>, q: BNode?<K>, key: K, cmp: (K, K) -> int)
    ensures Find(t, key, cmp) != null ==>
      || (ParentOf(t, q, key, cmp) == q && t.Node? && t.n == Find(t, key, cmp))
      || Holds(t, ParentOf(t, q, key, cmp), Find(t, key, cmp))
  {
    if t.Node? {
      ParentHolds(t.l, t.n, key, cmp);
      ParentHolds(t.r, t.n, key, cmp);
    }
  }

  /** Only the root has no parent. */
  lemma ParentNull<K>(t: Tree<K>, key: K, cmp: (K, K) -> int)
    requires Unshared(t)
    ensures Find(t, key, cmp) != null ==> (ParentOf(t, null, key, cmp) == null <==> Find(t, key, cmp) == RootOf(t))
  {
    if t.Node? {
      FindInNodes(t.l, key, cmp);
      FindInNodes(t.r, key, cmp);
      ParentInNodes(t.l, t.n, key, cmp);
      ParentInNodes(t.r, t.n, key, cmp);
    }
  }

  lemma {:induction false} NothingToDelete<K>(t: Tree<K>, key: K, cmp: (K, K) -> int)
    requires Find(t, key, cmp) == null
    ensures Delete(t, key, cmp) == t
  {
    if t.Node? {
      if cmp(key, t.n.val) < 0 {
        NothingToDelete(t.l, key, cmp);
      } else {
        NothingToDelete(t.r, key, cmp);
      }
    }
  }
}
