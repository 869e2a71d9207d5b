/** The events of twalk (src/search.c:301-319). */
module SearchTreeWalk {
  import opened SearchTree
  import opened Sequences

  datatype Visit = Preorder | Postorder | Endorder | LeafVisit

  /** One call of the action. */
  datatype Event<K> = Event(node: BNode<K>, visit: Visit, depth: nat)

  /** The calls of the action for a tree. */
  ghost function Walk<K>(t: Tree<K>, depth: nat): seq<Event<K>> {
    match t
    case Leaf => []
    case Node(l, n, r) =>
      if l.Leaf? && r.Leaf? then [Event(n, LeafVisit, depth)]
      else
        [Event(n, Preorder, depth)] + (Walk(l, depth + 1) +
        ([Event(n, Postorder, depth)] + (Walk(r, depth + 1) + [Event(n, Endorder, depth)])))
  }

  /** `calls` is the list of calls that the action has received so far. */
  method TwalkInternal<K>(cur: BNode<K>, depth: nat, calls: seq<Event<K>>, ghost t: Tree<K>)
    returns (calls': seq<Event<K>>)
    requires Matches(cur, t)
    ensures calls' == calls + Walk(t, depth)
    decreases t
  {
    MatchedIsAllocated(cur.l, t.l);
    MatchedIsAllocated(cur.r, t.r);
    calls' := calls;
    if cur.l == null && cur.r == null {
      calls' := calls' + [Event(cur, LeafVisit, depth)];
    } else {
      calls' := calls' + [Event(cur, Preorder, depth)];
      if cur.l != null {
        calls' := TwalkInternal(cur.l, depth + 1, calls', t.l);
      } else {
        assert calls' + [] == calls';
      }
      calls' := calls' + [Event(cur, Postorder, depth)];
      if cur.r != null {
        calls' := TwalkInternal(cur.r, depth + 1, calls', t.r);
      } else {
        assert calls' + [] == calls';
      }
      calls' := calls' + [Event(cur, Endorder, depth)];
      Regroup(calls, [Event(cur, Preorder, depth)], Walk(t.l, depth + 1), [Event(cur, Postorder, depth)],
              Walk(t.r, depth + 1), [Event(cur, Endorder, depth)]);
    }
  }

  lemma Regroup<T>(a: seq<T>, b: seq<T>, c: seq<T>, d: seq<T>, e: seq<T>, f: seq<T>)
    ensures ((((a + b) + c) + d) + e) + f == a + (b + (c + (d + (e + f))))
  {
    Associate(((a + b) + c) + d, e, f);
    Associate((a + b) + c, d, e + f);
    Associate(a + b, c, d + (e + f));
    Associate(a, b, c + (d + (e + f)));
  }

  method Twalk<K>(root: BNode<K>, ghost t: Tree<K>) returns (calls: seq<Event<K>>)
    requires Matches(root, t)
    ensures calls == Walk(t, 0)
  {
    calls := TwalkInternal(root, 0, [], t);
    assert [] + Walk(t, 0) == Walk(t, 0);
  }

  // ----- The keys come in order -----

  /** The nodes whose own turn it is: postorder and leaf visits. */
  ghost function Turns<K>(events: seq<Event<K>>): seq<BNode<K>> {
    if events == [] then []
    else (if events[0].visit in {Postorder, LeafVisit} then [events[0].node] else []) + Turns(events[1..])
  }

  lemma {:induction false} TurnsOfConcat<K>(a: seq<Event<K>>, b: seq<Event<K>>)
    ensures Turns(a + b) == Turns(a) + Turns(b)
  {
    if a == [] {
      assert a + b == b;
    } else {
      TurnsOfConcat(a[1..], b);
      assert (a + b)[1..] == a[1..] + b;
      var first := if a[0].visit in {Postorder, LeafVisit} then [a[0].node] else [];
      Associate(first, Turns(a[1..]), Turns(b));
    }
  }

  lemma TurnsOfInner<K>(l: Tree<K>, m: BNode<K>, r: Tree<K>, depth: nat)
    requires l.Node? || r.Node?
    ensures Turns(Walk(Node(l, m, r), depth)) == Turns(Walk(l, depth + 1)) + ([m] + Turns(Walk(r, depth + 1)))
  {
    var pre, post, end := [Event(m, Preorder, depth)], [Event(m, Postorder, depth)], [Event(m, Endorder, depth)];
    var wl, wr := Walk(l, depth + 1), Walk(r, depth + 1);
    TurnsOfConcat(pre, wl + (post + (wr + end)));
    TurnsOfConcat(wl, post + (wr + end));
    TurnsOfConcat(post, wr + end);
    TurnsOfConcat(wr, end);
    assert Turns(pre) == [] && Turns(post) == [m] && Turns(end) == [];
    hide Turns;
    assert Turns(wr) + [] == Turns(wr);
  }

  lemma {:induction false} TurnsAreInorder<K>(t: Tree<K>, depth: nat)
    ensures Turns(Walk(t, depth)) == Inorder(t)
  {
    if t.Node? {
      if t.l.Leaf? && t.r.Leaf? {
        assert Inorder(t) == [t.n];
      } else {
        TurnsAreInorder(t.l, depth + 1);
        TurnsAreInorder(t.r, depth + 1);
        TurnsOfInner(t.l, t.n, t.r, depth);
        Associate(Inorder(t.l), [t.n], Inorder(t.r));
      }
    }
  }

  lemma {:induction false} NodesAreInorder<K>(t: Tree<K>)
    ensures forall n :: n in Nodes(t) <==> n in Inorder(t)
  {
    if t.Node? {
      NodesAreInorder(t.l);
      NodesAreInorder(t.r);
    }
  }

  lemma InorderIsNodes<K>(t: Tree<K>)
    ensures forall i :: 0 <= i < |Inorder(t)| ==> Inorder(t)[i] in Nodes(t)
  {
    NodesAreInorder(t);
  }

  /** Strictly increasing keys. */
  ghost predicate Increasing<K(!new)>(s: seq<BNode<K>>, cmp: (K, K) -> int) {
    forall i, j :: 0 <= i < j < |s| ==> cmp(s[i].val, s[j].val) < 0
  }

  lemma {:induction false} OrderedIsIncreasing<K(!new)>(t: Tree<K>, cmp: (K, K) -> int)
    requires TotalOrder(cmp) && Ordered(t, cmp)
    ensures Increasing(Inorder(t), cmp)
  {
    hide TotalOrder, Increasing, Nodes, Inorder;
    if t.Node? {
      OrderedIsIncreasing(t.l, cmp);
      OrderedIsIncreasing(t.r, cmp);
      LeftBelowRight(t, cmp);
      InorderIsNodes(t.l);
      InorderIsNodes(t.r);
      IncreasingConcat(Inorder(t.l), t.n, Inorder(t.r), Nodes(t.l), Nodes(t.r), cmp);
    }
    InorderOfNode(t);
    EmptyIncreasing(cmp);
  }

  lemma InorderOfNode<K>(t: Tree<K>)
    ensures Inorder(t) == if t.Leaf? then [] else Inorder(t.l) + [t.n] + Inorder(t.r)
  {
  }

  lemma EmptyIncreasing<K(!new)>(cmp: (K, K) -> int)
    ensures Increasing([], cmp)
  {
  }

  lemma IncreasingConcat<K(!new)>(a: seq<BNode<K>>, n: BNode<K>, b: seq<BNode<K>>, left: set<BNode<K>>,
                                  right: set<BNode<K>>, cmp: (K, K) -> int)
    requires Increasing(a, cmp) && Increasing(b, cmp)
    requires (forall i :: 0 <= i < |a| ==> a[i] in left) && (forall i :: 0 <= i < |b| ==> b[i] in right)
    requires forall x :: x in left ==> cmp(x.val, n.val) < 0
    requires forall y :: y in right ==> cmp(n.val, y.val) < 0
    requires forall x, y :: x in left && y in right ==> cmp(x.val, y.val) < 0
    ensures Increasing(a + [n] + b, cmp)
  {
    var s := a + [n] + b;
    forall i, j | 0 <= i < j < |s|
      ensures cmp(s[i].val, s[j].val) < 0
    {
      if j < |a| {
        assert s[i] == a[i] && s[j] == a[j];
      } else if i > |a| {
        assert s[i] == b[i - |a| - 1] && s[j] == b[j - |a| - 1];
      } else {
        assert i < |a| ==> s[i] == a[i] && a[i] in left;
        assert j > |a| ==> s[j] == b[j - |a| - 1] && b[j - |a| - 1] in right;
      }
    }
  }

  /** On every ordered tree the turns of twalk list all keys in strictly increasing order. */
  lemma WalkIsSorted<K(!new)>(t: Tree<K>, cmp: (K, K) -> int)
    requires TotalOrder(cmp) && Ordered(t, cmp)
    ensures Increasing(Turns(Walk(t, 0)), cmp)
    ensures forall n :: n in Nodes(t) <==> n in Turns(Walk(t, 0))
  {
    TurnsAreInorder(t, 0);
    OrderedIsIncreasing(t, cmp);
    NodesAreInorder(t);
  }

  /** After every run of tsearch and tdelete, twalk lists exactly the keys of the set, in strictly increasing order. */
  lemma WalkListsSet<K(!new)>(ops: seq<Op<K>>, key: K, cmp: (K, K) -> int)
    requires TotalOrder(cmp)
    ensures var turns := Turns(Walk(Run(ops, cmp), 0));
      Increasing(turns, cmp) && (InSet(ops, key, cmp) <==> Lists(turns, key, cmp))
  {
    hide *;
    var t := Run(ops, cmp);
    RunIsSet(ops, key, cmp);
    WalkIsSorted(t, cmp);
    FindIsMembership(t, key, cmp);
    ListsMembers(t, Turns(Walk(t, 0)), key, cmp);
  }

  ghost predicate Lists<K(!new)>(turns: seq<BNode<K>>, key: K, cmp: (K, K) -> int) {
    exists i :: 0 <= i < |turns| && cmp(key, turns[i].val) == 0
  }

  lemma ListsMembers<K(!new)>(t: Tree<K>, turns: seq<BNode<K>>, key: K, cmp: (K, K) -> int)
    requires forall n :: n in Nodes(t) <==> n in turns
    ensures Member(t, key, cmp) <==> Lists(turns, key, cmp)
  {
    if n :| n in Nodes(t) && cmp(key, n.val) == 0 {
      assert n in turns;
    }
    if i :| 0 <= i < |turns| && cmp(key, turns[i].val) == 0 {
      assert turns[i] in Nodes(t);
    }
  }

  // ----- Every node has its visits at its depth -----

  /** The number of links from the root to `n`. */
  ghost function Depth<K>(t: Tree<K>, n: BNode<K>): nat
    requires n in Nodes(t)
  {
    if n == t.n then 0 else if n in Nodes(t.l) then 1 + Depth(t.l, n) else 1 + Depth(t.r, n)
  }

  ghost predicate IsLeafNode<K>(t: Tree<K>, n: BNode<K>)
    requires n in Nodes(t)
  {
    if n == t.n then t.l.Leaf? && t.r.Leaf?
    else if n in Nodes(t.l) then IsLeafNode(t.l, n)
    else IsLeafNode(t.r, n)
  }

  ghost function VisitsOf<K>(events: seq<Event<K>>, n: BNode<K>): seq<Event<K>> {
    if events == [] then []
    else (if events[0].node == n then [events[0]] else []) + VisitsOf(events[1..], n)
  }

  lemma {:induction false} VisitsOfConcat<K>(a: seq<Event<K>>, b: seq<Event<K>>, n: BNode<K>)
    ensures VisitsOf(a + b, n) == VisitsOf(a, n) + VisitsOf(b, n)
  {
    if a == [] {
      assert a + b == b;
    } else {
      VisitsOfConcat(a[1..], b, n);
      assert (a + b)[1..] == a[1..] + b;
      var first := if a[0].node == n then [a[0]] else [];
      Associate(first, VisitsOf(a[1..], n), VisitsOf(b, n));
    }
  }

  /** The visits of an inner step, from those of its parts. */
  lemma VisitsOfInner<K>(l: Tree<K>, m: BNode<K>, r: Tree<K>, depth: nat, n: BNode<K>)
    requires l.Node? || r.Node?
    ensures
      var a, b := VisitsOf(Walk(l, depth + 1), n), VisitsOf(Walk(r, depth + 1), n);
      VisitsOf(Walk(Node(l, m, r), depth), n) ==
        if n == m then
          [Event(m, Preorder, depth)] + (a + ([Event(m, Postorder, depth)] + (b + [Event(m, Endorder, depth)])))
        else a + b
  {
    var pre, post, end := [Event(m, Preorder, depth)], [Event(m, Postorder, depth)], [Event(m, Endorder, depth)];
    var wl, wr := Walk(l, depth + 1), Walk(r, depth + 1);
    VisitsOfConcat(pre, wl + (post + (wr + end)), n);
    VisitsOfConcat(wl, post + (wr + end), n);
    VisitsOfConcat(post, wr + end, n);
    VisitsOfConcat(wr, end, n);
    hide Walk;
    assert if n == m then VisitsOf(pre, n) == pre && VisitsOf(post, n) == post && VisitsOf(end, n) == end
           else VisitsOf(pre, n) == [] && VisitsOf(post, n) == [] && VisitsOf(end, n) == [];
    hide VisitsOf;
    var a, b := VisitsOf(wl, n), VisitsOf(wr, n);
    assert b + [] == b && [] + b == b && [] + (a + b) == a + b;
  }

  lemma {:induction false} NoVisitOutside<K>(t: Tree<K>, depth: nat, n: BNode<K>)
    requires n !in Nodes(t)
    ensures VisitsOf(Walk(t, depth), n) == []
  {
    if t.Node? && (t.l.Node? || t.r.Node?) {
      NoVisitOutside(t.l, depth + 1, n);
      NoVisitOutside(t.r, depth + 1, n);
      VisitsOfInner(t.l, t.n, t.r, depth, n);
    }
  }

  /** A leaf is visited once and an inner node in preorder, postorder and endorder. */
  ghost function Visits<K>(n: BNode<K>, leaf: bool, d: nat): seq<Event<K>> {
    if leaf then [Event(n, LeafVisit, d)]
    else [Event(n, Preorder, d), Event(n, Postorder, d), Event(n, Endorder, d)]
  }

  lemma VisitsOfLeaf<K>(t: Tree<K>, depth: nat, n: BNode<K>)
    requires t.Node? && t.l.Leaf? && t.r.Leaf? && n in Nodes(t)
    ensures VisitsOf(Walk(t, depth), n) == Visits(n, IsLeafNode(t, n), depth + Depth(t, n))
  {
  }

  lemma InnerVisits<K>(n: BNode<K>, d: nat)
    ensures [Event(n, Preorder, d)] + ([] + ([Event(n, Postorder, d)] + ([] + [Event(n, Endorder, d)])))
         == Visits(n, false, d)
  {
  }

  /** A node is the root or belongs to one of the branches, one level deeper. */
  lemma NodeIsSomewhere<K>(t: Tree<K>, n: BNode<K>)
    requires Unshared(t) && n in Nodes(t)
    ensures t.Node? && Unshared(t.l) && Unshared(t.r)
    ensures n == t.n ==>
      n !in Nodes(t.l) && n !in Nodes(t.r) && Depth(t, n) == 0 && IsLeafNode(t, n) == (t.l.Leaf? && t.r.Leaf?)
    ensures n != t.n && n in Nodes(t.l) ==>
      n !in Nodes(t.r) && Depth(t, n) == 1 + Depth(t.l, n) && IsLeafNode(t, n) == IsLeafNode(t.l, n)
    ensures n != t.n && n !in Nodes(t.l) ==>
      n in Nodes(t.r) && Depth(t, n) == 1 + Depth(t.r, n) && IsLeafNode(t, n) == IsLeafNode(t.r, n)
  {
  }

  /** Every node of the tree has its visits, always at its depth. */
  lemma {:induction false} VisitsOfNode<K>(t: Tree<K>, depth: nat, n: BNode<K>)
    requires Unshared(t) && n in Nodes(t)
    ensures
      VisitsOf(Walk(t, depth), n) == Visits(n, IsLeafNode(t, n), depth + Depth(t, n))
  {
    NodeIsSomewhere(t, n);
    if t.l.Leaf? && t.r.Leaf? {
      VisitsOfLeaf(t, depth, n);
    } else {
      hide *;
      VisitsOfInner(t.l, t.n, t.r, depth, n);
      if n == t.n {
        NoVisitOutside(t.l, depth + 1, n);
        NoVisitOutside(t.r, depth + 1, n);
        InnerVisits(n, depth);
      } else if n in Nodes(t.l) {
        VisitsOfNode(t.l, depth + 1, n);
        NoVisitOutside(t.r, depth + 1, n);
      } else {
        NoVisitOutside(t.l, depth + 1, n);
        VisitsOfNode(t.r, depth + 1, n);
      }
    }
  }

  // ----- The visits nest -----

  /** The open nodes, innermost last; `half` says that the node has had its postorder visit. */
  datatype Open<K> = Open(node: BNode<K>, half: bool)

  datatype Nesting<K> = Broken | Opened(stack: seq<Open<K>>)

  /** Preorder opens a node, postorder and endorder must meet it innermost, and the depth counts the open nodes. */
  ghost function Step<K>(stack: seq<Open<K>>, e: Event<K>): Nesting<K> {
    var top := |stack| - 1;
    match e.visit
    case LeafVisit => if e.depth == |stack| then Opened(stack) else Broken
    case Preorder => if e.depth == |stack| then Opened(stack + [Open(e.node, false)]) else Broken
    case Postorder =>
      if top >= 0 && e.depth == top && stack[top] == Open(e.node, false)
      then Opened(stack[..top] + [Open(e.node, true)]) else Broken
    case Endorder =>
      if top >= 0 && e.depth == top && stack[top] == Open(e.node, true) then Opened(stack[..top]) else Broken
  }

  ghost function Nest<K>(stack: seq<Open<K>>, events: seq<Event<K>>): Nesting<K>
    decreases |events|
  {
    if events == [] then Opened(stack)
    else
      match Step(stack, events[0])
      case Broken => Broken
      case Opened(next) => Nest(next, events[1..])
  }

  lemma {:induction false} NestOfConcat<K>(stack: seq<Open<K>>, a: seq<Event<K>>, b: seq<Event<K>>)
    ensures Nest(stack, a + b) == match Nest(stack, a) case Broken => Broken case Opened(next) => Nest(next, b)
    decreases |a|
  {
    if a == [] {
      assert a + b == b;
    } else {
      assert (a + b)[1..] == a[1..] + b;
      var next := Step(stack, a[0]);
      if next.Opened? {
        NestOfConcat(next.stack, a[1..], b);
      }
    }
  }

  /** The events of a tree are a balanced nesting: whatever they open they close. */
  lemma {:induction false} WalkNests<K>(t: Tree<K>, stack: seq<Open<K>>)
    ensures Nest(stack, Walk(t, |stack|)) == Opened(stack)
    decreases t
  {
    match t {
      case Leaf =>
      case Node(l, n, r) =>
        var d := |stack|;
        if l.Leaf? && r.Leaf? {
          assert [Event(n, LeafVisit, d)][1..] == [];
        } else {
          var entered, half := stack + [Open(n, false)], stack + [Open(n, true)];
          var pre, post, end := [Event(n, Preorder, d)], [Event(n, Postorder, d)], [Event(n, Endorder, d)];
          var wl, wr := Walk(l, d + 1), Walk(r, d + 1);
          WalkNests(l, entered);
          WalkNests(r, half);
          assert entered[..d] == stack && half[..d] == stack;
          assert Nest(stack, pre) == Opened(entered);
          assert Nest(entered, post) == Opened(half);
          assert Nest(half, end) == Opened(stack);
          NestOfConcat(stack, pre, wl + (post + (wr + end)));
          NestOfConcat(entered, wl, post + (wr + end));
          NestOfConcat(entered, post, wr + end);
          NestOfConcat(half, wr, end);
        }
    }
  }
}
