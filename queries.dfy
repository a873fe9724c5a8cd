/** The read-only members of RedBlackTreeNode, over the arena: search, min,
    black_height and tranverse. Each one walks child pointers from a node; the
    ghost tree `t` is the subtree the store links below that node and serves
    as the termination measure. */
module Queries {
  import opened Trees
  import opened Arena

  // ---------------------------------------------------------------- search

  /** Every key of an ordered tree's left subtree is at most its root key, and
      every key of its right subtree at least. */
  lemma {:induction false} OrderedSplit(t: Tree)
    requires t.Node?
    ensures Ordered(t) ==> Ordered(t.left) && Ordered(t.right)
    ensures Ordered(t) ==> forall k :: k in Keys(t.left) ==> k <= t.key
    ensures Ordered(t) ==> forall k :: k in Keys(t.right) ==> t.key <= k
  {
    if !Ordered(t) { return; }
    var l, r := Keys(t.left), Keys(t.right);
    assert Keys(t) == l + [t.key] + r;
    forall i, j | 0 <= i < j < |l| ensures l[i] <= l[j] {
      assert Keys(t)[i] == l[i] && Keys(t)[j] == l[j];
    }
    forall i, j | 0 <= i < j < |r| ensures r[i] <= r[j] {
      assert Keys(t)[|l| + 1 + i] == r[i] && Keys(t)[|l| + 1 + j] == r[j];
    }
    forall k | k in l ensures k <= t.key {
      var i :| 0 <= i < |l| && l[i] == k;
      assert Keys(t)[i] == k && Keys(t)[|l|] == t.key;
    }
    forall k | k in r ensures t.key <= k {
      var i :| 0 <= i < |r| && r[i] == k;
      assert Keys(t)[|l| + 1 + i] == k && Keys(t)[|l|] == t.key;
    }
  }

  /** RedBlackTreeNode::search from node x: stop at a node holding k, else go
      left when k is smaller and right otherwise, yielding null at an absent
      child. The node found holds k; on an ordered tree a node is found
      exactly when k is one of the keys. */
  function SearchFrom(s: Store, x: nat, k: int, ghost t: Tree, ghost par: Ptr): (r: Ptr)
    requires Linked(s, t, par) && t.Node? && t.id == x
    ensures r.Ref? ==> r.id in Ids(t) && r.id in s && s[r.id].val == k
    ensures Ordered(t) ==> (r.Ref? <==> k in Keys(t))
    decreases t
  {
    var n := s[x];
    if k == n.val then Ref(x)
    else if k < n.val then
      OrderedSplit(t);
      if n.left.Ref? then SearchFrom(s, n.left.id, k, t.left, Ref(x)) else Null
    else
      OrderedSplit(t);
      if n.right.Ref? then SearchFrom(s, n.right.id, k, t.right, Ref(x)) else Null
  }

  // ---------------------------------------------------------------- min

  /** RedBlackTreeNode::min from node x: follow left children to the end. The
      node reached has no left child and holds the first key in in-order, so
      on an ordered tree a smallest key. */
  function MinFrom(s: Store, x: nat, ghost t: Tree, ghost par: Ptr): (r: nat)
    requires Linked(s, t, par) && t.Node? && t.id == x
    ensures r == Leftmost(t).id && r in s && s[r].left == Null
    ensures s[r].val == Keys(t)[0]
    ensures Ordered(t) ==> forall k :: k in Keys(t) ==> s[r].val <= k
    decreases t
  {
    OrderedSplit(t);
    var n := s[x];
    if n.left == Null then Ref(x).id
    else MinFrom(s, n.left.id, t.left, Ref(x))
  }

  // ---------------------------------------------------------------- max

  /** RedBlackTreeNode::max as written: the node itself when it has no right
      child, otherwise the minimum of the right subtree. */
  function MaxAsWritten(s: Store, x: nat, ghost t: Tree, ghost par: Ptr): (r: nat)
    requires Linked(s, t, par) && t.Node? && t.id == x
    ensures r in Ids(t) && r in s
    ensures s[x].right.Ref? ==> r == Leftmost(t.right).id
  {
    if s[x].right == Null then x else MinFrom(s, s[x].right.id, t.right, Ref(x))
  }

  /** A red-black tree with keys 1, 2, 3, 4: 2 at the root, 3 the red left
      child of 4. */
  function MaxExampleTree(): Tree
  {
    Node(0, Black, Node(1, Black, Nil, 1, Nil), 2, Node(2, Black, Node(3, Red, Nil, 3, Nil), 4, Nil))
  }

  /** The arena holding MaxExampleTree. */
  function MaxExampleStore(): Store
  {
    map[0 := NodeRec(Ref(1), Ref(2), Null, Black, 2), 1 := NodeRec(Null, Null, Ref(0), Black, 1),
        2 := NodeRec(Ref(3), Null, Ref(0), Black, 4), 3 := NodeRec(Null, Null, Ref(2), Red, 3)]
  }

  /** On MaxExampleTree, max as written returns the node holding 3, not the
      one holding the largest key 4. */
  lemma MaxAsWrittenMissesMax()
    ensures Linked(MaxExampleStore(), MaxExampleTree(), Null)
    ensures IsRedBlack(MaxExampleTree()) && Keys(MaxExampleTree()) == [1, 2, 3, 4]
    ensures MaxExampleStore()[MaxAsWritten(MaxExampleStore(), 0, MaxExampleTree(), Null)].val == 3
  {
    var t, s := MaxExampleTree(), MaxExampleStore();
    assert Linked(s, t.left, Ref(0));
    assert Linked(s, t.right.left, Ref(2));
    assert Linked(s, t.right, Ref(0));
    assert Keys(t.right) == [3, 4];
    assert Keys(t) == [1, 2, 3, 4];
    assert Sorted([1, 2, 3, 4]);
    assert MaxAsWritten(s, 0, t, Null) == 3;
  }

  /** RedBlackTreeNode::max as evidently intended: follow right children to
      the end. The node reached has no right child and holds the last key in
      in-order, so on an ordered tree a largest key. */
  function MaxFrom(s: Store, x: nat, ghost t: Tree, ghost par: Ptr): (r: nat)
    requires Linked(s, t, par) && t.Node? && t.id == x
    ensures r in Ids(t) && r in s && s[r].right == Null
    ensures s[r].val == Keys(t)[|Keys(t)| - 1]
    ensures Ordered(t) ==> forall k :: k in Keys(t) ==> k <= s[r].val
    decreases t
  {
    OrderedSplit(t);
    var n := s[x];
    if n.right == Null then x
    else MaxFrom(s, n.right.id, t.right, Ref(x))
  }

  // ---------------------------------------------------------------- black height

  /** RedBlackTreeNode::black_height from node x: count the black nodes on
      the way down the left children, x included. */
  method BlackHeightFrom(s: Store, x: nat, ghost t: Tree, ghost par: Ptr) returns (bh: int)
    requires Linked(s, t, par) && t.Node? && t.id == x
    ensures bh == BH(t)
  {
    bh := 0;
    var temp := Ref(x);
    ghost var u, up := t, par;
    while temp.Ref?
      invariant Linked(s, u, up) && temp == PtrOf(u)
      invariant bh + BH(u) == BH(t)
      decreases u
    {
      if s[temp.id].color == Black {
        bh := bh + 1;
      }
      temp := s[temp.id].left;
      u, up := u.left, Ref(u.id);
    }
  }

  /** The number of black nodes on the path that follows `bs` from the root of t. */
  function PathBlack(t: Tree, bs: seq<SubBranch>): nat
    decreases |bs|
  {
    if t.Nil? || bs == [] then 0
    else BlackCount(t.color) + PathBlack(Child(t, bs[0]), bs[1..])
  }

  /** Where the path `bs` from the root of t ends. */
  function PathEnd(t: Tree, bs: seq<SubBranch>): Tree
    decreases |bs|
  {
    if t.Nil? || bs == [] then t else PathEnd(Child(t, bs[0]), bs[1..])
  }

  /** In a balanced tree every path from the root down to an absent child
      meets as many black nodes as the leftmost one, which black_height counts. */
  lemma {:induction false} BalancedPaths(t: Tree, bs: seq<SubBranch>)
    requires Balanced(t) && PathEnd(t, bs) == Nil
    ensures PathBlack(t, bs) == BH(t)
    decreases |bs|
  {
    if t.Node? {
      assert bs != [];
      BalancedPaths(Child(t, bs[0]), bs[1..]);
    }
  }

  // ---------------------------------------------------------------- tranverse

  /** One call of a visitor during tranverse. */
  datatype Visit<T> = PreVisit(node: T) | InVisit(node: T) | PostVisit(node: T)

  /** The nodes handed to the in-order visitor, in order. */
  function InVisits<T>(r: seq<Visit<T>>): seq<T>
  {
    if r == [] then []
    else (if r[0].InVisit? then [r[0].node] else []) + InVisits(r[1..])
  }

  lemma {:induction false} InVisitsAppend<T>(a: seq<Visit<T>>, b: seq<Visit<T>>)
    ensures InVisits(a + b) == InVisits(a) + InVisits(b)
    decreases |a|
  {
    if a == [] {
      assert a + b == b;
    } else {
      assert (a + b)[0] == a[0] && (a + b)[1..] == a[1..] + b;
      InVisitsAppend(a[1..], b);
    }
  }

  /** Visitors that never stop a traversal early (the post-order result is never used). */
  ghost predicate NeverStop<T(!new)>(pre: T -> bool, ino: T -> bool)
  {
    forall i :: pre(i) && ino(i)
  }

  /** Ids of t in in-order. */
  function InOrderIds(t: Tree): seq<nat>
  {
    match t
    case Nil => []
    case Node(id, _, l, _, r) => InOrderIds(l) + [id] + InOrderIds(r)
  }

  /** RedBlackTreeNode::tranverse from node x: the visitor calls it makes, in
      order. A false from the pre-order visitor skips the node's subtrees and
      its other visitors; a false from the in-order visitor skips its right
      subtree and post-order visit; either way the caller carries on. With
      visitors that always return true every node is visited three times and
      the in-order visits follow the in-order of the tree. */
  function Tranverse(s: Store, x: nat, pre: nat -> bool, ino: nat -> bool, post: nat -> bool,
                     ghost t: Tree, ghost par: Ptr): (r: seq<Visit<nat>>)
    requires Linked(s, t, par) && t.Node? && t.id == x
    ensures r != [] && r[0] == PreVisit(x)
    ensures !pre(x) ==> r == [PreVisit(x)]
    ensures pre(x) && !ino(x) ==> r[|r| - 1] == InVisit(x)
    ensures pre(x) && !ino(x) ==> forall v :: v in r ==> v.node == x || v.node in Ids(t.left)
    ensures pre(x) && ino(x) ==> r[|r| - 1] == PostVisit(x)
    ensures forall v :: v in r ==> v.node in Ids(t)
    decreases t
  {
    var n := s[x];
    if !pre(x) then [PreVisit(x)]
    else
      var l := if n.left.Ref? then Tranverse(s, n.left.id, pre, ino, post, t.left, Ref(x)) else [];
      TraceShape(x, l, []);
      if !ino(x) then [PreVisit(x)] + l + [InVisit(x)]
      else
        var r := if n.right.Ref? then Tranverse(s, n.right.id, pre, ino, post, t.right, Ref(x)) else [];
        TraceShape(x, l, r);
        [PreVisit(x)] + l + [InVisit(x)] + r + [PostVisit(x)]
  }

  /** With visitors that never stop, every node is visited three times and
      the in-order visits follow the in-order of the tree. */
  lemma {:induction false} TranverseInOrder(s: Store, x: nat, pre: nat -> bool, ino: nat -> bool, post: nat -> bool,
                                            t: Tree, par: Ptr)
    requires Linked(s, t, par) && t.Node? && t.id == x
    ensures var r := Tranverse(s, x, pre, ino, post, t, par);
      NeverStop(pre, ino) ==> InVisits(r) == InOrderIds(t) && |r| == 3 * |InOrderIds(t)|
    decreases t
  {
    if NeverStop(pre, ino) {
      var n := s[x];
      assert pre(x) && ino(x);
      var l := if n.left.Ref? then Tranverse(s, n.left.id, pre, ino, post, t.left, Ref(x)) else [];
      var r := if n.right.Ref? then Tranverse(s, n.right.id, pre, ino, post, t.right, Ref(x)) else [];
      if n.left.Ref? {
        TranverseInOrder(s, n.left.id, pre, ino, post, t.left, Ref(x));
      }
      if n.right.Ref? {
        TranverseInOrder(s, n.right.id, pre, ino, post, t.right, Ref(x));
      }
      TraceShape(x, l, r);
    }
  }

  /** How the visits of a node and its two subtrees are put together. */
  lemma TraceShape<T>(x: T, l: seq<Visit<T>>, r: seq<Visit<T>>)
    ensures var a := [PreVisit(x)] + l + [InVisit(x)];
      a[|a| - 1] == InVisit(x) && forall v :: v in a ==> v.node == x || v in l
    ensures var c := [PreVisit(x)] + l + [InVisit(x)] + r + [PostVisit(x)];
      |c| == |l| + |r| + 3 && c[|c| - 1] == PostVisit(x) && forall v :: v in c ==> v.node == x || v in l || v in r
    ensures InVisits([PreVisit(x)] + l + [InVisit(x)] + r + [PostVisit(x)]) == InVisits(l) + [x] + InVisits(r)
  {
    TraceInVisits(x, l, r);
  }

  lemma TraceInVisits<T>(x: T, l: seq<Visit<T>>, r: seq<Visit<T>>)
    ensures InVisits([PreVisit(x)] + l + [InVisit(x)] + r + [PostVisit(x)]) == InVisits(l) + [x] + InVisits(r)
  {
    var a, c := [PreVisit(x)] + l, [PreVisit(x)] + l + [InVisit(x)] + r;
    InVisitsAppend([PreVisit(x)], l);
    assert InVisits(a) == InVisits(l);
    InVisitsAppend(a, [InVisit(x)]);
    assert InVisits(a + [InVisit(x)]) == InVisits(l) + [x];
    InVisitsAppend(a + [InVisit(x)], r);
    assert InVisits(c) == InVisits(l) + [x] + InVisits(r);
    InVisitsAppend(c, [PostVisit(x)]);
  }

  /** The tree-level view of a visit: the node's value instead of the node. */
  function VisitVal(s: Store, v: Visit<nat>): Visit<int>
    requires v.node in s
  {
    match v
    case PreVisit(i) => PreVisit(s[i].val)
    case InVisit(i) => InVisit(s[i].val)
    case PostVisit(i) => PostVisit(s[i].val)
  }

  function VisitVals(s: Store, r: seq<Visit<nat>>): (q: seq<Visit<int>>)
    requires forall j :: 0 <= j < |r| ==> r[j].node in s
    ensures |q| == |r|
  {
    if r == [] then [] else [VisitVal(s, r[0])] + VisitVals(s, r[1..])
  }

  function Vals(s: Store, ids: seq<nat>): seq<int>
    requires forall j :: 0 <= j < |ids| ==> ids[j] in s
  {
    if ids == [] then [] else [s[ids[0]].val] + Vals(s, ids[1..])
  }

  lemma {:induction false} ValsAppend(s: Store, a: seq<nat>, b: seq<nat>)
    requires forall j :: 0 <= j < |a| ==> a[j] in s
    requires forall j :: 0 <= j < |b| ==> b[j] in s
    ensures forall j :: 0 <= j < |a + b| ==> (a + b)[j] in s
    ensures Vals(s, a + b) == Vals(s, a) + Vals(s, b)
    decreases |a|
  {
    if a == [] {
      assert a + b == b;
    } else {
      assert (a + b)[0] == a[0] && (a + b)[1..] == a[1..] + b;
      ValsAppend(s, a[1..], b);
    }
  }

  /** The values of a linked tree's nodes, in in-order, are its keys. */
  lemma {:induction false} LinkedInOrder(s: Store, t: Tree, par: Ptr)
    requires Linked(s, t, par)
    ensures forall j :: 0 <= j < |InOrderIds(t)| ==> InOrderIds(t)[j] in s
    ensures Vals(s, InOrderIds(t)) == Keys(t)
  {
    match t
    case Nil =>
    case Node(id, _, l, k, r) =>
      LinkedInOrder(s, l, Ref(id));
      LinkedInOrder(s, r, Ref(id));
      ValsAppend(s, InOrderIds(l), [id]);
      ValsAppend(s, InOrderIds(l) + [id], InOrderIds(r));
  }

  lemma {:induction false} InVisitsVals(s: Store, r: seq<Visit<nat>>)
    requires forall j :: 0 <= j < |r| ==> r[j].node in s
    ensures forall j :: 0 <= j < |InVisits(r)| ==> InVisits(r)[j] in s
    ensures InVisits(VisitVals(s, r)) == Vals(s, InVisits(r))
    decreases |r|
  {
    if r != [] {
      InVisitsVals(s, r[1..]);
      var h := if r[0].InVisit? then [r[0].node] else [];
      ValsAppend(s, h, InVisits(r[1..]));
    }
  }
}
