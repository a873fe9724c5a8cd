/** RedBlackTree<int> and the mutating members of RedBlackTreeNode<int>, over
    an arena. `nodes` is the heap of nodes (records are never freed), `root`
    the tree's root pointer, `next` the next id `new` hands out. The ghost
    `tree` is the abstract tree the arena currently links together. */
module RedBlackTrees {
  import opened Trees
  import opened Zippers
  import opened Arena
  import opened Queries
  import opened InsertCases
  import opened DeleteCases

  /** The RedBlackTreeNode constructor: a parentless node is black, any other red. */
  function NewNode(val: int, parent: Ptr): (r: NodeRec)
    ensures r.left.Null? && r.right.Null? && r.parent == parent && r.val == val
    ensures r.color == Black <==> parent.Null?
  {
    NodeRec(Null, Null, parent, if parent.Ref? then Red else Black, val)
  }

  /** The second half of rotate: x and y (x's child on side ReverseBranch(b))
      swap values and colours, x's child on side b moves under y, and both
      nodes swap their two child slots. */
  method SwapAndRelink(s1: Store, x: nat, y: nat, b: SubBranch) returns (s: Store)
    requires x in s1 && y in s1 && x != y
    ensures SwappedAndRelinked(s1, s, x, y, b)
  {
    var rb := ReverseBranch(b);
    s := s1;
    var xr, yr := s[x], s[y];
    s := s[x := xr.(val := yr.val, color := yr.color)];
    s := s[y := yr.(val := xr.val, color := xr.color)];
    xr, yr := s[x], s[y];
    s := s[x := WithSub(xr, b, SubNode(yr, rb))];
    s := s[y := WithSub(yr, rb, SubNode(xr, b))];
    yr := s[y];
    s := s[y := yr.(left := yr.right, right := yr.left)];
    xr := s[x];
    s := s[x := xr.(left := xr.right, right := xr.left)];
  }

  /** What SwapAndRelink leaves behind: only x and y change; x takes y's
      value and colour, keeps its child on side ReverseBranch(b) but now on
      side b, and takes y's child on side ReverseBranch(b); y takes x's
      value and colour and x's child on side b, and keeps its child on side
      b, now on side ReverseBranch(b). */
  ghost predicate SwappedAndRelinked(s1: Store, s: Store, x: nat, y: nat, b: SubBranch)
    requires x in s1 && y in s1
  {
    var rb := ReverseBranch(b);
    (forall i :: i in s <==> i in s1) &&
    (forall i :: i in s1 && i != x && i != y ==> s[i] == s1[i]) &&
    s[x] == WithSub(WithSub(s1[x].(val := s1[y].val, color := s1[y].color), b, SubNode(s1[x], rb)), rb, SubNode(s1[y], rb)) &&
    s[y] == WithSub(WithSub(s1[y].(val := s1[x].val, color := s1[x].color), b, SubNode(s1[x], b)), rb, SubNode(s1[y], b))
  }

  /** The first half of rotate: the pivot's child on side ReverseBranch(b)
      is re-parented to x, and x's child on side b to the pivot. */
  lemma ReparentBoth(s0: Store, t: Tree, b: SubBranch, par: Ptr)
    requires Linked(s0, t, par) && Distinct(t) && t.Node? && Child(t, ReverseBranch(b)).Node?
    ensures var p := Child(t, ReverseBranch(b));
      var near, far := Child(t, b), Child(p, ReverseBranch(b));
      (far.Node? ==> far.id in s0) && (near.Node? ==> near.id in s0) &&
      var s1 := Reparent(Reparent(s0, PtrOf(far), Ref(t.id)), PtrOf(near), Ref(p.id));
      (forall i :: i in s1 <==> i in s0) &&
      t.id in s0 && p.id in s0 && s1[t.id] == s0[t.id] && s1[p.id] == s0[p.id] &&
      (near.Node? ==> s1[near.id] == s0[near.id].(parent := Ref(p.id))) &&
      (far.Node? ==> s1[far.id] == s0[far.id].(parent := Ref(t.id))) &&
      (forall i :: i in s0 && (near.Node? ==> i != near.id) && (far.Node? ==> i != far.id) ==> s1[i] == s0[i])
  {
    var p := Child(t, ReverseBranch(b));
    var near, mid, far := Child(t, b), Child(p, b), Child(p, ReverseBranch(b));
    assert Linked(s0, p, Ref(t.id)) && Distinct(p);
    assert Linked(s0, near, Ref(t.id)) && Linked(s0, far, Ref(p.id));
    assert Ids(t) == {t.id} + Ids(near) + ({p.id} + Ids(mid) + Ids(far));
  }

  /** The records rotate leaves behind link the rotated subtree. */
  lemma RotateSteps(s0: Store, s: Store, t: Tree, b: SubBranch, par: Ptr)
    requires Linked(s0, t, par) && Distinct(t) && t.Node? && Child(t, ReverseBranch(b)).Node?
    requires var p := Child(t, ReverseBranch(b));
      var near, far := Child(t, b), Child(p, ReverseBranch(b));
      (far.Node? ==> far.id in s0) && (near.Node? ==> near.id in s0) &&
      var s1 := Reparent(Reparent(s0, PtrOf(far), Ref(t.id)), PtrOf(near), Ref(p.id));
      t.id in s1 && p.id in s1 && SwappedAndRelinked(s1, s, t.id, p.id, b)
    ensures Linked(s, RotateTree(t, b), par)
    ensures forall i :: i in s <==> i in s0
    ensures forall i :: i in s0 && i !in Ids(t) ==> i in s && s[i] == s0[i]
  {
    var p := Child(t, ReverseBranch(b));
    var near, mid, far := Child(t, b), Child(p, b), Child(p, ReverseBranch(b));
    var x, y := t.id, p.id;
    ReparentBoth(s0, t, b, par);
    var s1 := Reparent(Reparent(s0, PtrOf(far), Ref(t.id)), PtrOf(near), Ref(p.id));
    assert Linked(s0, p, Ref(t.id)) && Distinct(p);
    assert s0[x] == RecOf(t, par) && s0[y] == RecOf(p, Ref(x));
    assert Ids(t) == {x} + Ids(near) + ({y} + Ids(mid) + Ids(far));
    RotateShape(t, b);
    assert s[x] == RecOf(RotateTree(t, b), par);
    assert s[y] == RecOf(Make(y, t.color, b, near, t.key, mid), Ref(x));
    RotateLocal(s0, s, t, b, par);
  }

  /** RedBlackTreeNode::rotate(b) on node x, over the arena: the pivot (x's
      child on side ReverseBranch(b)) rises, by swapping the values and
      colours of x and the pivot and rearranging the child pointers, so that
      x keeps its place in its parent. Only the parents of the two moved
      subtrees change besides x and the pivot. */
  method RotateNodes(s0: Store, x: nat, b: SubBranch, ghost par: Ptr, ghost t: Tree) returns (s: Store)
    requires Linked(s0, t, par) && Distinct(t) && t.Node? && t.id == x
    requires Child(t, ReverseBranch(b)).Node?
    ensures Linked(s, RotateTree(t, b), par)
    ensures forall i :: i in s <==> i in s0
    ensures forall i :: i in s0 && i !in Ids(t) ==> i in s && s[i] == s0[i]
  {
    ghost var pt := Child(t, ReverseBranch(b));
    ghost var near, far := Child(t, b), Child(pt, ReverseBranch(b));
    ReparentBoth(s0, t, b, par);
    assert Linked(s0, pt, Ref(x)) && Distinct(pt);
    assert Linked(s0, far, Ref(pt.id)) && Linked(s0, near, Ref(x));
    s := s0;
    var rb := ReverseBranch(b);
    var pivot := SubNode(s[x], rb);
    var y := pivot.id;
    var node1 := SubNode(s[y], rb);
    s := Reparent(s, node1, Ref(x));
    var node2 := SubNode(s[x], b);
    s := Reparent(s, node2, pivot);
    s := SwapAndRelink(s, x, y, b);
    RotateSteps(s0, s, t, b, par);
  }

  /** The store after leaf_insert links the focus with its new leaf. */
  lemma LeafLinked(s0: Store, ctx: seq<Frame>, t: Tree, b: SubBranch, n: nat, val: int)
    requires Linked(s0, Plug(ctx, t), Null) && Distinct(Plug(ctx, t)) && t.Node?
    requires Child(t, b) == Nil && n !in s0
    ensures t.id in s0
    ensures var s1 := s0[n := NewNode(val, Ref(t.id))];
      var s := s1[t.id := WithSub(s1[t.id], b, Ref(n))];
      var t' := Make(t.id, t.color, b, Node(n, Red, Nil, val, Nil), t.key, Child(t, ReverseBranch(b)));
      Linked(s, Plug(ctx, t'), Null) && Distinct(Plug(ctx, t')) && PtrOf(Plug(ctx, t')) == PtrOf(Plug(ctx, t))
  {
    Nav(s0, ctx, t);
    LinkedIds(s0, t, ParentPtr(ctx));
    var s1 := s0[n := NewNode(val, Ref(t.id))];
    var s := s1[t.id := WithSub(s1[t.id], b, Ref(n))];
    var leaf := Node(n, Red, Nil, val, Nil);
    var other := Child(t, ReverseBranch(b));
    var t' := Make(t.id, t.color, b, leaf, t.key, other);
    assert Linked(s0, other, Ref(t.id));
    LinkedFrame(s0, s, other, Ref(t.id));
    assert s[t.id] == RecOf(t', ParentPtr(ctx));
    assert Linked(s, leaf, Ref(t.id));
    assert Linked(s, t', ParentPtr(ctx));
    assert Ids(t') == Ids(t) + {n};
    ReplaceFocus(s0, s, ctx, t, t');
  }

  class RedBlackTree {
    var nodes: Store
    var root: Ptr
    var next: nat
    ghost var tree: Tree

    /** The arena links exactly `tree`, and `next` is fresh. */
    ghost predicate Wf()
      reads this
    {
      Linked(nodes, tree, Null) && Distinct(tree) && root == PtrOf(tree) &&
      forall i :: i in nodes ==> i < next
    }

    /** Wf and the red-black invariants. */
    ghost predicate Valid()
      reads this
    {
      Wf() && IsRedBlack(tree)
    }

    constructor ()
      ensures Valid() && tree == Nil && root == Null
    {
      nodes := map[];
      root := Null;
      next := 0;
      tree := Nil;
    }

    /** `node->color = c` on the focus node x. */
    method SetColor(x: nat, c: Color, ghost ctx: seq<Frame>, ghost t: Tree)
      requires Wf() && tree == Plug(ctx, t) && t.Node? && t.id == x
      modifies this
      ensures Wf() && tree == Plug(ctx, t.(color := c))
      ensures x in old(nodes) && nodes == old(nodes)[x := old(nodes)[x].(color := c)]
      ensures forall i :: i in nodes <==> i in old(nodes)
      ensures root == old(root) && next == old(next)
      ensures Keys(tree) == Keys(old(tree)) && Ids(tree) == Ids(old(tree))
    {
      SameKeysPlug(ctx, t, t.(color := c));
      DistinctPlug(ctx, t);
      DistinctPlug(ctx, t.(color := c));
      LinkedRelabel(nodes, ctx, t, c, t.key);
      Nav(nodes, ctx, t);
      assert nodes[x].(color := c, val := t.key) == nodes[x].(color := c);
      assert t.(color := c, key := t.key) == t.(color := c);
      nodes := nodes[x := nodes[x].(color := c)];
      tree := Plug(ctx, t.(color := c));
    }

    /** `node->val = v` on the focus node x. */
    method SetVal(x: nat, v: int, ghost ctx: seq<Frame>, ghost t: Tree)
      requires Wf() && tree == Plug(ctx, t) && t.Node? && t.id == x
      modifies this
      ensures Wf() && tree == Plug(ctx, t.(key := v))
      ensures x in old(nodes) && nodes == old(nodes)[x := old(nodes)[x].(val := v)]
      ensures root == old(root) && next == old(next) && Ids(tree) == Ids(old(tree))
    {
      DistinctPlug(ctx, t);
      DistinctPlug(ctx, t.(key := v));
      LinkedRelabel(nodes, ctx, t, t.color, v);
      Nav(nodes, ctx, t);
      assert nodes[x].(color := t.color, val := v) == nodes[x].(val := v);
      assert t.(color := t.color, key := v) == t.(key := v);
      nodes := nodes[x := nodes[x].(val := v)];
      tree := Plug(ctx, t.(key := v));
    }

    /** RedBlackTreeNode::rotate(b) on node x: see RotateNodes. */
    method Rotate(x: nat, b: SubBranch, ghost ctx: seq<Frame>, ghost t: Tree)
      requires Wf() && tree == Plug(ctx, t) && t.Node? && t.id == x
      requires Child(t, ReverseBranch(b)).Node?
      modifies this
      ensures Wf() && tree == Plug(ctx, RotateTree(t, b))
      ensures forall i :: i in nodes <==> i in old(nodes)
      ensures forall i :: i in nodes && i !in Ids(t) ==> nodes[i] == old(nodes)[i]
      ensures root == old(root) && next == old(next)
      ensures Keys(tree) == Keys(old(tree)) && Ids(tree) == Ids(old(tree))
    {
      RotatePreserves(t, b);
      SameKeysPlug(ctx, t, RotateTree(t, b));
      DistinctPlug(ctx, t);
      DistinctPlug(ctx, RotateTree(t, b));
      Nav(nodes, ctx, t);
      var s := RotateNodes(nodes, x, b, ParentPtr(ctx), t);
      ReplaceFocus(nodes, s, ctx, t, RotateTree(t, b));
      nodes := s;
      tree := Plug(ctx, RotateTree(t, b));
    }

    /** RedBlackTreeNode::leaf_insert: a new red node holding val becomes the
        child of x on side b, which must be empty. */
    method LeafInsert(x: nat, val: int, b: SubBranch, ghost ctx: seq<Frame>, ghost t: Tree) returns (n: nat)
      requires Wf() && tree == Plug(ctx, t) && t.Node? && t.id == x
      requires Child(t, b) == Nil
      modifies this
      ensures Wf() && n == old(next) && next == old(next) + 1 && n !in old(nodes) && n in nodes
      ensures tree == Plug(ctx, Make(x, t.color, b, Node(n, Red, Nil, val, Nil), t.key, Child(t, ReverseBranch(b))))
      ensures nodes.Keys == old(nodes).Keys + {n}
      ensures forall i :: i in old(nodes) && i != x ==> nodes[i] == old(nodes)[i]
      ensures root == old(root)
    {
      LeafLinked(nodes, ctx, t, b, next, val);
      n := next;
      next := next + 1;
      nodes := nodes[n := NewNode(val, Ref(x))];
      if b == LeftBranch {
        nodes := nodes[x := nodes[x].(left := Ref(n))];
      } else {
        nodes := nodes[x := nodes[x].(right := Ref(n))];
      }
      var t' := Make(x, t.color, b, Node(n, Red, Nil, val, Nil), t.key, Child(t, ReverseBranch(b)));
      tree := Plug(ctx, t');
    }
  
    // ------------------------------------------------------------ queries

    /** RedBlackTree::empty. */
    function Empty(): (r: bool)
      reads this
      requires Wf()
      ensures r <==> tree == Nil
    {
      root == Null
    }

    /** RedBlackTree::black_height: -1 for an empty tree, else the black
        height of the root. */
    method BlackHeight() returns (bh: int)
      requires Wf()
      ensures tree == Nil ==> bh == -1
      ensures tree != Nil ==> bh == BH(tree)
    {
      if root.Ref? {
        bh := BlackHeightFrom(nodes, root.id, tree, Null);
      } else {
        bh := -1;
      }
    }

    /** RedBlackTree::search: the root's search. The root is dereferenced, so
        the tree must not be empty. */
    function Search(val: int): (r: Ptr)
      reads this
      requires Wf() && root.Ref?
      ensures r.Ref? ==> r.id in Ids(tree) && r.id in nodes && nodes[r.id].val == val
      ensures Ordered(tree) ==> (r.Ref? <==> val in Keys(tree))
    {
      SearchFrom(nodes, root.id, val, tree, Null)
    }

    /** RedBlackTree::tranverse: the node traversal from the root with the
        visitors applied to node values; nothing for an empty tree. With
        visitors that never stop, the in-order visits list the keys in order. */
    function Tranverse(pre: int -> bool, ino: int -> bool, post: int -> bool): (r: seq<Visit<int>>)
      reads this
      requires Wf()
      ensures tree == Nil ==> r == []
      ensures tree != Nil ==> r != [] && r[0] == PreVisit(nodes[root.id].val)
      ensures NeverStop(pre, ino) ==> InVisits(r) == Keys(tree)
    {
      if root.Null? then []
      else
        var s := nodes;
        var p := (i: nat) => if i in s then pre(s[i].val) else true;
        var q := (i: nat) => if i in s then ino(s[i].val) else true;
        var o := (i: nat) => if i in s then post(s[i].val) else true;
        var r := Queries.Tranverse(s, root.id, p, q, o, tree, Null);
        TranverseInOrder(s, root.id, p, q, o, tree, Null);
        assert NeverStop(pre, ino) ==> NeverStop(p, q);
        LinkedIds(s, tree, Null);
        LinkedInOrder(s, tree, Null);
        assert forall j :: 0 <= j < |r| ==> r[j] in r;
        InVisitsVals(s, r);
        VisitVals(s, r)
    }
  
    // ------------------------------------------------------------ insertion

    /** The first case of insert_fixup at node temp (its parent and uncle are
        red): parent and uncle turn black, the grandparent red, and the
        grandparent is returned as the new temp. */
    method InsertRecolor(temp: nat, ghost ctx: seq<Frame>, ghost t: Tree) returns (temp': nat, ghost ctx': seq<Frame>, ghost t': Tree)
      requires Wf() && tree == Plug(ctx, t) && t.Node? && t.id == temp && InsInv(ctx, t)
      requires ctx != [] && ctx[0].color == Red && ColorOfTree(ctx[1].sib) == Red
      modifies this
      ensures Wf() && (ctx', t') == RecolorCase(ctx, t) && tree == Plug(ctx', t') && temp' == t'.id
      ensures forall i :: i in nodes <==> i in old(nodes)
      ensures root == old(root) && next == old(next)
      ensures Keys(tree) == Keys(old(tree)) && Ids(tree) == Ids(old(tree))
    {
      InsParentRed(ctx, t);
      RecolorShape(ctx, t);
      ghost var pf, g := ctx[0], ctx[1];
      ghost var pt := Attach(pf, t);
      ghost var pb := Attach(pf.(color := Black), t);
      ghost var ub := g.sib.(color := Black);
      assert temp in nodes && nodes[temp].parent == Ref(pf.id) && pf.id in nodes by {
        Nav(nodes, ctx, t);
      }
      var p := nodes[temp].parent.id;
      assert Brother(nodes, p) == Ref(g.sib.id) && nodes[p].parent == Ref(g.id) by {
        Nav(nodes, ctx[1..], pt);
      }
      var u := Brother(nodes, p);
      SetColor(p, Black, ctx[1..], pt);
      SetColor(u.id, Black, [Frame(g.id, g.color, ReverseBranch(g.dir), g.key, pb)] + ctx[2..], g.sib);
      var gid := nodes[p].parent.id;
      SetColor(gid, Red, ctx[2..], Make(g.id, g.color, g.dir, pb, g.key, ub));
      temp' := gid;
      ctx', t' := RecolorCase(ctx, t).0, RecolorCase(ctx, t).1;
    }
  
    /** The second case of insert_fixup at node temp (its parent is red, its
        uncle black): at most two rotations and two recolourings, after
        which temp's parent is black. temp keeps its id. */
    method InsertRotate(temp: nat, ghost ctx: seq<Frame>, ghost t: Tree) returns (ghost ctx': seq<Frame>, ghost t': Tree)
      requires Wf() && tree == Plug(ctx, t) && t.Node? && t.id == temp && InsInv(ctx, t)
      requires ctx != [] && ctx[0].color == Red && ColorOfTree(ctx[1].sib) == Black
      modifies this
      ensures Wf() && (ctx', t') == RotateCase(ctx, t) && tree == Plug(ctx', t')
      ensures forall i :: i in nodes <==> i in old(nodes)
      ensures root == old(root) && next == old(next)
      ensures Keys(tree) == Keys(old(tree)) && Ids(tree) == Ids(old(tree))
    {
      InsParentRed(ctx, t);
      ZigShape(ctx, t);
      OuterShape(ctx, t);
      ghost var pf, g := ctx[0], ctx[1];
      ghost var d0, d1 := pf.dir, g.dir;
      ghost var pt := Attach(pf, t);
      ghost var tz := RotateCase(ctx, t).1;
      assert temp in nodes && nodes[temp].parent == Ref(pf.id) && pf.id in nodes && Branch(nodes, temp) == d0 by {
        Nav(nodes, ctx, t);
      }
      var p := nodes[temp].parent.id;
      assert ctx[1..][0] == g && ctx[1..][1..] == ctx[2..];
      assert nodes[p].parent == Ref(g.id) && g.id in nodes && Branch(nodes, p) == d1 by {
        Nav(nodes, ctx[1..], pt);
      }
      if Branch(nodes, p) != Branch(nodes, temp) {
        Rotate(p, ReverseBranch(Branch(nodes, temp)), ctx[1..], pt);
      }
      ghost var ps := ZigPsub(ctx, t);
      assert tree == Plug(ctx[1..], ps);
      ghost var ctxT := [Frame(p, ps.color, d1, ps.key, Child(ps, ReverseBranch(d1)))] + ctx[1..];
      assert nodes[temp].parent == Ref(p) && p in nodes && Branch(nodes, temp) == d1 by {
        Nav(nodes, ctxT, tz);
      }
      assert nodes[p].parent == Ref(g.id) && g.id in nodes by {
        Nav(nodes, ctx[1..], ps);
      }
      var gid := nodes[p].parent.id;
      Rotate(gid, ReverseBranch(Branch(nodes, temp)), ctx[2..], Attach(g, ps));
      ghost var gr := OuterRot(ctx, t);
      ghost var pn := Child(gr, ReverseBranch(d1));
      assert tree == Plug(ctx[2..], gr);
      assert nodes[temp].parent == Ref(gid) && gid in nodes by {
        Nav(nodes, [Frame(gid, gr.color, d1, gr.key, pn)] + ctx[2..], tz);
      }
      SetColor(nodes[temp].parent.id, Black, ctx[2..], gr);
      assert Brother(nodes, temp) == Ref(pn.id) by {
        Nav(nodes, [Frame(gid, Black, d1, gr.key, pn)] + ctx[2..], tz);
      }
      var bro := Brother(nodes, temp);
      SetColor(bro.id, Red, [Frame(gid, Black, ReverseBranch(d1), gr.key, tz)] + ctx[2..], pn);
      ctx', t' := RotateCase(ctx, t).0, RotateCase(ctx, t).1;
    }

    /** RedBlackTreeNode::insert_fixup from the new red node x: while the
        parent is red, apply the first or the second case. Afterwards no red
        node has a red child and the tree is balanced; the root may be red. */
    method InsertFixup(x: nat, ghost ctx0: seq<Frame>, ghost t0: Tree)
      requires Wf() && tree == Plug(ctx0, t0) && t0.Node? && t0.id == x && InsInv(ctx0, t0)
      modifies this
      ensures Wf() && NoRedRed(tree) && Balanced(tree)
      ensures forall i :: i in nodes <==> i in old(nodes)
      ensures root == old(root) && next == old(next)
      ensures Keys(tree) == Keys(old(tree)) && Ids(tree) == Ids(old(tree))
    {
      var temp := x;
      ghost var ctx, t := ctx0, t0;
      NavParent(nodes, ctx, t);
      while ColorOf(nodes, nodes[temp].parent) == Red
        invariant Wf() && tree == Plug(ctx, t) && t.Node? && t.id == temp && InsInv(ctx, t)
        invariant temp in nodes && (nodes[temp].parent.Ref? ==> nodes[temp].parent.id in nodes)
        invariant ColorOf(nodes, nodes[temp].parent) == if ctx == [] then Black else ctx[0].color
        invariant forall i :: i in nodes <==> i in old(nodes)
        invariant root == old(root) && next == old(next)
        invariant Keys(tree) == Keys(old(tree)) && Ids(tree) == Ids(old(tree))
        decreases |ctx|
      {
        InsParentRed(ctx, t);
        NavParent(nodes, ctx, t);
        var parentInserted := nodes[temp].parent.id;
        if ColorOf(nodes, Brother(nodes, parentInserted)) == Red {
          RecolorCaseInv(ctx, t);
          temp, ctx, t := InsertRecolor(temp, ctx, t);
        } else {
          RotateCaseInv(ctx, t);
          ctx, t := InsertRotate(temp, ctx, t);
        }
        NavParent(nodes, ctx, t);
      }
      InsDone(ctx, t);
    }

    /** RedBlackTreeNode::insert on the root x: descend to the empty slot
        the key leads to (ties go right), hang a red leaf there and run
        insert_fixup from it. The keys become those of BstInsert. */
    method NodeInsert(x: nat, val: int)
      requires Wf() && root == Ref(x)
      requires ColorOfTree(tree) == Black && NoRedRed(tree) && Balanced(tree)
      modifies this
      ensures Wf() && NoRedRed(tree) && Balanced(tree) && root == old(root)
      ensures Keys(tree) == Keys(BstInsert(old(tree), val, old(next)))
      ensures Ids(tree) == Ids(old(tree)) + {old(next)}
    {
      var destination := x;
      ghost var ctx: seq<Frame>, t := [], tree;
      ghost var n := next;
      while true
        invariant Wf() && tree == old(tree) && nodes == old(nodes) && root == old(root) && next == n
        invariant tree == Plug(ctx, t) && t.Node? && t.id == destination
        invariant Plug(ctx, BstInsert(t, val, n)) == BstInsert(tree, val, n)
        decreases t
      {
        Nav(nodes, ctx, t);
        var subBranch := InsertBranch(val, nodes[destination].val);
        if SubNode(nodes[destination], subBranch) == Null {
          LeafInsInv(ctx, t, val, n);
          var leaf := LeafInsert(destination, val, subBranch, ctx, t);
          ghost var ctxL := [Frame(t.id, t.color, subBranch, t.key, Child(t, ReverseBranch(subBranch)))] + ctx;
          InsertFixup(leaf, ctxL, Node(leaf, Red, Nil, val, Nil));
          SameKeysPlug([], BstInsert(old(tree), val, n), BstInsert(old(tree), val, n));
          return;
        } else {
          DescendStep(ctx, t, val, n);
          ctx, t := [Frame(t.id, t.color, subBranch, t.key, Child(t, ReverseBranch(subBranch)))] + ctx, Child(t, subBranch);
          destination := SubNode(nodes[destination], subBranch).id;
        }
      }
    }

    /** RedBlackTree::insert: insert below the root and blacken the root, or
        make a black root holding val. The tree stays a red-black tree and
        its keys are the old ones with val inserted in order. */
    method Insert(val: int)
      requires Valid()
      modifies this
      ensures Valid()
      ensures Keys(tree) == InsertSorted(old(Keys(tree)), val)
      ensures multiset(Keys(tree)) == multiset(old(Keys(tree))) + multiset{val}
    {
      BstInsertKeys(tree, val, next);
      if root.Ref? {
        NodeInsert(root.id, val);
        ghost var t := tree;
        SetColor(root.id, Black, [], tree);
        BlackenRoot(t);
      } else {
        nodes := nodes[next := NewNode(val, Null)];
        root := Ref(next);
        tree := Node(next, Black, Nil, val, Nil);
        next := next + 1;
      }
    }

    // ------------------------------------------------------------ deletion

    /** The first case of del_fixup at node (its brother is red): the parent
        turns red, the brother black, and the parent is rotated towards node,
        which keeps its place below the brother's old node. */
    method DelRedBrother(node: nat, ghost ctx: seq<Frame>, ghost t: Tree) returns (ghost ctx': seq<Frame>)
      requires Wf() && tree == Plug(ctx, t) && t.Node? && t.id == node
      requires ctx != [] && ctx[0].sib.Node?
      modifies this
      ensures Wf() && ctx' == RedBrotherCase(ctx) && tree == Plug(ctx', t)
      ensures forall i :: i in nodes <==> i in old(nodes)
      ensures root == old(root) && next == old(next) && Ids(tree) == Ids(old(tree))
    {
      RedBrotherShape(ctx, t);
      ghost var p, sib, b := ctx[0], ctx[0].sib, ctx[0].dir;
      ghost var pr := Frame(p.id, Red, b, p.key, sib.(color := Black));
      ghost var cs := [Frame(p.id, Red, ReverseBranch(b), p.key, t)] + ctx[1..];
      assert nodes[node].parent == Ref(p.id) && p.id in nodes by {
        NavBrother(nodes, ctx, t);
      }
      SetColor(nodes[node].parent.id, Red, ctx[1..], Attach(p, t));
      assert Brother(nodes, node) == Ref(sib.id) && sib.id in nodes by {
        NavBrother(nodes, [p.(color := Red)] + ctx[1..], t);
        PlugCons(p.(color := Red), ctx[1..], t);
        assert ([p.(color := Red)] + ctx[1..])[1..] == ctx[1..];
      }
      SetColor(Brother(nodes, node).id, Black, cs, sib);
      assert nodes[node].parent == Ref(p.id) && p.id in nodes && Branch(nodes, node) == b by {
        NavBrother(nodes, [pr] + ctx[1..], t);
        PlugCons(pr, ctx[1..], t);
        assert ([pr] + ctx[1..])[1..] == ctx[1..];
      }
      Rotate(nodes[node].parent.id, Branch(nodes, node), ctx[1..], Attach(pr, t));
      ctx' := RedBrotherCase(ctx);
    }

    /** The second case of del_fixup (a black brother with two black
        children): the brother turns red and the parent becomes node. */
    method DelBlackBrother(node: nat, ghost ctx: seq<Frame>, ghost t: Tree) returns (node': nat, ghost ctx': seq<Frame>, ghost t': Tree)
      requires Wf() && tree == Plug(ctx, t) && t.Node? && t.id == node
      requires ctx != [] && ctx[0].sib.Node?
      modifies this
      ensures Wf() && (ctx', t') == BlackBrotherCase(ctx, t) && tree == Plug(ctx', t') && node' == t'.id
      ensures forall i :: i in nodes <==> i in old(nodes)
      ensures root == old(root) && next == old(next) && Ids(tree) == Ids(old(tree))
    {
      BlackBrotherShape(ctx, t);
      ghost var p, sib, b := ctx[0], ctx[0].sib, ctx[0].dir;
      ghost var cs := [Frame(p.id, p.color, ReverseBranch(b), p.key, t)] + ctx[1..];
      assert Brother(nodes, node) == Ref(sib.id) && sib.id in nodes by {
        NavBrother(nodes, ctx, t);
      }
      SetColor(Brother(nodes, node).id, Red, cs, sib);
      assert nodes[node].parent == Ref(p.id) by {
        Nav(nodes, ctx[1..], BlackBrotherCase(ctx, t).1);
        Nav(nodes, [ctx[0].(sib := sib.(color := Red))] + ctx[1..], t);
        PlugCons(ctx[0].(sib := sib.(color := Red)), ctx[1..], t);
        assert ([ctx[0].(sib := sib.(color := Red))] + ctx[1..])[1..] == ctx[1..];
      }
      node' := nodes[node].parent.id;
      ctx', t' := BlackBrotherCase(ctx, t).0, BlackBrotherCase(ctx, t).1;
    }

    /** The third case of del_fixup (the brother's far child is black, its
        near child red): the brother turns red, the near child black, and the
        brother is rotated away from node. */
    method DelNearRed(node: nat, ghost ctx: seq<Frame>, ghost t: Tree) returns (ghost ctx': seq<Frame>)
      requires Wf() && tree == Plug(ctx, t) && t.Node? && t.id == node
      requires ctx != [] && ctx[0].sib.Node? && Child(ctx[0].sib, ctx[0].dir).Node?
      modifies this
      ensures Wf() && ctx' == NearRedCase(ctx) && tree == Plug(ctx', t)
      ensures forall i :: i in nodes <==> i in old(nodes)
      ensures root == old(root) && next == old(next) && Ids(tree) == Ids(old(tree))
    {
      NearRedShape(ctx, t);
      ghost var p, sib, b := ctx[0], ctx[0].sib, ctx[0].dir;
      ghost var rb := ReverseBranch(b);
      ghost var near := Child(sib, b);
      ghost var cs := [Frame(p.id, p.color, rb, p.key, t)] + ctx[1..];
      ghost var cn := [Frame(sib.id, Red, b, sib.key, Child(sib, rb))] + cs;
      ghost var s1 := Make(sib.id, Red, b, near.(color := Black), sib.key, Child(sib, rb));
      assert Brother(nodes, node) == Ref(sib.id) && sib.id in nodes && Branch(nodes, node) == b by {
        NavBrother(nodes, ctx, t);
      }
      SetColor(Brother(nodes, node).id, Red, cs, sib);
      assert Brother(nodes, node) == Ref(sib.id) && sib.id in nodes && Branch(nodes, node) == b &&
             SubNode(nodes[sib.id], b) == Ref(near.id) by {
        Nav(nodes, cn, near);
        PlugCons(Frame(p.id, p.color, b, p.key, sib.(color := Red)), ctx[1..], t);
        MakeFlip(p.id, p.color, b, t, p.key, sib.(color := Red));
        NavBrother(nodes, [Frame(p.id, p.color, b, p.key, sib.(color := Red))] + ctx[1..], t);
      }
      SetColor(SubNode(nodes[Brother(nodes, node).id], Branch(nodes, node)).id, Black, cn, near);
      assert Brother(nodes, node) == Ref(sib.id) && sib.id in nodes && Branch(nodes, node) == b by {
        PlugCons(Frame(p.id, p.color, b, p.key, s1), ctx[1..], t);
        MakeFlip(p.id, p.color, b, t, p.key, s1);
        NavBrother(nodes, [Frame(p.id, p.color, b, p.key, s1)] + ctx[1..], t);
      }
      Rotate(Brother(nodes, node).id, ReverseBranch(Branch(nodes, node)), cs, s1);
      ctx' := NearRedCase(ctx);
    }

    /** The fourth case of del_fixup (the brother's far child is red): that
        child turns black, parent and brother swap colours, and the parent is
        rotated towards node. The tree is then repaired. */
    method DelFarRed(node: nat, ghost ctx: seq<Frame>, ghost t: Tree)
      requires Wf() && tree == Plug(ctx, t) && t.Node? && t.id == node
      requires ctx != [] && ctx[0].sib.Node? && Child(ctx[0].sib, ReverseBranch(ctx[0].dir)).Node?
      modifies this
      ensures Wf() && tree == FarRedCase(ctx, t)
      ensures forall i :: i in nodes <==> i in old(nodes)
      ensures root == old(root) && next == old(next) && Ids(tree) == Ids(old(tree))
    {
      FarRedShape(ctx, t);
      ghost var p, sib, b := ctx[0], ctx[0].sib, ctx[0].dir;
      ghost var rb := ReverseBranch(b);
      ghost var far := Child(sib, rb);
      ghost var cs := [Frame(p.id, p.color, rb, p.key, t)] + ctx[1..];
      ghost var cf := [Frame(sib.id, sib.color, rb, sib.key, Child(sib, b))] + cs;
      ghost var sf := Make(sib.id, sib.color, rb, far.(color := Black), sib.key, Child(sib, b));
      ghost var cs' := [Frame(p.id, sib.color, rb, p.key, t)] + ctx[1..];
      ghost var s1 := sf.(color := p.color);
      assert Brother(nodes, node) == Ref(sib.id) && sib.id in nodes && Branch(nodes, node) == b &&
             SubNode(nodes[sib.id], rb) == Ref(far.id) by {
        NavBrother(nodes, ctx, t);
      }
      SetColor(SubNode(nodes[Brother(nodes, node).id], ReverseBranch(Branch(nodes, node))).id, Black, cf, far);
      assert nodes[node].parent == Ref(p.id) && p.id in nodes && Brother(nodes, node) == Ref(sib.id) && sib.id in nodes by {
        PlugCons(p.(sib := sf), ctx[1..], t);
        NavBrother(nodes, [p.(sib := sf)] + ctx[1..], t);
      }
      var parentColor := nodes[nodes[node].parent.id].color;
      var brotherColor := nodes[Brother(nodes, node).id].color;
      assert parentColor == p.color && brotherColor == sib.color by {
        Nav(nodes, ctx[1..], Attach(p.(sib := sf), t));
        Nav(nodes, cs, sf);
      }
      SetColor(nodes[node].parent.id, brotherColor, ctx[1..], Attach(p.(sib := sf), t));
      assert Brother(nodes, node) == Ref(sib.id) && sib.id in nodes by {
        PlugCons(p.(sib := sf, color := sib.color), ctx[1..], t);
        NavBrother(nodes, [p.(sib := sf, color := sib.color)] + ctx[1..], t);
      }
      SetColor(Brother(nodes, node).id, parentColor, cs', sf);
      assert nodes[node].parent == Ref(p.id) && p.id in nodes && Branch(nodes, node) == b by {
        PlugCons(Frame(p.id, sib.color, b, p.key, s1), ctx[1..], t);
        NavBrother(nodes, [Frame(p.id, sib.color, b, p.key, s1)] + ctx[1..], t);
      }
      Rotate(nodes[node].parent.id, Branch(nodes, node), ctx[1..], Attach(Frame(p.id, sib.color, b, p.key, s1), t));
    }

    /** One iteration of del_fixup's loop once the brother is black: the
        second case moves node up; otherwise the third case (if needed) and
        the fourth repair the tree and node becomes the root. */
    method DelBlackSide(node: nat, ghost ctx: seq<Frame>, ghost t: Tree, ghost ph: nat) returns (node': nat, ghost ctx': seq<Frame>, ghost t': Tree)
      requires Wf() && tree == Plug(ctx, t) && t.Node? && t.id == node && DelInv(ctx, t, ph)
      requires ctx != [] && t.color == Black && ColorOfTree(ctx[0].sib) == Black
      modifies this
      ensures Wf() && tree == Plug(ctx', t') && t'.Node? && t'.id == node' && DelInv(ctx', t', ph)
      ensures Keys(Plug(ctx', Strip(t', ph))) == Keys(Plug(ctx, Strip(t, ph)))
      ensures ctx' == [] || DelMeasure(ctx', t') == 2 * (|ctx| - 1) + BlackCount(ctx[0].color)
      ensures Ids(tree) == Ids(old(tree)) && (forall i :: i in nodes <==> i in old(nodes))
      ensures root == old(root) && next == old(next)
    {
      DelBrother(ctx, t, ph);
      NavBrother(nodes, ctx, t);
      ghost var sib := ctx[0].sib;
      var brother := Brother(nodes, node).id;
      if ColorOf(nodes, nodes[brother].right) == Black && ColorOf(nodes, nodes[brother].left) == Black {
        BlackBrotherCaseInv(ctx, t, ph);
        node', ctx', t' := DelBlackBrother(node, ctx, t);
      } else {
        node', t' := DelRedNephew(node, ctx, t, ph);
        ctx' := [];
      }
    }

    /** The third (if the near nephew is the red one) and fourth cases of
        del_fixup: afterwards node is the root and the tree is repaired. */
    method DelRedNephew(node: nat, ghost ctx: seq<Frame>, ghost t: Tree, ghost ph: nat) returns (node': nat, ghost t': Tree)
      requires Wf() && tree == Plug(ctx, t) && t.Node? && t.id == node && DelInv(ctx, t, ph)
      requires ctx != [] && t.color == Black && ctx[0].sib.Node? && ctx[0].sib.color == Black
      requires ColorOfTree(ctx[0].sib.left) == Red || ColorOfTree(ctx[0].sib.right) == Red
      modifies this
      ensures Wf() && tree == t' && t'.Node? && t'.id == node' && DelInv([], t', ph)
      ensures Keys(Strip(t', ph)) == Keys(Plug(ctx, Strip(t, ph)))
      ensures Ids(tree) == Ids(old(tree)) && (forall i :: i in nodes <==> i in old(nodes))
      ensures root == old(root) && next == old(next)
    {
      NavBrother(nodes, ctx, t);
      ghost var sib := ctx[0].sib;
      var brother := Brother(nodes, node).id;
      ghost var ctx1 := ctx;
      if ColorOf(nodes, SubNode(nodes[brother], ReverseBranch(Branch(nodes, node)))) == Black {
        NearRedCaseInv(ctx, t, ph);
        ctx1 := DelNearRed(node, ctx, t);
      } else {
        assert ColorOfTree(Child(sib, ReverseBranch(ctx[0].dir))) == Red;
      }
      FarRedCaseInv(ctx1, t, ph);
      DelFarRed(node, ctx1, t);
      node' := root.id;
      t' := FarRedCase(ctx1, t);
      assert Keys(Plug([], Strip(t', ph))) == Keys(Plug(ctx, Strip(t, ph))) by {
        StripPlug([], t', ph);
      }
    }

    /** One iteration of del_fixup's loop: the first case when the brother is
        red, then DelBlackSide. */
    method DelFixupStep(node: nat, ghost ctx: seq<Frame>, ghost t: Tree, ghost ph: nat) returns (node': nat, ghost ctx': seq<Frame>, ghost t': Tree)
      requires Wf() && tree == Plug(ctx, t) && t.Node? && t.id == node && DelInv(ctx, t, ph)
      requires ctx != [] && t.color == Black
      modifies this
      ensures Wf() && tree == Plug(ctx', t') && t'.Node? && t'.id == node' && DelInv(ctx', t', ph)
      ensures Keys(Plug(ctx', Strip(t', ph))) == Keys(Plug(ctx, Strip(t, ph)))
      ensures DelMeasure(ctx', t') < DelMeasure(ctx, t)
      ensures Ids(tree) == Ids(old(tree)) && (forall i :: i in nodes <==> i in old(nodes))
      ensures root == old(root) && next == old(next)
    {
      DelBrother(ctx, t, ph);
      NavBrother(nodes, ctx, t);
      ghost var ctx1 := ctx;
      if ColorOf(nodes, Brother(nodes, node)) == Red {
        RedBrotherCaseInv(ctx, t, ph);
        ctx1 := DelRedBrother(node, ctx, t);
      }
      node', ctx', t' := DelBlackSide(node, ctx1, t, ph);
    }

    /** RedBlackTree::del_fixup from node x, whose subtree (placeholder ph
        removed) is one black node short: while node is black and not the
        root, apply the cases; then paint node black. Afterwards the tree
        without the placeholder is a red-black tree with the same keys. */
    method DelFixup(x: nat, ghost ctx0: seq<Frame>, ghost t0: Tree, ghost ph: nat)
      requires Wf() && tree == Plug(ctx0, t0) && t0.Node? && t0.id == x && DelInv(ctx0, t0, ph)
      modifies this
      ensures Wf() && NoRedRed(Strip(tree, ph)) && Balanced(Strip(tree, ph)) && ColorOfTree(Strip(tree, ph)) == Black
      ensures Keys(Strip(tree, ph)) == Keys(Strip(old(tree), ph))
      ensures Ids(tree) == Ids(old(tree))
      ensures forall i :: i in nodes <==> i in old(nodes)
      ensures root == old(root) && next == old(next)
    {
      var node := x;
      ghost var ctx, t := ctx0, t0;
      ghost var k0 := Keys(Plug(ctx0, Strip(t0, ph)));
      NavParent(nodes, ctx, t);
      while nodes[node].color == Black && nodes[node].parent.Ref?
        invariant Wf() && tree == Plug(ctx, t) && t.Node? && t.id == node && DelInv(ctx, t, ph)
        invariant node in nodes && nodes[node].color == t.color && nodes[node].parent == ParentPtr(ctx)
        invariant Keys(Plug(ctx, Strip(t, ph))) == k0
        invariant Ids(tree) == Ids(old(tree)) && (forall i :: i in nodes <==> i in old(nodes))
        invariant root == old(root) && next == old(next)
        decreases DelMeasure(ctx, t)
      {
        node, ctx, t := DelFixupStep(node, ctx, t, ph);
        NavParent(nodes, ctx, t);
      }
      DelDone(ctx, t, ph);
      SetColor(node, Black, ctx, t);
      StripPlug(ctx, t.(color := Black), ph);
      StripPlug(ctx0, t0, ph);
    }

    /** The first half of substitute: the surviving child of node o (or,
        when o has no child, a black placeholder node allocated at id `next`)
        takes o's place under o's parent, or becomes the root. ph is the id
        the placeholder has or would have had. */
    method SpliceIn(o: nat, nx: Ptr, ghost ctx: seq<Frame>, ghost t: Tree) returns (u: nat, fake: bool, ghost ut: Tree, ghost ph: nat)
      requires Wf() && tree == Plug(ctx, t) && t.Node? && t.id == o
      requires (t.left.Nil? || t.right.Nil?) && nx == PtrOf(Survivor(t))
      modifies this
      ensures Wf() && tree == Plug(ctx, ut) && ut.Node? && ut.id == u && ph == old(next)
      ensures fake ==> ut == Node(ph, Black, Nil, 0, Nil) && next == ph + 1
      ensures !fake ==> ut == Survivor(t) && next == ph
      ensures ph !in CtxIds(ctx) && (fake <==> nx.Null?)
      ensures o in nodes && nodes[o].color == t.color
    {
      assert o in nodes && nodes[o].parent == ParentPtr(ctx) && nodes[o].color == t.color &&
             (ctx != [] ==> ctx[0].id in nodes && Branch(nodes, o) == ctx[0].dir) &&
             CtxIds(ctx) <= nodes.Keys && Ids(t) !! CtxIds(ctx) && Distinct(t) &&
             Linked(nodes, Survivor(t), Ref(o)) && Distinct(Survivor(t)) by {
        Nav(nodes, ctx, t);
        LinkedIds(nodes, tree, Null);
        DistinctPlug(ctx, t);
      }
      var par := nodes[o].parent;
      ph := next;
      ghost var s0 := nodes;
      if nx.Ref? {
        nodes := nodes[nx.id := nodes[nx.id].(parent := par)];
        u, fake, ut := nx.id, false, Survivor(t);
      } else {
        u := next;
        nodes := nodes[u := NewNode(0, par).(color := Black)];
        next := next + 1;
        fake, ut := true, Node(ph, Black, Nil, 0, Nil);
      }
      if !fake {
        LinkedMoved(s0, nodes, ut, Ref(o), par);
      } else {
        assert nodes[u] == RecOf(ut, par);
      }
      Hook(o, u, s0, ctx, t, ut);
    }

    /** The middle of substitute: u, already re-parented to o's parent,
        takes o's slot there (or becomes the root). s0 is the store before
        u was re-parented or allocated. */
    method Hook(o: nat, u: nat, ghost s0: Store, ghost ctx: seq<Frame>, ghost t: Tree, ghost ut: Tree)
      requires Linked(s0, Plug(ctx, t), Null) && Distinct(Plug(ctx, t)) && t.Node? && t.id == o
      requires root == PtrOf(Plug(ctx, t)) && tree == Plug(ctx, t)
      requires Linked(nodes, ut, ParentPtr(ctx)) && Distinct(ut) && ut.Node? && ut.id == u && Ids(ut) !! CtxIds(ctx) && o != u
      requires o in nodes && nodes[o].parent == ParentPtr(ctx)
      requires ctx != [] ==> ctx[0].id in nodes && Branch(nodes, o) == ctx[0].dir
      requires forall i :: i in s0 && i != u ==> i in nodes && nodes[i] == s0[i]
      requires forall i :: i in nodes ==> i < next
      modifies this
      ensures Wf() && tree == Plug(ctx, ut) && next == old(next)
      ensures ctx == [] ==> nodes == old(nodes)
      ensures ctx != [] ==> nodes == old(nodes)[ctx[0].id := WithSub(old(nodes)[ctx[0].id], ctx[0].dir, Ref(u))]
    {
      assert ctx != [] ==> ctx[0].id in s0 && ctx[0].id != u && nodes[ctx[0].id] == s0[ctx[0].id] by {
        Nav(s0, ctx, t);
      }
      var par := nodes[o].parent;
      if par.Null? {
        root := Ref(u);
      } else if Branch(nodes, o) == RightBranch {
        nodes := nodes[par.id := nodes[par.id].(right := Ref(u))];
      } else {
        nodes := nodes[par.id := nodes[par.id].(left := Ref(u))];
      }
      LinkedFrame(old(nodes), nodes, ut, par);
      SpliceLinked(s0, nodes, ctx, t, ut);
      tree := Plug(ctx, ut);
    }

    /** The end of substitute: the placeholder p is unhooked from its parent
        (or the root becomes null), which removes it from the tree. */
    method RemovePlaceholder(p: nat)
      requires Wf() && p in Ids(tree)
      modifies this
      ensures Wf() && tree == Strip(old(tree), p) && next == old(next)
    {
      ghost var z := Focus(tree, p);
      ghost var ctx, t := z.0, z.1;
      Nav(nodes, ctx, t);
      ghost var s0 := nodes;
      if nodes[p].parent.Null? {
        root := Null;
      } else if Branch(nodes, p) == RightBranch {
        var q := nodes[p].parent.id;
        nodes := nodes[q := nodes[q].(right := Null)];
      } else {
        var q := nodes[p].parent.id;
        nodes := nodes[q := nodes[q].(left := Null)];
      }
      SpliceLinked(s0, nodes, ctx, t, Nil);
      StripPlug(ctx, t, p);
      tree := Plug(ctx, Nil);
    }

    /** RedBlackTree::substitute(o, nx): node o, with at most one child,
        is replaced by that child nx (or a placeholder); if o was black the
        fixup runs from there; the placeholder is then removed. The result
        is a red-black tree whose keys are those of the tree with o's
        subtree replaced by its surviving child. */
    method Substitute(o: nat, nx: Ptr, ghost ctx: seq<Frame>, ghost t: Tree)
      requires Wf() && tree == Plug(ctx, t) && t.Node? && t.id == o
      requires (t.left.Nil? || t.right.Nil?) && nx == PtrOf(Survivor(t))
      requires NoRedRed(tree) && Balanced(tree) && ColorOfTree(tree) == Black
      modifies this
      ensures Wf() && NoRedRed(tree) && Balanced(tree) && ColorOfTree(tree) == Black
      ensures Keys(tree) == Keys(Plug(ctx, Survivor(t)))
      ensures Ids(tree) <= Ids(old(tree)) - {o}
    {
      assert Strip(Survivor(t), next) == Survivor(t) by {
        LinkedIds(nodes, tree, Null);
        DistinctPlug(ctx, t);
        StripAbsent(Survivor(t), next);
      }
      ghost var kept := Ids(tree) - {o};
      var u, fake, ut, ph := SpliceIn(o, nx, ctx, t);
      assert Ids(tree) - {ph} <= kept && (fake ==> ph in Ids(tree)) by {
        DistinctPlug(ctx, ut);
        DistinctPlug(ctx, t);
      }
      SubstituteStart(ctx, t, ut, ph);
      StripPlug(ctx, ut, ph);
      if nodes[o].color == Black {
        DelFixup(u, ctx, ut, ph);
      }
      ghost var sv := Strip(tree, ph);
      assert NoRedRed(sv) && Balanced(sv) && ColorOfTree(sv) == Black && Keys(sv) == Keys(Plug(ctx, Survivor(t)));
      Unhook(fake, u, ph);
    }

    /** The `next_fake` step of substitute: if a placeholder was used, it is
        unhooked; either way the tree is the old one without the
        placeholder. */
    method Unhook(fake: bool, u: nat, ghost ph: nat)
      requires Wf() && (fake ==> u == ph && ph in Ids(tree)) && (!fake ==> ph == next)
      modifies this
      ensures Wf() && tree == Strip(old(tree), ph) && Ids(tree) <= Ids(old(tree)) - {ph}
    {
      if fake {
        RemovePlaceholder(u);
      } else {
        LinkedIds(nodes, tree, Null);
        StripAbsent(tree, ph);
      }
    }

    /** RedBlackTree::del(node): nothing for a null pointer; a node with at
        most one child is substituted by that child; otherwise it swaps
        values with the leftmost node of its right subtree, which is then
        substituted by its right child. The tree stays a red-black tree and
        loses exactly the node's key, at the node's in-order position. */
    method DeleteNode(node: Ptr)
      requires Valid() && (node.Ref? ==> node.id in Ids(tree))
      modifies this
      ensures Valid()
      ensures node.Null? ==> tree == old(tree)
      ensures node.Ref? ==> node.id in old(nodes) && Keys(tree) == RemoveAt(old(Keys(tree)), KeyIndex(old(tree), node.id))
      ensures node.Ref? ==> multiset(Keys(tree)) == multiset(old(Keys(tree))) - multiset{old(nodes)[node.id].val}
      ensures Ids(tree) <= Ids(old(tree))
      ensures node.Ref? && |old(Keys(tree))| == 1 ==> root == Null
    {
      if node.Null? {
        return;
      }
      ghost var k0 := Keys(tree);
      ghost var z := Focus(tree, node.id);
      ghost var ctx, t := z.0, z.1;
      ghost var i := KeyIndex(tree, node.id);
      assert i == |Before(ctx)| + |Keys(t.left)| && k0[i] == t.key;
      var x := node.id;
      assert x in nodes && nodes[x] == RecOf(t, ParentPtr(ctx)) by {
        Nav(nodes, ctx, t);
      }
      if nodes[x].left == Null || nodes[x].right == Null {
        SubstituteKeys(ctx, t);
        Substitute(x, if nodes[x].left.Ref? then nodes[x].left else nodes[x].right, ctx, t);
      } else {
        SwapSubstitute(x, ctx, t);
      }
      assert Keys(tree) == RemoveAt(k0, i);
      RemoveAtProps(k0, i);
      assert Ordered(tree);
    }

    /** The two-children branch of del(node) on node x: x takes the value
        of the leftmost node of its right subtree, which takes x's value and
        is then substituted by its right child. */
    method SwapSubstitute(x: nat, ghost ctx: seq<Frame>, ghost t: Tree)
      requires Wf() && tree == Plug(ctx, t) && t.Node? && t.id == x && t.left.Node? && t.right.Node?
      requires NoRedRed(tree) && Balanced(tree) && ColorOfTree(tree) == Black
      modifies this
      ensures Wf() && NoRedRed(tree) && Balanced(tree) && ColorOfTree(tree) == Black
      ensures var i := |Before(ctx)| + |Keys(t.left)|;
        i < |Keys(old(tree))| && Keys(tree) == RemoveAt(Keys(old(tree)), i)
      ensures Ids(tree) <= Ids(old(tree))
    {
      assert x in nodes && nodes[x] == RecOf(t, ParentPtr(ctx)) && Linked(nodes, t.right, Ref(x)) by {
        Nav(nodes, ctx, t);
      }
      var nearest := MinFrom(nodes, nodes[x].right.id, t.right, Ref(x));
      ghost var m := Leftmost(t.right);
      var nv, ov := nodes[nearest].val, nodes[x].val;
      SwapDeleteKeys(ctx, t, ov);
      SetVal(x, nv, ctx, t);
      RelabelPlug(ctx, t, nv);
      SetVal(nearest, ov, SwapCtx(ctx, t), m);
      RelabelPlug(SwapCtx(ctx, t), m, ov);
      assert nodes[nearest].right == PtrOf(m.right) by {
        Nav(nodes, SwapCtx(ctx, t), m.(key := ov));
      }
      Substitute(nearest, nodes[nearest].right, SwapCtx(ctx, t), m.(key := ov));
    }

    /** RedBlackTree::del(val): search from the root (which must exist) and
        delete the node found, if any. One occurrence of val leaves the
        keys; when val is absent nothing changes. */
    method Delete(val: int)
      requires Valid() && root.Ref?
      modifies this
      ensures Valid()
      ensures multiset(Keys(tree)) == multiset(old(Keys(tree))) - multiset{val}
      ensures val !in old(Keys(tree)) ==> tree == old(tree)
    {
      var node := Search(val);
      DeleteNode(node);
    }
  }
}
