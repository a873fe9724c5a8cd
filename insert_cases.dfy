/** Insertion on abstract trees: where RedBlackTreeNode::insert puts a new
    key, and the two cases of insert_fixup as transformations of a zipper
    (the red node being repaired and the frames of its ancestors). */
module InsertCases {
  import opened Trees
  import opened Zippers

  // ---------------------------------------------------------------- descent

  /** The tree after the descent of RedBlackTreeNode::insert: a red leaf with
      id n and key v hangs where the search path ends; smaller keys go left,
      equal or larger keys go right. */
  function BstInsert(t: Tree, v: int, n: nat): (r: Tree)
    ensures r.Node? && Ids(r) == Ids(t) + {n}
    ensures t.Node? ==> r.id == t.id && r.color == t.color && r.key == t.key
    ensures Balanced(t) ==> Balanced(r) && BH(r) == BH(t)
  {
    match t
    case Nil => Node(n, Red, Nil, v, Nil)
    case Node(id, c, l, k, r) =>
      if v < k then Node(id, c, BstInsert(l, v, n), k, r)
      else Node(id, c, l, k, BstInsert(r, v, n))
  }

  /** A sorted sequence with v inserted after every element <= v. */
  function InsertSorted(s: seq<int>, v: int): seq<int>
  {
    if s == [] then [v]
    else if v < s[0] then [v] + s
    else [s[0]] + InsertSorted(s[1..], v)
  }

  /** v lands at position i: everything before it is at most v and the element
      after it, if any, is larger; nothing else moves. */
  lemma {:induction false} InsertSortedAt(s: seq<int>, v: int) returns (i: nat)
    ensures i <= |s| && InsertSorted(s, v) == s[..i] + [v] + s[i..]
    ensures forall j :: 0 <= j < i ==> s[j] <= v
    ensures i < |s| ==> v < s[i]
    decreases |s|
  {
    if s == [] {
      i := 0;
    } else if v < s[0] {
      i := 0;
    } else {
      var i' := InsertSortedAt(s[1..], v);
      i := i' + 1;
      assert s[..i] == [s[0]] + s[1..][..i'];
      assert s[i..] == s[1..][i'..];
    }
  }

  lemma InsertSortedKeeps(s: seq<int>, v: int)
    ensures multiset(InsertSorted(s, v)) == multiset(s) + multiset{v}
    ensures Sorted(s) ==> Sorted(InsertSorted(s, v))
  {
    var i := InsertSortedAt(s, v);
    assert s == s[..i] + s[i..];
    InsertSortedSorted(s, v);
  }

  lemma InsertSortedSorted(s: seq<int>, v: int)
    ensures Sorted(s) ==> Sorted(InsertSorted(s, v))
  {
    var i := InsertSortedAt(s, v);
    var r := InsertSorted(s, v);
    if Sorted(s) {
      forall a, b | 0 <= a < b < |r| ensures r[a] <= r[b] {
        if b < i {
          assert r[a] == s[a] && r[b] == s[b];
        } else if b == i {
          assert r[a] == s[a];
        } else if a < i {
          assert r[a] == s[a] && r[b] == s[b - 1] && s[a] <= s[i] <= s[b - 1];
        } else if a == i {
          assert r[b] == s[b - 1] && s[i] <= s[b - 1];
        } else {
          assert r[a] == s[a - 1] && r[b] == s[b - 1];
        }
      }
    }
  }

  lemma {:induction false} InsertSortedLeft(a: seq<int>, rest: seq<int>, v: int)
    requires rest != [] && v < rest[0]
    ensures InsertSorted(a + rest, v) == InsertSorted(a, v) + rest
    decreases |a|
  {
    if a == [] {
      assert a + rest == rest;
    } else {
      assert (a + rest)[0] == a[0] && (a + rest)[1..] == a[1..] + rest;
      InsertSortedLeft(a[1..], rest, v);
    }
  }

  lemma {:induction false} InsertSortedRight(a: seq<int>, rest: seq<int>, v: int)
    requires forall j :: 0 <= j < |a| ==> a[j] <= v
    ensures InsertSorted(a + rest, v) == a + InsertSorted(rest, v)
    decreases |a|
  {
    if a == [] {
      assert a + rest == rest;
    } else {
      assert (a + rest)[0] == a[0] && (a + rest)[1..] == a[1..] + rest;
      InsertSortedRight(a[1..], rest, v);
    }
  }

  /** On an ordered tree the descent puts the new key exactly where
      InsertSorted puts it in the in-order keys, so the tree stays ordered and
      gains one copy of v. */
  lemma BstInsertKeys(t: Tree, v: int, n: nat)
    requires Ordered(t)
    ensures Keys(BstInsert(t, v, n)) == InsertSorted(Keys(t), v)
    ensures Ordered(BstInsert(t, v, n))
    ensures multiset(Keys(BstInsert(t, v, n))) == multiset(Keys(t)) + multiset{v}
  {
    BstInsertInOrder(t, v, n);
    InsertSortedKeeps(Keys(t), v);
  }

  lemma {:induction false} BstInsertInOrder(t: Tree, v: int, n: nat)
    requires Ordered(t)
    ensures Keys(BstInsert(t, v, n)) == InsertSorted(Keys(t), v)
  {
    match t
    case Nil =>
    case Node(id, c, l, k, r) =>
      var kl, kr := Keys(l), Keys(r);
      assert Keys(t) == kl + [k] + kr;
      SortedParts(kl, k, kr);
      if v < k {
        BstInsertInOrder(l, v, n);
        InsertSortedLeft(kl, [k] + kr, v);
        InOrderLeft(kl, k, kr, InsertSorted(kl, v));
      } else {
        BstInsertInOrder(r, v, n);
        InsertSortedRight(kl + [k], kr, v);
        InOrderRight(kl, k, kr, InsertSorted(kr, v));
      }
  }

  lemma InOrderLeft(kl: seq<int>, k: int, kr: seq<int>, il: seq<int>)
    ensures il + [k] + kr == il + ([k] + kr) && kl + [k] + kr == kl + ([k] + kr)
  {
  }

  lemma InOrderRight(kl: seq<int>, k: int, kr: seq<int>, ir: seq<int>)
    ensures kl + [k] + ir == (kl + [k]) + ir
  {
  }

  /** The parts of a sorted concatenation are sorted. */
  lemma SortedParts(a: seq<int>, k: int, b: seq<int>)
    requires Sorted(a + [k] + b)
    ensures Sorted(a) && Sorted(b)
    ensures forall j :: 0 <= j < |a + [k]| ==> (a + [k])[j] <= k
  {
    var s := a + [k] + b;
    forall j | 0 <= j < |a + [k]| ensures (a + [k])[j] <= k {
      assert s[j] == (a + [k])[j] && s[|a|] == k;
    }
    forall i, j | 0 <= i < j < |a| ensures a[i] <= a[j] {
      assert s[i] == a[i] && s[j] == a[j];
    }
    forall i, j | 0 <= i < j < |b| ensures b[i] <= b[j] {
      assert s[|a| + 1 + i] == b[i] && s[|a| + 1 + j] == b[j];
    }
  }

  /** The side the descent takes at a node with key k. */
  function InsertBranch(v: int, k: int): (b: SubBranch)
    ensures b == LeftBranch <==> v < k
  {
    if v < k then LeftBranch else RightBranch
  }

  /** One step of the descent: moving the focus to the child on the side the
      key leads to changes neither the tree nor the tree the insertion builds. */
  lemma DescendStep(ctx: seq<Frame>, t: Tree, v: int, n: nat)
    requires t.Node? && Child(t, InsertBranch(v, t.key)).Node?
    ensures var b := InsertBranch(v, t.key);
      var ctx' := [Frame(t.id, t.color, b, t.key, Child(t, ReverseBranch(b)))] + ctx;
      Plug(ctx', Child(t, b)) == Plug(ctx, t) &&
      Plug(ctx', BstInsert(Child(t, b), v, n)) == Plug(ctx, BstInsert(t, v, n))
  {
    var b := InsertBranch(v, t.key);
    var f := Frame(t.id, t.color, b, t.key, Child(t, ReverseBranch(b)));
    PlugCons(f, ctx, Child(t, b));
    PlugCons(f, ctx, BstInsert(Child(t, b), v, n));
  }

  /** Where the descent stops, the new red leaf is the focus of a zipper
      that satisfies the loop invariant of insert_fixup. */
  lemma LeafInsInv(ctx: seq<Frame>, t: Tree, v: int, n: nat)
    requires t.Node? && Child(t, InsertBranch(v, t.key)).Nil?
    requires NoRedRed(Plug(ctx, t)) && Balanced(Plug(ctx, t)) && ColorOfTree(Plug(ctx, t)) == Black
    ensures var b := InsertBranch(v, t.key);
      var leaf := Node(n, Red, Nil, v, Nil);
      var ctx' := [Frame(t.id, t.color, b, t.key, Child(t, ReverseBranch(b)))] + ctx;
      InsInv(ctx', leaf) &&
      Plug(ctx', leaf) == Plug(ctx, Make(t.id, t.color, b, leaf, t.key, Child(t, ReverseBranch(b)))) &&
      Make(t.id, t.color, b, leaf, t.key, Child(t, ReverseBranch(b))) == BstInsert(t, v, n)
  {
    var b := InsertBranch(v, t.key);
    var leaf := Node(n, Red, Nil, v, Nil);
    var f := Frame(t.id, t.color, b, t.key, Child(t, ReverseBranch(b)));
    var ctx' := [f] + ctx;
    PlugCons(f, ctx, leaf);
    NoRedRedPlug(ctx, t);
    BalancedPlug(ctx, t);
    PlugColor(ctx, t);
    assert ctx'[0] == f && ctx'[1..] == ctx;
    assert ctx'[|ctx'| - 1] == if ctx == [] then f else ctx[|ctx| - 1];
    assert CtxBalanced(ctx', 0);
  }

  // ---------------------------------------------------------------- fixup

  /** The loop invariant of insert_fixup: the focus t is red and a valid
      red-black subtree on its own; the tree around it is balanced and free of
      red-red pairs except, possibly, between t and its parent; the root is
      black unless t is the root. */
  ghost predicate InsInv(ctx: seq<Frame>, t: Tree)
  {
    t.Node? && t.color == Red && NoRedRed(t) && Balanced(t) &&
    CtxBalanced(ctx, BH(t)) && CtxRedAbove(ctx) &&
    (ctx != [] ==> ctx[|ctx| - 1].color == Black)
  }

  /** When the loop has to run (the parent is red) there is a grandparent,
      which is black, and the focus' sibling is black. */
  lemma InsParentRed(ctx: seq<Frame>, t: Tree)
    requires InsInv(ctx, t) && ctx != [] && ctx[0].color == Red
    ensures |ctx| >= 2 && ctx[1].color == Black && ColorOfTree(ctx[0].sib) == Black
    ensures Balanced(ctx[0].sib) && BH(ctx[0].sib) == BH(t) && NoRedRed(ctx[0].sib)
    ensures Balanced(ctx[1].sib) && BH(ctx[1].sib) == BH(t) && NoRedRed(ctx[1].sib)
    ensures CtxBalanced(ctx[2..], BH(t) + 1) && CtxRed(ctx[2..], Black)
  {
    assert |ctx| != 1;
    var up := ctx[1..];
    assert up[0] == ctx[1] && up[1..] == ctx[2..];
    assert CtxRed(up, Red) && CtxBalanced(up, BH(t));
    assert ctx[1].color == Black;
  }

  /** First case of insert_fixup (the uncle is red): parent and uncle turn
      black, the grandparent red, and the grandparent becomes the focus. */
  function RecolorCase(ctx: seq<Frame>, t: Tree): (z: (seq<Frame>, Tree))
    requires |ctx| >= 2 && ctx[1].sib.Node?
    ensures z.0 == ctx[2..]
  {
    var p, g := ctx[0], ctx[1];
    (ctx[2..], Make(g.id, Red, g.dir, Attach(p.(color := Black), t), g.key, g.sib.(color := Black)))
  }

  /** The three foci the first case recolours, in order: the parent, the
      uncle, the grandparent. */
  lemma RecolorShape(ctx: seq<Frame>, t: Tree)
    requires |ctx| >= 2 && ctx[1].sib.Node?
    ensures var p, g := ctx[0], ctx[1];
      var pt := Attach(p, t);
      var pb := Attach(p.(color := Black), t);
      var ub := g.sib.(color := Black);
      Plug(ctx, t) == Plug(ctx[1..], pt) &&
      ctx[1..][0] == g && ctx[1..][1..] == ctx[2..] &&
      pt.(color := Black) == pb &&
      Plug([Frame(g.id, g.color, ReverseBranch(g.dir), g.key, pb)] + ctx[2..], g.sib) == Plug(ctx[1..], pb) &&
      Plug([Frame(g.id, g.color, ReverseBranch(g.dir), g.key, pb)] + ctx[2..], ub) ==
        Plug(ctx[2..], Make(g.id, g.color, g.dir, pb, g.key, ub)) &&
      Make(g.id, g.color, g.dir, pb, g.key, ub).(color := Red) == RecolorCase(ctx, t).1
  {
    var p, g := ctx[0], ctx[1];
    var pb := Attach(p.(color := Black), t);
    var ub := g.sib.(color := Black);
    assert ctx[1..][0] == g && ctx[1..][1..] == ctx[2..];
    MakeFlip(g.id, g.color, g.dir, pb, g.key, g.sib);
    MakeFlip(g.id, g.color, g.dir, pb, g.key, ub);
    PlugCons(Frame(g.id, g.color, ReverseBranch(g.dir), g.key, pb), ctx[2..], g.sib);
    PlugCons(Frame(g.id, g.color, ReverseBranch(g.dir), g.key, pb), ctx[2..], ub);
  }

  lemma RecolorCaseInv(ctx: seq<Frame>, t: Tree)
    requires InsInv(ctx, t) && ctx != [] && ctx[0].color == Red && ColorOfTree(ctx[1].sib) == Red
    ensures InsInv(RecolorCase(ctx, t).0, RecolorCase(ctx, t).1)
    ensures Keys(Plug(RecolorCase(ctx, t).0, RecolorCase(ctx, t).1)) == Keys(Plug(ctx, t))
  {
    InsParentRed(ctx, t);
    var p, g := ctx[0], ctx[1];
    var t' := RecolorCase(ctx, t).1;
    var pb := Attach(p.(color := Black), t);
    var ub := g.sib.(color := Black);
    assert NoRedRed(ub) && Balanced(ub) && BH(ub) == BH(t) + 1;
    assert NoRedRed(pb) && Balanced(pb) && BH(pb) == BH(t) + 1;
    assert NoRedRed(t') && Balanced(t') && BH(t') == BH(t) + 1;
    CtxRedAboveOf(ctx[2..], Black);
    if |ctx| > 2 {
      assert ctx[2..][|ctx[2..]| - 1] == ctx[|ctx| - 1];
    }
    assert Keys(t') == Keys(Attach(g, Attach(p, t)));
    SameKeysPlug(ctx[2..], t', Attach(g, Attach(p, t)));
  }

  /** Second case of insert_fixup (the uncle is black), as one step: when the
      focus and its parent lean different ways, the parent is first rotated so
      that they lean the same way (the focus then holds the parent's key and
      the parent's old sibling); then the grandparent is rotated toward the
      uncle, the grandparent's place turns black and holds the middle key, and
      its child towards the uncle turns red. The focus keeps its id. */
  function RotateCase(ctx: seq<Frame>, t: Tree): (z: (seq<Frame>, Tree))
    requires |ctx| >= 2 && t.Node?
    ensures |z.0| == |ctx| - 1 && z.1.Node? && z.1.id == t.id
  {
    var p, g := ctx[0], ctx[1];
    var d0, d1 := p.dir, g.dir;
    var tz := if d0 == d1 then t
              else Make(t.id, p.color, d1, p.sib, p.key, Child(t, d1));
    var mid := if d0 == d1 then p.key else t.key;
    var beta := if d0 == d1 then p.sib else Child(t, d0);
    ([Frame(g.id, Black, d1, mid, Make(p.id, Red, ReverseBranch(d1), g.sib, g.key, beta))] + ctx[2..], tz)
  }

  lemma RotateCaseInv(ctx: seq<Frame>, t: Tree)
    requires InsInv(ctx, t) && ctx != [] && ctx[0].color == Red && ColorOfTree(ctx[1].sib) == Black
    ensures InsInv(RotateCase(ctx, t).0, RotateCase(ctx, t).1)
    ensures RotateCase(ctx, t).0[0].color == Black
  {
    InsParentRed(ctx, t);
    var p, g := ctx[0], ctx[1];
    var z := RotateCase(ctx, t);
    var ctx', tz := z.0, z.1;
    var h := BH(t);
    if p.dir != g.dir {
      assert ColorOfTree(Child(t, p.dir)) == Black && ColorOfTree(Child(t, g.dir)) == Black;
      assert BH(Child(t, g.dir)) == h && BH(Child(t, p.dir)) == h;
    }
    assert NoRedRed(tz) && Balanced(tz) && BH(tz) == h && tz.color == Red;
    var sib := ctx'[0].sib;
    assert Balanced(sib) && BH(sib) == h && NoRedRed(sib);
    assert ctx'[1..] == ctx[2..];
    CtxRedAboveOf(ctx[2..], Black);
    assert CtxBalanced(ctx', h);
    assert CtxRedAbove(ctx');
    if |ctx| > 2 {
      assert ctx'[|ctx'| - 1] == ctx[|ctx| - 1];
    }
  }

  /** When insert_fixup stops (the parent is black or there is none), the
      whole tree is balanced and has no red-red pair. */
  lemma InsDone(ctx: seq<Frame>, t: Tree)
    requires InsInv(ctx, t) && (ctx == [] || ctx[0].color == Black)
    ensures NoRedRed(Plug(ctx, t)) && Balanced(Plug(ctx, t))
  {
    NoRedRedPlug(ctx, t);
    BalancedPlug(ctx, t);
  }

  // ---------------------------------------------------------------- the rotations of the second case

  /** The parent's subtree after the first, optional, rotation of the second
      case: rotated when the focus and its parent lean different ways. */
  function ZigPsub(ctx: seq<Frame>, t: Tree): (r: Tree)
    requires |ctx| >= 2 && t.Node?
    ensures r.Node? && r.id == ctx[0].id
  {
    var pt := Attach(ctx[0], t);
    if ctx[0].dir == ctx[1].dir then pt else RotateTree(pt, ReverseBranch(ctx[0].dir))
  }

  /** After the first rotation the focus is the parent's child on the side
      where the parent hangs from the grandparent. */
  lemma ZigShape(ctx: seq<Frame>, t: Tree)
    requires |ctx| >= 2 && t.Node?
    ensures var ps, d1 := ZigPsub(ctx, t), ctx[1].dir;
      Child(ps, d1) == RotateCase(ctx, t).1 &&
      Plug([Frame(ps.id, ps.color, d1, ps.key, Child(ps, ReverseBranch(d1)))] + ctx[1..], RotateCase(ctx, t).1) ==
        Plug(ctx[1..], ps)
    ensures Plug(ctx, t) == Plug(ctx[1..], Attach(ctx[0], t))
    ensures Plug(ctx[1..], Attach(ctx[0], t)) == Plug(ctx[2..], Attach(ctx[1], Attach(ctx[0], t)))
  {
    var ps, d1 := ZigPsub(ctx, t), ctx[1].dir;
    var tz := RotateCase(ctx, t).1;
    if ctx[0].dir != d1 {
      RotateShape(Attach(ctx[0], t), ReverseBranch(ctx[0].dir));
    }
    assert Child(ps, d1) == tz;
    MakeFlip(ps.id, ps.color, d1, tz, ps.key, Child(ps, ReverseBranch(d1)));
    PlugCons(Frame(ps.id, ps.color, d1, ps.key, Child(ps, ReverseBranch(d1))), ctx[1..], tz);
    assert ctx[1..][0] == ctx[1] && ctx[1..][1..] == ctx[2..];
  }

  /** The grandparent's subtree after the second rotation. */
  function OuterRot(ctx: seq<Frame>, t: Tree): (r: Tree)
    requires |ctx| >= 2 && t.Node?
    ensures r.Node? && r.id == ctx[1].id
  {
    RotateShape(Attach(ctx[1], ZigPsub(ctx, t)), ReverseBranch(ctx[1].dir));
    RotateTree(Attach(ctx[1], ZigPsub(ctx, t)), ReverseBranch(ctx[1].dir))
  }

  /** After the second rotation the focus hangs from the grandparent's place
      on the same side as before, and the old parent's place is on the other. */
  lemma OuterShape(ctx: seq<Frame>, t: Tree)
    requires |ctx| >= 2 && t.Node?
    ensures var gr, d1 := OuterRot(ctx, t), ctx[1].dir;
      var tz, pn := RotateCase(ctx, t).1, Child(gr, ReverseBranch(d1));
      Child(gr, d1) == tz && pn.Node? &&
      Plug([Frame(gr.id, gr.color, d1, gr.key, pn)] + ctx[2..], tz) == Plug(ctx[2..], gr) &&
      Plug([Frame(gr.id, Black, d1, gr.key, pn)] + ctx[2..], tz) == Plug(ctx[2..], gr.(color := Black)) &&
      Plug([Frame(gr.id, Black, ReverseBranch(d1), gr.key, tz)] + ctx[2..], pn) == Plug(ctx[2..], gr.(color := Black)) &&
      Plug([Frame(gr.id, Black, ReverseBranch(d1), gr.key, tz)] + ctx[2..], pn.(color := Red)) ==
        Plug(RotateCase(ctx, t).0, tz)
  {
    var gr, d1 := OuterRot(ctx, t), ctx[1].dir;
    var tz, pn := RotateCase(ctx, t).1, Child(gr, ReverseBranch(d1));
    var ps := ZigPsub(ctx, t);
    ZigShape(ctx, t);
    RotateShape(Attach(ctx[1], ps), ReverseBranch(d1));
    if ctx[0].dir != d1 {
      RotateShape(Attach(ctx[0], t), ReverseBranch(ctx[0].dir));
    }
    assert Child(gr, d1) == tz;
    assert pn == Make(ps.id, ctx[1].color, ReverseBranch(d1), ctx[1].sib, ctx[1].key, Child(ps, ReverseBranch(d1)));
    MakeFlip(gr.id, gr.color, d1, tz, gr.key, pn);
    MakeFlip(gr.id, Black, d1, tz, gr.key, pn);
    MakeFlip(gr.id, Black, d1, tz, gr.key, pn.(color := Red));
    PlugCons(Frame(gr.id, gr.color, d1, gr.key, pn), ctx[2..], tz);
    PlugCons(Frame(gr.id, Black, d1, gr.key, pn), ctx[2..], tz);
    PlugCons(Frame(gr.id, Black, ReverseBranch(d1), gr.key, tz), ctx[2..], pn);
    PlugCons(Frame(gr.id, Black, ReverseBranch(d1), gr.key, tz), ctx[2..], pn.(color := Red));
    var z := RotateCase(ctx, t);
    PlugCons(z.0[0], ctx[2..], tz);
    assert z.0 == [z.0[0]] + ctx[2..];
    assert pn.(color := Red) == z.0[0].sib;
  }
}
