/** Deletion on abstract trees: the loop invariant of RedBlackTree::del_fixup
    and its four cases as transformations of a zipper. The focus is the node
    `node` of the loop; it may contain the placeholder node with id `ph` that
    substitute hangs in place of an absent child, and every property is
    stated of the tree with the placeholder removed (Strip). */
module DeleteCases {
  import opened Trees
  import opened Zippers

  /** No red node below the root of t has a red child; the root itself may. */
  ghost predicate NoRedRedBelow(t: Tree)
  {
    t.Nil? || (NoRedRed(t.left) && NoRedRed(t.right))
  }

  /** The loop invariant of del_fixup: the focus t, placeholder removed, is a
      red-black subtree (up to its root's colour) whose black height is one
      short of what its ancestors need; the ancestors have no red-red pair;
      the root is black unless t is the root; the placeholder is black and
      lies in the focus, if anywhere. */
  ghost predicate DelInv(ctx: seq<Frame>, t: Tree, ph: nat)
  {
    t.Node? && ph !in CtxIds(ctx) && (t.id == ph ==> t.color == Black) &&
    NoRedRedBelow(Strip(t, ph)) && Balanced(Strip(t, ph)) &&
    CtxBalanced(ctx, BH(Strip(t, ph)) + 1) && CtxRedAbove(ctx) &&
    (ctx != [] ==> ctx[|ctx| - 1].color == Black)
  }

  /** The termination measure of the loop: each iteration either moves the
      focus up or ends on a red focus or at the root. */
  function DelMeasure(ctx: seq<Frame>, t: Tree): nat
    requires t.Node?
  {
    2 * |ctx| + BlackCount(t.color)
  }

  lemma StripAttach(f: Frame, t: Tree, ph: nat)
    requires ph != f.id && ph !in Ids(f.sib)
    ensures Strip(Attach(f, t), ph) == Attach(f, Strip(t, ph))
  {
    StripAbsent(f.sib, ph);
  }

  /** The colour the loop reads at the focus is that of the stripped focus. */
  lemma StripColor(t: Tree, ph: nat)
    requires t.Node? && (t.id == ph ==> t.color == Black)
    ensures ColorOfTree(Strip(t, ph)) == t.color
  {
  }

  /** While the loop runs (black focus, not the root) the brother is a
      non-empty red-black subtree one black node taller than the focus. */
  lemma DelBrother(ctx: seq<Frame>, t: Tree, ph: nat)
    requires DelInv(ctx, t, ph) && ctx != [] && t.color == Black
    ensures var s := ctx[0].sib; var h := BH(Strip(t, ph));
      s.Node? && Balanced(s) && NoRedRed(s) && BH(s) == h + 1 && ph !in Ids(s) && ph != ctx[0].id &&
      NoRedRed(Strip(t, ph)) &&
      CtxBalanced(ctx[1..], h + 1 + BlackCount(ctx[0].color)) && CtxRed(ctx[1..], ctx[0].color) &&
      (ctx[0].color == Red ==> s.color == Black) &&
      (ctx[1..] != [] ==> ctx[1..][|ctx[1..]| - 1].color == Black)
  {
    StripColor(t, ph);
  }

  // ---------------------------------------------------------------- case 1: red brother

  /** The frames after the first case (the brother is red): the parent turns
      red, the brother black, and the parent is rotated towards the focus.
      The brother's node now holds the parent's key and is the new parent;
      the brother's near child is the new brother. The focus is unchanged. */
  function RedBrotherCase(ctx: seq<Frame>): (r: seq<Frame>)
    requires ctx != [] && ctx[0].sib.Node?
    ensures |r| == |ctx| + 1 && r[0].color == Red && r[0].dir == ctx[0].dir
  {
    var p, s := ctx[0], ctx[0].sib;
    var b := p.dir;
    [Frame(s.id, Red, b, p.key, Child(s, b)), Frame(p.id, Black, b, s.key, Child(s, ReverseBranch(b)))] + ctx[1..]
  }

  /** The foci of the three steps of the first case, for any focus u. */
  lemma RedBrotherShape(ctx: seq<Frame>, u: Tree)
    requires ctx != [] && ctx[0].sib.Node?
    ensures var p, s, b := ctx[0], ctx[0].sib, ctx[0].dir;
      var pr := Frame(p.id, Red, b, p.key, s.(color := Black));
      var cs := [Frame(p.id, Red, ReverseBranch(b), p.key, u)] + ctx[1..];
      Plug(ctx, u) == Plug(ctx[1..], Attach(p, u)) &&
      Attach(p, u).(color := Red) == Attach(p.(color := Red), u) &&
      Plug(ctx[1..], Attach(p.(color := Red), u)) == Plug(cs, s) &&
      Plug(cs, s.(color := Black)) == Plug(ctx[1..], Attach(pr, u)) &&
      Child(Attach(pr, u), ReverseBranch(b)).Node? &&
      Plug(ctx[1..], RotateTree(Attach(pr, u), b)) == Plug(RedBrotherCase(ctx), u)
  {
    var p, s, b := ctx[0], ctx[0].sib, ctx[0].dir;
    var pr := Frame(p.id, Red, b, p.key, s.(color := Black));
    var cs := [Frame(p.id, Red, ReverseBranch(b), p.key, u)] + ctx[1..];
    var r := RedBrotherCase(ctx);
    MakeFlip(p.id, Red, b, u, p.key, s);
    MakeFlip(p.id, Red, b, u, p.key, s.(color := Black));
    PlugCons(Frame(p.id, Red, ReverseBranch(b), p.key, u), ctx[1..], s);
    PlugCons(Frame(p.id, Red, ReverseBranch(b), p.key, u), ctx[1..], s.(color := Black));
    RotateShape(Attach(pr, u), b);
    assert r[0] == Frame(s.id, Red, b, p.key, Child(s, b));
    assert r[1..] == [Frame(p.id, Black, b, s.key, Child(s, ReverseBranch(b)))] + ctx[1..];
    PlugCons(r[0], r[1..], u);
    PlugCons(r[1], ctx[1..], Attach(r[0], u));
    assert r[1..][0] == r[1] && r[1..][1..] == ctx[1..];
  }

  lemma RedBrotherCaseInv(ctx: seq<Frame>, t: Tree, ph: nat)
    requires DelInv(ctx, t, ph) && ctx != [] && t.color == Black && ColorOfTree(ctx[0].sib) == Red
    ensures DelInv(RedBrotherCase(ctx), t, ph)
    ensures ColorOfTree(RedBrotherCase(ctx)[0].sib) == Black
    ensures Keys(Plug(RedBrotherCase(ctx), Strip(t, ph))) == Keys(Plug(ctx, Strip(t, ph)))
  {
    DelBrother(ctx, t, ph);
    RedBrotherFrames(ctx, BH(Strip(t, ph)), ph);
    RedBrotherKeys(ctx, Strip(t, ph));
  }

  /** The frames of the first case keep the invariant's demands on the
      ancestors of a focus of black height h. */
  lemma RedBrotherFrames(ctx: seq<Frame>, h: nat, ph: nat)
    requires ctx != [] && ctx[0].sib.Node? && ctx[0].sib.color == Red && ctx[0].color == Black
    requires Balanced(ctx[0].sib) && NoRedRed(ctx[0].sib) && BH(ctx[0].sib) == h + 1
    requires CtxBalanced(ctx[1..], h + 2) && CtxRed(ctx[1..], Black) && ph !in CtxIds(ctx)
    requires ctx[1..] != [] ==> ctx[1..][|ctx[1..]| - 1].color == Black
    ensures var r := RedBrotherCase(ctx);
      CtxBalanced(r, h + 1) && CtxRedAbove(r) && ph !in CtxIds(r) && r[|r| - 1].color == Black &&
      ColorOfTree(r[0].sib) == Black
  {
    var p, s, b := ctx[0], ctx[0].sib, ctx[0].dir;
    var r := RedBrotherCase(ctx);
    assert r[1..][1..] == ctx[1..];
    assert CtxBalanced(r[1..], h + 1);
    assert CtxRed(r[1..], Red);
    assert CtxIds(r) == CtxIds(ctx) by {
      assert CtxIds(r[1..]) == {p.id} + Ids(Child(s, ReverseBranch(b))) + CtxIds(ctx[1..]);
      assert Ids(s) == {s.id} + Ids(Child(s, b)) + Ids(Child(s, ReverseBranch(b)));
    }
    assert r[|r| - 1].color == Black by {
      if ctx[1..] == [] {
        assert |r| == 2;
      } else {
        assert r[|r| - 1] == ctx[1..][|ctx[1..]| - 1];
      }
    }
  }

  lemma RedBrotherKeys(ctx: seq<Frame>, u: Tree)
    requires ctx != [] && ctx[0].sib.Node?
    ensures Keys(Plug(RedBrotherCase(ctx), u)) == Keys(Plug(ctx, u))
  {
    var p, s, b := ctx[0], ctx[0].sib, ctx[0].dir;
    RedBrotherShape(ctx, u);
    var pr := Frame(p.id, Red, b, p.key, s.(color := Black));
    RotatePreserves(Attach(pr, u), b);
    SameKeysPlug(ctx[1..], RotateTree(Attach(pr, u), b), Attach(pr, u));
    assert Keys(s.(color := Black)) == Keys(s);
    SameKeysPlug(ctx[1..], Attach(pr, u), Attach(p, u));
  }

  // ---------------------------------------------------------------- case 2: black brother, black nephews

  /** The second case (black brother with two black children): the brother
      turns red and the parent becomes the focus. */
  function BlackBrotherCase(ctx: seq<Frame>, t: Tree): (z: (seq<Frame>, Tree))
    requires ctx != [] && ctx[0].sib.Node?
    ensures z.0 == ctx[1..] && z.1.Node? && z.1.id == ctx[0].id && z.1.color == ctx[0].color
  {
    (ctx[1..], Attach(ctx[0].(sib := ctx[0].sib.(color := Red)), t))
  }

  lemma BlackBrotherShape(ctx: seq<Frame>, u: Tree)
    requires ctx != [] && ctx[0].sib.Node?
    ensures var p, s, b := ctx[0], ctx[0].sib, ctx[0].dir;
      var cs := [Frame(p.id, p.color, ReverseBranch(b), p.key, u)] + ctx[1..];
      Plug(ctx, u) == Plug(cs, s) &&
      Plug(cs, s.(color := Red)) == Plug(BlackBrotherCase(ctx, u).0, BlackBrotherCase(ctx, u).1)
  {
    var p, s, b := ctx[0], ctx[0].sib, ctx[0].dir;
    var f := Frame(p.id, p.color, ReverseBranch(b), p.key, u);
    MakeFlip(p.id, p.color, b, u, p.key, s);
    MakeFlip(p.id, p.color, b, u, p.key, s.(color := Red));
    PlugCons(f, ctx[1..], s);
    PlugCons(f, ctx[1..], s.(color := Red));
  }

  lemma BlackBrotherCaseInv(ctx: seq<Frame>, t: Tree, ph: nat)
    requires DelInv(ctx, t, ph) && ctx != [] && t.color == Black && ColorOfTree(ctx[0].sib) == Black
    requires ctx[0].sib.Node? && ColorOfTree(ctx[0].sib.left) == Black && ColorOfTree(ctx[0].sib.right) == Black
    ensures var z := BlackBrotherCase(ctx, t);
      DelInv(z.0, z.1, ph) &&
      Keys(Plug(z.0, Strip(z.1, ph))) == Keys(Plug(ctx, Strip(t, ph))) &&
      DelMeasure(z.0, z.1) < DelMeasure(ctx, t)
  {
    DelBrother(ctx, t, ph);
    var p, s := ctx[0], ctx[0].sib;
    var p' := p.(sib := s.(color := Red));
    var st := Strip(t, ph);
    StripAttach(p', t, ph);
    StripAttach(p, t, ph);
    CtxRedAboveOf(ctx[1..], p.color);
    assert Keys(Attach(p', st)) == Keys(Attach(p, st));
    SameKeysPlug(ctx[1..], Attach(p', st), Attach(p, st));
    assert Plug(ctx, st) == Plug(ctx[1..], Attach(p, st));
  }

  // ---------------------------------------------------------------- case 3: near nephew red

  /** The brother after the third case (the brother's child on the far side
      is black): the brother turns red, its near child black, and the
      brother is rotated away from the focus. */
  function NearRedBrother(s: Tree, b: SubBranch): (r: Tree)
    requires s.Node? && Child(s, b).Node?
    ensures r.Node? && r.id == s.id
  {
    var s1 := Make(s.id, Red, b, Child(s, b).(color := Black), s.key, Child(s, ReverseBranch(b)));
    RotateTree(s1, ReverseBranch(b))
  }

  function NearRedCase(ctx: seq<Frame>): (r: seq<Frame>)
    requires ctx != [] && ctx[0].sib.Node? && Child(ctx[0].sib, ctx[0].dir).Node?
    ensures |r| == |ctx| && r[0].id == ctx[0].id && r[0].dir == ctx[0].dir && r[0].color == ctx[0].color
    ensures r[1..] == ctx[1..]
  {
    [ctx[0].(sib := NearRedBrother(ctx[0].sib, ctx[0].dir))] + ctx[1..]
  }

  /** The near child of a black brother whose far child is black is red
      when the two children are not both black; the rotated brother is then
      black, as tall as before, has the same keys and ids, and its far child
      is red. */
  lemma NearRedBrotherProps(s: Tree, b: SubBranch)
    requires s.Node? && s.color == Black && Balanced(s) && NoRedRed(s) && BH(s) >= 1
    requires ColorOfTree(Child(s, ReverseBranch(b))) == Black && ColorOfTree(Child(s, b)) == Red
    ensures Child(s, b).Node?
    ensures var r := NearRedBrother(s, b);
      r.color == Black && Balanced(r) && NoRedRed(r) && BH(r) == BH(s) &&
      Keys(r) == Keys(s) && Ids(r) == Ids(s) && (Distinct(s) ==> Distinct(r)) &&
      Child(r, ReverseBranch(b)).Node? && Child(r, ReverseBranch(b)).color == Red
  {
    var rb := ReverseBranch(b);
    var near, far := Child(s, b), Child(s, rb);
    var s1 := Make(s.id, Red, b, near.(color := Black), s.key, far);
    assert ReverseBranch(rb) == b;
    RotatePreserves(s1, rb);
    RotateShape(s1, rb);
    assert s == Make(s.id, s.color, b, near, s.key, far);
    assert Keys(near.(color := Black)) == Keys(near) && Ids(near.(color := Black)) == Ids(near);
    assert Distinct(near) ==> Distinct(near.(color := Black));
    assert Keys(s1) == Keys(s) && Ids(s1) == Ids(s);
    assert Distinct(s) ==> Distinct(s1);
    assert BH(Child(s, LeftBranch)) == BH(s) - 1;
  }

  lemma NearRedShape(ctx: seq<Frame>, u: Tree)
    requires ctx != [] && ctx[0].sib.Node? && Child(ctx[0].sib, ctx[0].dir).Node?
    ensures var p, s, b := ctx[0], ctx[0].sib, ctx[0].dir;
      var near := Child(s, b);
      var cs := [Frame(p.id, p.color, ReverseBranch(b), p.key, u)] + ctx[1..];
      var cn := [Frame(s.id, Red, b, s.key, Child(s, ReverseBranch(b)))] + cs;
      var s1 := Make(s.id, Red, b, near.(color := Black), s.key, Child(s, ReverseBranch(b)));
      Plug(ctx, u) == Plug(cs, s) &&
      Plug(cs, s.(color := Red)) == Plug(cn, near) &&
      Plug(cn, near.(color := Black)) == Plug(cs, s1) &&
      Child(s1, ReverseBranch(ReverseBranch(b))).Node? &&
      Plug(cs, RotateTree(s1, ReverseBranch(b))) == Plug(NearRedCase(ctx), u)
  {
    var p, s, b := ctx[0], ctx[0].sib, ctx[0].dir;
    var rb := ReverseBranch(b);
    var near := Child(s, b);
    var f := Frame(p.id, p.color, rb, p.key, u);
    var cs := [f] + ctx[1..];
    var g := Frame(s.id, Red, b, s.key, Child(s, rb));
    assert ReverseBranch(rb) == b;
    MakeFlip(p.id, p.color, b, u, p.key, s);
    PlugCons(f, ctx[1..], s);
    PlugCons(g, cs, near);
    PlugCons(g, cs, near.(color := Black));
    var s' := NearRedBrother(s, b);
    MakeFlip(p.id, p.color, b, u, p.key, s');
    PlugCons(f, ctx[1..], s');
    PlugCons(ctx[0].(sib := s'), ctx[1..], u);
  }

  lemma NearRedCaseInv(ctx: seq<Frame>, t: Tree, ph: nat)
    requires DelInv(ctx, t, ph) && ctx != [] && t.color == Black && ColorOfTree(ctx[0].sib) == Black
    requires ctx[0].sib.Node?
    requires ColorOfTree(Child(ctx[0].sib, ReverseBranch(ctx[0].dir))) == Black
    requires ColorOfTree(ctx[0].sib.left) == Red || ColorOfTree(ctx[0].sib.right) == Red
    ensures Child(ctx[0].sib, ctx[0].dir).Node?
    ensures var r := NearRedCase(ctx);
      DelInv(r, t, ph) && r[0].sib.Node? && ColorOfTree(r[0].sib) == Black &&
      ColorOfTree(Child(r[0].sib, ReverseBranch(r[0].dir))) == Red &&
      Keys(Plug(r, Strip(t, ph))) == Keys(Plug(ctx, Strip(t, ph)))
  {
    DelBrother(ctx, t, ph);
    var p, s, b := ctx[0], ctx[0].sib, ctx[0].dir;
    assert ColorOfTree(Child(s, b)) == Red by {
      assert ReverseBranch(b) == (if b == LeftBranch then RightBranch else LeftBranch);
    }
    NearRedBrotherProps(s, b);
    var r := NearRedCase(ctx);
    var st := Strip(t, ph);
    assert CtxIds(r) == CtxIds(ctx);
    assert r[|r| - 1].color == Black by {
      if ctx[1..] == [] {
        assert |r| == 1;
      } else {
        assert r[|r| - 1] == ctx[1..][|ctx[1..]| - 1];
      }
    }
    assert Plug(r, st) == Plug(ctx[1..], Attach(r[0], st));
    assert Plug(ctx, st) == Plug(ctx[1..], Attach(p, st));
    assert Keys(Attach(r[0], st)) == Keys(Attach(p, st));
    SameKeysPlug(ctx[1..], Attach(r[0], st), Attach(p, st));
  }

  // ---------------------------------------------------------------- case 4: far nephew red

  /** The subtree after the fourth case (the brother's far child is red):
      that child turns black, the parent and the brother swap colours and
      the parent is rotated towards the focus u. */
  function FarRedTop(ctx: seq<Frame>, u: Tree): (r: Tree)
    requires ctx != [] && ctx[0].sib.Node?
    ensures r.Node? && r.id == ctx[0].id
  {
    var p, s, b := ctx[0], ctx[0].sib, ctx[0].dir;
    var rb := ReverseBranch(b);
    var far := Child(s, rb);
    var far' := if far.Node? then far.(color := Black) else Nil;
    var s1 := Make(s.id, p.color, rb, far', s.key, Child(s, b));
    RotateTree(Attach(Frame(p.id, s.color, b, p.key, s1), u), b)
  }

  /** The whole tree after the fourth case; the loop then moves to the root. */
  function FarRedCase(ctx: seq<Frame>, t: Tree): (r: Tree)
    requires ctx != [] && ctx[0].sib.Node?
    ensures r.Node?
  {
    PlugRoot(ctx[1..], FarRedTop(ctx, t));
    Plug(ctx[1..], FarRedTop(ctx, t))
  }

  lemma FarRedShape(ctx: seq<Frame>, u: Tree)
    requires ctx != [] && ctx[0].sib.Node? && Child(ctx[0].sib, ReverseBranch(ctx[0].dir)).Node?
    ensures var p, s, b := ctx[0], ctx[0].sib, ctx[0].dir;
      var rb := ReverseBranch(b);
      var far := Child(s, rb);
      var cs := [Frame(p.id, p.color, rb, p.key, u)] + ctx[1..];
      var cf := [Frame(s.id, s.color, rb, s.key, Child(s, b))] + cs;
      var sf := Make(s.id, s.color, rb, far.(color := Black), s.key, Child(s, b));
      var cs' := [Frame(p.id, s.color, rb, p.key, u)] + ctx[1..];
      var s1 := sf.(color := p.color);
      Plug(ctx, u) == Plug(cf, far) &&
      Plug(cf, far.(color := Black)) == Plug(ctx[1..], Attach(p.(sib := sf), u)) &&
      Attach(p.(sib := sf), u).(color := s.color) == Attach(p.(sib := sf, color := s.color), u) &&
      Plug(ctx[1..], Attach(p.(sib := sf, color := s.color), u)) == Plug(cs', sf) &&
      Plug(cs', s1) == Plug(ctx[1..], Attach(Frame(p.id, s.color, b, p.key, s1), u)) &&
      Child(Attach(Frame(p.id, s.color, b, p.key, s1), u), rb).Node? &&
      RotateTree(Attach(Frame(p.id, s.color, b, p.key, s1), u), b) == FarRedTop(ctx, u)
  {
    var p, s, b := ctx[0], ctx[0].sib, ctx[0].dir;
    var rb := ReverseBranch(b);
    var far := Child(s, rb);
    var f := Frame(p.id, p.color, rb, p.key, u);
    var cs := [f] + ctx[1..];
    var g := Frame(s.id, s.color, rb, s.key, Child(s, b));
    var sf := Make(s.id, s.color, rb, far.(color := Black), s.key, Child(s, b));
    var f' := Frame(p.id, s.color, rb, p.key, u);
    var s1 := sf.(color := p.color);
    MakeFlip(p.id, p.color, b, u, p.key, s);
    MakeFlip(p.id, s.color, b, u, p.key, sf);
    MakeFlip(p.id, s.color, b, u, p.key, s1);
    PlugCons(f, ctx[1..], s);
    PlugCons(g, cs, far);
    PlugCons(g, cs, far.(color := Black));
    PlugCons(f', ctx[1..], sf);
    PlugCons(f', ctx[1..], s1);
    assert Plug(cs, sf) == Plug(ctx[1..], Attach(p.(sib := sf), u)) by {
      MakeFlip(p.id, p.color, b, u, p.key, sf);
      PlugCons(f, ctx[1..], sf);
    }
  }

  /** The subtree the fourth case builds, with the placeholder removed, is
      a red-black subtree as tall as the parent was, with the parent's colour
      on top and the same keys. */
  lemma FarRedTopProps(ctx: seq<Frame>, t: Tree, ph: nat)
    requires DelInv(ctx, t, ph) && ctx != [] && t.color == Black && ColorOfTree(ctx[0].sib) == Black
    requires ctx[0].sib.Node? && ColorOfTree(Child(ctx[0].sib, ReverseBranch(ctx[0].dir))) == Red
    ensures var top := Strip(FarRedTop(ctx, t), ph);
      var st := Strip(t, ph);
      top == FarRedTop(ctx, st) &&
      NoRedRed(top) && Balanced(top) && ColorOfTree(top) == ctx[0].color &&
      BH(top) == BH(st) + 1 + BlackCount(ctx[0].color) &&
      Keys(top) == Keys(Attach(ctx[0], st))
  {
    DelBrother(ctx, t, ph);
    var p, s, b := ctx[0], ctx[0].sib, ctx[0].dir;
    var rb := ReverseBranch(b);
    var far, near := Child(s, rb), Child(s, b);
    var st := Strip(t, ph);
    var s1 := Make(s.id, p.color, rb, far.(color := Black), s.key, near);
    var a := Attach(Frame(p.id, s.color, b, p.key, s1), t);
    var a' := Attach(Frame(p.id, s.color, b, p.key, s1), st);
    RotateShape(a, b);
    RotateShape(a', b);
    assert ReverseBranch(rb) == b;
    var inner := Make(s.id, s.color, b, t, p.key, near);
    var inner' := Make(s.id, s.color, b, st, p.key, near);
    assert FarRedTop(ctx, t) == Make(p.id, p.color, b, inner, s.key, far.(color := Black));
    assert FarRedTop(ctx, st) == Make(p.id, p.color, b, inner', s.key, far.(color := Black));
    assert Ids(s) == {s.id} + Ids(near) + Ids(far);
    StripAbsent(near, ph);
    StripAbsent(far, ph);
    StripAbsent(far.(color := Black), ph);
    assert Strip(inner, ph) == inner';
    assert BH(s) == 1 + BH(near) && BH(near) == BH(far);
    RotatePreserves(a', b);
    assert Keys(s1) == Keys(s);
    assert Keys(a') == Keys(Attach(p, st));
  }

  lemma FarRedCaseInv(ctx: seq<Frame>, t: Tree, ph: nat)
    requires DelInv(ctx, t, ph) && ctx != [] && t.color == Black && ColorOfTree(ctx[0].sib) == Black
    requires ctx[0].sib.Node? && ColorOfTree(Child(ctx[0].sib, ReverseBranch(ctx[0].dir))) == Red
    ensures var r := FarRedCase(ctx, t);
      DelInv([], r, ph) &&
      NoRedRed(Strip(r, ph)) && Balanced(Strip(r, ph)) && ColorOfTree(r) == Black &&
      Keys(Strip(r, ph)) == Keys(Plug(ctx, Strip(t, ph)))
  {
    DelBrother(ctx, t, ph);
    FarRedTopProps(ctx, t, ph);
    var p := ctx[0];
    var st := Strip(t, ph);
    var top := FarRedTop(ctx, t);
    var top' := Strip(top, ph);
    StripPlug(ctx[1..], top, ph);
    NoRedRedPlug(ctx[1..], top');
    BalancedPlug(ctx[1..], top');
    PlugColor(ctx[1..], top);
    assert Plug(ctx, st) == Plug(ctx[1..], Attach(p, st));
    SameKeysPlug(ctx[1..], top', Attach(p, st));
    var r := FarRedCase(ctx, t);
    assert r.id != ph by {
      PlugRoot(ctx[1..], top);
    }
  }

  /** The root of a plugged tree is the focus or one of the frames. */
  lemma {:induction false} PlugRoot(ctx: seq<Frame>, t: Tree)
    requires t.Node?
    ensures Plug(ctx, t).Node? && Plug(ctx, t).id in {t.id} + CtxIds(ctx)
    decreases |ctx|
  {
    if ctx != [] {
      PlugRoot(ctx[1..], Attach(ctx[0], t));
    }
  }

  // ---------------------------------------------------------------- exit

  /** When the loop stops (a red focus, or the focus is the root) painting
      the focus black leaves a red-black tree, placeholder removed. */
  lemma DelDone(ctx: seq<Frame>, t: Tree, ph: nat)
    requires DelInv(ctx, t, ph) && (ctx == [] || t.color == Red)
    ensures var u := t.(color := Black);
      ph !in CtxIds(ctx) &&
      NoRedRed(Plug(ctx, Strip(u, ph))) && Balanced(Plug(ctx, Strip(u, ph))) &&
      ColorOfTree(Plug(ctx, Strip(u, ph))) == Black &&
      Keys(Plug(ctx, Strip(u, ph))) == Keys(Plug(ctx, Strip(t, ph)))
  {
    var su := Strip(t.(color := Black), ph);
    BlackenFocus(t, ph);
    assert NoRedRed(su) && Balanced(su) && ColorOfTree(su) == Black;
    assert CtxBalanced(ctx, BH(su)) && CtxRed(ctx, Black);
    NoRedRedPlug(ctx, su);
    BalancedPlug(ctx, su);
    PlugColor(ctx, su);
    SameKeysPlug(ctx, su, Strip(t, ph));
  }

  /** The stripped focus painted black. */
  lemma BlackenFocus(t: Tree, ph: nat)
    requires t.Node? && (t.id == ph ==> t.color == Black)
    requires NoRedRedBelow(Strip(t, ph)) && Balanced(Strip(t, ph))
    ensures var su := Strip(t.(color := Black), ph);
      NoRedRed(su) && Balanced(su) && ColorOfTree(su) == Black &&
      Keys(su) == Keys(Strip(t, ph)) &&
      BH(su) == BH(Strip(t, ph)) + (if t.color == Red then 1 else 0)
  {
    if t.id != ph {
      assert Strip(t.(color := Black), ph) == Strip(t, ph).(color := Black);
    }
  }

  // ---------------------------------------------------------------- substitute

  /** The child that takes the place of a node with at most one child: the
      left one if present, else the right one (possibly absent). */
  function Survivor(t: Tree): (r: Tree)
    requires t.Node?
    ensures t.left.Nil? || t.right.Nil? ==> Keys(r) == Keys(t.left) + Keys(t.right)
    ensures Ids(r) <= Ids(t) && (Distinct(t) ==> t.id !in Ids(r))
  {
    if t.left.Node? then t.left else t.right
  }

  /** After substitute has put u (the surviving child, or the placeholder
      when there is none) in place of a node t with at most one child: if t
      was black the fixup loop may start at u; if t was red nothing needs
      repair. */
  lemma SubstituteStart(ctx: seq<Frame>, t: Tree, u: Tree, ph: nat)
    requires NoRedRed(Plug(ctx, t)) && Balanced(Plug(ctx, t)) && ColorOfTree(Plug(ctx, t)) == Black
    requires t.Node? && (t.left.Nil? || t.right.Nil?)
    requires u.Node? && Strip(u, ph) == Survivor(t) && (u.id == ph ==> u.color == Black) && ph !in CtxIds(ctx)
    ensures t.color == Black ==> DelInv(ctx, u, ph)
    ensures t.color == Red ==>
      NoRedRed(Plug(ctx, Survivor(t))) && Balanced(Plug(ctx, Survivor(t))) &&
      ColorOfTree(Plug(ctx, Survivor(t))) == Black
  {
    if t.color == Black {
      SubstituteBlack(ctx, t, u, ph);
    } else {
      SubstituteRed(ctx, t);
    }
  }

  lemma SubstituteBlack(ctx: seq<Frame>, t: Tree, u: Tree, ph: nat)
    requires NoRedRed(Plug(ctx, t)) && Balanced(Plug(ctx, t)) && ColorOfTree(Plug(ctx, t)) == Black
    requires t.Node? && (t.left.Nil? || t.right.Nil?) && t.color == Black
    requires u.Node? && Strip(u, ph) == Survivor(t) && (u.id == ph ==> u.color == Black) && ph !in CtxIds(ctx)
    ensures DelInv(ctx, u, ph)
  {
    var v := Survivor(t);
    NoRedRedPlug(ctx, t);
    BalancedPlug(ctx, t);
    PlugColor(ctx, t);
    SurvivorProps(t);
    assert NoRedRedBelow(v) && Balanced(v);
    assert BH(t) == BH(v) + 1;
    assert CtxBalanced(ctx, BH(v) + 1);
    assert CtxRedAbove(ctx);
  }

  lemma SubstituteRed(ctx: seq<Frame>, t: Tree)
    requires NoRedRed(Plug(ctx, t)) && Balanced(Plug(ctx, t)) && ColorOfTree(Plug(ctx, t)) == Black
    requires t.Node? && (t.left.Nil? || t.right.Nil?) && t.color == Red
    ensures NoRedRed(Plug(ctx, Survivor(t))) && Balanced(Plug(ctx, Survivor(t))) &&
      ColorOfTree(Plug(ctx, Survivor(t))) == Black
  {
    var v := Survivor(t);
    NoRedRedPlug(ctx, t);
    BalancedPlug(ctx, t);
    PlugColor(ctx, t);
    SurvivorProps(t);
    NoRedRedPlug(ctx, v);
    BalancedPlug(ctx, v);
    PlugColor(ctx, v);
  }

  /** The surviving child of a red-black node with at most one child. */
  lemma SurvivorProps(t: Tree)
    requires t.Node? && (t.left.Nil? || t.right.Nil?) && Balanced(t) && NoRedRed(t)
    ensures Balanced(Survivor(t)) && NoRedRed(Survivor(t))
    ensures BH(t) == BH(Survivor(t)) + BlackCount(t.color) && BH(Survivor(t)) == 0
  {
  }

  // ---------------------------------------------------------------- del

  /** s without its element at index i. */
  function RemoveAt(s: seq<int>, i: nat): (r: seq<int>)
    requires i < |s|
    ensures |r| == |s| - 1
  {
    s[..i] + s[i + 1..]
  }

  lemma RemoveMiddle(b: seq<int>, x: int, c: seq<int>)
    ensures RemoveAt(b + [x] + c, |b|) == b + c
  {
    var s := b + [x] + c;
    assert s[..|b|] == b;
    assert s[|b| + 1..] == c;
  }

  lemma RemoveInside(b: seq<int>, l: seq<int>, x: int, r: seq<int>, a: seq<int>)
    ensures RemoveAt(b + (l + [x] + r) + a, |b| + |l|) == b + (l + r) + a
  {
    assert b + (l + [x] + r) + a == (b + l) + [x] + (r + a);
    assert b + (l + r) + a == (b + l) + (r + a);
    RemoveMiddle(b + l, x, r + a);
  }

  /** Removing one element keeps order and removes exactly that element. */
  lemma RemoveAtProps(s: seq<int>, i: nat)
    requires i < |s|
    ensures multiset(RemoveAt(s, i)) == multiset(s) - multiset{s[i]}
    ensures Sorted(s) ==> Sorted(RemoveAt(s, i))
  {
    var p, q := s[..i], s[i + 1..];
    assert s == p + [s[i]] + q;
    assert multiset(s) == multiset(p) + multiset{s[i]} + multiset(q);
    if Sorted(s) {
      RemoveAtSorted(s, i);
    }
  }

  lemma RemoveAtSorted(s: seq<int>, i: nat)
    requires i < |s| && Sorted(s)
    ensures Sorted(RemoveAt(s, i))
  {
    var r := RemoveAt(s, i);
    assert forall j :: 0 <= j < |r| ==> r[j] == if j < i then s[j] else s[j + 1];
    forall j, k | 0 <= j < k < |r|
      ensures r[j] <= r[k]
    {
      var j' := if j < i then j else j + 1;
      var k' := if k < i then k else k + 1;
      assert r[j] == s[j'] && r[k] == s[k'];
    }
  }

  /** The in-order position of node id in t. */
  function KeyIndex(t: Tree, id: nat): (i: nat)
    requires id in Ids(t)
    ensures i < |Keys(t)| && Keys(t)[i] == Focus(t, id).1.key
  {
    var (ctx, u) := Focus(t, id);
    KeysPlug(ctx, u);
    |Before(ctx)| + |Keys(u.left)|
  }

  /** Removing a node with at most one child from its place in the tree
      removes its key at its in-order position. */
  lemma SubstituteKeys(ctx: seq<Frame>, t: Tree)
    requires t.Node? && (t.left.Nil? || t.right.Nil?)
    ensures var k, i := Keys(Plug(ctx, t)), |Before(ctx)| + |Keys(t.left)|;
      i < |k| && Keys(Plug(ctx, Survivor(t))) == RemoveAt(k, i)
  {
    KeysPlug(ctx, t);
    KeysPlug(ctx, Survivor(t));
    RemoveInside(Before(ctx), Keys(t.left), t.key, Keys(t.right), After(ctx));
  }

  /** The frames from the leftmost node of u up to u; every step goes left. */
  function MinCtx(u: Tree): (ctx: seq<Frame>)
    requires u.Node?
    ensures forall j :: 0 <= j < |ctx| ==> ctx[j].dir == LeftBranch
    ensures Ids(u) == Ids(Leftmost(u)) + CtxIds(ctx)
    decreases u
  {
    if u.left.Nil? then []
    else
      var f := Frame(u.id, u.color, LeftBranch, u.key, u.right);
      CtxIdsAppend(MinCtx(u.left), [f]);
      MinCtx(u.left) + [f]
  }

  lemma {:induction false} CtxIdsAppend(a: seq<Frame>, b: seq<Frame>)
    ensures CtxIds(a + b) == CtxIds(a) + CtxIds(b)
    decreases |a|
  {
    if a != [] {
      assert (a + b)[1..] == a[1..] + b;
      CtxIdsAppend(a[1..], b);
    } else {
      assert a + b == b;
    }
  }

  /** The keys of u that follow the subtree of its leftmost node. */
  function MinRest(u: Tree): seq<int>
    requires u.Node?
    decreases u
  {
    if u.left.Nil? then [] else MinRest(u.left) + [u.key] + Keys(u.right)
  }

  /** MinCtx is a zipper onto Leftmost: plugging the leftmost node back
      rebuilds u, and whatever is plugged there is followed by MinRest. */
  lemma {:induction false} MinPlug(u: Tree, x: Tree)
    requires u.Node?
    ensures Plug(MinCtx(u), Leftmost(u)) == u
    ensures Keys(Plug(MinCtx(u), x)) == Keys(x) + MinRest(u)
    decreases u
  {
    if u.left.Node? {
      var f := Frame(u.id, u.color, LeftBranch, u.key, u.right);
      MinPlug(u.left, x);
      PlugAppend(MinCtx(u.left), [f], x);
      PlugAppend(MinCtx(u.left), [f], Leftmost(u.left));
    }
  }

  /** The zipper onto the leftmost node of t's right subtree, once t holds
      that node's key m. */
  function SwapCtx(ctx: seq<Frame>, t: Tree): seq<Frame>
    requires t.Node? && t.right.Node?
  {
    MinCtx(t.right) + [Frame(t.id, t.color, RightBranch, Leftmost(t.right).key, t.left)] + ctx
  }

  /** Plugging into SwapCtx plugs into t's right subtree first. */
  lemma SwapShape(ctx: seq<Frame>, t: Tree, x: Tree)
    requires t.Node? && t.right.Node?
    ensures var m := Leftmost(t.right);
      Plug(SwapCtx(ctx, t), x) == Plug(ctx, t.(key := m.key, right := Plug(MinCtx(t.right), x)))
  {
    var f := Frame(t.id, t.color, RightBranch, Leftmost(t.right).key, t.left);
    PlugAppend(MinCtx(t.right), [f], x);
    PlugAppend(MinCtx(t.right) + [f], ctx, x);
  }

  /** del on a node with two children: after the node takes the key of the
      leftmost node m of its right subtree and m takes the node's key, m is
      removed; the keys are the old ones with the node's key removed at its
      in-order position. */
  lemma SwapDeleteKeys(ctx: seq<Frame>, t: Tree, ov: int)
    requires t.Node? && t.right.Node?
    ensures var m := Leftmost(t.right);
      var k, i := Keys(Plug(ctx, t)), |Before(ctx)| + |Keys(t.left)|;
      Plug(SwapCtx(ctx, t), m) == Plug(ctx, t.(key := m.key)) &&
      i < |k| && Keys(Plug(SwapCtx(ctx, t), Survivor(m.(key := ov)))) == RemoveAt(k, i)
  {
    var m := Leftmost(t.right);
    var v := m.right;
    assert Survivor(m.(key := ov)) == v;
    MinPlug(t.right, m);
    SwapShape(ctx, t, m);
    SwapKeys(ctx, t);
  }

  lemma SwapKeys(ctx: seq<Frame>, t: Tree)
    requires t.Node? && t.right.Node?
    ensures var m := Leftmost(t.right);
      var k, i := Keys(Plug(ctx, t)), |Before(ctx)| + |Keys(t.left)|;
      i < |k| && Keys(Plug(SwapCtx(ctx, t), m.right)) == RemoveAt(k, i)
  {
    var m := Leftmost(t.right);
    var v := m.right;
    var pv := Plug(MinCtx(t.right), v);
    MinPlug(t.right, m);
    MinPlug(t.right, v);
    SwapShape(ctx, t, v);
    var tv := t.(key := m.key, right := pv);
    KeysPlug(ctx, t);
    KeysPlug(ctx, tv);
    RemoveFirstOfRight(Before(ctx), Keys(t.left), t.key, m.key, Keys(v), MinRest(t.right), After(ctx));
  }

  lemma RemoveFirstOfRight(b: seq<int>, l: seq<int>, k: int, mk: int, kv: seq<int>, mr: seq<int>, a: seq<int>)
    ensures var i := |b| + |l|;
      i < |b + (l + [k] + ([] + [mk] + kv + mr)) + a| &&
      RemoveAt(b + (l + [k] + ([] + [mk] + kv + mr)) + a, i) == b + (l + [mk] + (kv + mr)) + a
  {
    assert [] + [mk] + kv + mr == [mk] + kv + mr;
    RemoveInside(b, l, k, [mk] + kv + mr, a);
    assert l + ([mk] + kv + mr) == l + [mk] + (kv + mr);
  }

  /** Changing the key of the focus changes neither the colours nor the
      shape of the whole tree. */
  lemma RelabelPlug(ctx: seq<Frame>, t: Tree, v: int)
    requires t.Node?
    ensures NoRedRed(Plug(ctx, t.(key := v))) == NoRedRed(Plug(ctx, t))
    ensures Balanced(Plug(ctx, t.(key := v))) == Balanced(Plug(ctx, t))
    ensures ColorOfTree(Plug(ctx, t.(key := v))) == ColorOfTree(Plug(ctx, t))
  {
    NoRedRedPlug(ctx, t);
    NoRedRedPlug(ctx, t.(key := v));
    BalancedPlug(ctx, t);
    BalancedPlug(ctx, t.(key := v));
    PlugColor(ctx, t);
    PlugColor(ctx, t.(key := v));
  }
}
