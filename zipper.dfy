/** A zipper over Trees: the path from a node up to the root. A fixup loop
    looks at one node (the focus) and the frames of its ancestors; the frame
    list is innermost first, so ctx[0] is the parent and ctx[1] the grandparent. */
module Zippers {
  import opened Trees

  /** Ancestor `id` (colour, key) whose slot `dir` leads towards the focus and
      whose other slot holds `sib`. */
  datatype Frame = Frame(id: nat, color: Color, dir: SubBranch, key: int, sib: Tree)

  function Attach(f: Frame, t: Tree): (r: Tree)
    ensures r.Node? && r.id == f.id
  {
    Make(f.id, f.color, f.dir, t, f.key, f.sib)
  }

  /** The whole tree, rebuilt from a focus subtree and its ancestors. */
  function Plug(ctx: seq<Frame>, t: Tree): Tree
    decreases |ctx|
  {
    if ctx == [] then t else Plug(ctx[1..], Attach(ctx[0], t))
  }

  /** Plugging below one more frame. */
  lemma PlugCons(f: Frame, ctx: seq<Frame>, t: Tree)
    ensures Plug([f] + ctx, t) == Plug(ctx, Attach(f, t))
  {
    assert ([f] + ctx)[0] == f && ([f] + ctx)[1..] == ctx;
  }

  lemma {:induction false} PlugAppend(a: seq<Frame>, b: seq<Frame>, t: Tree)
    ensures Plug(a + b, t) == Plug(b, Plug(a, t))
    decreases |a|
  {
    if a != [] {
      assert (a + b)[1..] == a[1..] + b;
      PlugAppend(a[1..], b, Attach(a[0], t));
    } else {
      assert a + b == b;
    }
  }

  /** The root colour of a plugged tree is decided by the outermost frame. */
  lemma {:induction false} PlugColor(ctx: seq<Frame>, t: Tree)
    ensures ColorOfTree(Plug(ctx, t)) == if ctx == [] then ColorOfTree(t) else ctx[|ctx| - 1].color
    decreases |ctx|
  {
    if ctx != [] {
      PlugColor(ctx[1..], Attach(ctx[0], t));
    }
  }

  // ---------------------------------------------------------------- keys

  /** Keys that come before the focus in in-order. */
  function Before(ctx: seq<Frame>): seq<int>
    decreases |ctx|
  {
    if ctx == [] then []
    else Before(ctx[1..]) + (if ctx[0].dir == LeftBranch then [] else Keys(ctx[0].sib) + [ctx[0].key])
  }

  /** Keys that come after the focus in in-order. */
  function After(ctx: seq<Frame>): seq<int>
    decreases |ctx|
  {
    if ctx == [] then []
    else (if ctx[0].dir == LeftBranch then [ctx[0].key] + Keys(ctx[0].sib) else []) + After(ctx[1..])
  }

  lemma {:induction false} KeysPlug(ctx: seq<Frame>, t: Tree)
    ensures Keys(Plug(ctx, t)) == Before(ctx) + Keys(t) + After(ctx)
    decreases |ctx|
  {
    if ctx != [] {
      KeysPlug(ctx[1..], Attach(ctx[0], t));
      KeysFrame(ctx, t);
    }
  }

  /** One frame moves its keys from the focus to Before or After. */
  lemma KeysFrame(ctx: seq<Frame>, t: Tree)
    requires ctx != []
    ensures Before(ctx[1..]) + Keys(Attach(ctx[0], t)) + After(ctx[1..]) == Before(ctx) + Keys(t) + After(ctx)
  {
    var f := ctx[0];
    var b, a, kt, ks := Before(ctx[1..]), After(ctx[1..]), Keys(t), Keys(f.sib);
    if f.dir == LeftBranch {
      assert Keys(Attach(f, t)) == kt + [f.key] + ks;
      assert Before(ctx) == b + [] && After(ctx) == [f.key] + ks + a;
      RegroupLeft(b, kt, f.key, ks, a);
    } else {
      assert Keys(Attach(f, t)) == ks + [f.key] + kt;
      assert Before(ctx) == b + (ks + [f.key]) && After(ctx) == [] + a;
      RegroupRight(b, ks, f.key, kt, a);
    }
  }

  lemma RegroupLeft(b: seq<int>, kt: seq<int>, k: int, ks: seq<int>, a: seq<int>)
    ensures b + (kt + [k] + ks) + a == b + [] + kt + ([k] + ks + a)
  {
    assert b + [] == b;
  }

  lemma RegroupRight(b: seq<int>, ks: seq<int>, k: int, kt: seq<int>, a: seq<int>)
    ensures b + (ks + [k] + kt) + a == b + (ks + [k]) + kt + ([] + a)
  {
    assert [] + a == a;
  }

  /** Replacing the focus by a subtree with the same keys keeps the whole tree's keys. */
  lemma SameKeysPlug(ctx: seq<Frame>, t: Tree, u: Tree)
    requires Keys(t) == Keys(u)
    ensures Keys(Plug(ctx, t)) == Keys(Plug(ctx, u))
  {
    KeysPlug(ctx, t);
    KeysPlug(ctx, u);
  }

  // ---------------------------------------------------------------- ids

  function CtxIds(ctx: seq<Frame>): set<nat>
    decreases |ctx|
  {
    if ctx == [] then {} else {ctx[0].id} + Ids(ctx[0].sib) + CtxIds(ctx[1..])
  }

  ghost predicate CtxDistinct(ctx: seq<Frame>)
    decreases |ctx|
  {
    ctx == [] ||
    (Distinct(ctx[0].sib) && ctx[0].id !in Ids(ctx[0].sib) &&
     ({ctx[0].id} + Ids(ctx[0].sib)) !! CtxIds(ctx[1..]) && CtxDistinct(ctx[1..]))
  }

  lemma {:induction false} DistinctPlug(ctx: seq<Frame>, t: Tree)
    ensures Ids(Plug(ctx, t)) == Ids(t) + CtxIds(ctx)
    ensures Distinct(Plug(ctx, t)) <==> Distinct(t) && CtxDistinct(ctx) && Ids(t) !! CtxIds(ctx)
    decreases |ctx|
  {
    if ctx != [] {
      var f := ctx[0];
      var a := Attach(f, t);
      DistinctPlug(ctx[1..], a);
      assert Ids(a) == {f.id} + Ids(t) + Ids(f.sib);
      assert Distinct(a) <==> Distinct(t) && Distinct(f.sib) && Ids(t) !! Ids(f.sib) &&
                              f.id !in Ids(t) && f.id !in Ids(f.sib);
    }
  }

  // ---------------------------------------------------------------- balance

  /** Plugging a balanced focus of black height h gives a balanced tree. */
  ghost predicate CtxBalanced(ctx: seq<Frame>, h: nat)
    decreases |ctx|
  {
    ctx == [] ||
    (Balanced(ctx[0].sib) && BH(ctx[0].sib) == h && CtxBalanced(ctx[1..], h + BlackCount(ctx[0].color)))
  }

  lemma {:induction false} BalancedPlug(ctx: seq<Frame>, t: Tree)
    ensures Balanced(Plug(ctx, t)) <==> Balanced(t) && CtxBalanced(ctx, BH(t))
    decreases |ctx|
  {
    if ctx != [] {
      var f := ctx[0];
      var a := Attach(f, t);
      BalancedPlug(ctx[1..], a);
      assert Balanced(a) <==> Balanced(t) && Balanced(f.sib) && BH(t) == BH(f.sib);
      assert Balanced(a) ==> BH(a) == BH(t) + BlackCount(f.color);
    }
  }

  // ---------------------------------------------------------------- red-red

  /** No red-red pair among the frames, nor between ctx[0] and a focus of colour c. */
  ghost predicate CtxRed(ctx: seq<Frame>, c: Color)
    decreases |ctx|
  {
    ctx == [] ||
    ((ctx[0].color == Red ==> c == Black && ColorOfTree(ctx[0].sib) == Black) &&
     NoRedRed(ctx[0].sib) && CtxRed(ctx[1..], ctx[0].color))
  }

  /** As CtxRed, but the pair (ctx[0], focus) is not checked. */
  ghost predicate CtxRedAbove(ctx: seq<Frame>)
  {
    ctx == [] ||
    ((ctx[0].color == Red ==> ColorOfTree(ctx[0].sib) == Black) &&
     NoRedRed(ctx[0].sib) && CtxRed(ctx[1..], ctx[0].color))
  }

  /** A context that admits no red-red pair with a focus of colour c admits none above the focus. */
  lemma CtxRedAboveOf(ctx: seq<Frame>, c: Color)
    requires CtxRed(ctx, c)
    ensures CtxRedAbove(ctx)
  {
  }

  lemma {:induction false} NoRedRedPlug(ctx: seq<Frame>, t: Tree)
    ensures NoRedRed(Plug(ctx, t)) <==> NoRedRed(t) && CtxRed(ctx, ColorOfTree(t))
    decreases |ctx|
  {
    if ctx != [] {
      var f := ctx[0];
      var a := Attach(f, t);
      NoRedRedPlug(ctx[1..], a);
      assert NoRedRed(a) <==>
        (f.color == Red ==> ColorOfTree(t) == Black && ColorOfTree(f.sib) == Black) &&
        NoRedRed(t) && NoRedRed(f.sib);
    }
  }

  // ---------------------------------------------------------------- placeholder

  lemma {:induction false} StripPlug(ctx: seq<Frame>, t: Tree, ph: nat)
    requires ph !in CtxIds(ctx)
    ensures Strip(Plug(ctx, t), ph) == Plug(ctx, Strip(t, ph))
    decreases |ctx|
  {
    if ctx != [] {
      var f := ctx[0];
      StripAbsent(f.sib, ph);
      StripPlug(ctx[1..], Attach(f, t), ph);
      assert Strip(Attach(f, t), ph) == Attach(f, Strip(t, ph));
    }
  }

  // ---------------------------------------------------------------- focusing

  /** The zipper that focuses on the node with id x. */
  function Focus(t: Tree, x: nat): (z: (seq<Frame>, Tree))
    requires x in Ids(t)
    ensures z.1.Node? && z.1.id == x && Plug(z.0, z.1) == t
  {
    var Node(id, c, l, k, r) := t;
    if id == x then ([], t)
    else if x in Ids(l) then
      var (ctx, s) := Focus(l, x);
      PlugAppend(ctx, [Frame(id, c, LeftBranch, k, r)], s);
      (ctx + [Frame(id, c, LeftBranch, k, r)], s)
    else
      var (ctx, s) := Focus(r, x);
      PlugAppend(ctx, [Frame(id, c, RightBranch, k, l)], s);
      (ctx + [Frame(id, c, RightBranch, k, l)], s)
  }
}
