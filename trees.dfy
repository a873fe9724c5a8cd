/** Abstract red-black trees: the value that the arena of nodes stands for.
    Every node carries the arena id of the RedBlackTreeNode it models, so that
    the pointer structure can be related to this datatype. */
module Trees {

  datatype Color = Red | Black

  /** Which child slot of a node: RedBlackTreeNode::SubBranch. */
  datatype SubBranch = LeftBranch | RightBranch

  /** The other slot (reverse_branch). */
  function ReverseBranch(b: SubBranch): (r: SubBranch)
    ensures r != b
    ensures r == LeftBranch <==> b == RightBranch
  {
    if b == RightBranch then LeftBranch else RightBranch
  }

  datatype Tree = Nil | Node(id: nat, color: Color, left: Tree, key: int, right: Tree)

  /** color_of on trees: an absent node counts as black. */
  function ColorOfTree(t: Tree): Color
  {
    if t.Nil? then Black else t.color
  }

  function BlackCount(c: Color): nat
  {
    if c == Black then 1 else 0
  }

  function Child(t: Tree, b: SubBranch): Tree
    requires t.Node?
  {
    if b == LeftBranch then t.left else t.right
  }

  /** A node with `near` in slot `b` and `far` in the other slot. */
  function Make(id: nat, c: Color, b: SubBranch, near: Tree, k: int, far: Tree): (t: Tree)
    ensures t.Node? && t.id == id && t.color == c && t.key == k
    ensures Child(t, b) == near && Child(t, ReverseBranch(b)) == far
  {
    if b == LeftBranch then Node(id, c, near, k, far) else Node(id, c, far, k, near)
  }

  /** The same node, described from the other slot. */
  lemma MakeFlip(id: nat, c: Color, b: SubBranch, near: Tree, k: int, far: Tree)
    ensures Make(id, c, ReverseBranch(b), far, k, near) == Make(id, c, b, near, k, far)
  {
  }

  /** In-order sequence of keys. */
  function Keys(t: Tree): seq<int>
  {
    match t
    case Nil => []
    case Node(_, _, l, k, r) => Keys(l) + [k] + Keys(r)
  }

  /** In-order sequence of (key, colour) pairs. */
  function Entries(t: Tree): seq<(int, Color)>
  {
    match t
    case Nil => []
    case Node(_, c, l, k, r) => Entries(l) + [(k, c)] + Entries(r)
  }

  function Ids(t: Tree): set<nat>
  {
    match t
    case Nil => {}
    case Node(id, _, l, _, r) => {id} + Ids(l) + Ids(r)
  }

  /** No arena id occurs twice. */
  ghost predicate Distinct(t: Tree)
  {
    match t
    case Nil => true
    case Node(id, _, l, _, r) =>
      Distinct(l) && Distinct(r) && Ids(l) !! Ids(r) && id !in Ids(l) && id !in Ids(r)
  }

  /** Black nodes on the leftmost path, the node itself included (black_height). */
  function BH(t: Tree): nat
  {
    match t
    case Nil => 0
    case Node(_, c, l, _, _) => BlackCount(c) + BH(l)
  }

  /** Every path from a node to an absent child has the same number of black nodes. */
  ghost predicate Balanced(t: Tree)
  {
    match t
    case Nil => true
    case Node(_, _, l, _, r) => Balanced(l) && Balanced(r) && BH(l) == BH(r)
  }

  /** No red node has a red child. */
  ghost predicate NoRedRed(t: Tree)
  {
    match t
    case Nil => true
    case Node(_, c, l, _, r) =>
      (c == Red ==> ColorOfTree(l) == Black && ColorOfTree(r) == Black) &&
      NoRedRed(l) && NoRedRed(r)
  }

  ghost predicate Sorted(s: seq<int>)
  {
    forall i, j :: 0 <= i < j < |s| ==> s[i] <= s[j]
  }

  /** In-order keys are non-decreasing: left <= key <= right, ties allowed on both sides. */
  ghost predicate Ordered(t: Tree)
  {
    Sorted(Keys(t))
  }

  /** The red-black invariants of a whole tree. */
  ghost predicate IsRedBlack(t: Tree)
  {
    ColorOfTree(t) == Black && NoRedRed(t) && Balanced(t) && Ordered(t)
  }

  /** The abstract effect of RedBlackTreeNode::rotate(b): the child on side
      ReverseBranch(b) rises; the contents (key, colour) of the two nodes are
      swapped so that the top id keeps its place. */
  function RotateTree(t: Tree, b: SubBranch): (r: Tree)
    requires t.Node? && Child(t, ReverseBranch(b)).Node?
    ensures r.Node? && r.id == t.id
  {
    if b == LeftBranch then
      var Node(x, cx, a, kx, Node(y, cy, bb, ky, c)) := t;
      Node(x, cy, Node(y, cx, a, kx, bb), ky, c)
    else
      var Node(x, cx, Node(y, cy, a, ky, bb), kx, c) := t;
      Node(x, cy, a, ky, Node(y, cx, bb, kx, c))
  }

  /** The shape of a rotation, stated for either direction: `near` is the
      child of t on side b, `mid` and `far` the children of the pivot on
      sides b and ReverseBranch(b). */
  lemma RotateShape(t: Tree, b: SubBranch)
    requires t.Node? && Child(t, ReverseBranch(b)).Node?
    ensures var p := Child(t, ReverseBranch(b));
      RotateTree(t, b) ==
        Make(t.id, p.color, b, Make(p.id, t.color, b, Child(t, b), t.key, Child(p, b)), p.key, Child(p, ReverseBranch(b)))
  {
  }

  /** A rotation keeps the in-order (key, colour) pairs, hence the keys,
      and the ids, and introduces no duplicate id. */
  lemma RotatePreserves(t: Tree, b: SubBranch)
    requires t.Node? && Child(t, ReverseBranch(b)).Node?
    ensures Entries(RotateTree(t, b)) == Entries(t)
    ensures Keys(RotateTree(t, b)) == Keys(t)
    ensures Ids(RotateTree(t, b)) == Ids(t)
    ensures Distinct(t) ==> Distinct(RotateTree(t, b))
  {
    if b == LeftBranch {
      var Node(x, cx, a, kx, Node(y, cy, bb, ky, c)) := t;
      assert Ids(t) == {x} + Ids(a) + ({y} + Ids(bb) + Ids(c));
      var ea, eb, ec := Entries(a), Entries(bb), Entries(c);
      assert ea + [(kx, cx)] + (eb + [(ky, cy)] + ec) == (ea + [(kx, cx)] + eb) + [(ky, cy)] + ec;
      var ka, kb, kc := Keys(a), Keys(bb), Keys(c);
      assert ka + [kx] + (kb + [ky] + kc) == (ka + [kx] + kb) + [ky] + kc;
      if Distinct(t) {
        assert Distinct(Node(y, cy, bb, ky, c));
        RotateDistinct(x, y, a, bb, c, cx, cy, kx, ky);
      }
    } else {
      var Node(x, cx, Node(y, cy, a, ky, bb), kx, c) := t;
      assert Ids(t) == {x} + ({y} + Ids(a) + Ids(bb)) + Ids(c);
      var ea, eb, ec := Entries(a), Entries(bb), Entries(c);
      assert (ea + [(ky, cy)] + eb) + [(kx, cx)] + ec == ea + [(ky, cy)] + (eb + [(kx, cx)] + ec);
      var ka, kb, kc := Keys(a), Keys(bb), Keys(c);
      assert (ka + [ky] + kb) + [kx] + kc == ka + [ky] + (kb + [kx] + kc);
      if Distinct(t) {
        assert Distinct(Node(y, cy, a, ky, bb));
        RotateDistinct(x, y, a, bb, c, cx, cy, kx, ky);
      }
    }
  }

  lemma RotateDistinct(x: nat, y: nat, a: Tree, bb: Tree, c: Tree, cx: Color, cy: Color, kx: int, ky: int)
    requires Distinct(a) && Distinct(bb) && Distinct(c)
    requires Ids(a) !! Ids(bb) && Ids(a) !! Ids(c) && Ids(bb) !! Ids(c)
    requires x != y && x !in Ids(a) + Ids(bb) + Ids(c) && y !in Ids(a) + Ids(bb) + Ids(c)
    ensures Distinct(Node(x, cy, Node(y, cx, a, kx, bb), ky, c))
    ensures Distinct(Node(x, cy, a, ky, Node(y, cx, bb, kx, c)))
  {
  }

  /** Painting the root black keeps balance and the absence of red-red pairs. */
  lemma BlackenRoot(t: Tree)
    requires t.Node? && NoRedRed(t) && Balanced(t)
    ensures NoRedRed(t.(color := Black)) && Balanced(t.(color := Black))
    ensures Keys(t.(color := Black)) == Keys(t)
  {
  }

  /** The node reached from t by following left children: it has no left
      child and holds the first key in in-order. */
  function Leftmost(t: Tree): (r: Tree)
    requires t.Node?
    ensures r.Node? && r.left.Nil? && r.id in Ids(t) && r.key == Keys(t)[0]
  {
    if t.left.Nil? then t else Leftmost(t.left)
  }

  /** Remove the subtree whose root has id `ph` (the deletion placeholder). */
  function Strip(t: Tree, ph: nat): (r: Tree)
    ensures Ids(r) <= Ids(t) && ph !in Ids(r)
  {
    match t
    case Nil => Nil
    case Node(id, c, l, k, r) => if id == ph then Nil else Node(id, c, Strip(l, ph), k, Strip(r, ph))
  }

  lemma {:induction false} StripAbsent(t: Tree, ph: nat)
    requires ph !in Ids(t)
    ensures Strip(t, ph) == t
  {
    match t
    case Nil =>
    case Node(_, _, l, _, r) =>
      StripAbsent(l, ph);
      StripAbsent(r, ph);
  }
}
