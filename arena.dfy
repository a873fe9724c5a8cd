/** The pointer structure of RedBlackTreeNode, as an arena: node records
    stored under ids, with `Ptr` standing for a possibly-null pointer.
    `Linked` says that an arena holds exactly the links of an abstract tree. */
module Arena {
  import opened Trees
  import opened Zippers

  datatype Ptr = Null | Ref(id: nat)

  /** The fields of one RedBlackTreeNode. */
  datatype NodeRec = NodeRec(left: Ptr, right: Ptr, parent: Ptr, color: Color, val: int)

  type Store = map<nat, NodeRec>

  function PtrOf(t: Tree): Ptr
  {
    if t.Nil? then Null else Ref(t.id)
  }

  /** The record a tree node must have, given its parent pointer. */
  function RecOf(t: Tree, parent: Ptr): NodeRec
    requires t.Node?
  {
    NodeRec(PtrOf(t.left), PtrOf(t.right), parent, t.color, t.key)
  }

  /** Every node of t is stored with its colour, key, child links and parent link. */
  ghost predicate Linked(s: Store, t: Tree, parent: Ptr)
  {
    match t
    case Nil => true
    case Node(id, _, l, _, r) =>
      id in s && s[id] == RecOf(t, parent) && Linked(s, l, Ref(id)) && Linked(s, r, Ref(id))
  }

  function FrameRec(f: Frame, child: Ptr, parent: Ptr): NodeRec
  {
    if f.dir == LeftBranch then NodeRec(child, PtrOf(f.sib), parent, f.color, f.key)
    else NodeRec(PtrOf(f.sib), child, parent, f.color, f.key)
  }

  function ParentPtr(ctx: seq<Frame>): Ptr
  {
    if ctx == [] then Null else Ref(ctx[0].id)
  }

  /** The ancestors of a focus whose pointer is `child` are stored as the frames say. */
  ghost predicate LinkedCtx(s: Store, ctx: seq<Frame>, child: Ptr)
    decreases |ctx|
  {
    ctx == [] ||
    (ctx[0].id in s && s[ctx[0].id] == FrameRec(ctx[0], child, ParentPtr(ctx[1..])) &&
     Linked(s, ctx[0].sib, Ref(ctx[0].id)) && LinkedCtx(s, ctx[1..], Ref(ctx[0].id)))
  }

  lemma {:induction false} LinkedPlug(s: Store, ctx: seq<Frame>, t: Tree)
    ensures Linked(s, Plug(ctx, t), Null) <==> LinkedCtx(s, ctx, PtrOf(t)) && Linked(s, t, ParentPtr(ctx))
    decreases |ctx|
  {
    if ctx != [] {
      var f := ctx[0];
      var a := Attach(f, t);
      LinkedPlug(s, ctx[1..], a);
      assert Linked(s, a, ParentPtr(ctx[1..])) <==>
        f.id in s && s[f.id] == FrameRec(f, PtrOf(t), ParentPtr(ctx[1..])) &&
        Linked(s, t, Ref(f.id)) && Linked(s, f.sib, Ref(f.id));
    }
  }

  lemma {:induction false} LinkedIds(s: Store, t: Tree, parent: Ptr)
    requires Linked(s, t, parent)
    ensures Ids(t) <= s.Keys
  {
    match t
    case Nil =>
    case Node(id, _, l, _, r) =>
      LinkedIds(s, l, Ref(id));
      LinkedIds(s, r, Ref(id));
  }

  lemma {:induction false} LinkedCtxIds(s: Store, ctx: seq<Frame>, child: Ptr)
    requires LinkedCtx(s, ctx, child)
    ensures CtxIds(ctx) <= s.Keys
    decreases |ctx|
  {
    if ctx != [] {
      LinkedIds(s, ctx[0].sib, Ref(ctx[0].id));
      LinkedCtxIds(s, ctx[1..], Ref(ctx[0].id));
    }
  }

  /** Stores that agree on the ids of t link t alike. */
  lemma {:induction false} LinkedFrame(s: Store, s': Store, t: Tree, parent: Ptr)
    requires Linked(s, t, parent)
    requires forall i :: i in Ids(t) && i in s ==> i in s' && s'[i] == s[i]
    ensures Linked(s', t, parent)
  {
    match t
    case Nil =>
    case Node(id, _, l, _, r) =>
      LinkedFrame(s, s', l, Ref(id));
      LinkedFrame(s, s', r, Ref(id));
  }

  lemma {:induction false} LinkedCtxFrame(s: Store, s': Store, ctx: seq<Frame>, child: Ptr)
    requires LinkedCtx(s, ctx, child)
    requires forall i :: i in CtxIds(ctx) && i in s ==> i in s' && s'[i] == s[i]
    ensures LinkedCtx(s', ctx, child)
    decreases |ctx|
  {
    if ctx != [] {
      LinkedFrame(s, s', ctx[0].sib, Ref(ctx[0].id));
      LinkedCtxFrame(s, s', ctx[1..], Ref(ctx[0].id));
    }
  }

  /** The root of t gets a new parent; nothing below it changes. */
  lemma LinkedReparent(s: Store, t: Tree, parent: Ptr, q: Ptr)
    requires Linked(s, t, parent) && Distinct(t) && t.Node?
    ensures Linked(s[t.id := s[t.id].(parent := q)], t, q)
  {
    var s' := s[t.id := s[t.id].(parent := q)];
    LinkedFrame(s, s', t.left, Ref(t.id));
    LinkedFrame(s, s', t.right, Ref(t.id));
  }

  /** Same as LinkedReparent, for a possibly absent subtree. */
  function Reparent(s: Store, p: Ptr, q: Ptr): Store
    requires p.Ref? ==> p.id in s
  {
    if p.Ref? then s[p.id := s[p.id].(parent := q)] else s
  }

  // ---------------------------------------------------------------- navigation

  /** color_of: an absent node counts as black. */
  function ColorOf(s: Store, p: Ptr): (c: Color)
    requires p.Ref? ==> p.id in s
    ensures p.Null? ==> c == Black
  {
    if p.Ref? then s[p.id].color else Black
  }

  /** sub_node */
  function SubNode(r: NodeRec, b: SubBranch): Ptr
  {
    if b == LeftBranch then r.left else r.right
  }

  /** The record with its child pointer on side b replaced. */
  function WithSub(r: NodeRec, b: SubBranch, p: Ptr): NodeRec
  {
    if b == LeftBranch then r.(left := p) else r.(right := p)
  }

  /** branch(): which slot of its parent node x occupies. */
  function Branch(s: Store, x: nat): SubBranch
    requires x in s && s[x].parent.Ref? && s[x].parent.id in s
  {
    if s[s[x].parent.id].left == Ref(x) then LeftBranch else RightBranch
  }

  /** brother(): the other child of x's parent; null for the root. */
  function Brother(s: Store, x: nat): (r: Ptr)
    requires x in s && (s[x].parent.Ref? ==> s[x].parent.id in s)
    ensures s[x].parent.Null? ==> r == Null
  {
    var p := s[x].parent;
    if p.Ref? then
      (if s[p.id].left == Ref(x) then s[p.id].right else s[p.id].left)
    else Null
  }

  lemma ColorOfLinked(s: Store, t: Tree, parent: Ptr)
    requires Linked(s, t, parent)
    ensures PtrOf(t).Ref? ==> PtrOf(t).id in s
    ensures ColorOf(s, PtrOf(t)) == ColorOfTree(t)
  {
  }

  /** What the arena shows at a focus and its parent. */
  lemma Nav(s: Store, ctx: seq<Frame>, t: Tree)
    requires Linked(s, Plug(ctx, t), Null) && Distinct(Plug(ctx, t)) && t.Node?
    ensures LinkedCtx(s, ctx, PtrOf(t)) && Linked(s, t, ParentPtr(ctx))
    ensures CtxDistinct(ctx) && Distinct(t) && Ids(t) !! CtxIds(ctx)
    ensures t.id in s && s[t.id] == RecOf(t, ParentPtr(ctx))
    ensures s[t.id].parent.Ref? ==> s[t.id].parent.id in s
    ensures ctx != [] ==> ctx[0].id in s && s[ctx[0].id] == FrameRec(ctx[0], Ref(t.id), ParentPtr(ctx[1..]))
    ensures ctx != [] ==> Branch(s, t.id) == ctx[0].dir
    ensures Brother(s, t.id) == if ctx == [] then Null else PtrOf(ctx[0].sib)
    ensures ctx != [] ==> Linked(s, ctx[0].sib, Ref(ctx[0].id))
  {
    LinkedPlug(s, ctx, t);
    DistinctPlug(ctx, t);
    if ctx != [] {
      assert t.id !in Ids(ctx[0].sib);
    }
  }

  /** What the insertion loop reads: the colour of the focus' parent, and
      when there is a grandparent, the colour of the parent's brother. */
  lemma NavParent(s: Store, ctx: seq<Frame>, t: Tree)
    requires Linked(s, Plug(ctx, t), Null) && Distinct(Plug(ctx, t)) && t.Node?
    ensures t.id in s && (s[t.id].parent.Ref? ==> s[t.id].parent.id in s)
    ensures s[t.id].parent == ParentPtr(ctx) && s[t.id].color == t.color
    ensures ColorOf(s, s[t.id].parent) == if ctx == [] then Black else ctx[0].color
    ensures |ctx| >= 2 ==> var p := ctx[0].id;
      p in s && s[p].parent.Ref? && s[p].parent.id in s &&
      Brother(s, p) == PtrOf(ctx[1].sib) && (Brother(s, p).Ref? ==> Brother(s, p).id in s) &&
      ColorOf(s, Brother(s, p)) == ColorOfTree(ctx[1].sib)
  {
    Nav(s, ctx, t);
    if |ctx| >= 2 {
      var a := Attach(ctx[0], t);
      assert Plug(ctx[1..], a) == Plug(ctx, t);
      assert ctx[1..][0] == ctx[1];
      Nav(s, ctx[1..], a);
      ColorOfLinked(s, ctx[1].sib, Ref(ctx[1].id));
    }
  }

  /** What del_fixup reads: the brother of the focus, its colour and the
      colours of its children. */
  lemma NavBrother(s: Store, ctx: seq<Frame>, t: Tree)
    requires Linked(s, Plug(ctx, t), Null) && Distinct(Plug(ctx, t)) && t.Node?
    requires ctx != [] && ctx[0].sib.Node?
    ensures t.id in s && s[t.id].parent == Ref(ctx[0].id) && ctx[0].id in s
    ensures Branch(s, t.id) == ctx[0].dir
    ensures Brother(s, t.id) == Ref(ctx[0].sib.id) && ctx[0].sib.id in s
    ensures s[ctx[0].sib.id] == RecOf(ctx[0].sib, Ref(ctx[0].id))
    ensures ColorOf(s, Brother(s, t.id)) == ctx[0].sib.color
    ensures var r := s[ctx[0].sib.id];
      (r.left.Ref? ==> r.left.id in s) && (r.right.Ref? ==> r.right.id in s) &&
      ColorOf(s, r.left) == ColorOfTree(ctx[0].sib.left) && ColorOf(s, r.right) == ColorOfTree(ctx[0].sib.right)
  {
    Nav(s, ctx, t);
    var sib := ctx[0].sib;
    ColorOfLinked(s, sib.left, Ref(sib.id));
    ColorOfLinked(s, sib.right, Ref(sib.id));
  }

  /** The root of a plugged tree is the outermost frame, if there is one. */
  lemma {:induction false} PlugTop(ctx: seq<Frame>, t: Tree)
    ensures ctx != [] ==> PtrOf(Plug(ctx, t)) == Ref(ctx[|ctx| - 1].id)
    decreases |ctx|
  {
    if ctx != [] {
      PlugTop(ctx[1..], Attach(ctx[0], t));
    }
  }

  // ---------------------------------------------------------------- local updates

  /** A subtree whose root record got a new parent pointer, and nothing else below it changed. */
  lemma LinkedMoved(s: Store, s': Store, t: Tree, p: Ptr, q: Ptr)
    requires Linked(s, t, p) && Distinct(t)
    requires t.Node? ==> t.id in s' && s'[t.id] == s[t.id].(parent := q)
    requires forall i :: i in Ids(t) && i in s && (t.Node? ==> i != t.id) ==> i in s' && s'[i] == s[i]
    ensures Linked(s', t, q)
  {
    if t.Node? {
      LinkedFrame(s, s', t.left, Ref(t.id));
      LinkedFrame(s, s', t.right, Ref(t.id));
    }
  }

  lemma PlugPtr(ctx: seq<Frame>, t: Tree, u: Tree)
    requires PtrOf(t) == PtrOf(u) && (ctx != [] ==> t.Node?)
    ensures PtrOf(Plug(ctx, t)) == PtrOf(Plug(ctx, u))
    decreases |ctx|
  {
    if ctx != [] {
      PlugPtr(ctx[1..], Attach(ctx[0], t), Attach(ctx[0], u));
    }
  }

  /** The focus subtree is replaced by one with the same root id, which may
      hold ids the store did not have before; the store changed only on ids
      of the focus. */
  lemma ReplaceFocus(s: Store, s': Store, ctx: seq<Frame>, t: Tree, t': Tree)
    requires Linked(s, Plug(ctx, t), Null) && Distinct(Plug(ctx, t))
    requires Linked(s', t', ParentPtr(ctx)) && Distinct(t') && Ids(t) <= Ids(t')
    requires forall i :: i in Ids(t') && i !in Ids(t) ==> i !in s
    requires t.Node? && t'.Node? && t'.id == t.id
    requires forall i :: i in s && i !in Ids(t) ==> i in s' && s'[i] == s[i]
    ensures Linked(s', Plug(ctx, t'), Null) && Distinct(Plug(ctx, t'))
    ensures PtrOf(Plug(ctx, t')) == PtrOf(Plug(ctx, t))
  {
    LinkedPlug(s, ctx, t);
    DistinctPlug(ctx, t);
    LinkedCtxIds(s, ctx, PtrOf(t));
    LinkedCtxFrame(s, s', ctx, PtrOf(t));
    LinkedPlug(s', ctx, t');
    DistinctPlug(ctx, t');
    PlugPtr(ctx, t, t');
  }

  /** Overwriting the colour and value of the focus node. */
  lemma LinkedRelabel(s: Store, ctx: seq<Frame>, t: Tree, c: Color, v: int)
    requires Linked(s, Plug(ctx, t), Null) && Distinct(Plug(ctx, t)) && t.Node?
    ensures t.id in s
    ensures Linked(s[t.id := s[t.id].(color := c, val := v)], Plug(ctx, t.(color := c, key := v)), Null)
    ensures Distinct(Plug(ctx, t.(color := c, key := v)))
    ensures PtrOf(Plug(ctx, t.(color := c, key := v))) == PtrOf(Plug(ctx, t))
  {
    Nav(s, ctx, t);
    var s' := s[t.id := s[t.id].(color := c, val := v)];
    var t' := t.(color := c, key := v);
    LinkedFrame(s, s', t.left, Ref(t.id));
    LinkedFrame(s, s', t.right, Ref(t.id));
    ReplaceFocus(s, s', ctx, t, t');
  }

  /** The records a rotation leaves behind link the rotated subtree. */
  lemma RotateLocal(s: Store, s': Store, t: Tree, b: SubBranch, par: Ptr)
    requires Linked(s, t, par) && Distinct(t)
    requires t.Node? && Child(t, ReverseBranch(b)).Node?
    requires var p := Child(t, ReverseBranch(b));
      var near, mid, far := Child(t, b), Child(p, b), Child(p, ReverseBranch(b));
      t.id in s' && s'[t.id] == RecOf(RotateTree(t, b), par) &&
      p.id in s' && s'[p.id] == RecOf(Make(p.id, t.color, b, near, t.key, mid), Ref(t.id)) &&
      (near.Node? ==> near.id in s && near.id in s' && s'[near.id] == s[near.id].(parent := Ref(p.id))) &&
      (far.Node? ==> far.id in s && far.id in s' && s'[far.id] == s[far.id].(parent := Ref(t.id))) &&
      (forall i :: i in s && i != t.id && i != p.id && (near.Node? ==> i != near.id) && (far.Node? ==> i != far.id) ==>
         i in s' && s'[i] == s[i])
    ensures Linked(s', RotateTree(t, b), par)
  {
    var p := Child(t, ReverseBranch(b));
    var near, mid, far := Child(t, b), Child(p, b), Child(p, ReverseBranch(b));
    assert Linked(s, p, Ref(t.id)) && Distinct(p);
    assert Linked(s, near, Ref(t.id)) && Linked(s, far, Ref(p.id)) && Linked(s, mid, Ref(p.id));
    assert Distinct(near) && Distinct(far) && Distinct(mid);
    RotateShape(t, b);
    LinkedMoved(s, s', near, Ref(t.id), Ref(p.id));
    LinkedMoved(s, s', far, Ref(p.id), Ref(t.id));
    LinkedFrame(s, s', mid, Ref(p.id));
  }

  /** The focus t is unlinked and u, which the store links below t's
      parent, takes its place: only the parent's child slot changed among
      the ancestors. */
  lemma SpliceLinked(s: Store, s': Store, ctx: seq<Frame>, t: Tree, u: Tree)
    requires Linked(s, Plug(ctx, t), Null) && Distinct(Plug(ctx, t)) && t.Node?
    requires Linked(s', u, ParentPtr(ctx)) && Distinct(u) && Ids(u) !! CtxIds(ctx)
    requires ctx != [] ==>
      ctx[0].id in s && ctx[0].id in s' && s'[ctx[0].id] == WithSub(s[ctx[0].id], ctx[0].dir, PtrOf(u))
    requires forall i :: i in CtxIds(ctx) && i in s && (ctx != [] ==> i != ctx[0].id) ==> i in s' && s'[i] == s[i]
    ensures Linked(s', Plug(ctx, u), Null) && Distinct(Plug(ctx, u))
    ensures ctx == [] ==> PtrOf(Plug(ctx, u)) == PtrOf(u)
    ensures ctx != [] ==> PtrOf(Plug(ctx, u)) == PtrOf(Plug(ctx, t))
  {
    LinkedPlug(s, ctx, t);
    DistinctPlug(ctx, t);
    DistinctPlug(ctx, u);
    PlugTop(ctx, t);
    PlugTop(ctx, u);
    if ctx != [] {
      var f := ctx[0];
      assert f.id !in Ids(f.sib) && f.id !in CtxIds(ctx[1..]);
      LinkedFrame(s, s', f.sib, Ref(f.id));
      LinkedCtxFrame(s, s', ctx[1..], Ref(f.id));
      assert s'[f.id] == FrameRec(f, PtrOf(u), ParentPtr(ctx[1..]));
      assert LinkedCtx(s', ctx, PtrOf(u));
    }
    LinkedPlug(s', ctx, u);
  }
}
