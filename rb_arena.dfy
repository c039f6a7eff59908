/** The nodes of `RBTree` as an arena: `RBTree::Node*` becomes an index into
    a sequence of node records, and index 0 is the shared sentinel `nil`.
    `Shape` says which `RedBlack.Tree` the pointers of the arena spell out
    from a given node; the lemmas here say how that view splits at a
    zipper focus and what it survives when other nodes are written. */
module RedBlackArena {
  import opened RedBlack
  import opened RedBlackZipper

  /** One `RBTree::Node`: key, value, colour and the three pointers. */
  datatype NodeRec = NodeRec(key: string, value: string, color: Color, left: int, right: int, parent: int)

  /** The index of the sentinel `nil`. */
  const Nil := 0

  /** The sentinel exists and is black (only its `parent` is ever
      written). */
  ghost predicate NilBlack(a: seq<NodeRec>) {
    |a| > 0 && a[Nil].color == Black
  }

  /** The node a subtree starts at: its id, or `nil` for a leaf. */
  function RootOf(t: Tree): int {
    if t.Leaf? then Nil else t.id
  }

  /** From node `x`, whose parent pointer is `p`, the pointers of `a`
      spell out `t`. */
  ghost predicate Shape(a: seq<NodeRec>, t: Tree, x: int, p: int) {
    match t
    case Leaf => x == Nil
    case Node(l, id, c, k, v, r) =>
      x == id && 0 < id < |a|
      && a[id].key == k && a[id].value == v && a[id].color == c && a[id].parent == p
      && Shape(a, l, a[id].left, id) && Shape(a, r, a[id].right, id)
  }

  lemma {:induction false} ShapeIds(a: seq<NodeRec>, t: Tree, x: int, p: int)
    requires Shape(a, t, x, p)
    ensures x == RootOf(t)
    ensures forall i :: i in Ids(t) ==> 0 < i < |a|
  {
    if t.Node? {
      ShapeIds(a, t.left, a[t.id].left, t.id);
      ShapeIds(a, t.right, a[t.id].right, t.id);
    }
  }

  /** `b` holds the same records as `a` at the indices of `s` (and is no
      shorter). */
  ghost predicate Agree(a: seq<NodeRec>, b: seq<NodeRec>, s: set<int>) {
    |a| <= |b| && forall i :: i in s && 0 <= i < |a| ==> b[i] == a[i]
  }

  /** `b` is `a` rewritten at most at the indices of `w`. */
  ghost predicate SameOutside(a: seq<NodeRec>, b: seq<NodeRec>, w: set<int>) {
    |a| == |b| && forall i :: 0 <= i < |a| && i !in w ==> b[i] == a[i]
  }

  lemma SameOutsideAgree(a: seq<NodeRec>, b: seq<NodeRec>, w: set<int>, s: set<int>)
    requires SameOutside(a, b, w) && s !! w
    ensures Agree(a, b, s)
  {
  }

  /** Writing nodes outside a subtree leaves its shape alone. */
  lemma {:induction false} ShapeFrame(a: seq<NodeRec>, b: seq<NodeRec>, t: Tree, x: int, p: int)
    requires Shape(a, t, x, p) && Agree(a, b, Ids(t))
    ensures Shape(b, t, x, p)
  {
    if t.Node? {
      assert b[t.id] == a[t.id];
      ShapeFrame(a, b, t.left, a[t.id].left, t.id);
      ShapeFrame(a, b, t.right, a[t.id].right, t.id);
    }
  }

  /** The pointer that leads from the focus's parent (or from `root`) down
      to the focus `x`. */
  ghost predicate Linked(a: seq<NodeRec>, ctx: seq<Frame>, x: int, root: int) {
    if ctx == [] then root == x
    else 0 < ctx[0].id < |a| && (if ctx[0].dir == L then a[ctx[0].id].left else a[ctx[0].id].right) == x
  }

  /** The frames are laid out in `a`, apart from the pointer down to the
      focus. */
  ghost predicate Above(a: seq<NodeRec>, ctx: seq<Frame>, root: int, top: int)
    decreases |ctx|
  {
    ctx == [] ||
      (var f := ctx[0];
       0 < f.id < |a| && a[f.id].key == f.key && a[f.id].value == f.value && a[f.id].color == f.color
       && a[f.id].parent == ParentIn(ctx[1..], top)
       && Shape(a, f.sibling, if f.dir == L then a[f.id].right else a[f.id].left, f.id)
       && Linked(a, ctx[1..], f.id, root) && Above(a, ctx[1..], root, top))
  }

  /** The frames of `ctx` are laid out above `x`, the outermost one at
      `root`, whose parent pointer is `top`. */
  ghost predicate ShapeCtx(a: seq<NodeRec>, ctx: seq<Frame>, x: int, root: int, top: int) {
    Linked(a, ctx, x, root) && Above(a, ctx, root, top)
  }

  /** The whole tree is laid out from `root` exactly when the frames are
      and the focus is. */
  lemma {:induction false} ShapePlug(a: seq<NodeRec>, ctx: seq<Frame>, t: Tree, root: int, top: int)
    ensures Shape(a, Plug(ctx, t), root, top)
      <==> ShapeCtx(a, ctx, RootOf(t), root, top) && Shape(a, t, RootOf(t), ParentIn(ctx, top))
    decreases |ctx|
  {
    if ctx != [] {
      var f := ctx[0];
      var s := Attach(f, t);
      ShapePlug(a, ctx[1..], s, root, top);
      if Shape(a, s, f.id, ParentIn(ctx[1..], top)) {
        if f.dir == L {
          ShapeIds(a, t, a[f.id].left, f.id);
        } else {
          ShapeIds(a, t, a[f.id].right, f.id);
        }
      }
    }
  }

  /** Frames whose nodes are not written keep their layout. */
  lemma {:induction false} AboveFrame(a: seq<NodeRec>, b: seq<NodeRec>, ctx: seq<Frame>, root: int, top: int)
    requires Above(a, ctx, root, top) && Agree(a, b, CtxIds(ctx))
    ensures Above(b, ctx, root, top)
    decreases |ctx|
  {
    if ctx != [] {
      var f := ctx[0];
      assert b[f.id] == a[f.id];
      ShapeFrame(a, b, f.sibling, if f.dir == L then a[f.id].right else a[f.id].left, f.id);
      AboveFrame(a, b, ctx[1..], root, top);
      if ctx[1..] != [] {
        assert b[ctx[1].id] == a[ctx[1].id];
      }
    }
  }

  lemma CtxFrame(a: seq<NodeRec>, b: seq<NodeRec>, ctx: seq<Frame>, x: int, root: int, top: int)
    requires ShapeCtx(a, ctx, x, root, top) && Agree(a, b, CtxIds(ctx))
    ensures ShapeCtx(b, ctx, x, root, top)
  {
    AboveFrame(a, b, ctx, root, top);
    if ctx != [] {
      assert b[ctx[0].id] == a[ctx[0].id];
    }
  }

  /** `s` is the record `r` with at most the child pointer on side `d`
      rewritten. */
  ghost predicate SameButChild(r: NodeRec, s: NodeRec, d: Dir) {
    s.key == r.key && s.value == r.value && s.color == r.color && s.parent == r.parent
    && (d == L ==> s.right == r.right) && (d == R ==> s.left == r.left)
  }

  /** Redirecting the parent's pointer to a new focus `y` keeps the frames
      laid out. */
  lemma Relink(a: seq<NodeRec>, b: seq<NodeRec>, ctx: seq<Frame>, x: int, y: int, root: int, root': int, top: int)
    requires ShapeCtx(a, ctx, x, root, top)
    requires ctx != [] ==>
      (Agree(a, b, CtxIds(ctx[1..]) + Ids(ctx[0].sibling))
       && ctx[0].id < |b| && SameButChild(a[ctx[0].id], b[ctx[0].id], ctx[0].dir)
       && (if ctx[0].dir == L then b[ctx[0].id].left else b[ctx[0].id].right) == y
       && root' == root)
    requires ctx == [] ==> root' == y
    ensures ShapeCtx(b, ctx, y, root', top)
  {
    if ctx != [] {
      var f := ctx[0];
      ShapeFrame(a, b, f.sibling, if f.dir == L then a[f.id].right else a[f.id].left, f.id);
      AboveFrame(a, b, ctx[1..], root, top);
      if ctx[1..] != [] {
        assert b[ctx[1].id] == a[ctx[1].id];
      }
    }
  }

  /** A node's id never occurs in the subtrees or frames around it. */
  lemma PlugApart(ctx: seq<Frame>, t: Tree)
    requires Distinct(Plug(ctx, t))
    ensures Distinct(t) && CtxDistinct(ctx) && Ids(t) !! CtxIds(ctx)
    ensures ctx != [] ==>
      (ctx[0].id !in Ids(ctx[0].sibling) && ctx[0].id !in CtxIds(ctx[1..])
       && Ids(ctx[0].sibling) !! CtxIds(ctx[1..]))
  {
    PlugDistinct(ctx, t);
  }

  /** The arena holds the whole tree `Plug(ctx, t)` from `root`, seen from
      node `x`, where `t` starts: the view of a pointer into the tree. */
  ghost predicate At(a: seq<NodeRec>, ctx: seq<Frame>, t: Tree, x: int, root: int) {
    NilBlack(a) && ShapeCtx(a, ctx, x, root, Nil) && Shape(a, t, x, ParentIn(ctx, Nil)) && Distinct(Plug(ctx, t))
  }

  /** A view from inside is a view of the whole tree. */
  lemma AtWhole(a: seq<NodeRec>, ctx: seq<Frame>, t: Tree, x: int, root: int)
    ensures At(a, ctx, t, x, root)
      <==> NilBlack(a) && Shape(a, Plug(ctx, t), root, Nil) && Distinct(Plug(ctx, t)) && x == RootOf(t)
  {
    ShapePlug(a, ctx, t, root, Nil);
    if Shape(a, t, x, ParentIn(ctx, Nil)) {
      ShapeIds(a, t, x, ParentIn(ctx, Nil));
    }
  }

  /** Following the parent pointer. */
  lemma Up(a: seq<NodeRec>, ctx: seq<Frame>, t: Tree, x: int, root: int)
    requires At(a, ctx, t, x, root) && ctx != []
    ensures At(a, ctx[1..], Attach(ctx[0], t), ctx[0].id, root)
  {
    AtWhole(a, ctx, t, x, root);
    AtWhole(a, ctx[1..], Attach(ctx[0], t), ctx[0].id, root);
  }

  /** The frame left behind when stepping from `t` down to side `d`. */
  function DownFrame(t: Tree, d: Dir): Frame
    requires t.Node?
  {
    if d == L then Frame(L, t.id, t.color, t.key, t.value, t.right)
    else Frame(R, t.id, t.color, t.key, t.value, t.left)
  }

  function Child(t: Tree, d: Dir): Tree
    requires t.Node?
  {
    if d == L then t.left else t.right
  }

  function ChildPtr(r: NodeRec, d: Dir): int {
    if d == L then r.left else r.right
  }

  /** Following a child pointer. */
  lemma Down(a: seq<NodeRec>, ctx: seq<Frame>, t: Tree, x: int, root: int, d: Dir)
    requires At(a, ctx, t, x, root) && t.Node?
    ensures 0 < x < |a| && ChildPtr(a[x], d) == RootOf(Child(t, d))
    ensures At(a, [DownFrame(t, d)] + ctx, Child(t, d), ChildPtr(a[x], d), root)
  {
    var c' := [DownFrame(t, d)] + ctx;
    assert c'[1..] == ctx;
    ShapeIds(a, Child(t, d), ChildPtr(a[x], d), x);
    AtWhole(a, ctx, t, x, root);
    AtWhole(a, c', Child(t, d), ChildPtr(a[x], d), root);
  }

  /** Recolouring the node in view. */
  lemma ColorAt(a: seq<NodeRec>, ctx: seq<Frame>, t: Tree, x: int, root: int, c: Color)
    requires At(a, ctx, t, x, root) && t.Node?
    ensures At(a[x := a[x].(color := c)], ctx, t.(color := c), x, root)
  {
    var b := a[x := a[x].(color := c)];
    PlugApart(ctx, t);
    CtxFrame(a, b, ctx, x, root, Nil);
    ShapeFrame(a, b, t.left, a[x].left, x);
    ShapeFrame(a, b, t.right, a[x].right, x);
    SameEntries(t, t.(color := c));
    PlugReplace(ctx, t, t.(color := c));
  }

  /** Only the parent pointer of the top node was rewritten. */
  lemma ShapeReparent(a: seq<NodeRec>, b: seq<NodeRec>, t: Tree, p: int, p': int)
    requires t.Node? && Shape(a, t, t.id, p) && Distinct(t)
    requires Agree(a, b, Ids(t) - {t.id}) && t.id < |b| && b[t.id] == a[t.id].(parent := p')
    ensures Shape(b, t, t.id, p')
  {
    ShapeFrame(a, b, t.left, a[t.id].left, t.id);
    ShapeFrame(a, b, t.right, a[t.id].right, t.id);
  }

  /** Every node named by the frames is a real node of the arena. */
  lemma {:induction false} CtxIdsPositive(a: seq<NodeRec>, ctx: seq<Frame>, root: int, top: int)
    requires Above(a, ctx, root, top)
    ensures forall i :: i in CtxIds(ctx) ==> 0 < i < |a|
    decreases |ctx|
  {
    if ctx != [] {
      var f := ctx[0];
      ShapeIds(a, f.sibling, if f.dir == L then a[f.id].right else a[f.id].left, f.id);
      CtxIdsPositive(a, ctx[1..], root, top);
    }
  }

  /** The parent whose child pointer leads to the focus, if any. */
  function ParentSet(ctx: seq<Frame>): set<int> {
    if ctx == [] then {} else {ctx[0].id}
  }

  /** `b` is `a` with the pointer down to the focus (or `root`) redirected
      to `y`. */
  ghost predicate Redirected(a: seq<NodeRec>, b: seq<NodeRec>, ctx: seq<Frame>, y: int, root: int, root': int) {
    (ctx != [] ==>
      (0 <= ctx[0].id < |a| && ctx[0].id < |b|
       && SameButChild(a[ctx[0].id], b[ctx[0].id], ctx[0].dir)
       && ChildPtr(b[ctx[0].id], ctx[0].dir) == y && root' == root))
    && (ctx == [] ==> root' == y)
  }

  /** `rbTransplant(u, v)` where `v` is a child of `u`: `v`'s subtree takes
      `u`'s place. */
  lemma TransplantShape(a: seq<NodeRec>, b: seq<NodeRec>, ctx: seq<Frame>, u: Tree, d: Dir, root: int, root': int)
    requires At(a, ctx, u, RootOf(u), root) && u.Node?
    requires 0 <= RootOf(Child(u, d)) < |a|
    requires SameOutside(a, b, ParentSet(ctx) + {RootOf(Child(u, d))})
    requires b[RootOf(Child(u, d))] == a[RootOf(Child(u, d))].(parent := ParentIn(ctx, Nil))
    requires Redirected(a, b, ctx, RootOf(Child(u, d)), root, root')
    ensures At(b, ctx, Child(u, d), RootOf(Child(u, d)), root')
  {
    var v := Child(u, d);
    var w := ParentSet(ctx) + {RootOf(v)};
    PlugApart(ctx, u);
    PlugDistinct(ctx, v);
    CtxIdsPositive(a, ctx, root, Nil);
    ShapeIds(a, v, ChildPtr(a[u.id], d), u.id);
    assert Ids(v) <= Ids(u);
    if ctx != [] {
      assert CtxIds(ctx) == {ctx[0].id} + Ids(ctx[0].sibling) + CtxIds(ctx[1..]);
      SameOutsideAgree(a, b, w, CtxIds(ctx[1..]) + Ids(ctx[0].sibling));
    }
    Relink(a, b, ctx, u.id, RootOf(v), root, root', Nil);
    if v.Node? {
      SameOutsideAgree(a, b, w, Ids(v) - {v.id});
      ShapeReparent(a, b, v, u.id, ParentIn(ctx, Nil));
    }
    assert b[Nil].color == a[Nil].color;
  }

  /** `leftRotate(x)` on the records of the rotated subtree: `x` takes
      `y`'s left subtree `B` and hangs under `y`. */
  lemma RotateLeftSub(a: seq<NodeRec>, b: seq<NodeRec>, t: Tree, p: int, p': int)
    requires t.Node? && t.right.Node? && Shape(a, t, t.id, p) && Distinct(t)
    requires Agree(a, b, Ids(t) - {t.id, t.right.id, RootOf(t.right.left)})
    requires |a| == |b|
    requires b[t.id] == a[t.id].(right := RootOf(t.right.left), parent := t.right.id)
    requires 0 < t.right.id < |a| && (t.right.left.Node? ==> 0 < t.right.left.id < |a|)
    requires b[t.right.id] == a[t.right.id].(left := t.id, parent := p')
    requires t.right.left.Node? ==> b[t.right.left.id] == a[t.right.left.id].(parent := t.id)
    ensures Shape(b, RotateLeft(t), t.right.id, p')
  {
    var x, y, bt := t.id, t.right.id, t.right.left;
    ShapeIds(a, t.left, a[x].left, x);
    ShapeIds(a, bt, a[y].left, y);
    ShapeIds(a, t.right.right, a[y].right, y);
    ShapeFrame(a, b, t.left, a[x].left, x);
    ShapeFrame(a, b, t.right.right, a[y].right, y);
    if bt.Node? {
      ShapeReparent(a, b, bt, y, x);
    }
  }

  lemma RotateRightSub(a: seq<NodeRec>, b: seq<NodeRec>, t: Tree, p: int, p': int)
    requires t.Node? && t.left.Node? && Shape(a, t, t.id, p) && Distinct(t)
    requires Agree(a, b, Ids(t) - {t.id, t.left.id, RootOf(t.left.right)})
    requires |a| == |b|
    requires b[t.id] == a[t.id].(left := RootOf(t.left.right), parent := t.left.id)
    requires 0 < t.left.id < |a| && (t.left.right.Node? ==> 0 < t.left.right.id < |a|)
    requires b[t.left.id] == a[t.left.id].(right := t.id, parent := p')
    requires t.left.right.Node? ==> b[t.left.right.id] == a[t.left.right.id].(parent := t.id)
    ensures Shape(b, RotateRight(t), t.left.id, p')
  {
    var x, y, bt := t.id, t.left.id, t.left.right;
    ShapeIds(a, t.right, a[x].right, x);
    ShapeIds(a, bt, a[y].right, y);
    ShapeIds(a, t.left.left, a[y].left, y);
    ShapeFrame(a, b, t.right, a[x].right, x);
    ShapeFrame(a, b, t.left.left, a[y].left, y);
    if bt.Node? {
      ShapeReparent(a, b, bt, y, x);
    }
  }

  /** The records a rotation at the top of `t` writes: its two nodes, the
      middle subtree's root and the parent. */
  function RotateLeftWrites(ctx: seq<Frame>, t: Tree): set<int>
    requires t.Node? && t.right.Node?
  {
    ParentSet(ctx) + {t.id, t.right.id, RootOf(t.right.left)}
  }

  function RotateRightWrites(ctx: seq<Frame>, t: Tree): set<int>
    requires t.Node? && t.left.Node?
  {
    ParentSet(ctx) + {t.id, t.left.id, RootOf(t.left.right)}
  }

  /** Writes confined to `w`, none of them in the frames above the parent. */
  lemma CtxUntouched(a: seq<NodeRec>, b: seq<NodeRec>, ctx: seq<Frame>, t: Tree, w: set<int>, outside: set<int>, root: int, root': int, y: int)
    requires At(a, ctx, t, RootOf(t), root)
    requires SameOutside(a, b, w) && w <= ParentSet(ctx) + Ids(t) + {Nil} + outside && outside !! CtxIds(ctx)
    requires Redirected(a, b, ctx, y, root, root')
    ensures ShapeCtx(b, ctx, y, root', Nil)
  {
    PlugApart(ctx, t);
    CtxIdsPositive(a, ctx, root, Nil);
    if ctx != [] {
      assert CtxIds(ctx) == {ctx[0].id} + Ids(ctx[0].sibling) + CtxIds(ctx[1..]);
      SameOutsideAgree(a, b, w, CtxIds(ctx[1..]) + Ids(ctx[0].sibling));
    }
    Relink(a, b, ctx, RootOf(t), y, root, root', Nil);
  }

  lemma RotateLeftShape(a: seq<NodeRec>, b: seq<NodeRec>, ctx: seq<Frame>, t: Tree, root: int, root': int)
    requires At(a, ctx, t, RootOf(t), root) && t.Node? && t.right.Node?
    requires SameOutside(a, b, RotateLeftWrites(ctx, t)) && b[Nil] == a[Nil]
    requires 0 < t.id < |a| && 0 < t.right.id < |a|
    requires b[t.id] == a[t.id].(right := RootOf(t.right.left), parent := t.right.id)
    requires b[t.right.id] == a[t.right.id].(left := t.id, parent := ParentIn(ctx, Nil))
    requires t.right.left.Node? ==> 0 < t.right.left.id < |a| && b[t.right.left.id] == a[t.right.left.id].(parent := t.id)
    requires Redirected(a, b, ctx, t.right.id, root, root')
    ensures At(b, ctx, RotateLeft(t), t.right.id, root')
  {
    var w := RotateLeftWrites(ctx, t);
    PlugApart(ctx, t);
    assert Shape(a, t.right, a[t.id].right, t.id);
    ShapeIds(a, t.right, a[t.id].right, t.id);
    assert Shape(a, t.right.left, a[t.right.id].left, t.right.id);
    ShapeIds(a, t.right.left, a[t.right.id].left, t.right.id);
    SameOutsideAgree(a, b, w, Ids(t) - {t.id, t.right.id, RootOf(t.right.left)});
    RotateLeftSub(a, b, t, ParentIn(ctx, Nil), ParentIn(ctx, Nil));
    CtxUntouched(a, b, ctx, t, w, {}, root, root', t.right.id);
    RotateLeftKeepsOrder(t);
    RotateLeftKeepsDistinct(t);
    PlugReplace(ctx, t, RotateLeft(t));
  }

  lemma RotateRightShape(a: seq<NodeRec>, b: seq<NodeRec>, ctx: seq<Frame>, t: Tree, root: int, root': int)
    requires At(a, ctx, t, RootOf(t), root) && t.Node? && t.left.Node?
    requires SameOutside(a, b, RotateRightWrites(ctx, t)) && b[Nil] == a[Nil]
    requires 0 < t.id < |a| && 0 < t.left.id < |a|
    requires b[t.id] == a[t.id].(left := RootOf(t.left.right), parent := t.left.id)
    requires b[t.left.id] == a[t.left.id].(right := t.id, parent := ParentIn(ctx, Nil))
    requires t.left.right.Node? ==> 0 < t.left.right.id < |a| && b[t.left.right.id] == a[t.left.right.id].(parent := t.id)
    requires Redirected(a, b, ctx, t.left.id, root, root')
    ensures At(b, ctx, RotateRight(t), t.left.id, root')
  {
    var w := RotateRightWrites(ctx, t);
    PlugApart(ctx, t);
    assert Shape(a, t.left, a[t.id].left, t.id);
    ShapeIds(a, t.left, a[t.id].left, t.id);
    assert Shape(a, t.left.right, a[t.left.id].right, t.left.id);
    ShapeIds(a, t.left.right, a[t.left.id].right, t.left.id);
    SameOutsideAgree(a, b, w, Ids(t) - {t.id, t.left.id, RootOf(t.left.right)});
    RotateRightSub(a, b, t, ParentIn(ctx, Nil), ParentIn(ctx, Nil));
    CtxUntouched(a, b, ctx, t, w, {}, root, root', t.left.id);
    RotateRightKeepsOrder(t);
    RotateRightKeepsDistinct(t);
    PlugReplace(ctx, t, RotateRight(t));
  }

  /** The end of `rbDelete(z)` when the predecessor `y` is `z`'s own left
      child: `y` keeps its left subtree, takes over `z`'s right subtree,
      place and colour. */
  lemma LiftShape(a: seq<NodeRec>, b: seq<NodeRec>, ctx: seq<Frame>, z: Tree, root: int, root': int)
    requires At(a, ctx, z, RootOf(z), root) && z.Node? && z.left.Node? && z.left.right == Leaf && z.right.Node?
    requires 0 < z.left.id < |a| && 0 < z.right.id < |a|
    requires SameOutside(a, b, ParentSet(ctx) + {z.left.id, z.right.id, Nil}) && b[Nil].color == a[Nil].color
    requires b[z.left.id] == a[z.left.id].(right := z.right.id, parent := ParentIn(ctx, Nil), color := z.color)
    requires b[z.right.id] == a[z.right.id].(parent := z.left.id)
    requires Redirected(a, b, ctx, z.left.id, root, root')
    ensures At(b, ctx, Node(z.left.left, z.left.id, z.color, z.left.key, z.left.value, z.right), z.left.id, root')
  {
    var y := z.left;
    var n := Node(y.left, y.id, z.color, y.key, y.value, z.right);
    var w := ParentSet(ctx) + {y.id, z.right.id, Nil};
    PlugApart(ctx, z);
    CtxIdsPositive(a, ctx, root, Nil);
    assert Shape(a, y, a[z.id].left, z.id);
    assert Shape(a, y.left, a[y.id].left, y.id);
    ShapeIds(a, y.left, a[y.id].left, y.id);
    assert Shape(a, z.right, a[z.id].right, z.id);
    ShapeIds(a, z.right, a[z.id].right, z.id);
    SameOutsideAgree(a, b, w, Ids(y.left));
    ShapeFrame(a, b, y.left, a[y.id].left, y.id);
    SameOutsideAgree(a, b, w, Ids(z.right) - {z.right.id});
    ShapeReparent(a, b, z.right, z.id, y.id);
    assert Shape(b, n, y.id, ParentIn(ctx, Nil));
    CtxUntouched(a, b, ctx, z, w, {}, root, root', y.id);
    assert Ids(n) <= Ids(z) && Distinct(n);
    PlugDistinct(ctx, n);
  }

  /** The end of `rbDelete(z)` when the predecessor `y` lay deeper: `y`,
      already cut out, takes `z`'s place, colour and both subtrees. */
  lemma SubstituteShape(a: seq<NodeRec>, b: seq<NodeRec>, ctx: seq<Frame>, z: Tree, y: int, k: string, v: string, root: int, root': int)
    requires At(a, ctx, z, RootOf(z), root) && z.Node? && z.left.Node? && z.right.Node?
    requires 0 < y < |a| && y !in Ids(Plug(ctx, z))
    requires 0 < z.left.id < |a| && 0 < z.right.id < |a|
    requires SameOutside(a, b, ParentSet(ctx) + {y, z.left.id, z.right.id}) && b[Nil] == a[Nil]
    requires b[y] == NodeRec(k, v, z.color, z.left.id, z.right.id, ParentIn(ctx, Nil))
    requires b[z.left.id] == a[z.left.id].(parent := y)
    requires b[z.right.id] == a[z.right.id].(parent := y)
    requires Redirected(a, b, ctx, y, root, root')
    ensures At(b, ctx, Node(z.left, y, z.color, k, v, z.right), y, root')
  {
    var n := Node(z.left, y, z.color, k, v, z.right);
    var w := ParentSet(ctx) + {y, z.left.id, z.right.id};
    PlugApart(ctx, z);
    PlugIds(ctx, z);
    CtxIdsPositive(a, ctx, root, Nil);
    assert Shape(a, z.left, a[z.id].left, z.id);
    ShapeIds(a, z.left, a[z.id].left, z.id);
    assert Shape(a, z.right, a[z.id].right, z.id);
    ShapeIds(a, z.right, a[z.id].right, z.id);
    SameOutsideAgree(a, b, w, Ids(z.left) - {z.left.id});
    ShapeReparent(a, b, z.left, z.id, y);
    SameOutsideAgree(a, b, w, Ids(z.right) - {z.right.id});
    ShapeReparent(a, b, z.right, z.id, y);
    assert Shape(b, n, y, ParentIn(ctx, Nil));
    CtxUntouched(a, b, ctx, z, w, {y}, root, root', y);
    assert Distinct(n);
    PlugDistinct(ctx, n);
  }

  function Other(d: Dir): Dir {
    if d == L then R else L
  }

  /** What the records say at the node in view and at its parent. */
  lemma Pointers(a: seq<NodeRec>, ctx: seq<Frame>, t: Tree, x: int, root: int)
    requires At(a, ctx, t, x, root)
    ensures x == RootOf(t) && 0 <= x < |a| && |a| > 0
    ensures forall i :: i in Ids(t) ==> 0 < i < |a|
    ensures forall i :: i in CtxIds(ctx) ==> 0 < i < |a|
    ensures Distinct(t) && Ids(t) !! CtxIds(ctx)
    ensures 0 <= ParentIn(ctx, Nil) < |a| && ParentIn(ctx, Nil) !in Ids(t)
    ensures t.Node? ==>
      (a[x].parent == ParentIn(ctx, Nil) && a[x].left == RootOf(t.left) && a[x].right == RootOf(t.right)
       && a[x].key == t.key && a[x].value == t.value && a[x].color == t.color)
    ensures ctx == [] ==> root == x
    ensures ctx != [] ==>
      (ChildPtr(a[ctx[0].id], ctx[0].dir) == x
       && ChildPtr(a[ctx[0].id], Other(ctx[0].dir)) == RootOf(ctx[0].sibling)
       && a[ctx[0].id].color == ctx[0].color && a[ctx[0].id].key == ctx[0].key
       && a[ctx[0].id].parent == ParentIn(ctx[1..], Nil))
    ensures ctx != [] && (x != Nil || ctx[0].sibling.Node?) ==>
      (a[ctx[0].id].left == x <==> ctx[0].dir == L) && (a[ctx[0].id].right == x <==> ctx[0].dir == R)
  {
    ShapeIds(a, t, x, ParentIn(ctx, Nil));
    PlugApart(ctx, t);
    CtxIdsPositive(a, ctx, root, Nil);
    if t.Node? {
      ShapeIds(a, t.left, a[x].left, x);
      ShapeIds(a, t.right, a[x].right, x);
    }
    if ctx != [] {
      var f := ctx[0];
      ShapeIds(a, f.sibling, if f.dir == L then a[f.id].right else a[f.id].left, f.id);
      assert CtxIds(ctx) == {f.id} + Ids(f.sibling) + CtxIds(ctx[1..]);
      if f.sibling.Node? {
        assert f.sibling.id in Ids(f.sibling);
      }
    }
  }

  /** A new record at the end of the arena changes no view. */
  lemma AtGrow(a: seq<NodeRec>, ctx: seq<Frame>, t: Tree, x: int, root: int, r: NodeRec)
    requires At(a, ctx, t, x, root)
    ensures At(a + [r], ctx, t, x, root)
  {
    AtWhole(a, ctx, t, x, root);
    ShapeFrame(a, a + [r], Plug(ctx, t), root, Nil);
    AtWhole(a + [r], ctx, t, x, root);
  }

  /** The end of `rbInsert(z)`'s descent: the new red node `z`, a record no
      pointer reached before, hangs where the descent fell off the tree. */
  lemma LinkNew(a: seq<NodeRec>, b: seq<NodeRec>, ctx: seq<Frame>, z: int, k: string, v: string, root: int, root': int)
    requires At(a, ctx, Leaf, Nil, root) && 0 < z < |a|
    requires z !in CtxIds(ctx)
    requires SameOutside(a, b, ParentSet(ctx) + {z}) && b[Nil] == a[Nil]
    requires b[z] == NodeRec(k, v, Red, Nil, Nil, ParentIn(ctx, Nil))
    requires Redirected(a, b, ctx, z, root, root')
    ensures At(b, ctx, Node(Leaf, z, Red, k, v, Leaf), z, root')
  {
    CtxUntouched(a, b, ctx, Leaf, ParentSet(ctx) + {z}, {z}, root, root', z);
    PlugDistinct(ctx, Leaf);
    PlugDistinct(ctx, Node(Leaf, z, Red, k, v, Leaf));
  }

  /** The record `r` with its child pointer to `x` (its right one when the
      left one is not `x`) turned to `y`. */
  function ReplacedChild(r: NodeRec, x: int, y: int): NodeRec {
    if r.left == x then r.(left := y) else r.(right := y)
  }

  /** The pointer down to `x` was turned to `y`: the way `leftRotate`,
      `rightRotate` and `rbTransplant` do it. */
  ghost predicate Replaced(a: seq<NodeRec>, b: seq<NodeRec>, ctx: seq<Frame>, x: int, y: int, root: int, root': int) {
    (ctx == [] ==> root' == y)
    && (ctx != [] ==> 0 <= ctx[0].id < |a| && ctx[0].id < |b| && b[ctx[0].id] == ReplacedChild(a[ctx[0].id], x, y) && root' == root)
  }

  lemma ReplacedRedirects(a: seq<NodeRec>, b: seq<NodeRec>, ctx: seq<Frame>, t: Tree, x: int, y: int, root: int, root': int)
    requires At(a, ctx, t, x, root) && (x != Nil || (ctx != [] && ctx[0].sibling.Node?))
    requires Replaced(a, b, ctx, x, y, root, root')
    ensures Redirected(a, b, ctx, y, root, root')
  {
    Pointers(a, ctx, t, x, root);
  }

  /** The pointers a rotation at `x` reads, and that the nodes it writes
      are distinct. */
  lemma RotateLeftPointers(a: seq<NodeRec>, ctx: seq<Frame>, t: Tree, x: int, root: int)
    requires At(a, ctx, t, x, root) && t.Node? && t.right.Node?
    ensures x == t.id && 0 < x < |a| && 0 < t.right.id < |a| && x != t.right.id
    ensures a[x].right == t.right.id && a[t.right.id].left == RootOf(t.right.left)
    ensures a[x].parent == ParentIn(ctx, Nil) && 0 <= ParentIn(ctx, Nil) < |a|
    ensures ParentIn(ctx, Nil) == Nil <==> ctx == []
    ensures ParentIn(ctx, Nil) != x && ParentIn(ctx, Nil) != t.right.id
    ensures 0 <= RootOf(t.right.left) < |a| && RootOf(t.right.left) != x && RootOf(t.right.left) != t.right.id
    ensures RootOf(t.right.left) != Nil ==> RootOf(t.right.left) != ParentIn(ctx, Nil)
    ensures t.right.left.Node? <==> RootOf(t.right.left) != Nil
  {
    Pointers(a, ctx, t, x, root);
    Down(a, ctx, t, x, root, R);
    Pointers(a, [DownFrame(t, R)] + ctx, t.right, t.right.id, root);
    assert t.right.id in Ids(t.right) && Ids(t.right.left) <= Ids(t);
  }

  lemma RotateRightPointers(a: seq<NodeRec>, ctx: seq<Frame>, t: Tree, x: int, root: int)
    requires At(a, ctx, t, x, root) && t.Node? && t.left.Node?
    ensures x == t.id && 0 < x < |a| && 0 < t.left.id < |a| && x != t.left.id
    ensures a[x].left == t.left.id && a[t.left.id].right == RootOf(t.left.right)
    ensures a[x].parent == ParentIn(ctx, Nil) && 0 <= ParentIn(ctx, Nil) < |a|
    ensures ParentIn(ctx, Nil) == Nil <==> ctx == []
    ensures ParentIn(ctx, Nil) != x && ParentIn(ctx, Nil) != t.left.id
    ensures 0 <= RootOf(t.left.right) < |a| && RootOf(t.left.right) != x && RootOf(t.left.right) != t.left.id
    ensures RootOf(t.left.right) != Nil ==> RootOf(t.left.right) != ParentIn(ctx, Nil)
    ensures t.left.right.Node? <==> RootOf(t.left.right) != Nil
  {
    Pointers(a, ctx, t, x, root);
    Down(a, ctx, t, x, root, L);
    Pointers(a, [DownFrame(t, L)] + ctx, t.left, t.left.id, root);
    assert t.left.id in Ids(t.left) && Ids(t.left.right) <= Ids(t);
  }

  /** One step down a path: the focus moves to child `d` of `m` and the
      frame it leaves joins the front of `path`. */
  lemma DownPath(a: seq<NodeRec>, path: seq<Frame>, ctx: seq<Frame>, m: Tree, x: int, root: int, d: Dir)
    requires At(a, path + ctx, m, x, root) && m.Node?
    ensures x == m.id && 0 < x < |a| && ChildPtr(a[x], d) == RootOf(Child(m, d))
    ensures ChildPtr(a[x], d) == Nil <==> Child(m, d) == Leaf
    ensures At(a, ([DownFrame(m, d)] + path) + ctx, Child(m, d), ChildPtr(a[x], d), root)
    ensures Plug([DownFrame(m, d)] + path, Child(m, d)) == Plug(path, m)
  {
    Pointers(a, path + ctx, m, x, root);
    Down(a, path + ctx, m, x, root, d);
    assert Child(m, d).Node? ==> Child(m, d).id in Ids(m);
    PlugConcat([DownFrame(m, d)], path, Child(m, d));
    assert [DownFrame(m, d)] + (path + ctx) == ([DownFrame(m, d)] + path) + ctx;
  }
}
