/** The pointer facts and recolourings the two fixups of `rbtree.cpp` use,
    stated on the arena view of `RedBlackArena`: what the records of a
    node's parent, grandparent and uncle say, and what painting them does
    to the view. */
module RedBlackMoves {
  import opened Common
  import opened RedBlack
  import opened RedBlackZipper
  import opened RedBlackArena
  import opened RedBlackInsert
  import opened RedBlackDelete

  /** The arena with the record at `i` painted `c`. */
  function Paint(a: seq<NodeRec>, i: int, c: Color): (b: seq<NodeRec>)
    requires 0 <= i < |a|
    ensures |b| == |a| && b[i].color == c
    ensures forall j :: 0 <= j < |a| && j != i ==> b[j] == a[j]
  {
    a[i := a[i].(color := c)]
  }

  /** The colour `z->parent->color` reads: the parent's, or the black of
      `nil` at the root. */
  lemma ParentColor(a: seq<NodeRec>, ctx: seq<Frame>, t: Tree, z: int, root: int)
    requires At(a, ctx, t, z, root) && t.Node?
    ensures 0 < z < |a| && a[z].parent == ParentIn(ctx, Nil) && 0 <= a[z].parent < |a|
    ensures a[a[z].parent].color == Red <==> ctx != [] && ctx[0].color == Red
  {
    Pointers(a, ctx, t, z, root);
    assert t.id in Ids(t);
  }

  /** The parent, grandparent and uncle of `z` as the records see them. */
  lemma Family(a: seq<NodeRec>, ctx: seq<Frame>, t: Tree, z: int, root: int)
    requires At(a, ctx, t, z, root) && t.Node? && |ctx| >= 2
    ensures 0 < z < |a| && a[z].parent == ctx[0].id && 0 < ctx[0].id < |a|
    ensures a[ctx[0].id].parent == ctx[1].id && 0 < ctx[1].id < |a|
    ensures a[ctx[1].id].left == ctx[0].id <==> ctx[1].dir == L
    ensures a[ctx[0].id].left == z <==> ctx[0].dir == L
    ensures a[ctx[0].id].right == z <==> ctx[0].dir == R
    ensures ChildPtr(a[ctx[1].id], Other(ctx[1].dir)) == RootOf(ctx[1].sibling)
    ensures 0 <= RootOf(ctx[1].sibling) < |a|
    ensures a[RootOf(ctx[1].sibling)].color == ColorOf(ctx[1].sibling)
  {
    Pointers(a, ctx, t, z, root);
    assert t.id in Ids(t);
    var p := Attach(ctx[0], t);
    Up(a, ctx, t, z, root);
    Pointers(a, ctx[1..], p, ctx[0].id, root);
    assert ctx[0].id in Ids(p);
    var g := Attach(ctx[1], p);
    Up(a, ctx[1..], p, ctx[0].id, root);
    assert ctx[1..][1..] == ctx[2..];
    Pointers(a, ctx[2..], g, ctx[1].id, root);
    assert ctx[1].id in Ids(g);
    var d := Other(ctx[1].dir);
    Down(a, ctx[2..], g, ctx[1].id, root, d);
    assert Child(g, d) == ctx[1].sibling;
    Pointers(a, [DownFrame(g, d)] + ctx[2..], ctx[1].sibling, RootOf(ctx[1].sibling), root);
  }

  /** Stepping down to the subtree a frame hangs over. */
  lemma DownTo(a: seq<NodeRec>, c: seq<Frame>, f: Frame, t: Tree, x: int, root: int)
    requires At(a, c, Attach(f, t), x, root)
    ensures 0 < x < |a| && ChildPtr(a[x], f.dir) == RootOf(t)
    ensures At(a, [f] + c, t, RootOf(t), root)
  {
    var n := Attach(f, t);
    Down(a, c, n, x, root, f.dir);
    assert DownFrame(n, f.dir) == f && Child(n, f.dir) == t;
  }

  /** Case 1 of `rbInsertFixup`: parent and uncle painted black and the
      grandparent red leave the view at the grandparent, holding
      `RecolorUp`. */
  lemma RecolorUpAt(a: seq<NodeRec>, ctx: seq<Frame>, t: Tree, z: int, root: int)
    requires At(a, ctx, t, z, root) && t.Node? && |ctx| >= 2 && ctx[1].sibling.Node?
    ensures 0 < ctx[0].id < |a| && 0 < ctx[1].id < |a| && 0 < ctx[1].sibling.id < |a|
    ensures At(Paint(Paint(Paint(a, ctx[0].id, Black), ctx[1].sibling.id, Black), ctx[1].id, Red),
               ctx[2..], RecolorUp(ctx, t), ctx[1].id, root)
  {
    var c1 := ctx[1..];
    assert c1[0] == ctx[1] && c1[1..] == ctx[2..];
    var p := Attach(ctx[0], t);
    Up(a, ctx, t, z, root);
    Pointers(a, c1, p, ctx[0].id, root);
    assert ctx[0].id in Ids(p);
    ColorAt(a, c1, p, ctx[0].id, root, Black);
    var a1 := Paint(a, ctx[0].id, Black);
    var p1 := Attach(ctx[0].(color := Black), t);
    assert p.(color := Black) == p1;
    Up(a1, c1, p1, ctx[0].id, root);
    var g1 := Attach(ctx[1], p1);
    var d := Other(ctx[1].dir);
    Down(a1, ctx[2..], g1, ctx[1].id, root, d);
    var s := ctx[1].sibling;
    assert Child(g1, d) == s;
    var c2 := [DownFrame(g1, d)] + ctx[2..];
    Pointers(a1, c2, s, s.id, root);
    assert s.id in Ids(s);
    ColorAt(a1, c2, s, s.id, root, Black);
    var a2 := Paint(a1, s.id, Black);
    assert c2[0] == DownFrame(g1, d) && c2[1..] == ctx[2..];
    Up(a2, c2, s.(color := Black), s.id, root);
    var g2 := Attach(DownFrame(g1, d), s.(color := Black));
    assert g2 == Attach(ctx[1].(sibling := PaintBlack(s)), p1);
    Pointers(a2, ctx[2..], g2, ctx[1].id, root);
    assert ctx[1].id in Ids(g2);
    ColorAt(a2, ctx[2..], g2, ctx[1].id, root, Red);
    assert g2.(color := Red) == RecolorUp(ctx, t);
  }

  /** The recolouring of case 3 of `rbInsertFixup`: parent black and
      grandparent red leave the view at the grandparent, holding
      `Recolored`. */
  lemma RecoloredAt(a: seq<NodeRec>, ctx: seq<Frame>, t: Tree, z: int, root: int)
    requires At(a, ctx, t, z, root) && t.Node? && |ctx| >= 2
    ensures 0 < ctx[0].id < |a| && 0 < ctx[1].id < |a|
    ensures At(Paint(Paint(a, ctx[0].id, Black), ctx[1].id, Red), ctx[2..], Recolored(ctx, t), ctx[1].id, root)
  {
    var c1 := ctx[1..];
    assert c1[0] == ctx[1] && c1[1..] == ctx[2..];
    var p := Attach(ctx[0], t);
    Up(a, ctx, t, z, root);
    Pointers(a, c1, p, ctx[0].id, root);
    assert ctx[0].id in Ids(p);
    ColorAt(a, c1, p, ctx[0].id, root, Black);
    var a1 := Paint(a, ctx[0].id, Black);
    var p1 := Attach(ctx[0].(color := Black), t);
    assert p.(color := Black) == p1;
    Up(a1, c1, p1, ctx[0].id, root);
    var g1 := Attach(ctx[1], p1);
    Pointers(a1, ctx[2..], g1, ctx[1].id, root);
    assert ctx[1].id in Ids(g1);
    ColorAt(a1, ctx[2..], g1, ctx[1].id, root, Red);
    assert g1.(color := Red) == Recolored(ctx, t);
  }

  /** One step of the descent in `rbInsert(Node*)`: the new node's place
      lies in the child the key comparison picks. */
  lemma InsertDescends(a: seq<NodeRec>, ctx: seq<Frame>, t: Tree, x: int, root: int, z: int, k: string, v: string)
    requires At(a, ctx, t, x, root) && x != Nil
    ensures t.Node? && 0 < x < |a| && a[x].key == t.key
    ensures var d := if StrLess(k, t.key) then L else R;
      ChildPtr(a[x], d) == RootOf(Child(t, d))
      && At(a, [DownFrame(t, d)] + ctx, Child(t, d), ChildPtr(a[x], d), root)
      && Plug([DownFrame(t, d)] + ctx, Child(t, d)) == Plug(ctx, t)
      && Plug([DownFrame(t, d)] + ctx, InsertT(Child(t, d), z, k, v)) == Plug(ctx, InsertT(t, z, k, v))
  {
    Pointers(a, ctx, t, x, root);
    var d := if StrLess(k, t.key) then L else R;
    Down(a, ctx, t, x, root, d);
    assert ([DownFrame(t, d)] + ctx)[1..] == ctx;
  }

  /** Where the descent falls off the tree: the last node passed, if any,
      is the parent the new node `z` hangs from. */
  lemma InsertLinkFacts(a: seq<NodeRec>, ctx: seq<Frame>, root: int, z: int)
    requires At(a, ctx, Leaf, Nil, root) && z !in Ids(Plug(ctx, Leaf))
    ensures 0 <= ParentIn(ctx, Nil) < |a| && (ParentIn(ctx, Nil) == Nil <==> ctx == [])
    ensures z !in CtxIds(ctx)
    ensures ctx != [] ==> a[ctx[0].id].key == ctx[0].key
  {
    Pointers(a, ctx, Leaf, Nil, root);
    PlugIds(ctx, Leaf);
    assert ctx != [] ==> ctx[0].id in CtxIds(ctx);
  }

  /** The whole tree seen from the root. */
  lemma RootView(a: seq<NodeRec>, ctx: seq<Frame>, t: Tree, x: int, root: int)
    requires At(a, ctx, t, x, root)
    ensures At(a, [], Plug(ctx, t), root, root)
  {
    AtWhole(a, ctx, t, x, root);
    ShapeIds(a, Plug(ctx, t), root, Nil);
    AtWhole(a, [], Plug(ctx, t), root, root);
  }

  /** The view of node `z` of the whole tree `T`, reached along its path. */
  lemma ViewAt(a: seq<NodeRec>, T: Tree, z: int, root: int)
    requires At(a, [], T, root, root) && z in Ids(T)
    ensures SubtreeAt(T, z).Node? && SubtreeAt(T, z).id == z
    ensures Plug(PathTo(T, z), SubtreeAt(T, z)) == T
    ensures At(a, PathTo(T, z), SubtreeAt(T, z), z, root)
  {
    PathToPlugs(T, z);
    AtWhole(a, [], T, root, root);
    AtWhole(a, PathTo(T, z), SubtreeAt(T, z), z, root);
  }

  /** The colour the record in view reads: `nil` reads black. */
  lemma ColorIn(a: seq<NodeRec>, ctx: seq<Frame>, t: Tree, x: int, root: int)
    requires At(a, ctx, t, x, root)
    ensures 0 <= x < |a| && x == RootOf(t) && a[x].color == ColorOf(t)
  {
    Pointers(a, ctx, t, x, root);
  }

  /** The test of the loop of `rbDeleteFixup`: `x` is the root exactly
      when no frame is above it, and reads black exactly when its subtree
      is black at the top. */
  lemma DeleteLoopFacts(a: seq<NodeRec>, ctx: seq<Frame>, t: Tree, x: int, root: int)
    requires At(a, ctx, t, x, root)
    ensures 0 <= x < |a| && (x == root <==> ctx == [])
    ensures a[x].color == Black <==> ColorOf(t) == Black
  {
    ColorIn(a, ctx, t, x, root);
    Pointers(a, ctx, t, x, root);
    if ctx != [] {
      AtWhole(a, ctx, t, x, root);
      ShapeIds(a, Plug(ctx, t), root, Nil);
      PlugTop(ctx, t);
      if t.Node? {
        assert t.id in Ids(t);
      }
    }
  }

  /** The frame that sees the sibling side of `f`, with `t` hanging on the
      other side. */
  function Opp(f: Frame, t: Tree): Frame {
    Frame(Other(f.dir), f.id, f.color, f.key, f.value, t)
  }

  /** The same tree seen from the node in view or from its sibling. */
  lemma SwapView(a: seq<NodeRec>, c: seq<Frame>, f: Frame, t: Tree, root: int)
    requires At(a, [f] + c, t, RootOf(t), root)
    ensures At(a, [Opp(f, t)] + c, f.sibling, RootOf(f.sibling), root)
  {
    assert ([f] + c)[1..] == c && ([Opp(f, t)] + c)[1..] == c;
    assert Attach(Opp(f, t), f.sibling) == Attach(f, t);
    AtWhole(a, [f] + c, t, RootOf(t), root);
    AtWhole(a, [Opp(f, t)] + c, f.sibling, RootOf(f.sibling), root);
  }

  /** Back from the sibling's side, whatever the sibling became. */
  lemma SwapBack(a: seq<NodeRec>, c: seq<Frame>, f: Frame, t: Tree, s: Tree, root: int)
    requires At(a, [Opp(f, t)] + c, s, RootOf(s), root)
    ensures At(a, [f.(sibling := s)] + c, t, RootOf(t), root)
  {
    SwapView(a, c, Opp(f, t), s, root);
    assert Opp(Opp(f, t), s) == f.(sibling := s);
  }

  /** What `rbDeleteFixup` reads around `x`: its parent, the sibling `w`
      and the colours of `w`'s children. */
  lemma SiblingFacts(a: seq<NodeRec>, ctx: seq<Frame>, t: Tree, x: int, root: int)
    requires At(a, ctx, t, x, root) && ctx != [] && ctx[0].sibling.Node?
    ensures 0 < ctx[0].id < |a| && 0 < ctx[0].sibling.id < |a|
    ensures a[ctx[0].id].left == x <==> ctx[0].dir == L
    ensures ChildPtr(a[ctx[0].id], Other(ctx[0].dir)) == ctx[0].sibling.id
    ensures a[ctx[0].id].color == ctx[0].color
    ensures a[ctx[0].sibling.id].color == ctx[0].sibling.color
    ensures a[ctx[0].sibling.id].left == RootOf(ctx[0].sibling.left) && a[ctx[0].sibling.id].right == RootOf(ctx[0].sibling.right)
    ensures 0 <= a[ctx[0].sibling.id].left < |a| && 0 <= a[ctx[0].sibling.id].right < |a|
    ensures a[a[ctx[0].sibling.id].left].color == ColorOf(ctx[0].sibling.left)
    ensures a[a[ctx[0].sibling.id].right].color == ColorOf(ctx[0].sibling.right)
  {
    Pointers(a, ctx, t, x, root);
    var f, c := ctx[0], ctx[1..];
    var w := f.sibling;
    assert [f] + c == ctx;
    SwapView(a, c, f, t, root);
    var cw := [Opp(f, t)] + c;
    Down(a, cw, w, w.id, root, L);
    ColorIn(a, [DownFrame(w, L)] + cw, w.left, a[w.id].left, root);
    Down(a, cw, w, w.id, root, R);
    ColorIn(a, [DownFrame(w, R)] + cw, w.right, a[w.id].right, root);
  }

  /** Case 1 of `rbDeleteFixup`: the red sibling turns black and the
      parent red, before the rotation. */
  lemma RedSiblingAt(a: seq<NodeRec>, ctx: seq<Frame>, t: Tree, x: int, root: int)
    requires At(a, ctx, t, x, root) && ctx != [] && ctx[0].sibling.Node?
    ensures 0 < ctx[0].id < |a| && 0 < ctx[0].sibling.id < |a|
    ensures At(Paint(Paint(a, ctx[0].sibling.id, Black), ctx[0].id, Red), ctx[1..], RedSiblingRecolored(ctx, t), ctx[0].id, root)
  {
    Pointers(a, ctx, t, x, root);
    var f, c := ctx[0], ctx[1..];
    var w := f.sibling;
    assert [f] + c == ctx;
    SwapView(a, c, f, t, root);
    var cw := [Opp(f, t)] + c;
    ColorAt(a, cw, w, w.id, root, Black);
    var a1 := Paint(a, w.id, Black);
    assert cw[0] == Opp(f, t) && cw[1..] == c;
    Up(a1, cw, w.(color := Black), w.id, root);
    var p := Attach(Opp(f, t), w.(color := Black));
    ColorAt(a1, c, p, f.id, root, Red);
    assert p.(color := Red) == RedSiblingRecolored(ctx, t);
  }

  /** Case 2 of `rbDeleteFixup`: the sibling turns red and the parent
      comes into view. */
  lemma PushUpAt(a: seq<NodeRec>, ctx: seq<Frame>, t: Tree, x: int, root: int)
    requires At(a, ctx, t, x, root) && ctx != [] && ctx[0].sibling.Node?
    ensures 0 < ctx[0].id < |a| && 0 < ctx[0].sibling.id < |a|
    ensures At(Paint(a, ctx[0].sibling.id, Red), ctx[1..], PushUp(ctx, t), ctx[0].id, root)
  {
    Pointers(a, ctx, t, x, root);
    var f, c := ctx[0], ctx[1..];
    var w := f.sibling;
    assert [f] + c == ctx;
    SwapView(a, c, f, t, root);
    var cw := [Opp(f, t)] + c;
    ColorAt(a, cw, w, w.id, root, Red);
    assert cw[0] == Opp(f, t) && cw[1..] == c;
    Up(Paint(a, w.id, Red), cw, w.(color := Red), w.id, root);
    assert Attach(Opp(f, t), w.(color := Red)) == PushUp(ctx, t);
  }

  /** The sibling `w` red and its child on side `d` black: the recolouring
      of case 3 of `rbDeleteFixup` before its rotation. */
  function NearRecolored(w: Tree, d: Dir): Tree
    requires w.Node? && Child(w, d).Node?
  {
    if d == L then w.(color := Red, left := w.left.(color := Black))
    else w.(color := Red, right := w.right.(color := Black))
  }

  /** Case 3 of `rbDeleteFixup`: the near nephew turns black and the
      sibling red, seen from the sibling. */
  lemma NearRecolorAt(a: seq<NodeRec>, ctx: seq<Frame>, t: Tree, x: int, root: int, d: Dir)
    requires At(a, ctx, t, x, root) && ctx != [] && ctx[0].sibling.Node? && Child(ctx[0].sibling, d).Node?
    ensures 0 < ctx[0].sibling.id < |a| && 0 < Child(ctx[0].sibling, d).id < |a|
    ensures At(Paint(Paint(a, Child(ctx[0].sibling, d).id, Black), ctx[0].sibling.id, Red),
               [Opp(ctx[0], t)] + ctx[1..], NearRecolored(ctx[0].sibling, d), ctx[0].sibling.id, root)
  {
    Pointers(a, ctx, t, x, root);
    var f, c := ctx[0], ctx[1..];
    var w := f.sibling;
    var n := Child(w, d);
    assert [f] + c == ctx;
    SwapView(a, c, f, t, root);
    var cw := [Opp(f, t)] + c;
    Down(a, cw, w, w.id, root, d);
    var cn := [DownFrame(w, d)] + cw;
    ColorAt(a, cn, n, n.id, root, Black);
    var a1 := Paint(a, n.id, Black);
    assert cn[0] == DownFrame(w, d) && cn[1..] == cw;
    Up(a1, cn, n.(color := Black), n.id, root);
    var w1 := Attach(DownFrame(w, d), n.(color := Black));
    ColorAt(a1, cw, w1, w.id, root, Red);
    assert w1.(color := Red) == NearRecolored(w, d);
  }

  /** Case 4 of `rbDeleteFixup`, first half: the sibling takes the
      parent's colour and the parent turns black. */
  lemma FarRecolorParent(a: seq<NodeRec>, ctx: seq<Frame>, t: Tree, x: int, root: int)
    requires At(a, ctx, t, x, root) && ctx != [] && ctx[0].sibling.Node?
    ensures 0 < ctx[0].id < |a| && 0 < ctx[0].sibling.id < |a|
    ensures At(Paint(Paint(a, ctx[0].sibling.id, ctx[0].color), ctx[0].id, Black), ctx[1..],
               PaintBlack(Attach(Opp(ctx[0], t), ctx[0].sibling.(color := ctx[0].color))), ctx[0].id, root)
  {
    Pointers(a, ctx, t, x, root);
    var f, c := ctx[0], ctx[1..];
    var w := f.sibling;
    assert [f] + c == ctx;
    SwapView(a, c, f, t, root);
    var cw := [Opp(f, t)] + c;
    ColorAt(a, cw, w, w.id, root, f.color);
    var a1 := Paint(a, w.id, f.color);
    assert cw[0] == Opp(f, t) && cw[1..] == c;
    Up(a1, cw, w.(color := f.color), w.id, root);
    ColorAt(a1, c, Attach(Opp(f, t), w.(color := f.color)), f.id, root, Black);
  }

  /** Case 4 of `rbDeleteFixup`: sibling in the parent's colour, parent
      and far nephew black, seen from the parent: `FarRedLeft` or
      `FarRedRight`. */
  lemma FarRecolorAt(a: seq<NodeRec>, ctx: seq<Frame>, t: Tree, x: int, root: int)
    requires At(a, ctx, t, x, root) && ctx != [] && ctx[0].sibling.Node?
    requires Child(ctx[0].sibling, Other(ctx[0].dir)).Node?
    ensures 0 < ctx[0].id < |a| && 0 < ctx[0].sibling.id < |a| && 0 < Child(ctx[0].sibling, Other(ctx[0].dir)).id < |a|
    ensures ctx[0].dir == L ==>
      At(Paint(Paint(Paint(a, ctx[0].sibling.id, ctx[0].color), ctx[0].id, Black), ctx[0].sibling.right.id, Black),
         ctx[1..], FarRedLeft(ctx, t), ctx[0].id, root)
    ensures ctx[0].dir == R ==>
      At(Paint(Paint(Paint(a, ctx[0].sibling.id, ctx[0].color), ctx[0].id, Black), ctx[0].sibling.left.id, Black),
         ctx[1..], FarRedRight(ctx, t), ctx[0].id, root)
  {
    var f, c := ctx[0], ctx[1..];
    var w := f.sibling;
    var d := Other(f.dir);
    var n := Child(w, d);
    FarRecolorParent(a, ctx, t, x, root);
    var a2 := Paint(Paint(a, w.id, f.color), f.id, Black);
    var w1 := w.(color := f.color);
    var p2 := PaintBlack(Attach(Opp(f, t), w1));
    Down(a2, c, p2, f.id, root, d);
    assert Child(p2, d) == w1;
    var c1 := [DownFrame(p2, d)] + c;
    Down(a2, c1, w1, w.id, root, d);
    assert Child(w1, d) == n;
    var c2 := [DownFrame(w1, d)] + c1;
    Pointers(a2, c2, n, ChildPtr(a2[w.id], d), root);
    ColorAt(a2, c2, n, n.id, root, Black);
    var a3 := Paint(a2, n.id, Black);
    assert c2[0] == DownFrame(w1, d) && c2[1..] == c1;
    Up(a3, c2, n.(color := Black), n.id, root);
    var w3 := Attach(DownFrame(w1, d), n.(color := Black));
    assert c1[0] == DownFrame(p2, d) && c1[1..] == c;
    Up(a3, c1, w3, w.id, root);
    assert f.dir == L ==> Attach(DownFrame(p2, d), w3) == FarRedLeft(ctx, t);
    assert f.dir == R ==> Attach(DownFrame(p2, d), w3) == FarRedRight(ctx, t);
  }

  /** `x->color = 'B'` after the loop of `rbDeleteFixup`: the whole tree,
      with the node in view painted black, seen from the root. */
  lemma PaintFocusAt(a: seq<NodeRec>, ctx: seq<Frame>, t: Tree, x: int, root: int)
    requires At(a, ctx, t, x, root)
    ensures 0 <= x < |a|
    ensures At(Paint(a, x, Black), [], Plug(ctx, PaintBlack(t)), root, root)
    ensures Entries(Plug(ctx, PaintBlack(t))) == Entries(Plug(ctx, t))
  {
    Pointers(a, ctx, t, x, root);
    if t.Node? {
      ColorAt(a, ctx, t, x, root, Black);
      RootView(Paint(a, x, Black), ctx, PaintBlack(t), x, root);
    } else {
      assert Paint(a, x, Black) == a;
      RootView(a, ctx, t, x, root);
    }
    PlugSameEntries(ctx, PaintBlack(t), t);
  }

  /** `rbTransplant(u, v)` on the records: the pointer down to `u` from its
      parent (or `root`, which is not part of the records) turns to `v`,
      and `v`'s parent becomes `u`'s, even when `v` is `nil`. */
  function Transplanted(a: seq<NodeRec>, u: int, v: int): (b: seq<NodeRec>)
    requires 0 <= u < |a| && 0 <= v < |a| && 0 <= a[u].parent < |a|
    ensures |b| == |a| && b[v].parent == a[u].parent
  {
    var p := a[u].parent;
    var a1 := if p == Nil then a else a[p := ReplacedChild(a[p], u, v)];
    a1[v := a1[v].(parent := p)]
  }
  /** The arena after the writes that put `y` in `z`'s place in
      `rbDelete(z)`: `y` takes `z`'s left child, `z`'s place under its
      parent, `z`'s right child and `z`'s colour, in that order. */
  function Substituted(a: seq<NodeRec>, z: int, y: int): seq<NodeRec>
    requires 0 < z < |a| && 0 < y < |a| && 0 < a[z].left < |a| && 0 < a[z].right < |a| && 0 <= a[z].parent < |a|
    requires y != z
  {
    var zl, zr, zc := a[z].left, a[z].right, a[z].color;
    var a1 := a[y := a[y].(left := zl)];
    var a2 := a1[zl := a1[zl].(parent := y)];
    var a3 := Transplanted(a2, z, y);
    var a4 := a3[y := a3[y].(right := zr)];
    var a5 := a4[zr := a4[zr].(parent := y)];
    a5[y := a5[y].(color := zc)]
  }

  /** Record by record, what the substitution changes. */
  lemma SubstitutedAt(a: seq<NodeRec>, z: int, y: int)
    requires 0 < z < |a| && 0 < y < |a| && 0 < a[z].left < |a| && 0 < a[z].right < |a|
    requires 0 <= a[z].parent < |a|
    requires a[z].parent !in {y, z, a[z].left, a[z].right}
    requires y !in {z, a[z].left, a[z].right} && z !in {a[z].left, a[z].right} && a[z].left != a[z].right
    ensures var b, p := Substituted(a, z, y), a[z].parent;
      && |b| == |a| && b[Nil] == a[Nil]
      && (forall i :: 0 <= i < |a| && i !in {p, y, a[z].left, a[z].right} ==> b[i] == a[i])
      && b[y] == a[y].(left := a[z].left, right := a[z].right, parent := p, color := a[z].color)
      && b[a[z].left] == a[a[z].left].(parent := y)
      && b[a[z].right] == a[a[z].right].(parent := y)
      && (p != Nil ==> b[p] == ReplacedChild(a[p], z, y))
  {
    var zl, zr, zc, p := a[z].left, a[z].right, a[z].color, a[z].parent;
    var a1 := a[y := a[y].(left := zl)];
    var a2 := a1[zl := a1[zl].(parent := y)];
    assert a2[z] == a[z] && a2[y] == a[y].(left := zl) && a2[zl] == a[zl].(parent := y);
    var a3 := Transplanted(a2, z, y);
    assert a3[y] == a[y].(left := zl, parent := p);
    assert a3[zl] == a2[zl] && a3[zr] == a[zr];
    assert p != Nil ==> a3[p] == ReplacedChild(a[p], z, y);
    assert forall i :: 0 <= i < |a| && i !in {p, y, zl} ==> a3[i] == a[i];
  }


  /** `rbTransplant(u, v)` with `v` a child of `u`: the child's subtree
      takes `u`'s place in the view, and `v`'s parent pointer (`nil`'s
      too) names the node above. */
  lemma TransplantAt(a: seq<NodeRec>, ctx: seq<Frame>, u: Tree, d: Dir, root: int)
    requires At(a, ctx, u, RootOf(u), root) && u.Node?
    ensures 0 < u.id < |a| && 0 <= RootOf(Child(u, d)) < |a| && ChildPtr(a[u.id], d) == RootOf(Child(u, d))
    ensures a[u.id].parent == ParentIn(ctx, Nil) && 0 <= a[u.id].parent < |a|
    ensures a[u.id].parent == Nil <==> ctx == []
    ensures At(Transplanted(a, u.id, RootOf(Child(u, d))), ctx, Child(u, d), RootOf(Child(u, d)),
               if ctx == [] then RootOf(Child(u, d)) else root)
  {
    Pointers(a, ctx, u, u.id, root);
    Down(a, ctx, u, u.id, root, d);
    var v := RootOf(Child(u, d));
    var root' := if ctx == [] then v else root;
    if ctx != [] {
      assert ctx[0].id in CtxIds(ctx);
    }
    if v != Nil {
      assert v in Ids(Child(u, d)) && Ids(Child(u, d)) <= Ids(u);
    }
    var b := Transplanted(a, u.id, v);
    assert Replaced(a, b, ctx, u.id, v, root, root');
    ReplacedRedirects(a, b, ctx, u, u.id, v, root, root');
    TransplantShape(a, b, ctx, u, d, root, root');
  }

  /** What the record of a node in view says. */
  lemma NodeFacts(a: seq<NodeRec>, ctx: seq<Frame>, t: Tree, x: int, root: int)
    requires At(a, ctx, t, x, root) && t.Node?
    ensures 0 < x < |a| && x == t.id && a[x].color == t.color && a[x].key == t.key && a[x].value == t.value
    ensures a[x].parent == ParentIn(ctx, Nil) && Distinct(t)
    ensures a[x].left == RootOf(t.left) && a[x].right == RootOf(t.right)
    ensures 0 <= a[x].left < |a| && 0 <= a[x].right < |a|
    ensures (a[x].left == Nil <==> t.left == Leaf) && (a[x].right == Nil <==> t.right == Leaf)
  {
    Pointers(a, ctx, t, x, root);
    Down(a, ctx, t, x, root, L);
    ColorIn(a, [DownFrame(t, L)] + ctx, t.left, a[x].left, root);
    Down(a, ctx, t, x, root, R);
    ColorIn(a, [DownFrame(t, R)] + ctx, t.right, a[x].right, root);
    if t.left.Node? {
      assert t.left.id in Ids(t.left);
    }
    if t.right.Node? {
      assert t.right.id in Ids(t.right);
    }
  }

  /** The predecessor `y` of `z`, found along `path` in `z`'s left
      subtree, hangs directly under `z` exactly when `path` is empty. */
  lemma PredecessorParent(a: seq<NodeRec>, ctx: seq<Frame>, z: Tree, path: seq<Frame>, y: Tree, root: int)
    requires z.Node? && y.Node? && At(a, path + ([DownFrame(z, L)] + ctx), y, y.id, root)
    requires Plug(path, y) == z.left && Distinct(z)
    ensures 0 < y.id < |a| && a[y.id].parent == ParentIn(path, z.id)
    ensures a[y.id].parent == z.id <==> path == []
  {
    NodeFacts(a, path + ([DownFrame(z, L)] + ctx), y, y.id, root);
    if path != [] {
      assert (path + ([DownFrame(z, L)] + ctx))[0] == path[0];
      PlugIds(path, y);
      assert path[0].id in CtxIds(path);
    } else {
      assert path + ([DownFrame(z, L)] + ctx) == [DownFrame(z, L)] + ctx;
    }
  }

  /** `rbTransplant(y, x)` removed the predecessor `y` from deep in `z`'s
      left subtree: the view of `z` with the shortened left subtree. */
  lemma DeepView(a: seq<NodeRec>, ctx: seq<Frame>, z: Tree, path: seq<Frame>, y: Tree, root: int)
    requires z.Node? && y.Node? && path != [] && Plug(path, y) == z.left
    requires At(a, path + ([DownFrame(z, L)] + ctx), y.left, RootOf(y.left), root)
    ensures z.left.Node? && Plug(path, y.left).Node? && Plug(path, y.left).id == z.left.id
    ensures Plug(ctx, z.(left := Plug(path, y.left))) == Plug(path + ([DownFrame(z, L)] + ctx), y.left)
    ensures At(a, ctx, z.(left := Plug(path, y.left)), z.id, root)
  {
    var c := [DownFrame(z, L)] + ctx;
    PlugConcat(path, c, y.left);
    assert c[0] == DownFrame(z, L) && c[1..] == ctx;
    assert Attach(DownFrame(z, L), Plug(path, y.left)) == z.(left := Plug(path, y.left));
    PlugTop(path, y.left);
    PlugTop(path, y);
    AtWhole(a, path + c, y.left, RootOf(y.left), root);
    AtWhole(a, ctx, z.(left := Plug(path, y.left)), z.id, root);
  }

  /** A node cut out of the tree is no longer in it. */
  lemma CutAway(c: seq<Frame>, y: Tree)
    requires Distinct(Plug(c, y)) && y.Node?
    ensures y.id !in Ids(Plug(c, y.left))
  {
    PlugApart(c, y);
    PlugIds(c, y.left);
    assert y.id in Ids(y);
  }

  /** The records `rbDelete(z)` reads and writes when the predecessor `y`
      is `z`'s own left child, and that they are distinct. */
  lemma LiftFacts(a: seq<NodeRec>, ctx: seq<Frame>, z: Tree, root: int)
    requires z.Node? && z.left.Node? && z.right.Node? && At(a, ctx, z, z.id, root)
    ensures 0 < z.id < |a| && 0 < z.left.id < |a| && 0 < z.right.id < |a|
    ensures a[z.id].left == z.left.id && a[z.id].right == z.right.id && a[z.id].color == z.color
    ensures a[z.id].parent == ParentIn(ctx, Nil) && 0 <= ParentIn(ctx, Nil) < |a|
    ensures ParentIn(ctx, Nil) == Nil <==> ctx == []
    ensures ParentIn(ctx, Nil) !in {z.id, z.left.id, z.right.id} && z.left.id != z.right.id
    ensures a[z.left.id].left == RootOf(z.left.left) && 0 <= RootOf(z.left.left) < |a|
    ensures RootOf(z.left.left) !in {z.id, z.left.id, z.right.id}
    ensures RootOf(z.left.left) != Nil ==> RootOf(z.left.left) != ParentIn(ctx, Nil) && a[RootOf(z.left.left)].parent == z.left.id
  {
    Pointers(a, ctx, z, z.id, root);
    NodeFacts(a, ctx, z, z.id, root);
    Down(a, ctx, z, z.id, root, L);
    NodeFacts(a, [DownFrame(z, L)] + ctx, z.left, z.left.id, root);
    assert z.left.id in Ids(z.left) && z.right.id in Ids(z.right);
    if ctx != [] {
      assert ctx[0].id in CtxIds(ctx);
    }
    if z.left.left.Node? {
      Down(a, [DownFrame(z, L)] + ctx, z.left, z.left.id, root, L);
      NodeFacts(a, [DownFrame(z.left, L), DownFrame(z, L)] + ctx, z.left.left, z.left.left.id, root);
      assert z.left.left.id in Ids(z.left.left);
    }
  }

  /** The records `rbDelete(z)` writes when the predecessor `y`, already
      cut out, takes `z`'s place, and that they are distinct. */
  lemma SubstituteFacts(a: seq<NodeRec>, ctx: seq<Frame>, z: Tree, y: int, root: int)
    requires z.Node? && z.left.Node? && z.right.Node? && At(a, ctx, z, z.id, root)
    requires 0 < y && y !in Ids(Plug(ctx, z))
    ensures 0 < z.id < |a| && 0 < z.left.id < |a| && 0 < z.right.id < |a|
    ensures a[z.id].left == z.left.id && a[z.id].right == z.right.id && a[z.id].color == z.color
    ensures a[z.id].parent == ParentIn(ctx, Nil) && 0 <= ParentIn(ctx, Nil) < |a|
    ensures ParentIn(ctx, Nil) == Nil <==> ctx == []
    ensures ParentIn(ctx, Nil) !in {y, z.id, z.left.id, z.right.id}
    ensures y !in {z.id, z.left.id, z.right.id} && z.id !in {z.left.id, z.right.id} && z.left.id != z.right.id
  {
    Pointers(a, ctx, z, z.id, root);
    NodeFacts(a, ctx, z, z.id, root);
    PlugIds(ctx, z);
    assert z.left.id in Ids(z.left) && z.right.id in Ids(z.right);
    if ctx != [] {
      assert ctx[0].id in CtxIds(ctx);
    }
  }

  /** Every node on the walk has its record in the arena, holding the
      entry's key and value. */
  lemma {:induction false} ShapeEntries(a: seq<NodeRec>, t: Tree, x: int, p: int)
    requires Shape(a, t, x, p)
    ensures forall e :: e in Entries(t) ==> 0 < e.id < |a| && a[e.id].key == e.key && a[e.id].value == e.value
  {
    if t.Node? {
      ShapeEntries(a, t.left, a[t.id].left, t.id);
      ShapeEntries(a, t.right, a[t.id].right, t.id);
    }
  }

  /** What a loop over the nodes of a valid tree may rely on: each entry's
      record, that the sentinel is no node, and that no node repeats. */
  lemma EntryRecords(a: seq<NodeRec>, t: Tree, root: int)
    requires At(a, [], t, root, root)
    ensures forall e :: e in Entries(t) ==> 0 < e.id < |a| && a[e.id].key == e.key && a[e.id].value == e.value
    ensures forall e :: e in Entries(t) ==> e.id in Ids(t)
    ensures Nil !in Ids(t) && DistinctIds(Entries(t))
  {
    ShapeEntries(a, t, root, Nil);
    ShapeIds(a, t, root, Nil);
    EntriesOfIds(t);
    EntriesDistinct(t);
    forall e | e in Entries(t)
      ensures e.id in Ids(t)
    {
      assert e.id in EntryIds(Entries(t));
    }
  }

  /** The records `rbTreeSuccessor` and `rbTreePredecessor` read when
      climbing from `x`: its parent pointer, and which child of the parent
      it is. */
  lemma ClimbFacts(a: seq<NodeRec>, ctx: seq<Frame>, t: Tree, x: int, root: int)
    requires At(a, ctx, t, x, root) && t.Node?
    ensures 0 < x < |a| && 0 <= ParentIn(ctx, Nil) < |a| && a[x].parent == ParentIn(ctx, Nil)
    ensures ParentIn(ctx, Nil) == Nil <==> ctx == []
    ensures ctx != [] ==> (a[ctx[0].id].right == x <==> ctx[0].dir == R) && (a[ctx[0].id].left == x <==> ctx[0].dir == L)
  {
    NodeFacts(a, ctx, t, x, root);
    if ctx != [] {
      Up(a, ctx, t, x, root);
      var u := Attach(ctx[0], t);
      NodeFacts(a, ctx[1..], u, ctx[0].id, root);
      assert t.id in Ids(t);
      if ctx[0].sibling.Node? {
        assert ctx[0].sibling.id in Ids(ctx[0].sibling);
      }
    }
  }

  /** The record of one entry of the walk. */
  lemma EntryIn(a: seq<NodeRec>, t: Tree, root: int, e: Entry)
    requires At(a, [], t, root, root) && e in Entries(t)
    ensures 0 < e.id < |a| && a[e.id].key == e.key && a[e.id].value == e.value && e.id in Ids(t)
  {
    EntryRecords(a, t, root);
  }

  /** The walk of a valid view meets no node twice. */
  lemma WalkDistinct(a: seq<NodeRec>, t: Tree, root: int)
    requires At(a, [], t, root, root)
    ensures DistinctIds(Entries(t))
  {
    EntriesDistinct(t);
  }
}
