/** `RBTree` of `Project4/rbtree.cpp`: a red-black tree of string keys and
    values that keeps repeated keys. Its nodes live in the arena `nodes`,
    whose index 0 is the black sentinel `nil`; the ghost field `tree` is the
    tree the pointers spell out from `root`. */
module RedBlackTree {
  import opened Common
  import opened RedBlack
  import opened RedBlackZipper
  import opened RedBlackArena
  import opened RedBlackInsert
  import opened RedBlackDelete
  import opened RedBlackMoves
  import opened RedBlackOrder

  class RBTree {
    var nodes: seq<NodeRec>
    var root: int
    ghost var tree: Tree

    /** The pointers spell out `tree`, a red-black search tree. */
    ghost predicate Valid()
      reads this
    {
      At(nodes, [], tree, root, root) && Sorted(Entries(tree)) && IsRedBlack(tree)
    }

    /** The sentinel, black, and an empty tree. */
    constructor ()
      ensures Valid() && tree == Leaf
    {
      nodes := [NodeRec("", "", Black, Nil, Nil, Nil)];
      root := Nil;
      tree := Leaf;
    }

    /** The pointer from `x`'s parent `p` (or `root`, when `p` is `nil`)
        is turned to `y`. */
    method ReplaceChild(p: int, x: int, y: int)
      requires 0 <= p < |nodes|
      modifies this
      ensures p == Nil ==> root == y && nodes == old(nodes)
      ensures p != Nil ==> root == old(root) && nodes == old(nodes)[p := ReplacedChild(old(nodes)[p], x, y)]
      ensures tree == old(tree)
    {
      if p == Nil {
        root := y;
      } else if x == nodes[p].left {
        nodes := nodes[p := nodes[p].(left := y)];
      } else {
        nodes := nodes[p := nodes[p].(right := y)];
      }
    }

    /** `leftRotate(x)`: `x`'s right child takes its place. */
    method LeftRotate(x: int, ghost ctx: seq<Frame>, ghost t: Tree)
      requires At(nodes, ctx, t, x, root) && t.Node? && t.right.Node?
      modifies this
      ensures At(nodes, ctx, RotateLeft(t), t.right.id, root)
      ensures |nodes| == |old(nodes)| && nodes[Nil] == old(nodes)[Nil] && tree == old(tree)
    {
      ghost var a, r0 := nodes, root;
      RotateLeftPointers(nodes, ctx, t, x, root);
      var y := nodes[x].right;
      nodes := nodes[x := nodes[x].(right := nodes[y].left)];
      if nodes[y].left != Nil {
        nodes := nodes[nodes[y].left := nodes[nodes[y].left].(parent := x)];
      }
      nodes := nodes[y := nodes[y].(parent := nodes[x].parent)];
      ghost var b := nodes;
      ReplaceChild(nodes[x].parent, x, y);
      assert Replaced(a, nodes, ctx, x, y, r0, root);
      nodes := nodes[y := nodes[y].(left := x)];
      nodes := nodes[x := nodes[x].(parent := y)];
      ReplacedRedirects(a, nodes, ctx, t, x, y, r0, root);
      RotateLeftShape(a, nodes, ctx, t, r0, root);
    }

    /** `rightRotate(x)`: `x`'s left child takes its place. */
    method RightRotate(x: int, ghost ctx: seq<Frame>, ghost t: Tree)
      requires At(nodes, ctx, t, x, root) && t.Node? && t.left.Node?
      modifies this
      ensures At(nodes, ctx, RotateRight(t), t.left.id, root)
      ensures |nodes| == |old(nodes)| && nodes[Nil] == old(nodes)[Nil] && tree == old(tree)
    {
      ghost var a, r0 := nodes, root;
      RotateRightPointers(nodes, ctx, t, x, root);
      var y := nodes[x].left;
      nodes := nodes[x := nodes[x].(left := nodes[y].right)];
      if nodes[y].right != Nil {
        nodes := nodes[nodes[y].right := nodes[nodes[y].right].(parent := x)];
      }
      nodes := nodes[y := nodes[y].(parent := nodes[x].parent)];
      ReplaceChild(nodes[x].parent, x, y);
      assert Replaced(a, nodes, ctx, x, y, r0, root);
      nodes := nodes[y := nodes[y].(right := x)];
      nodes := nodes[x := nodes[x].(parent := y)];
      ReplacedRedirects(a, nodes, ctx, t, x, y, r0, root);
      RotateRightShape(a, nodes, ctx, t, r0, root);
    }

    /** Case 1 of `rbInsertFixup`, written out the same on both sides: the
        uncle `y` is red, so parent and uncle turn black, the grandparent
        red, and the grandparent becomes `z`. */
    method InsertRecolor(z: int, y: int, ghost ctx: seq<Frame>, ghost t: Tree) returns (z': int, ghost ctx': seq<Frame>, ghost t': Tree)
      requires At(nodes, ctx, t, z, root) && InsertInv(ctx, t)
      requires |ctx| >= 2 && ctx[0].color == Red && ColorOf(ctx[1].sibling) == Red && y == RootOf(ctx[1].sibling)
      modifies this
      ensures At(nodes, ctx', t', z', root) && InsertInv(ctx', t') && |ctx'| < |ctx|
      ensures Entries(Plug(ctx', t')) == Entries(Plug(ctx, t))
      ensures |nodes| == |old(nodes)|
    {
      Family(nodes, ctx, t, z, root);
      InsertCase1(ctx, t);
      RecolorUpAt(nodes, ctx, t, z, root);
      RecolorUpKeepsEntries(ctx, t);
      var p := nodes[z].parent;
      var g := nodes[p].parent;
      nodes := nodes[p := nodes[p].(color := Black)];
      nodes := nodes[y := nodes[y].(color := Black)];
      nodes := nodes[g := nodes[g].(color := Red)];
      z' := g;
      ctx', t' := ctx[2..], RecolorUp(ctx, t);
    }

    /** Cases 2 and 3 of `rbInsertFixup`, `z`'s parent a left child and its
        uncle black: an inner `z` is first turned outward by a rotation at
        the parent, then parent and grandparent swap colours and a rotation
        at the grandparent ends the loop. */
    method InsertRotateLeft(z: int, ghost ctx: seq<Frame>, ghost t: Tree) returns (z': int, ghost ctx': seq<Frame>, ghost t': Tree)
      requires At(nodes, ctx, t, z, root) && InsertInv(ctx, t)
      requires |ctx| >= 2 && ctx[0].color == Red && ctx[1].dir == L && ColorOf(ctx[1].sibling) == Black
      modifies this
      ensures At(nodes, ctx', t', z', root) && InsertInv(ctx', t') && |ctx'| < |ctx| && ctx' != [] && ctx'[0].color == Black
      ensures Entries(Plug(ctx', t')) == Entries(Plug(ctx, t))
      ensures |nodes| == |old(nodes)|
    {
      ghost var c, u := ctx, t;
      z' := z;
      Family(nodes, ctx, t, z, root);
      if z' == nodes[nodes[z'].parent].right {
        InsertCase2Left(ctx, t);
        TurnKeepsEntries(ctx, t);
        Up(nodes, ctx, t, z, root);
        z' := nodes[z'].parent;
        LeftRotate(z', ctx[1..], Attach(ctx[0], t));
        c, u := TurnLeftCtx(ctx, t), TurnLeftFocus(ctx, t);
        DownTo(nodes, c[1..], c[0], u, t.id, root);
        assert [c[0]] + c[1..] == c;
      }
      InsertCase3(c, u);
      SettleRotates(c, u);
      SettleKeepsEntries(c, u);
      Family(nodes, c, u, z', root);
      RecoloredAt(nodes, c, u, z', root);
      var p := nodes[z'].parent;
      var g := nodes[p].parent;
      nodes := nodes[p := nodes[p].(color := Black)];
      nodes := nodes[g := nodes[g].(color := Red)];
      RightRotate(g, c[2..], Recolored(c, u));
      ctx', t' := SettleCtx(c, u), u;
      DownTo(nodes, c[2..], ctx'[0], u, c[0].id, root);
    }

    /** Cases 2 and 3 of `rbInsertFixup`, `z`'s parent a right child and its
        uncle black: an inner `z` is first turned outward by a rotation at
        the parent, then parent and grandparent swap colours and a rotation
        at the grandparent ends the loop. */
    method InsertRotateRight(z: int, ghost ctx: seq<Frame>, ghost t: Tree) returns (z': int, ghost ctx': seq<Frame>, ghost t': Tree)
      requires At(nodes, ctx, t, z, root) && InsertInv(ctx, t)
      requires |ctx| >= 2 && ctx[0].color == Red && ctx[1].dir == R && ColorOf(ctx[1].sibling) == Black
      modifies this
      ensures At(nodes, ctx', t', z', root) && InsertInv(ctx', t') && |ctx'| < |ctx| && ctx' != [] && ctx'[0].color == Black
      ensures Entries(Plug(ctx', t')) == Entries(Plug(ctx, t))
      ensures |nodes| == |old(nodes)|
    {
      ghost var c, u := ctx, t;
      z' := z;
      Family(nodes, ctx, t, z, root);
      if z' == nodes[nodes[z'].parent].left {
        InsertCase2Right(ctx, t);
        TurnKeepsEntries(ctx, t);
        Up(nodes, ctx, t, z, root);
        z' := nodes[z'].parent;
        RightRotate(z', ctx[1..], Attach(ctx[0], t));
        c, u := TurnRightCtx(ctx, t), TurnRightFocus(ctx, t);
        DownTo(nodes, c[1..], c[0], u, t.id, root);
        assert [c[0]] + c[1..] == c;
      }
      InsertCase3(c, u);
      SettleRotates(c, u);
      SettleKeepsEntries(c, u);
      Family(nodes, c, u, z', root);
      RecoloredAt(nodes, c, u, z', root);
      var p := nodes[z'].parent;
      var g := nodes[p].parent;
      nodes := nodes[p := nodes[p].(color := Black)];
      nodes := nodes[g := nodes[g].(color := Red)];
      LeftRotate(g, c[2..], Recolored(c, u));
      ctx', t' := SettleCtx(c, u), u;
      DownTo(nodes, c[2..], ctx'[0], u, c[0].id, root);
    }

    /** `rbInsertFixup(z)`: climb while `z`'s parent is red, then paint the
        root black. */
    method InsertFixup(z0: int, ghost ctx0: seq<Frame>, ghost t0: Tree)
      requires At(nodes, ctx0, t0, z0, root) && InsertInv(ctx0, t0) && Sorted(Entries(Plug(ctx0, t0)))
      modifies this
      ensures Valid() && Entries(tree) == Entries(Plug(ctx0, t0)) && |nodes| == |old(nodes)|
    {
      var z := z0;
      ghost var ctx, t := ctx0, t0;
      ParentColor(nodes, ctx, t, z, root);
      while nodes[nodes[z].parent].color == Red
        invariant At(nodes, ctx, t, z, root) && InsertInv(ctx, t)
        invariant Entries(Plug(ctx, t)) == Entries(Plug(ctx0, t0)) && |nodes| == |old(nodes)|
        invariant 0 < z < |nodes| && 0 <= nodes[z].parent < |nodes|
        invariant nodes[nodes[z].parent].color == Red <==> ctx != [] && ctx[0].color == Red
        decreases |ctx|
      {
        InsertInvGrandparent(ctx, t);
        Family(nodes, ctx, t, z, root);
        if nodes[z].parent == nodes[nodes[nodes[z].parent].parent].left {
          var y := nodes[nodes[nodes[z].parent].parent].right;
          if nodes[y].color == Red {
            z, ctx, t := InsertRecolor(z, y, ctx, t);
          } else {
            z, ctx, t := InsertRotateLeft(z, ctx, t);
          }
        } else {
          var y := nodes[nodes[nodes[z].parent].parent].left;
          if nodes[y].color == Red {
            z, ctx, t := InsertRecolor(z, y, ctx, t);
          } else {
            z, ctx, t := InsertRotateRight(z, ctx, t);
          }
        }
        ParentColor(nodes, ctx, t, z, root);
      }
      InsertInvDone(ctx, t);
      ghost var whole := Plug(ctx, t);
      AtWhole(nodes, ctx, t, z, root);
      ShapeIds(nodes, whole, root, Nil);
      AtWhole(nodes, [], whole, root, root);
      ColorAt(nodes, [], whole, root, root, Black);
      nodes := nodes[root := nodes[root].(color := Black)];
      tree := whole.(color := Black);
      PaintBlackRedBlack(whole);
    }

    /** `rbInsert(key, value)`: a new record, its pointers at `nil`, goes
        into the tree. The new entry lands after every entry with a key at
        or below its own. */
    method Insert(k: string, v: string)
      requires Valid()
      modifies this
      ensures Valid() && |nodes| == |old(nodes)| + 1
      ensures Entries(tree) == Entries(InsertT(old(tree), |old(nodes)|, k, v))
      ensures Entries(tree) == old(Entries(tree))[..InsertPos(old(tree), k)]
        + [Entry(|old(nodes)|, k, v)] + old(Entries(tree))[InsertPos(old(tree), k)..]
    {
      Pointers(nodes, [], tree, root, root);
      assert |nodes| !in Ids(tree);
      AtGrow(nodes, [], tree, root, root, NodeRec(k, v, Red, Nil, Nil, Nil));
      nodes := nodes + [NodeRec(k, v, Red, Nil, Nil, Nil)];
      InsertTEntries(tree, |nodes| - 1, k, v);
      InsertNode(|nodes| - 1);
    }

    /** `rbInsert(Node*)`: descend from the root (left only for a strictly
        smaller key), hang `z` red where the descent falls off the tree,
        and let the fixup restore the colours. */
    method InsertNode(z: int)
      requires Valid() && 0 < z < |nodes| && z !in Ids(tree)
      modifies this
      ensures Valid() && |nodes| == |old(nodes)|
      ensures Entries(tree) == Entries(InsertT(old(tree), z, old(nodes)[z].key, old(nodes)[z].value))
    {
      ghost var t0, k, v := tree, nodes[z].key, nodes[z].value;
      var y, x := Nil, root;
      ghost var ctx, t := [], tree;
      while x != Nil
        invariant nodes == old(nodes)
        invariant At(nodes, ctx, t, x, root) && Plug(ctx, t) == t0
        invariant Plug(ctx, InsertT(t, z, k, v)) == InsertT(t0, z, k, v)
        invariant y == ParentIn(ctx, Nil)
        invariant ctx != [] ==> (ctx[0].dir == L <==> StrLess(k, ctx[0].key))
        decreases t
      {
        InsertDescends(nodes, ctx, t, x, root, z, k, v);
        y := x;
        ghost var d := if StrLess(k, t.key) then L else R;
        ctx, t := [DownFrame(t, d)] + ctx, Child(t, d);
        if StrLess(nodes[z].key, nodes[x].key) {
          x := nodes[x].left;
        } else {
          x := nodes[x].right;
        }
      }
      ghost var a, r0 := nodes, root;
      InsertLinkFacts(nodes, ctx, root, z);
      nodes := nodes[z := nodes[z].(parent := y)];
      if y == Nil {
        root := z;
      } else if StrLess(nodes[z].key, nodes[y].key) {
        nodes := nodes[y := nodes[y].(left := z)];
        assert SameButChild(a[y], nodes[y], ctx[0].dir) && ChildPtr(nodes[y], ctx[0].dir) == z;
      } else {
        nodes := nodes[y := nodes[y].(right := z)];
        assert SameButChild(a[y], nodes[y], ctx[0].dir) && ChildPtr(nodes[y], ctx[0].dir) == z;
      }
      nodes := nodes[z := nodes[z].(left := Nil, right := Nil, color := Red)];
      assert SameOutside(a, nodes, ParentSet(ctx) + {z});
      LinkNew(a, nodes, ctx, z, k, v, r0, root);
      InsertInvStart(ctx, z, k, v);
      InsertKeepsSorted(t0, z, k, v);
      InsertFixup(z, ctx, Node(Leaf, z, Red, k, v, Leaf));
    }

    /** `rbTransplant(u, v)`: `v` takes `u`'s place under `u`'s parent, or
        as the root, and takes `u`'s parent as its own. */
    method Transplant(u: int, v: int)
      requires 0 <= u < |nodes| && 0 <= v < |nodes| && 0 <= nodes[u].parent < |nodes|
      modifies this
      ensures nodes == Transplanted(old(nodes), u, v)
      ensures root == if old(nodes)[u].parent == Nil then v else old(root)
      ensures tree == old(tree)
    {
      var p := nodes[u].parent;
      ReplaceChild(p, u, v);
      nodes := nodes[v := nodes[v].(parent := p)];
    }

    /** Case 1 of `rbDeleteFixup`, `x` a left child: the red sibling turns
        black, the parent red, and a left rotation at the parent gives `x`
        a black sibling under a red parent. */
    method DeleteRedSiblingLeft(x: int, ghost ctx: seq<Frame>, ghost t: Tree) returns (ghost ctx': seq<Frame>)
      requires At(nodes, ctx, t, x, root) && DeleteInv(ctx, t) && ColorOf(t) == Black
      requires ctx != [] && ctx[0].dir == L && ColorOf(ctx[0].sibling) == Red
      requires 0 <= x < |nodes| && nodes[x].parent == ctx[0].id
      modifies this
      ensures At(nodes, ctx', t, x, root) && DeleteInv(ctx', t) && |ctx'| == |ctx| + 1
      ensures ctx'[0].dir == L && ctx'[0].color == Red && ColorOf(ctx'[0].sibling) == Black
      ensures 0 <= x < |nodes| && nodes[x].parent == ctx'[0].id
      ensures Entries(Plug(ctx', t)) == Entries(Plug(ctx, t)) && |nodes| == |old(nodes)|
    {
      ColorIn(nodes, ctx, t, x, root);
      SiblingFacts(nodes, ctx, t, x, root);
      RedSiblingAt(nodes, ctx, t, x, root);
      DeleteCase1Left(ctx, t);
      RedSiblingRotates(ctx, t);
      Case1KeepsEntries(ctx, t);
      var p := nodes[x].parent;
      var w := nodes[p].right;
      nodes := nodes[w := nodes[w].(color := Black)];
      nodes := nodes[p := nodes[p].(color := Red)];
      LeftRotate(p, ctx[1..], RedSiblingRecolored(ctx, t));
      ctx' := RedSiblingLeftCtx(ctx);
      DownTo(nodes, ctx'[2..], ctx'[1], Attach(ctx'[0], t), w, root);
      assert [ctx'[1]] + ctx'[2..] == ctx'[1..];
      DownTo(nodes, ctx'[1..], ctx'[0], t, ctx'[0].id, root);
      assert [ctx'[0]] + ctx'[1..] == ctx';
      if x != Nil {
        ParentColor(nodes, ctx', t, x, root);
      }
    }

    /** Case 1 of `rbDeleteFixup`, `x` a right child. */
    method DeleteRedSiblingRight(x: int, ghost ctx: seq<Frame>, ghost t: Tree) returns (ghost ctx': seq<Frame>)
      requires At(nodes, ctx, t, x, root) && DeleteInv(ctx, t) && ColorOf(t) == Black
      requires ctx != [] && ctx[0].dir == R && ColorOf(ctx[0].sibling) == Red
      requires 0 <= x < |nodes| && nodes[x].parent == ctx[0].id
      modifies this
      ensures At(nodes, ctx', t, x, root) && DeleteInv(ctx', t) && |ctx'| == |ctx| + 1
      ensures ctx'[0].dir == R && ctx'[0].color == Red && ColorOf(ctx'[0].sibling) == Black
      ensures 0 <= x < |nodes| && nodes[x].parent == ctx'[0].id
      ensures Entries(Plug(ctx', t)) == Entries(Plug(ctx, t)) && |nodes| == |old(nodes)|
    {
      ColorIn(nodes, ctx, t, x, root);
      SiblingFacts(nodes, ctx, t, x, root);
      RedSiblingAt(nodes, ctx, t, x, root);
      DeleteCase1Right(ctx, t);
      RedSiblingRotates(ctx, t);
      Case1KeepsEntries(ctx, t);
      var p := nodes[x].parent;
      var w := nodes[p].left;
      nodes := nodes[w := nodes[w].(color := Black)];
      nodes := nodes[p := nodes[p].(color := Red)];
      RightRotate(p, ctx[1..], RedSiblingRecolored(ctx, t));
      ctx' := RedSiblingRightCtx(ctx);
      DownTo(nodes, ctx'[2..], ctx'[1], Attach(ctx'[0], t), w, root);
      assert [ctx'[1]] + ctx'[2..] == ctx'[1..];
      DownTo(nodes, ctx'[1..], ctx'[0], t, ctx'[0].id, root);
      assert [ctx'[0]] + ctx'[1..] == ctx';
      if x != Nil {
        ParentColor(nodes, ctx', t, x, root);
      }
    }

    /** Case 2 of `rbDeleteFixup`, the same on both sides: the sibling `w`
        and both its children are black, so `w` turns red and the extra
        black moves up to the parent. */
    method DeletePushUp(x: int, w: int, ghost ctx: seq<Frame>, ghost t: Tree) returns (x': int, ghost ctx': seq<Frame>, ghost t': Tree)
      requires At(nodes, ctx, t, x, root) && DeleteInv(ctx, t) && ColorOf(t) == Black && ctx != []
      requires ctx[0].sibling.Node? && ctx[0].sibling.color == Black && w == ctx[0].sibling.id
      requires ColorOf(ctx[0].sibling.left) == Black && ColorOf(ctx[0].sibling.right) == Black
      requires 0 <= x < |nodes| && nodes[x].parent == ctx[0].id
      modifies this
      ensures At(nodes, ctx', t', x', root) && DeleteInv(ctx', t')
      ensures ctx' == ctx[1..] && ColorOf(t') == ctx[0].color
      ensures 0 <= x' < |nodes| && (ctx' != [] ==> nodes[x'].parent == ctx'[0].id)
      ensures Entries(Plug(ctx', t')) == Entries(Plug(ctx, t)) && |nodes| == |old(nodes)|
    {
      PushUpAt(nodes, ctx, t, x, root);
      DeleteCase2(ctx, t);
      Case2KeepsEntries(ctx, t);
      nodes := nodes[w := nodes[w].(color := Red)];
      x' := nodes[x].parent;
      ctx', t' := ctx[1..], PushUp(ctx, t);
      ParentColor(nodes, ctx', t', x', root);
    }

    /** Cases 3 and 4 of `rbDeleteFixup`, `x` a left child and its black
        sibling `w` with a red child: a black far nephew calls for case 3
        first, then case 4 ends the loop with `x` at the root. */
    method DeleteRotateLeft(x: int, w: int, ghost ctx: seq<Frame>, ghost t: Tree) returns (x': int, ghost ctx': seq<Frame>, ghost t': Tree)
      requires At(nodes, ctx, t, x, root) && DeleteInv(ctx, t) && ColorOf(t) == Black && ctx != [] && ctx[0].dir == L
      requires ctx[0].sibling.Node? && ctx[0].sibling.color == Black && w == ctx[0].sibling.id
      requires ColorOf(ctx[0].sibling.left) == Red || ColorOf(ctx[0].sibling.right) == Red
      requires 0 <= x < |nodes| && nodes[x].parent == ctx[0].id
      modifies this
      ensures At(nodes, ctx', t', x', root) && DeleteInv(ctx', t') && ctx' == [] && x' == root
      ensures Entries(Plug(ctx', t')) == Entries(Plug(ctx, t)) && |nodes| == |old(nodes)|
    {
      SiblingFacts(nodes, ctx, t, x, root);
      ghost var c := ctx;
      var w' := w;
      if nodes[nodes[w].right].color == Black {
        w', c := DeleteNearLeft(x, w, ctx, t);
      }
      x', ctx', t' := DeleteFarLeft(x, w', c, t);
    }

    /** Case 3 of `rbDeleteFixup`, `x` a left child: the far nephew is
        black and the near one red. The near nephew turns black, `w` red,
        and a right rotation at `w` gives `x` a sibling whose far child is
        red. */
    method DeleteNearLeft(x: int, w: int, ghost ctx: seq<Frame>, ghost t: Tree) returns (w': int, ghost ctx': seq<Frame>)
      requires At(nodes, ctx, t, x, root) && DeleteInv(ctx, t) && ColorOf(t) == Black && ctx != [] && ctx[0].dir == L
      requires ctx[0].sibling.Node? && ctx[0].sibling.color == Black && w == ctx[0].sibling.id
      requires ColorOf(ctx[0].sibling.left) == Red && ColorOf(ctx[0].sibling.right) == Black
      requires 0 <= x < |nodes| && nodes[x].parent == ctx[0].id
      modifies this
      ensures At(nodes, ctx', t, x, root) && DeleteInv(ctx', t) && ctx' != [] && ctx'[0].dir == L
      ensures ctx'[0].sibling.Node? && ctx'[0].sibling.color == Black && w' == ctx'[0].sibling.id
      ensures ColorOf(ctx'[0].sibling.right) == Red
      ensures 0 <= x < |nodes| && nodes[x].parent == ctx'[0].id
      ensures Entries(Plug(ctx', t)) == Entries(Plug(ctx, t)) && |nodes| == |old(nodes)|
    {
      ColorIn(nodes, ctx, t, x, root);
      SiblingFacts(nodes, ctx, t, x, root);
      DeleteCase3Left(ctx, t);
      Case3KeepsEntries(ctx, t);
      NearRecolorAt(nodes, ctx, t, x, root, L);
      var n := nodes[w].left;
      nodes := nodes[n := nodes[n].(color := Black)];
      nodes := nodes[w := nodes[w].(color := Red)];
      RightRotate(w, [Opp(ctx[0], t)] + ctx[1..], NearRecolored(ctx[0].sibling, L));
      SwapBack(nodes, ctx[1..], ctx[0], t, NearRedLeft(ctx[0].sibling), root);
      ctx' := [ctx[0].(sibling := NearRedLeft(ctx[0].sibling))] + ctx[1..];
      if x != Nil {
        ParentColor(nodes, ctx', t, x, root);
      }
      SiblingFacts(nodes, ctx', t, x, root);
      w' := nodes[nodes[x].parent].right;
    }

    /** Case 4 of `rbDeleteFixup`, `x` a left child: the far nephew is red.
        `w` takes the parent's colour, parent and far nephew turn black,
        and the left rotation at the parent absorbs the extra black. */
    method DeleteFarLeft(x: int, w: int, ghost ctx: seq<Frame>, ghost t: Tree) returns (x': int, ghost ctx': seq<Frame>, ghost t': Tree)
      requires At(nodes, ctx, t, x, root) && DeleteInv(ctx, t) && ColorOf(t) == Black && ctx != [] && ctx[0].dir == L
      requires ctx[0].sibling.Node? && ctx[0].sibling.color == Black && w == ctx[0].sibling.id
      requires ColorOf(ctx[0].sibling.right) == Red
      requires 0 <= x < |nodes| && nodes[x].parent == ctx[0].id
      modifies this
      ensures At(nodes, ctx', t', x', root) && DeleteInv(ctx', t') && ctx' == [] && x' == root
      ensures Entries(Plug(ctx', t')) == Entries(Plug(ctx, t)) && |nodes| == |old(nodes)|
    {
      SiblingFacts(nodes, ctx, t, x, root);
      DeleteCase4Left(ctx, t);
      Case4KeepsEntries(ctx, t);
      FarRecolorAt(nodes, ctx, t, x, root);
      var p := nodes[x].parent;
      nodes := nodes[w := nodes[w].(color := nodes[p].color)];
      nodes := nodes[p := nodes[p].(color := Black)];
      var far := nodes[w].right;
      nodes := nodes[far := nodes[far].(color := Black)];
      LeftRotate(p, ctx[1..], FarRedLeft(ctx, t));
      RootView(nodes, ctx[1..], RotateLeft(FarRedLeft(ctx, t)), w, root);
      x' := root;
      ctx', t' := [], Plug(ctx[1..], RotateLeft(FarRedLeft(ctx, t)));
    }

    /** Cases 3 and 4 of `rbDeleteFixup`, `x` a right child. */
    method DeleteRotateRight(x: int, w: int, ghost ctx: seq<Frame>, ghost t: Tree) returns (x': int, ghost ctx': seq<Frame>, ghost t': Tree)
      requires At(nodes, ctx, t, x, root) && DeleteInv(ctx, t) && ColorOf(t) == Black && ctx != [] && ctx[0].dir == R
      requires ctx[0].sibling.Node? && ctx[0].sibling.color == Black && w == ctx[0].sibling.id
      requires ColorOf(ctx[0].sibling.left) == Red || ColorOf(ctx[0].sibling.right) == Red
      requires 0 <= x < |nodes| && nodes[x].parent == ctx[0].id
      modifies this
      ensures At(nodes, ctx', t', x', root) && DeleteInv(ctx', t') && ctx' == [] && x' == root
      ensures Entries(Plug(ctx', t')) == Entries(Plug(ctx, t)) && |nodes| == |old(nodes)|
    {
      SiblingFacts(nodes, ctx, t, x, root);
      ghost var c := ctx;
      var w' := w;
      if nodes[nodes[w].left].color == Black {
        w', c := DeleteNearRight(x, w, ctx, t);
      }
      x', ctx', t' := DeleteFarRight(x, w', c, t);
    }

    /** Case 3 of `rbDeleteFixup`, `x` a right child. */
    method DeleteNearRight(x: int, w: int, ghost ctx: seq<Frame>, ghost t: Tree) returns (w': int, ghost ctx': seq<Frame>)
      requires At(nodes, ctx, t, x, root) && DeleteInv(ctx, t) && ColorOf(t) == Black && ctx != [] && ctx[0].dir == R
      requires ctx[0].sibling.Node? && ctx[0].sibling.color == Black && w == ctx[0].sibling.id
      requires ColorOf(ctx[0].sibling.right) == Red && ColorOf(ctx[0].sibling.left) == Black
      requires 0 <= x < |nodes| && nodes[x].parent == ctx[0].id
      modifies this
      ensures At(nodes, ctx', t, x, root) && DeleteInv(ctx', t) && ctx' != [] && ctx'[0].dir == R
      ensures ctx'[0].sibling.Node? && ctx'[0].sibling.color == Black && w' == ctx'[0].sibling.id
      ensures ColorOf(ctx'[0].sibling.left) == Red
      ensures 0 <= x < |nodes| && nodes[x].parent == ctx'[0].id
      ensures Entries(Plug(ctx', t)) == Entries(Plug(ctx, t)) && |nodes| == |old(nodes)|
    {
      ColorIn(nodes, ctx, t, x, root);
      SiblingFacts(nodes, ctx, t, x, root);
      DeleteCase3Right(ctx, t);
      Case3KeepsEntries(ctx, t);
      NearRecolorAt(nodes, ctx, t, x, root, R);
      var n := nodes[w].right;
      nodes := nodes[n := nodes[n].(color := Black)];
      nodes := nodes[w := nodes[w].(color := Red)];
      LeftRotate(w, [Opp(ctx[0], t)] + ctx[1..], NearRecolored(ctx[0].sibling, R));
      SwapBack(nodes, ctx[1..], ctx[0], t, NearRedRight(ctx[0].sibling), root);
      ctx' := [ctx[0].(sibling := NearRedRight(ctx[0].sibling))] + ctx[1..];
      if x != Nil {
        ParentColor(nodes, ctx', t, x, root);
      }
      SiblingFacts(nodes, ctx', t, x, root);
      w' := nodes[nodes[x].parent].left;
    }

    /** Case 4 of `rbDeleteFixup`, `x` a right child. */
    method DeleteFarRight(x: int, w: int, ghost ctx: seq<Frame>, ghost t: Tree) returns (x': int, ghost ctx': seq<Frame>, ghost t': Tree)
      requires At(nodes, ctx, t, x, root) && DeleteInv(ctx, t) && ColorOf(t) == Black && ctx != [] && ctx[0].dir == R
      requires ctx[0].sibling.Node? && ctx[0].sibling.color == Black && w == ctx[0].sibling.id
      requires ColorOf(ctx[0].sibling.left) == Red
      requires 0 <= x < |nodes| && nodes[x].parent == ctx[0].id
      modifies this
      ensures At(nodes, ctx', t', x', root) && DeleteInv(ctx', t') && ctx' == [] && x' == root
      ensures Entries(Plug(ctx', t')) == Entries(Plug(ctx, t)) && |nodes| == |old(nodes)|
    {
      SiblingFacts(nodes, ctx, t, x, root);
      DeleteCase4Right(ctx, t);
      Case4KeepsEntries(ctx, t);
      FarRecolorAt(nodes, ctx, t, x, root);
      var p := nodes[x].parent;
      nodes := nodes[w := nodes[w].(color := nodes[p].color)];
      nodes := nodes[p := nodes[p].(color := Black)];
      var far := nodes[w].left;
      nodes := nodes[far := nodes[far].(color := Black)];
      RightRotate(p, ctx[1..], FarRedRight(ctx, t));
      RootView(nodes, ctx[1..], RotateRight(FarRedRight(ctx, t)), w, root);
      x' := root;
      ctx', t' := [], Plug(ctx[1..], RotateRight(FarRedRight(ctx, t)));
    }

    /** One round of `rbDeleteFixup` with `x` a left child: case 1 if the
        sibling `w` is red, then case 2 if both of `w`'s children are
        black, cases 3 and 4 otherwise. */
    method DeleteStepLeft(x: int, ghost ctx: seq<Frame>, ghost t: Tree) returns (x': int, ghost ctx': seq<Frame>, ghost t': Tree)
      requires At(nodes, ctx, t, x, root) && DeleteInv(ctx, t) && ColorOf(t) == Black && ctx != [] && ctx[0].dir == L
      requires 0 <= x < |nodes| && nodes[x].parent == ctx[0].id
      modifies this
      ensures At(nodes, ctx', t', x', root) && DeleteInv(ctx', t')
      ensures 0 <= x' < |nodes| && (ctx' != [] ==> nodes[x'].parent == ctx'[0].id)
      ensures 2 * |ctx'| + Blk(ColorOf(t')) < 2 * |ctx| + 1
      ensures Entries(Plug(ctx', t')) == Entries(Plug(ctx, t)) && |nodes| == |old(nodes)|
    {
      SiblingExists(ctx, t);
      SiblingFacts(nodes, ctx, t, x, root);
      ghost var c := ctx;
      var w := nodes[nodes[x].parent].right;
      if nodes[w].color == Red {
        c := DeleteRedSiblingLeft(x, ctx, t);
        SiblingExists(c, t);
        SiblingFacts(nodes, c, t, x, root);
        w := nodes[nodes[x].parent].right;
      }
      if nodes[nodes[w].left].color == Black && nodes[nodes[w].right].color == Black {
        x', ctx', t' := DeletePushUp(x, w, c, t);
      } else {
        x', ctx', t' := DeleteRotateLeft(x, w, c, t);
      }
    }

    /** One round of `rbDeleteFixup` with `x` a right child. */
    method DeleteStepRight(x: int, ghost ctx: seq<Frame>, ghost t: Tree) returns (x': int, ghost ctx': seq<Frame>, ghost t': Tree)
      requires At(nodes, ctx, t, x, root) && DeleteInv(ctx, t) && ColorOf(t) == Black && ctx != [] && ctx[0].dir == R
      requires 0 <= x < |nodes| && nodes[x].parent == ctx[0].id
      modifies this
      ensures At(nodes, ctx', t', x', root) && DeleteInv(ctx', t')
      ensures 0 <= x' < |nodes| && (ctx' != [] ==> nodes[x'].parent == ctx'[0].id)
      ensures 2 * |ctx'| + Blk(ColorOf(t')) < 2 * |ctx| + 1
      ensures Entries(Plug(ctx', t')) == Entries(Plug(ctx, t)) && |nodes| == |old(nodes)|
    {
      SiblingExists(ctx, t);
      SiblingFacts(nodes, ctx, t, x, root);
      ghost var c := ctx;
      var w := nodes[nodes[x].parent].left;
      if nodes[w].color == Red {
        c := DeleteRedSiblingRight(x, ctx, t);
        SiblingExists(c, t);
        SiblingFacts(nodes, c, t, x, root);
        w := nodes[nodes[x].parent].left;
      }
      if nodes[nodes[w].right].color == Black && nodes[nodes[w].left].color == Black {
        x', ctx', t' := DeletePushUp(x, w, c, t);
      } else {
        x', ctx', t' := DeleteRotateRight(x, w, c, t);
      }
    }

    /** `rbDeleteFixup(x)`: `x` carries an extra black; climb while it is
        black and not the root, then paint it black. */
    method DeleteFixup(x0: int, ghost ctx0: seq<Frame>, ghost t0: Tree)
      requires At(nodes, ctx0, t0, x0, root) && DeleteInv(ctx0, t0) && Sorted(Entries(Plug(ctx0, t0)))
      requires 0 <= x0 < |nodes| && (ctx0 != [] ==> nodes[x0].parent == ctx0[0].id)
      modifies this
      ensures Valid() && Entries(tree) == Entries(Plug(ctx0, t0)) && |nodes| == |old(nodes)|
    {
      var x := x0;
      ghost var ctx, t := ctx0, t0;
      DeleteLoopFacts(nodes, ctx, t, x, root);
      while x != root && nodes[x].color == Black
        invariant At(nodes, ctx, t, x, root) && DeleteInv(ctx, t)
        invariant 0 <= x < |nodes| && (ctx != [] ==> nodes[x].parent == ctx[0].id)
        invariant (x == root <==> ctx == []) && (nodes[x].color == Black <==> ColorOf(t) == Black)
        invariant Entries(Plug(ctx, t)) == Entries(Plug(ctx0, t0)) && |nodes| == |old(nodes)|
        decreases 2 * |ctx| + Blk(ColorOf(t))
      {
        SiblingExists(ctx, t);
        SiblingFacts(nodes, ctx, t, x, root);
        if x == nodes[nodes[x].parent].left {
          x, ctx, t := DeleteStepLeft(x, ctx, t);
        } else {
          x, ctx, t := DeleteStepRight(x, ctx, t);
        }
        DeleteLoopFacts(nodes, ctx, t, x, root);
      }
      PaintFocusAt(nodes, ctx, t, x, root);
      DeleteDone(ctx, t);
      nodes := nodes[x := nodes[x].(color := Black)];
      tree := Plug(ctx, PaintBlack(t));
    }

    /** `rbDelete(z)` for a node `z` of the tree: a `z` with at most one
        child is replaced by that child `x`; otherwise its predecessor `y`
        takes its place and colour and `y`'s left child `x` takes `y`'s
        place. If the node that left its place was black, the fixup runs
        from `x`. */
    method DeleteNode(z: int)
      requires Valid() && z in Ids(tree)
      modifies this
      ensures Valid() && |nodes| == |old(nodes)|
      ensures Entries(tree) == Without(old(Entries(tree)), z)
    {
      ghost var T := tree;
      ViewAt(nodes, T, z, root);
      ghost var ctx, Z := PathTo(T, z), SubtreeAt(T, z);
      NodeFacts(nodes, ctx, Z, z, root);
      var x: int;
      var yColor := nodes[z].color;
      ghost var c, u;
      if nodes[z].left == Nil {
        TransplantAt(nodes, ctx, Z, R, root);
        x := nodes[z].right;
        Transplant(z, x);
        c, u := ctx, Z.right;
        DeleteOneChildStart(ctx, Z, Z.right);
        DeleteOneChildEntries(ctx, Z, Z.right);
      } else if nodes[z].right == Nil {
        TransplantAt(nodes, ctx, Z, L, root);
        x := nodes[z].left;
        Transplant(z, x);
        c, u := ctx, Z.left;
        DeleteOneChildStart(ctx, Z, Z.left);
        DeleteOneChildEntries(ctx, Z, Z.left);
      } else {
        x, yColor, c, u := RemoveTwo(z, ctx, Z);
      }
      WithoutSorted(Entries(T), z);
      if yColor == Black {
        DeleteFixup(x, c, u);
      } else {
        RootView(nodes, c, u, x, root);
        tree := Plug(c, u);
      }
    }

    /** The two-children branch of `rbDelete(z)`: `y`, the maximum of
        `z`'s left subtree, is spliced into `z`'s place. */
    method RemoveTwo(z: int, ghost ctx: seq<Frame>, ghost Z: Tree) returns (x: int, yColor: Color, ghost c: seq<Frame>, ghost u: Tree)
      requires Z.Node? && Z.left.Node? && Z.right.Node? && At(nodes, ctx, Z, z, root) && IsRedBlack(Plug(ctx, Z))
      modifies this
      ensures At(nodes, c, u, x, root) && c != [] && 0 <= x < |nodes| && nodes[x].parent == c[0].id
      ensures yColor == Black ==> DeleteInv(c, u)
      ensures yColor == Red ==> IsRedBlack(Plug(c, u))
      ensures Entries(Plug(c, u)) == Without(Entries(Plug(ctx, Z)), z)
      ensures |nodes| == |old(nodes)|
    {
      NodeFacts(nodes, ctx, Z, z, root);
      Down(nodes, ctx, Z, z, root, L);
      var y;
      ghost var path, Y;
      y, path, Y := Maximum(nodes[z].left, [DownFrame(Z, L)] + ctx, Z.left);
      NodeFacts(nodes, path + ([DownFrame(Z, L)] + ctx), Y, y, root);
      PredecessorParent(nodes, ctx, Z, path, Y, root);
      yColor := nodes[y].color;
      x := nodes[y].left;
      if nodes[y].parent == z {
        SpliceLift(z, y, ctx, Z);
      } else {
        SpliceDeep(z, y, ctx, Z, path, Y);
      }
      c, u := SpliceCtx(ctx, Z, path, Y), Y.left;
      if x != Nil {
        ParentColor(nodes, c, u, x, root);
      }
      DeleteTwoStart(ctx, Z, path, Y);
      DeleteTwoEntries(ctx, Z, path, Y);
    }

    /** `rbDelete(z)` when the predecessor `y` is `z`'s own left child:
        `x`'s parent is set to `y` (it already is, unless `x` is `nil`),
        and `y` takes `z`'s place, right subtree and colour. */
    method SpliceLift(z: int, y: int, ghost ctx: seq<Frame>, ghost Z: Tree)
      requires Z.Node? && Z.left.Node? && Z.left.right == Leaf && Z.right.Node? && At(nodes, ctx, Z, z, root)
      requires y == Z.left.id
      modifies this
      ensures At(nodes, SpliceCtx(ctx, Z, [], Z.left), Z.left.left, RootOf(Z.left.left), root)
      ensures 0 <= RootOf(Z.left.left) < |nodes| && nodes[RootOf(Z.left.left)].parent == y
      ensures |nodes| == |old(nodes)|
    {
      LiftFacts(nodes, ctx, Z, root);
      ghost var a, r0 := nodes, root;
      LiftWrites(z, y);
      assert SameOutside(a, nodes, ParentSet(ctx) + {y, Z.right.id, Nil});
      assert Replaced(a, nodes, ctx, z, y, r0, root);
      ReplacedRedirects(a, nodes, ctx, Z, z, y, r0, root);
      LiftShape(a, nodes, ctx, Z, r0, root);
      ghost var n := Node(Z.left.left, y, Z.color, Z.left.key, Z.left.value, Z.right);
      SpliceTree(ctx, Z, [], Z.left);
      AtWhole(nodes, ctx, n, y, root);
      AtWhole(nodes, SpliceCtx(ctx, Z, [], Z.left), Z.left.left, RootOf(Z.left.left), root);
    }

    /** The writes of `rbDelete(z)` when `y` is `z`'s left child, with
        `p` the parent of `z` and `x` the left child of `y`. */
    method LiftWrites(z: int, y: int)
      requires 0 < z < |nodes| && 0 < y < |nodes| && nodes[z].left == y && 0 < nodes[z].right < |nodes|
      requires 0 <= nodes[z].parent < |nodes| && 0 <= nodes[y].left < |nodes|
      requires nodes[z].parent !in {z, y, nodes[z].right} && y != nodes[z].right
      requires nodes[y].left !in {z, y, nodes[z].right}
      requires nodes[y].left != Nil ==> nodes[y].left != nodes[z].parent && nodes[nodes[y].left].parent == y
      modifies this
      ensures |nodes| == |old(nodes)| && nodes[Nil].color == old(nodes)[Nil].color
      ensures forall i :: 0 <= i < |nodes| && i !in {old(nodes)[z].parent, y, old(nodes)[z].right, Nil} ==> nodes[i] == old(nodes)[i]
      ensures nodes[y] == old(nodes)[y].(right := old(nodes)[z].right, parent := old(nodes)[z].parent, color := old(nodes)[z].color)
      ensures nodes[old(nodes)[z].right] == old(nodes)[old(nodes)[z].right].(parent := y)
      ensures nodes[old(nodes)[y].left].parent == y
      ensures old(nodes)[z].parent == Nil ==> root == y
      ensures old(nodes)[z].parent != Nil ==> root == old(root) && nodes[old(nodes)[z].parent] == ReplacedChild(old(nodes)[old(nodes)[z].parent], z, y)
    {
      var x, zr, zc := nodes[y].left, nodes[z].right, nodes[z].color;
      ghost var a := nodes;
      nodes := nodes[x := nodes[x].(parent := y)];
      Transplant(z, y);
      assert nodes[y] == a[y].(parent := a[z].parent);
      nodes := nodes[y := nodes[y].(right := zr)];
      nodes := nodes[zr := nodes[zr].(parent := y)];
      nodes := nodes[y := nodes[y].(color := zc)];
    }

    /** `rbDelete(z)` when the predecessor `y` lies deeper along `path`:
        `rbTransplant(y, x)` cuts `y` out, then `y` takes `z`'s left
        subtree, place, right subtree and colour. */
    method SpliceDeep(z: int, y: int, ghost ctx: seq<Frame>, ghost Z: Tree, ghost path: seq<Frame>, ghost Y: Tree)
      requires Z.Node? && Y.Node? && Y.right == Leaf && Z.right.Node? && path != [] && Plug(path, Y) == Z.left
      requires At(nodes, ctx, Z, z, root) && At(nodes, path + ([DownFrame(Z, L)] + ctx), Y, y, root)
      modifies this
      ensures At(nodes, SpliceCtx(ctx, Z, path, Y), Y.left, RootOf(Y.left), root)
      ensures 0 <= RootOf(Y.left) < |nodes| && (RootOf(Y.left) == Nil ==> nodes[Nil].parent == path[0].id)
      ensures |nodes| == |old(nodes)|
    {
      CutOut(y, ctx, Z, path, Y);
      ghost var Z' := Z.(left := Plug(path, Y.left));
      SubstituteFacts(nodes, ctx, Z', y, root);
      ghost var a, r1 := nodes, root;
      SubstituteWrites(z, y);
      assert SameOutside(a, nodes, ParentSet(ctx) + {y, Z'.left.id, Z'.right.id});
      assert Replaced(a, nodes, ctx, z, y, r1, root);
      ReplacedRedirects(a, nodes, ctx, Z', z, y, r1, root);
      SubstituteShape(a, nodes, ctx, Z', y, Y.key, Y.value, r1, root);
      ghost var n := Node(Plug(path, Y.left), y, Z.color, Y.key, Y.value, Z.right);
      SpliceTree(ctx, Z, path, Y);
      AtWhole(nodes, ctx, n, y, root);
      AtWhole(nodes, SpliceCtx(ctx, Z, path, Y), Y.left, RootOf(Y.left), root);
    }

    /** `rbTransplant(y, y.left)` for the predecessor `y` below `z`'s
        left child: `z`'s left subtree loses `y`. */
    method CutOut(y: int, ghost ctx: seq<Frame>, ghost Z: Tree, ghost path: seq<Frame>, ghost Y: Tree)
      requires Z.Node? && Y.Node? && Y.right == Leaf && path != [] && Plug(path, Y) == Z.left
      requires At(nodes, path + ([DownFrame(Z, L)] + ctx), Y, y, root)
      modifies this
      ensures Z.left.Node? && Plug(path, Y.left).Node? && Plug(path, Y.left).id == Z.left.id
      ensures At(nodes, ctx, Z.(left := Plug(path, Y.left)), Z.id, root)
      ensures Plug(ctx, Z.(left := Plug(path, Y.left))) == Plug(path + ([DownFrame(Z, L)] + ctx), Y.left)
      ensures 0 < y < |nodes| && y !in Ids(Plug(ctx, Z.(left := Plug(path, Y.left))))
      ensures nodes[y].key == Y.key && nodes[y].value == Y.value
      ensures 0 <= RootOf(Y.left) < |nodes| && (RootOf(Y.left) == Nil ==> nodes[Nil].parent == path[0].id)
      ensures |nodes| == |old(nodes)| && root == old(root)
    {
      ghost var cy := path + ([DownFrame(Z, L)] + ctx);
      assert cy[0] == path[0];
      NodeFacts(nodes, cy, Y, y, root);
      CutAway(cy, Y);
      TransplantAt(nodes, cy, Y, L, root);
      var x := nodes[y].left;
      Transplant(y, x);
      DeepView(nodes, ctx, Z, path, Y, root);
    }

    /** The writes of `rbDelete(z)` once `y` is cut out: `y` takes `z`'s
        children, place and colour. */
    method SubstituteWrites(z: int, y: int)
      requires 0 < z < |nodes| && 0 < y < |nodes| && 0 < nodes[z].left < |nodes| && 0 < nodes[z].right < |nodes|
      requires 0 <= nodes[z].parent < |nodes|
      requires nodes[z].parent !in {y, z, nodes[z].left, nodes[z].right}
      requires y !in {z, nodes[z].left, nodes[z].right} && z !in {nodes[z].left, nodes[z].right} && nodes[z].left != nodes[z].right
      modifies this
      ensures |nodes| == |old(nodes)| && nodes[Nil] == old(nodes)[Nil]
      ensures forall i :: 0 <= i < |nodes| && i !in {old(nodes)[z].parent, y, old(nodes)[z].left, old(nodes)[z].right} ==> nodes[i] == old(nodes)[i]
      ensures nodes[y] == old(nodes)[y].(left := old(nodes)[z].left, right := old(nodes)[z].right, parent := old(nodes)[z].parent, color := old(nodes)[z].color)
      ensures nodes[old(nodes)[z].left] == old(nodes)[old(nodes)[z].left].(parent := y)
      ensures nodes[old(nodes)[z].right] == old(nodes)[old(nodes)[z].right].(parent := y)
      ensures old(nodes)[z].parent == Nil ==> root == y
      ensures old(nodes)[z].parent != Nil ==> root == old(root) && nodes[old(nodes)[z].parent] == ReplacedChild(old(nodes)[old(nodes)[z].parent], z, y)
    {
      var zl, zr, zc := nodes[z].left, nodes[z].right, nodes[z].color;
      ghost var a := nodes;
      SubstitutedAt(a, z, y);
      nodes := nodes[y := nodes[y].(left := zl)];
      nodes := nodes[zl := nodes[zl].(parent := y)];
      Transplant(z, y);
      nodes := nodes[y := nodes[y].(right := zr)];
      nodes := nodes[zr := nodes[zr].(parent := y)];
      nodes := nodes[y := nodes[y].(color := zc)];
      assert nodes == Substituted(a, z, y);
    }

    /** `rbTreeSearch(x, key)`: the first node on the search path from `x`
        with the key, or `nil`. */
    method TreeSearch(x: int, k: string, ghost ctx: seq<Frame>, ghost t: Tree) returns (r: int)
      requires At(nodes, ctx, t, x, root)
      ensures r == Search(t, k)
      decreases t
    {
      Pointers(nodes, ctx, t, x, root);
      if x == Nil || nodes[x].key == k {
        return x;
      }
      if StrLess(k, nodes[x].key) {
        Down(nodes, ctx, t, x, root, L);
        r := TreeSearch(nodes[x].left, k, [DownFrame(t, L)] + ctx, t.left);
      } else {
        Down(nodes, ctx, t, x, root, R);
        r := TreeSearch(nodes[x].right, k, [DownFrame(t, R)] + ctx, t.right);
      }
    }

    /** `rbTreeMinimum(x)`: follow left pointers to the first node of the
        subtree, reached along `path`. */
    method Minimum(x0: int, ghost ctx: seq<Frame>, ghost t0: Tree) returns (x: int, ghost path: seq<Frame>, ghost m: Tree)
      requires At(nodes, ctx, t0, x0, root) && t0.Node?
      ensures x == Leftmost(t0)
      ensures m.Node? && m.left == Leaf && m.id == x && Plug(path, m) == t0 && AllLeft(path)
      ensures At(nodes, path + ctx, m, x, root)
    {
      x, path, m := x0, [], t0;
      assert path + ctx == ctx;
      DownPath(nodes, path, ctx, m, x, root, L);
      while nodes[x].left != Nil
        invariant At(nodes, path + ctx, m, x, root) && m.Node? && x == m.id
        invariant 0 < x < |nodes| && (nodes[x].left == Nil <==> m.left == Leaf)
        invariant Plug(path, m) == t0 && AllLeft(path)
        invariant Leftmost(m) == Leftmost(t0)
        decreases m
      {
        DownPath(nodes, path, ctx, m, x, root, L);
        path, m, x := [DownFrame(m, L)] + path, m.left, nodes[x].left;
        DownPath(nodes, path, ctx, m, x, root, L);
      }
    }

    /** `rbTreeMaximum(x)`: follow right pointers to the last node of the
        subtree, reached along `path`. */
    method Maximum(x0: int, ghost ctx: seq<Frame>, ghost t0: Tree) returns (x: int, ghost path: seq<Frame>, ghost m: Tree)
      requires At(nodes, ctx, t0, x0, root) && t0.Node?
      ensures x == Rightmost(t0)
      ensures m.Node? && m.right == Leaf && m.id == x && Plug(path, m) == t0 && AllRight(path)
      ensures At(nodes, path + ctx, m, x, root)
    {
      x, path, m := x0, [], t0;
      assert path + ctx == ctx;
      DownPath(nodes, path, ctx, m, x, root, R);
      while nodes[x].right != Nil
        invariant At(nodes, path + ctx, m, x, root) && m.Node? && x == m.id
        invariant 0 < x < |nodes| && (nodes[x].right == Nil <==> m.right == Leaf)
        invariant Plug(path, m) == t0 && AllRight(path)
        invariant Rightmost(m) == Rightmost(t0)
        decreases m
      {
        DownPath(nodes, path, ctx, m, x, root, R);
        path, m, x := [DownFrame(m, R)] + path, m.right, nodes[x].right;
        DownPath(nodes, path, ctx, m, x, root, R);
      }
    }
  
    /** `rbTreeSuccessor(x)`: the node after `x` in key order, `nil` after
        the last. The source returns `x` itself when the search for its key
        finds nothing; for a node of a valid tree that search always
        succeeds (`SearchFinds`), so the first clause is kept only to
        mirror that branch. */
    method Successor(x: int) returns (r: int)
      requires Valid() && x in Ids(tree) && 0 < x < |nodes|
      ensures Search(tree, nodes[x].key) == Nil ==> r == x
      ensures Search(tree, nodes[x].key) != Nil ==> r == NextId(Entries(tree), x)
    {
      var s := TreeSearch(root, nodes[x].key, [], tree);
      if s == Nil {
        return x;
      }
      ViewAt(nodes, tree, x, root);
      ghost var ctx, t := PathTo(tree, x), SubtreeAt(tree, x);
      NodeFacts(nodes, ctx, t, x, root);
      if nodes[x].right != Nil {
        Down(nodes, ctx, t, x, root, R);
        ghost var path, m;
        r, path, m := Minimum(nodes[x].right, [DownFrame(t, R)] + ctx, t.right);
        SuccessorBelow(ctx, t);
        return;
      }
      var y := x;
      r := nodes[x].parent;
      ClimbFacts(nodes, ctx, t, x, root);
      while r != Nil && y == nodes[r].right
        invariant At(nodes, ctx, t, y, root) && t.Node? && Rightmost(t) == x && Plug(ctx, t) == tree
        invariant r == ParentIn(ctx, Nil) && 0 <= r < |nodes| && (r == Nil <==> ctx == [])
        invariant ctx != [] ==> (nodes[r].right == y <==> ctx[0].dir == R)
        decreases |ctx|
      {
        Up(nodes, ctx, t, y, root);
        ClimbFacts(nodes, ctx[1..], Attach(ctx[0], t), ctx[0].id, root);
        y, r := r, nodes[r].parent;
        ctx, t := ctx[1..], Attach(ctx[0], t);
      }
      SuccessorAbove(ctx, t, x);
    }

    /** `rbTreePredecessor(x)`: the node before `x` in key order, `nil`
        before the first. The search-miss branch of the source cannot be
        taken for a node of a valid tree, as for `Successor`. */
    method Predecessor(x: int) returns (r: int)
      requires Valid() && x in Ids(tree) && 0 < x < |nodes|
      ensures Search(tree, nodes[x].key) == Nil ==> r == x
      ensures Search(tree, nodes[x].key) != Nil ==> r == PrevId(Entries(tree), x)
    {
      var s := TreeSearch(root, nodes[x].key, [], tree);
      if s == Nil {
        return x;
      }
      ViewAt(nodes, tree, x, root);
      ghost var ctx, t := PathTo(tree, x), SubtreeAt(tree, x);
      NodeFacts(nodes, ctx, t, x, root);
      if nodes[x].left != Nil {
        Down(nodes, ctx, t, x, root, L);
        ghost var path, m;
        r, path, m := Maximum(nodes[x].left, [DownFrame(t, L)] + ctx, t.left);
        PredecessorBelow(ctx, t);
        return;
      }
      var y := x;
      r := nodes[x].parent;
      ClimbFacts(nodes, ctx, t, x, root);
      while r != Nil && y == nodes[r].left
        invariant At(nodes, ctx, t, y, root) && t.Node? && Leftmost(t) == x && Plug(ctx, t) == tree
        invariant r == ParentIn(ctx, Nil) && 0 <= r < |nodes| && (r == Nil <==> ctx == [])
        invariant ctx != [] ==> (nodes[r].left == y <==> ctx[0].dir == L)
        decreases |ctx|
      {
        Up(nodes, ctx, t, y, root);
        ClimbFacts(nodes, ctx[1..], Attach(ctx[0], t), ctx[0].id, root);
        y, r := r, nodes[r].parent;
        ctx, t := ctx[1..], Attach(ctx[0], t);
      }
      PredecessorAbove(ctx, t, x);
    }

    /** The forward loop of `rbFind` and `rbDelete(key, value)`: from the
        node `s` the search for `k` found, at index `i` of the walk,
        collect nodes through `rbTreeSuccessor` while they hold `k`. */
    method ForwardRun(s: int, k: string, ghost i: int) returns (ids: seq<int>, pairs: seq<string>)
      requires Valid() && s == Search(tree, k) && 0 <= i < |Entries(tree)| && Entries(tree)[i].id == s && Entries(tree)[i].key == k
      ensures ids == IdList(RunUp(Entries(tree), i, k)) && pairs == Pairs(RunUp(Entries(tree), i, k))
    {
      ghost var es := Entries(tree);
      EntryIn(nodes, tree, root, es[i]);
      WalkDistinct(nodes, tree, root);
      var node := s;
      ghost var j := i;
      ids, pairs := [], [];
      while node != Nil && nodes[node].key == k
        invariant i <= j <= |es| && 0 <= node < |nodes|
        invariant j < |es| ==> node == es[j].id && 0 < node && nodes[node].key == es[j].key && nodes[node].value == es[j].value
        invariant j == |es| ==> node == Nil
        invariant IdList(RunUp(es, i, k)) == ids + IdList(RunUp(es, j, k))
        invariant Pairs(RunUp(es, i, k)) == pairs + Pairs(RunUp(es, j, k))
        decreases |es| - j
      {
        EntryIn(nodes, tree, root, es[j]);
        RunUpStep(es, j, k);
        assert ids + IdList(RunUp(es, j, k)) == (ids + [node]) + IdList(RunUp(es, j + 1, k));
        assert pairs + Pairs(RunUp(es, j, k)) == (pairs + [nodes[node].key, nodes[node].value]) + Pairs(RunUp(es, j + 1, k));
        ids := ids + [node];
        pairs := pairs + [nodes[node].key, nodes[node].value];
        node := Successor(node);
        NeighboursAt(es, j);
        j := j + 1;
        if j < |es| {
          EntryIn(nodes, tree, root, es[j]);
        }
      }
      if j < |es| {
        EntryIn(nodes, tree, root, es[j]);
      }
      assert RunUp(es, j, k) == [] && IdList([]) == [] && Pairs([]) == [];
    }

    /** The backward loop of `rbFind` and `rbDelete(key, value)`: from the
        node before `s`, collect nodes through `rbTreePredecessor` while
        they hold `k`. */
    method BackwardRun(s: int, k: string, ghost i: int) returns (ids: seq<int>, pairs: seq<string>)
      requires Valid() && s == Search(tree, k) && 0 <= i < |Entries(tree)| && Entries(tree)[i].id == s && Entries(tree)[i].key == k
      ensures ids == IdList(RunDown(Entries(tree), i - 1, k)) && pairs == Pairs(RunDown(Entries(tree), i - 1, k))
    {
      ghost var es := Entries(tree);
      EntryIn(nodes, tree, root, es[i]);
      WalkDistinct(nodes, tree, root);
      var node := Predecessor(s);
      NeighboursAt(es, i);
      ids, pairs := WalkDown(node, k, i - 1);
    }

    /** The loop of `BackwardRun`, from `node`, at index `j0` of the walk
        (`nil` when `j0` is -1). */
    method WalkDown(node0: int, k: string, ghost j0: int) returns (ids: seq<int>, pairs: seq<string>)
      requires Valid() && Search(tree, k) != Nil && -1 <= j0 < |Entries(tree)|
      requires node0 == if j0 >= 0 then Entries(tree)[j0].id else Nil
      ensures ids == IdList(RunDown(Entries(tree), j0, k)) && pairs == Pairs(RunDown(Entries(tree), j0, k))
    {
      ghost var es := Entries(tree);
      WalkDistinct(nodes, tree, root);
      var node := node0;
      ghost var j := j0;
      if j >= 0 {
        EntryIn(nodes, tree, root, es[j]);
      }
      ids, pairs := [], [];
      while node != Nil && nodes[node].key == k
        invariant -1 <= j <= j0 && 0 <= node < |nodes|
        invariant j >= 0 ==> node == es[j].id && 0 < node && nodes[node].key == es[j].key && nodes[node].value == es[j].value
        invariant j < 0 ==> node == Nil
        invariant IdList(RunDown(es, j0, k)) == ids + IdList(RunDown(es, j, k))
        invariant Pairs(RunDown(es, j0, k)) == pairs + Pairs(RunDown(es, j, k))
        decreases j + 1
      {
        EntryIn(nodes, tree, root, es[j]);
        RunDownStep(es, j, k);
        assert ids + IdList(RunDown(es, j, k)) == (ids + [node]) + IdList(RunDown(es, j - 1, k));
        assert pairs + Pairs(RunDown(es, j, k)) == (pairs + [nodes[node].key, nodes[node].value]) + Pairs(RunDown(es, j - 1, k));
        ids := ids + [node];
        pairs := pairs + [nodes[node].key, nodes[node].value];
        node := Predecessor(node);
        NeighboursAt(es, j);
        j := j - 1;
        if j >= 0 {
          EntryIn(nodes, tree, root, es[j]);
        }
      }
      if j >= 0 {
        EntryIn(nodes, tree, root, es[j]);
      }
      assert RunDown(es, j, k) == [] && IdList([]) == [] && Pairs([]) == [];
    }

    /** The nodes `rbFind(key)` and `rbDelete(key, value)` collect: the
        search's node, its successors and then its predecessors holding
        `k`. They are exactly the entries with key `k`, each once. */
    method KeyRun(k: string) returns (ids: seq<int>, pairs: seq<string>, ghost found: seq<Entry>)
      requires Valid()
      ensures found == Collected(Entries(tree), Search(tree, k), k)
      ensures forall e :: e in found <==> e in Entries(tree) && e.key == k
      ensures DistinctIds(found)
      ensures ids == IdList(found) && pairs == Pairs(found)
    {
      ghost var es := Entries(tree);
      EntryRecords(nodes, tree, root);
      SearchFinds(tree, k);
      CollectedIsKeyRun(es, Search(tree, k), k);
      var s := TreeSearch(root, k, [], tree);
      if s == Nil {
        return [], [], [];
      }
      ghost var e :| e in es && e.id == s && e.key == k;
      ghost var i := IndexOf(es, s);
      assert i < |es| && es[i] == e;
      var ids1, pairs1 := ForwardRun(s, k, i);
      var ids2, pairs2 := BackwardRun(s, k, i);
      ids, pairs := ids1 + ids2, pairs1 + pairs2;
      found := RunUp(es, i, k) + RunDown(es, i - 1, k);
      ListsConcat(RunUp(es, i, k), RunDown(es, i - 1, k));
    }

    /** `rbFind(key)`: the key and value of every node holding `key`. */
    method Find(k: string) returns (r: seq<string>, ghost found: seq<Entry>)
      requires Valid()
      ensures found == Collected(Entries(tree), Search(tree, k), k)
      ensures r == Pairs(found)
      ensures forall e :: e in found <==> e in Entries(tree) && e.key == k
      ensures DistinctIds(found)
    {
      var ids;
      ids, r, found := KeyRun(k);
    }

    /** One round of `rbDelete(key, value)`'s loop: the node `z` of the
        key's run is deleted exactly when it holds `v`. */
    method DeleteIfValue(z: int, v: string, ghost es0: seq<Entry>, ghost fs: seq<Entry>, ghost j: int)
      requires Valid() && DistinctIds(fs) && 0 <= j < |fs| && z == fs[j].id
      requires forall e :: e in fs ==> e in es0
      requires Entries(tree) == Keep(es0, MatchIds(fs[..j], v))
      modifies this
      ensures Valid() && Entries(tree) == Keep(es0, MatchIds(fs[..j + 1], v))
    {
      Pending(es0, fs, j, v);
      EntryIn(nodes, tree, root, fs[j]);
      assert fs[..j + 1][..j] == fs[..j];
      assert MatchIds(fs[..j + 1], v) == MatchIds(fs[..j], v) + (if fs[j].value == v then {z} else {});
      if nodes[z].value == v {
        assert fs[j].value == v;
        WithoutKeep(es0, MatchIds(fs[..j], v), z);
        DeleteNode(z);
      } else {
        assert fs[j].value != v;
        assert MatchIds(fs[..j + 1], v) == MatchIds(fs[..j], v);
      }
    }

    /** `rbDelete(key, value)`: every node holding both `key` and `value`
        is deleted; the other entries stay, in order. */
    method Delete(k: string, v: string)
      requires Valid()
      modifies this
      ensures Valid() && Entries(tree) == Drop(old(Entries(tree)), k, v)
    {
      var ids, pairs;
      ghost var found;
      ids, pairs, found := KeyRun(k);
      ghost var es0 := Entries(tree);
      WalkDistinct(nodes, tree, root);
      IdListAt(found);
      KeepAll(es0);
      assert found[..0] == [];
      for j := 0 to |ids|
        invariant Valid() && Entries(tree) == Keep(es0, MatchIds(found[..j], v))
      {
        DeleteIfValue(ids[j], v, es0, found, j);
      }
      assert found[..|ids|] == found;
      DeletedAreMatches(es0, found, k, v);
    }
}
}
