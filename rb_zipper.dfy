/** A node of a `RedBlack.Tree` seen from inside: the subtree rooted at it
    and the frames leading back up to the root, the one above it first.
    The parent-pointer walks of `rbtree.cpp` (successor, predecessor, the
    two fixups, transplant) move through this view. */
module RedBlackZipper {
  import opened Common
  import opened RedBlack

  /** A node's parent: the side the node hangs on, the parent's own
      fields, and the parent's other subtree. */
  datatype Frame = Frame(dir: Dir, id: int, color: Color, key: string, value: string, sibling: Tree)

  function Attach(f: Frame, t: Tree): Tree {
    if f.dir == L then Node(t, f.id, f.color, f.key, f.value, f.sibling)
    else Node(f.sibling, f.id, f.color, f.key, f.value, t)
  }

  /** The whole tree: `t` put back under the frames of `ctx`. */
  function Plug(ctx: seq<Frame>, t: Tree): Tree
    decreases |ctx|
  {
    if ctx == [] then t else Plug(ctx[1..], Attach(ctx[0], t))
  }

  /** The parent of the focus, or `top` when the focus is the root. */
  function ParentIn(ctx: seq<Frame>, top: int): int {
    if ctx == [] then top else ctx[0].id
  }

  function CtxIds(ctx: seq<Frame>): set<int>
    decreases |ctx|
  {
    if ctx == [] then {} else {ctx[0].id} + Ids(ctx[0].sibling) + CtxIds(ctx[1..])
  }

  function FrameEntry(f: Frame): Entry {
    Entry(f.id, f.key, f.value)
  }

  /** The entries the in-order walk meets before the focus ... */
  function Before(ctx: seq<Frame>): seq<Entry>
    decreases |ctx|
  {
    if ctx == [] then []
    else Before(ctx[1..]) + (if ctx[0].dir == L then [] else Entries(ctx[0].sibling) + [FrameEntry(ctx[0])])
  }

  /** ... and after it. */
  function After(ctx: seq<Frame>): seq<Entry>
    decreases |ctx|
  {
    if ctx == [] then []
    else (if ctx[0].dir == L then [FrameEntry(ctx[0])] + Entries(ctx[0].sibling) else []) + After(ctx[1..])
  }

  lemma {:induction false} PlugEntries(ctx: seq<Frame>, t: Tree)
    ensures Entries(Plug(ctx, t)) == Before(ctx) + Entries(t) + After(ctx)
    decreases |ctx|
  {
    if ctx != [] {
      PlugEntries(ctx[1..], Attach(ctx[0], t));
    }
  }

  /** Two subtrees with the same entries give whole trees with the same
      entries. */
  lemma PlugSameEntries(ctx: seq<Frame>, a: Tree, b: Tree)
    requires Entries(a) == Entries(b)
    ensures Entries(Plug(ctx, a)) == Entries(Plug(ctx, b))
  {
    PlugEntries(ctx, a);
    PlugEntries(ctx, b);
  }

  lemma {:induction false} PlugIds(ctx: seq<Frame>, t: Tree)
    ensures Ids(Plug(ctx, t)) == Ids(t) + CtxIds(ctx)
    decreases |ctx|
  {
    if ctx != [] {
      PlugIds(ctx[1..], Attach(ctx[0], t));
    }
  }

  /** The frames' nodes and siblings are distinct among themselves. */
  ghost predicate CtxDistinct(ctx: seq<Frame>)
    decreases |ctx|
  {
    ctx == [] ||
      (Distinct(ctx[0].sibling) && ctx[0].id !in Ids(ctx[0].sibling)
       && ({ctx[0].id} + Ids(ctx[0].sibling)) !! CtxIds(ctx[1..]) && CtxDistinct(ctx[1..]))
  }

  lemma {:induction false} PlugDistinct(ctx: seq<Frame>, t: Tree)
    ensures Distinct(Plug(ctx, t)) <==> Distinct(t) && CtxDistinct(ctx) && Ids(t) !! CtxIds(ctx)
    decreases |ctx|
  {
    if ctx != [] {
      var f, a := ctx[0], Attach(ctx[0], t);
      PlugDistinct(ctx[1..], a);
      assert Ids(a) == Ids(t) + {f.id} + Ids(f.sibling);
    }
  }

  /** Replacing the focus by a subtree with the same entries and nodes
      changes neither the whole tree's entries nor its distinctness. */
  lemma PlugReplace(ctx: seq<Frame>, t: Tree, t': Tree)
    requires Entries(t') == Entries(t) && Ids(t') == Ids(t) && Distinct(t')
    ensures Entries(Plug(ctx, t')) == Entries(Plug(ctx, t))
    ensures Ids(Plug(ctx, t')) == Ids(Plug(ctx, t))
    ensures Distinct(Plug(ctx, t)) ==> Distinct(Plug(ctx, t'))
  {
    PlugEntries(ctx, t);
    PlugEntries(ctx, t');
    PlugIds(ctx, t);
    PlugIds(ctx, t');
    PlugDistinct(ctx, t);
    PlugDistinct(ctx, t');
  }

  lemma {:induction false} PlugConcat(a: seq<Frame>, b: seq<Frame>, t: Tree)
    ensures Plug(a + b, t) == Plug(b, Plug(a, t))
    decreases |a|
  {
    if a != [] {
      assert (a + b)[0] == a[0] && (a + b)[1..] == a[1..] + b;
      PlugConcat(a[1..], b, Attach(a[0], t));
      assert Plug(a + b, t) == Plug(a[1..] + b, Attach(a[0], t));
      assert Plug(a, t) == Plug(a[1..], Attach(a[0], t));
    } else {
      assert a + b == b;
    }
  }

  /** Plugging a tree of black-height `h` whose root has colour `c` into
      the frames gives no red node with a red child and equal
      black-heights. */
  ghost predicate CtxFits(ctx: seq<Frame>, h: nat, c: Color)
    decreases |ctx|
  {
    ctx == [] ||
      (NoRedRed(ctx[0].sibling) && Balanced(ctx[0].sibling) && BH(ctx[0].sibling) == h
       && (ctx[0].color == Red ==> c == Black && ColorOf(ctx[0].sibling) == Black)
       && CtxFits(ctx[1..], h + Blk(ctx[0].color), ctx[0].color))
  }

  lemma {:induction false} PlugRedBlack(ctx: seq<Frame>, t: Tree)
    ensures NoRedRed(Plug(ctx, t)) && Balanced(Plug(ctx, t))
      <==> NoRedRed(t) && Balanced(t) && CtxFits(ctx, BH(t), ColorOf(t))
    decreases |ctx|
  {
    if ctx != [] {
      PlugRedBlack(ctx[1..], Attach(ctx[0], t));
    }
  }

  /** Black frames on the way up. */
  function CtxBlk(ctx: seq<Frame>): nat
    decreases |ctx|
  {
    if ctx == [] then 0 else Blk(ctx[0].color) + CtxBlk(ctx[1..])
  }

  /** The colour of the outermost frame, or `c` when there is none. */
  function TopColor(ctx: seq<Frame>, c: Color): Color {
    if ctx == [] then c else ctx[|ctx| - 1].color
  }

  /** Only a red innermost frame cares about the colour of what is
      plugged in. */
  lemma CtxFitsBlack(ctx: seq<Frame>, h: nat, c: Color)
    requires CtxFits(ctx, h, c)
    ensures CtxFits(ctx, h, Black)
  {
  }

  /** Fitting below two stacked runs of frames is fitting below each. */
  lemma {:induction false} CtxFitsConcat(a: seq<Frame>, b: seq<Frame>, h: nat, c: Color)
    ensures CtxFits(a + b, h, c) <==> CtxFits(a, h, c) && CtxFits(b, h + CtxBlk(a), TopColor(a, c))
    decreases |a|
  {
    if a == [] {
      assert a + b == b;
    } else {
      assert (a + b)[0] == a[0] && (a + b)[1..] == a[1..] + b;
      CtxFitsConcat(a[1..], b, h + Blk(a[0].color), a[0].color);
      assert TopColor(a, c) == TopColor(a[1..], a[0].color);
      assert h + CtxBlk(a) == h + Blk(a[0].color) + CtxBlk(a[1..]);
    }
  }

  /** In a balanced tree the black-height of the whole is the focus's plus
      the black frames above it. */
  lemma {:induction false} PlugBH(ctx: seq<Frame>, t: Tree)
    requires Balanced(Plug(ctx, t))
    ensures BH(Plug(ctx, t)) == BH(t) + CtxBlk(ctx)
    decreases |ctx|
  {
    if ctx != [] {
      PlugBalancedParts(ctx[1..], Attach(ctx[0], t));
      PlugBH(ctx[1..], Attach(ctx[0], t));
    }
  }

  lemma {:induction false} PlugBalancedParts(ctx: seq<Frame>, t: Tree)
    requires Balanced(Plug(ctx, t))
    ensures Balanced(t)
    decreases |ctx|
  {
    if ctx != [] {
      PlugBalancedParts(ctx[1..], Attach(ctx[0], t));
    }
  }

  /** Every frame is a step to the right child: the path to a maximum. */
  ghost predicate AllRight(ctx: seq<Frame>) {
    forall i :: 0 <= i < |ctx| ==> ctx[i].dir == R
  }

  /** Every frame is a step to the left child: the path to a minimum. */
  ghost predicate AllLeft(ctx: seq<Frame>) {
    forall i :: 0 <= i < |ctx| ==> ctx[i].dir == L
  }

  lemma {:induction false} AllRightNothingAfter(ctx: seq<Frame>)
    requires AllRight(ctx)
    ensures After(ctx) == []
    decreases |ctx|
  {
    if ctx != [] {
      AllRightNothingAfter(ctx[1..]);
    }
  }

  lemma {:induction false} AllLeftNothingBefore(ctx: seq<Frame>)
    requires AllLeft(ctx)
    ensures Before(ctx) == []
    decreases |ctx|
  {
    if ctx != [] {
      AllLeftNothingBefore(ctx[1..]);
    }
  }

  /** The root of the whole tree, the outermost frame, is black. */
  ghost predicate RootBlack(ctx: seq<Frame>) {
    ctx == [] || ctx[|ctx| - 1].color == Black
  }

  /** Under at least one frame, the whole tree's root is the outermost
      frame's node. */
  lemma {:induction false} PlugTop(ctx: seq<Frame>, t: Tree)
    requires ctx != []
    ensures Plug(ctx, t).Node? && Plug(ctx, t).id == ctx[|ctx| - 1].id
    ensures ctx[|ctx| - 1].id in CtxIds(ctx)
    decreases |ctx|
  {
    if |ctx| > 1 {
      PlugTop(ctx[1..], Attach(ctx[0], t));
      assert ctx[1..][|ctx| - 2] == ctx[|ctx| - 1];
    }
  }

  /** The root of the whole tree is the outermost frame's node. */
  lemma {:induction false} PlugRoot(ctx: seq<Frame>, t: Tree)
    ensures ColorOf(Plug(ctx, t)) == if ctx == [] then ColorOf(t) else ctx[|ctx| - 1].color
    ensures ctx != [] ==> Plug(ctx, t).Node? && Plug(ctx, t).id == ctx[|ctx| - 1].id
    decreases |ctx|
  {
    if ctx != [] {
      PlugRoot(ctx[1..], Attach(ctx[0], t));
    }
  }

  /** `leftRotate` on the subtree it pivots: the right child comes up. */
  function RotateLeft(t: Tree): (r: Tree)
    requires t.Node? && t.right.Node?
  {
    var y := t.right;
    Node(Node(t.left, t.id, t.color, t.key, t.value, y.left), y.id, y.color, y.key, y.value, y.right)
  }

  /** `rightRotate`: the left child comes up. */
  function RotateRight(t: Tree): (r: Tree)
    requires t.Node? && t.left.Node?
  {
    var y := t.left;
    Node(y.left, y.id, y.color, y.key, y.value, Node(y.right, t.id, t.color, t.key, t.value, t.right))
  }

  /** A left rotation keeps the in-order sequence and the nodes. */
  lemma RotateLeftKeepsOrder(t: Tree)
    requires t.Node? && t.right.Node?
    ensures Entries(RotateLeft(t)) == Entries(t) && Ids(RotateLeft(t)) == Ids(t)
  {
    var y := t.right;
    var s := Node(t.left, t.id, t.color, t.key, t.value, y.left);
    Regroup(Entries(t.left), Entry(t.id, t.key, t.value), Entries(y.left), Entry(y.id, y.key, y.value), Entries(y.right));
    assert Entries(s) == Entries(t.left) + [Entry(t.id, t.key, t.value)] + Entries(y.left);
    assert Ids(RotateLeft(t)) == Ids(s) + {y.id} + Ids(y.right);
  }

  /** Two nodes' entries regroup freely around the subtree between them. */
  lemma Regroup(a: seq<Entry>, x: Entry, b: seq<Entry>, y: Entry, c: seq<Entry>)
    ensures (a + [x] + b) + [y] + c == a + [x] + (b + [y] + c)
  {
  }

  lemma RotateLeftKeepsDistinct(t: Tree)
    requires t.Node? && t.right.Node? && Distinct(t)
    ensures Distinct(RotateLeft(t))
  {
  }

  /** A right rotation keeps the in-order sequence and the nodes. */
  lemma RotateRightKeepsOrder(t: Tree)
    requires t.Node? && t.left.Node?
    ensures Entries(RotateRight(t)) == Entries(t) && Ids(RotateRight(t)) == Ids(t)
  {
    var y := t.left;
    var s := Node(y.right, t.id, t.color, t.key, t.value, t.right);
    Regroup(Entries(y.left), Entry(y.id, y.key, y.value), Entries(y.right), Entry(t.id, t.key, t.value), Entries(t.right));
    assert Entries(s) == Entries(y.right) + [Entry(t.id, t.key, t.value)] + Entries(t.right);
    assert Ids(RotateRight(t)) == Ids(y.left) + {y.id} + Ids(s);
  }

  lemma RotateRightKeepsDistinct(t: Tree)
    requires t.Node? && t.left.Node? && Distinct(t)
    ensures Distinct(RotateRight(t))
  {
  }

  /** The two rotations undo each other. */
  lemma RotationsInverse(t: Tree)
    requires t.Node?
    ensures t.right.Node? ==> RotateRight(RotateLeft(t)) == t
    ensures t.left.Node? ==> RotateLeft(RotateRight(t)) == t
  {
  }

  /** The frames from the root of `t` down to its node `x`, innermost
      first. */
  function PathTo(t: Tree, x: int): seq<Frame>
    requires x in Ids(t)
  {
    if t.id == x then []
    else if x in Ids(t.left) then PathTo(t.left, x) + [Frame(L, t.id, t.color, t.key, t.value, t.right)]
    else PathTo(t.right, x) + [Frame(R, t.id, t.color, t.key, t.value, t.left)]
  }

  /** The subtree of `t` rooted at its node `x`. */
  function SubtreeAt(t: Tree, x: int): Tree
    requires x in Ids(t)
  {
    if t.id == x then t
    else if x in Ids(t.left) then SubtreeAt(t.left, x)
    else SubtreeAt(t.right, x)
  }

  lemma {:induction false} PathToPlugs(t: Tree, x: int)
    requires x in Ids(t)
    ensures SubtreeAt(t, x).Node? && SubtreeAt(t, x).id == x
    ensures Plug(PathTo(t, x), SubtreeAt(t, x)) == t
  {
    if t.id != x {
      var s := SubtreeAt(t, x);
      if x in Ids(t.left) {
        PathToPlugs(t.left, x);
        PlugConcat(PathTo(t.left, x), [Frame(L, t.id, t.color, t.key, t.value, t.right)], s);
      } else {
        PathToPlugs(t.right, x);
        PlugConcat(PathTo(t.right, x), [Frame(R, t.id, t.color, t.key, t.value, t.left)], s);
      }
    }
  }
}
