/** Deletion from the red-black tree as values: what `rbDelete(Node*)`
    leaves in place of the removed node, and the invariant
    `rbDeleteFixup` keeps while the extra black climbs, case by case
    (Cormen et al., section 13.4, with the predecessor spliced in). */
module RedBlackDelete {
  import opened RedBlack
  import opened Common
  import opened RedBlackZipper

  /** The entries without the one of node `id`. */
  function Without(es: seq<Entry>, id: int): seq<Entry>
    decreases |es|
  {
    if es == [] then []
    else (if es[0].id == id then [] else [es[0]]) + Without(es[1..], id)
  }

  lemma {:induction false} WithoutConcat(a: seq<Entry>, b: seq<Entry>, id: int)
    ensures Without(a + b, id) == Without(a, id) + Without(b, id)
    decreases |a|
  {
    if a == [] {
      assert a + b == b;
    } else {
      assert (a + b)[0] == a[0] && (a + b)[1..] == a[1..] + b;
      WithoutConcat(a[1..], b, id);
    }
  }

  lemma {:induction false} WithoutAbsent(a: seq<Entry>, id: int)
    requires id !in EntryIds(a)
    ensures Without(a, id) == a
    decreases |a|
  {
    if a != [] {
      assert a[0] in a;
      assert EntryIds(a[1..]) <= EntryIds(a) by {
        forall x | x in EntryIds(a[1..])
          ensures x in EntryIds(a)
        {
          var e :| e in a[1..] && e.id == x;
          assert e in a;
        }
      }
      WithoutAbsent(a[1..], id);
      assert a == [a[0]] + a[1..];
    }
  }

  /** An entry whose id occurs once has no namesake on either side. */
  lemma OnceApart(a: seq<Entry>, e: Entry, b: seq<Entry>)
    requires DistinctIds(a + [e] + b)
    ensures e.id !in EntryIds(a) && e.id !in EntryIds(b)
  {
    var s := a + [e] + b;
    assert s[|a|] == e;
    forall f | f in a
      ensures f.id != e.id
    {
      var i :| 0 <= i < |a| && a[i] == f;
      assert s[i] == f;
    }
    forall f | f in b
      ensures f.id != e.id
    {
      var i :| 0 <= i < |b| && b[i] == f;
      assert s[|a| + 1 + i] == f;
    }
  }

  /** Removing a node that occurs once leaves the entries on both sides of
      it, joined. */
  lemma WithoutSplice(a: seq<Entry>, e: Entry, b: seq<Entry>)
    requires DistinctIds(a + [e] + b)
    ensures Without(a + [e] + b, e.id) == a + b
  {
    OnceApart(a, e, b);
    WithoutBetween(a, e, b);
  }

  lemma WithoutBetween(a: seq<Entry>, e: Entry, b: seq<Entry>)
    requires e.id !in EntryIds(a) && e.id !in EntryIds(b)
    ensures Without(a + [e] + b, e.id) == a + b
  {
    WithoutConcat(a + [e], b, e.id);
    WithoutConcat(a, [e], e.id);
    WithoutAbsent(a, e.id);
    WithoutAbsent(b, e.id);
    calc {
      Without(a + [e] + b, e.id);
      Without(a, e.id) + Without([e], e.id) + Without(b, e.id);
      { assert [e][1..] == []; }
      a + [] + b;
      { assert a + [] == a; }
      a + b;
    }
  }

  lemma WithoutInside(before: seq<Entry>, l: seq<Entry>, e: Entry, r: seq<Entry>, after: seq<Entry>)
    requires DistinctIds(before + (l + [e] + r) + after)
    ensures Without(before + (l + [e] + r) + after, e.id) == before + (l + r) + after
  {
    assert before + (l + [e] + r) + after == (before + l) + [e] + (r + after);
    WithoutSplice(before + l, e, r + after);
    assert (before + l) + (r + after) == before + (l + r) + after;
  }

  /** Whatever takes the place of node `z` and holds exactly the entries of
      its two subtrees leaves the whole tree without `z`'s entry. */
  lemma DeleteEntries(ctx: seq<Frame>, z: Tree, t': Tree)
    requires Distinct(Plug(ctx, z)) && z.Node?
    requires Entries(t') == Before(ctx) + (Entries(z.left) + Entries(z.right)) + After(ctx)
    ensures Entries(t') == Without(Entries(Plug(ctx, z)), z.id)
  {
    PlugEntries(ctx, z);
    EntriesDistinct(Plug(ctx, z));
    WithoutInside(Before(ctx), Entries(z.left), Entry(z.id, z.key, z.value), Entries(z.right), After(ctx));
  }

  lemma {:induction false} WithoutIn(es: seq<Entry>, id: int)
    ensures forall e :: e in Without(es, id) ==> e in es
    decreases |es|
  {
    if es != [] {
      WithoutIn(es[1..], id);
    }
  }

  /** Removing an entry keeps the walk in key order. */
  lemma {:induction false} WithoutSorted(es: seq<Entry>, id: int)
    requires Sorted(es)
    ensures Sorted(Without(es, id))
    decreases |es|
  {
    if es != [] {
      var rest := Without(es[1..], id);
      WithoutSorted(es[1..], id);
      WithoutIn(es[1..], id);
      if es[0].id != id {
        forall i, j | 0 <= i < j < |[es[0]] + rest|
          ensures StrLessEq(([es[0]] + rest)[i].key, ([es[0]] + rest)[j].key)
        {
          if i == 0 {
            var e := rest[j - 1];
            assert e in rest;
            var k :| 0 <= k < |es[1..]| && es[1..][k] == e;
            assert es[k + 1] == e;
          } else {
            assert ([es[0]] + rest)[i] == rest[i - 1] && ([es[0]] + rest)[j] == rest[j - 1];
          }
        }
      } else {
        assert [] + rest == rest;
      }
    }
  }

  /** Neither child of the node may have a red child (the node itself may
      be red with a red child). */
  ghost predicate NoRedRedBelow(t: Tree) {
    t.Leaf? || (NoRedRed(t.left) && NoRedRed(t.right))
  }

  /** What holds at the top of every round of `rbDeleteFixup`: the focus
      `x` (possibly `nil`) carries an extra black. Counting it, the
      black-heights agree; only `x` and its parent may both be red. */
  ghost predicate DeleteInv(ctx: seq<Frame>, t: Tree) {
    NoRedRedBelow(t) && Balanced(t) && CtxFits(ctx, BH(t) + 1, Black) && RootBlack(ctx)
  }

  /** The sibling of `x` is a real node: it has black-height at least one. */
  lemma SiblingExists(ctx: seq<Frame>, t: Tree)
    requires DeleteInv(ctx, t) && ctx != []
    ensures ctx[0].sibling.Node?
  {
  }

  /** The loop stops when `x` is red or the root; painting it black then
      leaves a red-black tree. */
  lemma DeleteDone(ctx: seq<Frame>, t: Tree)
    requires DeleteInv(ctx, t) && (ctx == [] || ColorOf(t) == Red)
    ensures IsRedBlack(Plug(ctx, PaintBlack(t)))
  {
    var t' := PaintBlack(t);
    assert NoRedRed(t') && Balanced(t');
    if ctx != [] {
      assert BH(t') == BH(t) + 1;
    }
    PlugRedBlack(ctx, t');
    PlugRoot(ctx, t');
  }

  /** The child that takes the place of a node with at most one child. */
  lemma OnlyChild(z: Tree, c: Tree)
    requires z.Node? && NoRedRed(z) && Balanced(z)
    requires (z.left == Leaf && c == z.right) || (z.right == Leaf && c == z.left)
    ensures NoRedRed(c) && Balanced(c) && BH(c) == 0 && BH(z) == Blk(z.color)
    ensures z.color == Red ==> ColorOf(c) == Black
  {
  }

  /** `rbDelete(z)` where `z` has at most one child `c`: `c` takes `z`'s
      place, and a black `z` leaves its extra black on `c`. */
  lemma DeleteOneChildStart(ctx: seq<Frame>, z: Tree, c: Tree)
    requires IsRedBlack(Plug(ctx, z)) && z.Node?
    requires (z.left == Leaf && c == z.right) || (z.right == Leaf && c == z.left)
    ensures z.color == Black ==> DeleteInv(ctx, c)
    ensures z.color == Red ==> IsRedBlack(Plug(ctx, c))
  {
    PlugRedBlack(ctx, z);
    PlugRoot(ctx, z);
    assert NoRedRed(z) && Balanced(z) && CtxFits(ctx, BH(z), z.color);
    assert RootBlack(ctx);
    OnlyChild(z, c);
    if z.color == Red {
      assert BH(z) == 0 && ColorOf(c) == Black;
      CtxFitsBlack(ctx, 0, Red);
      PlugRedBlack(ctx, c);
      PlugRoot(ctx, c);
    } else {
      assert BH(c) + 1 == BH(z);
      ExtraBlackOn(ctx, c);
    }
  }

  /** A black-height-zero subtree in a slot that fits black-height one
      carries the extra black. */
  lemma ExtraBlackOn(ctx: seq<Frame>, c: Tree)
    requires NoRedRed(c) && Balanced(c)
    requires CtxFits(ctx, BH(c) + 1, Black) && RootBlack(ctx)
    ensures DeleteInv(ctx, c)
  {
  }

  /** A red-black subtree that fits its frames, under a black root, makes
      a red-black tree. */
  lemma FitsRedBlack(ctx: seq<Frame>, t: Tree)
    requires NoRedRed(t) && Balanced(t) && ColorOf(t) == Black
    requires CtxFits(ctx, BH(t), Black) && RootBlack(ctx)
    ensures IsRedBlack(Plug(ctx, t))
  {
    PlugRedBlack(ctx, t);
    PlugRoot(ctx, t);
  }

  lemma DeleteOneChildEntries(ctx: seq<Frame>, z: Tree, c: Tree)
    requires Distinct(Plug(ctx, z)) && z.Node?
    requires (z.left == Leaf && c == z.right) || (z.right == Leaf && c == z.left)
    ensures Entries(Plug(ctx, c)) == Without(Entries(Plug(ctx, z)), z.id)
  {
    PlugEntries(ctx, c);
    OnlyChildEntries(z, c);
    DeleteEntries(ctx, z, Plug(ctx, c));
  }

  lemma OnlyChildEntries(z: Tree, c: Tree)
    requires z.Node?
    requires (z.left == Leaf && c == z.right) || (z.right == Leaf && c == z.left)
    ensures Entries(c) == Entries(z.left) + Entries(z.right)
  {
    if z.left == Leaf && c == z.right {
      assert [] + Entries(c) == Entries(c);
    } else {
      assert Entries(c) + [] == Entries(c);
    }
  }

  /** `rbDelete(z)` with two children: the predecessor `y`, the maximum of
      `z`'s left subtree reached along `path`, takes `z`'s place and
      colour, and `y`'s left child `x` takes `y`'s old place. */
  function SpliceCtx(ctx: seq<Frame>, z: Tree, path: seq<Frame>, y: Tree): seq<Frame>
    requires z.Node? && y.Node?
  {
    path + ([Frame(L, y.id, z.color, y.key, y.value, z.right)] + ctx)
  }

  lemma DeleteTwoStart(ctx: seq<Frame>, z: Tree, path: seq<Frame>, y: Tree)
    requires IsRedBlack(Plug(ctx, z)) && z.Node? && y.Node? && y.right == Leaf
    requires z.left == Plug(path, y)
    ensures y.color == Black ==> DeleteInv(SpliceCtx(ctx, z, path, y), y.left)
    ensures y.color == Red ==> IsRedBlack(Plug(SpliceCtx(ctx, z, path, y), y.left))
  {
    var c' := SpliceCtx(ctx, z, path, y);
    SpliceFits(ctx, z, path, y);
    assert NoRedRed(y.left) && Balanced(y.left);
    if y.color == Red {
      assert BH(y) == BH(y.left) && ColorOf(y.left) == Black;
      FitsRedBlack(c', y.left);
    } else {
      assert BH(y) == BH(y.left) + 1;
      ExtraBlackOn(c', y.left);
    }
  }

  /** After the splice, the frames above `y`'s old place fit `y`'s
      black-height. */
  lemma SpliceFits(ctx: seq<Frame>, z: Tree, path: seq<Frame>, y: Tree)
    requires IsRedBlack(Plug(ctx, z)) && z.Node? && y.Node?
    requires z.left == Plug(path, y)
    ensures NoRedRed(y) && Balanced(y)
    ensures CtxFits(SpliceCtx(ctx, z, path, y), BH(y), Black) && RootBlack(SpliceCtx(ctx, z, path, y))
  {
    var fy := Frame(L, y.id, z.color, y.key, y.value, z.right);
    var c' := SpliceCtx(ctx, z, path, y);
    var h := BH(y);
    PlugRedBlack(ctx, z);
    PlugRoot(ctx, z);
    assert NoRedRed(z.left) && Balanced(z.left);
    PlugRedBlack(path, y);
    PlugRoot(path, y);
    PlugBH(path, y);
    CtxFitsBlack(path, h, y.color);
    var top := TopColor(path, Black);
    assert z.color == Red ==> top == Black;
    assert RootBlack(ctx) && (ctx == [] ==> z.color == Black);
    FrameOnTop(ctx, z, y.id, y.key, y.value, top);
    assert BH(z.left) == h + CtxBlk(path);
    assert CtxFits(path, h, Black) && CtxFits([fy] + ctx, h + CtxBlk(path), top);
    CtxFitsConcat(path, [fy] + ctx, h, Black);
    SpliceRoot(ctx, z, path, y);
  }

  /** The outermost frame after the splice is black. */
  lemma SpliceRoot(ctx: seq<Frame>, z: Tree, path: seq<Frame>, y: Tree)
    requires z.Node? && y.Node? && RootBlack(ctx) && (ctx == [] ==> z.color == Black)
    ensures RootBlack(SpliceCtx(ctx, z, path, y))
  {
    var c' := SpliceCtx(ctx, z, path, y);
    assert c'[|c'| - 1] == if ctx == [] then c'[|path|] else ctx[|ctx| - 1];
  }

  /** `y`'s frame in `z`'s place, with `z`'s colour and right subtree,
      fits as `z` did. */
  lemma FrameOnTop(ctx: seq<Frame>, z: Tree, id: int, k: string, v: string, c: Color)
    requires z.Node? && NoRedRed(z) && Balanced(z) && CtxFits(ctx, BH(z), z.color)
    requires z.color == Red ==> c == Black
    ensures CtxFits([Frame(L, id, z.color, k, v, z.right)] + ctx, BH(z.left), c)
  {
    assert ([Frame(L, id, z.color, k, v, z.right)] + ctx)[1..] == ctx;
  }

  /** The tree after the splice: `z`'s place holds `y` over `z`'s left
      subtree with `y` removed and `z`'s right subtree. */
  lemma SpliceTree(ctx: seq<Frame>, z: Tree, path: seq<Frame>, y: Tree)
    requires z.Node? && y.Node?
    ensures Plug(SpliceCtx(ctx, z, path, y), y.left)
      == Plug(ctx, Node(Plug(path, y.left), y.id, z.color, y.key, y.value, z.right))
  {
    var fy := Frame(L, y.id, z.color, y.key, y.value, z.right);
    assert SpliceCtx(ctx, z, path, y) == path + ([fy] + ctx);
    PlugConcat(path, [fy] + ctx, y.left);
    PlugConcat([fy], ctx, Plug(path, y.left));
  }

  /** The maximum of a subtree is its last entry. */
  lemma MaximumLast(path: seq<Frame>, y: Tree)
    requires y.Node? && y.right == Leaf && AllRight(path)
    ensures Entries(Plug(path, y)) == Entries(Plug(path, y.left)) + [Entry(y.id, y.key, y.value)]
  {
    PlugEntries(path, y.left);
    PlugEntries(path, y);
    AllRightNothingAfter(path);
    assert Entries(y) == Entries(y.left) + [Entry(y.id, y.key, y.value)];
  }

  lemma DeleteTwoEntries(ctx: seq<Frame>, z: Tree, path: seq<Frame>, y: Tree)
    requires Distinct(Plug(ctx, z)) && z.Node? && y.Node? && y.right == Leaf
    requires z.left == Plug(path, y) && AllRight(path)
    ensures Entries(Plug(SpliceCtx(ctx, z, path, y), y.left)) == Without(Entries(Plug(ctx, z)), z.id)
  {
    var inner := Node(Plug(path, y.left), y.id, z.color, y.key, y.value, z.right);
    SpliceTree(ctx, z, path, y);
    MaximumLast(path, y);
    assert Entries(inner) == Entries(z.left) + Entries(z.right);
    PlugEntries(ctx, inner);
    DeleteEntries(ctx, z, Plug(ctx, inner));
  }

  /** Case 1, `x` a left child: the sibling `w` is red. `w` turns black,
      the parent red, and the left rotation at the parent gives `x` a
      black sibling. */
  function RedSiblingLeftCtx(ctx: seq<Frame>): seq<Frame>
    requires ctx != [] && ctx[0].sibling.Node?
  {
    var p, w := ctx[0], ctx[0].sibling;
    [Frame(L, p.id, Red, p.key, p.value, w.left), Frame(L, w.id, Black, w.key, w.value, w.right)] + ctx[1..]
  }

  lemma DeleteCase1Left(ctx: seq<Frame>, t: Tree)
    requires DeleteInv(ctx, t) && ColorOf(t) == Black && ctx != [] && ctx[0].dir == L
    requires ColorOf(ctx[0].sibling) == Red
    ensures DeleteInv(RedSiblingLeftCtx(ctx), t)
    ensures RedSiblingLeftCtx(ctx)[0].color == Red && RedSiblingLeftCtx(ctx)[0].dir == L
    ensures ColorOf(RedSiblingLeftCtx(ctx)[0].sibling) == Black
  {
    var c' := RedSiblingLeftCtx(ctx);
    var p, w, h := ctx[0], ctx[0].sibling, BH(t) + 1;
    assert p.color == Black && w.color == Red;
    assert BH(w.left) == h && BH(w.right) == h;
    assert ColorOf(w.left) == Black && ColorOf(w.right) == Black;
    assert CtxFits(ctx[1..], h + 1, Black);
    assert CtxFits(c'[1..], h, Red) by {
      assert c'[1..][1..] == ctx[1..];
    }
    assert CtxFits(c', h, Black);
    assert c'[|c'| - 1] == if |ctx| == 1 then c'[1] else ctx[|ctx| - 1];
  }

  function RedSiblingRightCtx(ctx: seq<Frame>): seq<Frame>
    requires ctx != [] && ctx[0].sibling.Node?
  {
    var p, w := ctx[0], ctx[0].sibling;
    [Frame(R, p.id, Red, p.key, p.value, w.right), Frame(R, w.id, Black, w.key, w.value, w.left)] + ctx[1..]
  }

  lemma DeleteCase1Right(ctx: seq<Frame>, t: Tree)
    requires DeleteInv(ctx, t) && ColorOf(t) == Black && ctx != [] && ctx[0].dir == R
    requires ColorOf(ctx[0].sibling) == Red
    ensures DeleteInv(RedSiblingRightCtx(ctx), t)
    ensures RedSiblingRightCtx(ctx)[0].color == Red && RedSiblingRightCtx(ctx)[0].dir == R
    ensures ColorOf(RedSiblingRightCtx(ctx)[0].sibling) == Black
  {
    var c' := RedSiblingRightCtx(ctx);
    var p, w, h := ctx[0], ctx[0].sibling, BH(t) + 1;
    assert p.color == Black && w.color == Red;
    assert BH(w.right) == h && BH(w.left) == h;
    assert ColorOf(w.right) == Black && ColorOf(w.left) == Black;
    assert CtxFits(ctx[1..], h + 1, Black);
    assert CtxFits(c'[1..], h, Red) by {
      assert c'[1..][1..] == ctx[1..];
    }
    assert CtxFits(c', h, Black);
    assert c'[|c'| - 1] == if |ctx| == 1 then c'[1] else ctx[|ctx| - 1];
  }

  /** The recoloured parent and sibling before the rotation of case 1. */
  function RedSiblingRecolored(ctx: seq<Frame>, t: Tree): Tree
    requires ctx != [] && ctx[0].sibling.Node?
  {
    Attach(ctx[0].(color := Red, sibling := ctx[0].sibling.(color := Black)), t)
  }

  /** The rotation of case 1 leaves `x` under the old parent, under `w`. */
  lemma RedSiblingRotates(ctx: seq<Frame>, t: Tree)
    requires ctx != [] && ctx[0].sibling.Node?
    ensures ctx[0].dir == L ==>
      (RedSiblingRecolored(ctx, t).right.Node?
       && RotateLeft(RedSiblingRecolored(ctx, t))
          == Attach(RedSiblingLeftCtx(ctx)[1], Attach(RedSiblingLeftCtx(ctx)[0], t))
       && RedSiblingLeftCtx(ctx)[2..] == ctx[1..])
    ensures ctx[0].dir == R ==>
      (RedSiblingRecolored(ctx, t).left.Node?
       && RotateRight(RedSiblingRecolored(ctx, t))
          == Attach(RedSiblingRightCtx(ctx)[1], Attach(RedSiblingRightCtx(ctx)[0], t))
       && RedSiblingRightCtx(ctx)[2..] == ctx[1..])
  {
    assert RedSiblingLeftCtx(ctx)[2..] == ctx[1..];
    assert RedSiblingRightCtx(ctx)[2..] == ctx[1..];
  }

  /** Case 2: the sibling and both its children are black. The sibling
      turns red and the extra black moves up to the parent. */
  function PushUp(ctx: seq<Frame>, t: Tree): Tree
    requires ctx != [] && ctx[0].sibling.Node?
  {
    Attach(ctx[0].(sibling := ctx[0].sibling.(color := Red)), t)
  }

  lemma DeleteCase2(ctx: seq<Frame>, t: Tree)
    requires DeleteInv(ctx, t) && ColorOf(t) == Black && ctx != []
    requires ctx[0].sibling.Node? && ctx[0].sibling.color == Black
    requires ColorOf(ctx[0].sibling.left) == Black && ColorOf(ctx[0].sibling.right) == Black
    ensures DeleteInv(ctx[1..], PushUp(ctx, t))
    ensures ColorOf(PushUp(ctx, t)) == ctx[0].color
  {
    var h := BH(t) + 1 + Blk(ctx[0].color);
    assert CtxFits(ctx[1..], h, ctx[0].color);
    CtxFitsBlack(ctx[1..], h, ctx[0].color);
  }

  /** Case 3, `x` a left child: the sibling is black, its right child
      black and its left child red. Recolouring and a right rotation at
      the sibling give it a red right child. */
  function NearRedLeft(w: Tree): Tree
    requires w.Node? && w.left.Node?
  {
    RotateRight(w.(color := Red, left := w.left.(color := Black)))
  }

  /** The sibling's subtrees in cases 3 and 4: what `DeleteInv` says about
      them, spelled out. */
  lemma SiblingParts(ctx: seq<Frame>, t: Tree)
    requires DeleteInv(ctx, t) && ctx != []
    ensures NoRedRed(ctx[0].sibling) && Balanced(ctx[0].sibling)
    ensures BH(ctx[0].sibling) == BH(t) + 1
    ensures ctx[0].color == Red ==> ColorOf(ctx[0].sibling) == Black
    ensures CtxFits(ctx[1..], BH(t) + 1 + Blk(ctx[0].color), ctx[0].color)
  {
  }

  lemma DeleteCase3Left(ctx: seq<Frame>, t: Tree)
    requires DeleteInv(ctx, t) && ColorOf(t) == Black && ctx != [] && ctx[0].dir == L
    requires ctx[0].sibling.Node? && ctx[0].sibling.color == Black
    requires ColorOf(ctx[0].sibling.left) == Red && ColorOf(ctx[0].sibling.right) == Black
    ensures DeleteInv([ctx[0].(sibling := NearRedLeft(ctx[0].sibling))] + ctx[1..], t)
    ensures NearRedLeft(ctx[0].sibling).color == Black
    ensures ColorOf(NearRedLeft(ctx[0].sibling).right) == Red
  {
    SiblingParts(ctx, t);
    var w := ctx[0].sibling;
    var wl := w.left;
    assert NoRedRed(wl) && NoRedRed(w.right) && Balanced(wl) && Balanced(w.right);
    assert NoRedRed(wl.left) && NoRedRed(wl.right) && ColorOf(wl.right) == Black;
    assert BH(wl.left) == BH(t) && BH(wl.right) == BH(t) && BH(w.right) == BH(t);
    var inner := Node(wl.right, w.id, Red, w.key, w.value, w.right);
    assert NoRedRed(inner) && Balanced(inner) && BH(inner) == BH(t);
    var w' := Node(wl.left, wl.id, Black, wl.key, wl.value, inner);
    assert NearRedLeft(w) == w';
    assert NoRedRed(w') && Balanced(w') && BH(w') == BH(t) + 1;
    var c' := [ctx[0].(sibling := w')] + ctx[1..];
    assert c'[1..] == ctx[1..];
    assert c'[|c'| - 1].color == ctx[|ctx| - 1].color;
  }

  function NearRedRight(w: Tree): Tree
    requires w.Node? && w.right.Node?
  {
    RotateLeft(w.(color := Red, right := w.right.(color := Black)))
  }

  lemma DeleteCase3Right(ctx: seq<Frame>, t: Tree)
    requires DeleteInv(ctx, t) && ColorOf(t) == Black && ctx != [] && ctx[0].dir == R
    requires ctx[0].sibling.Node? && ctx[0].sibling.color == Black
    requires ColorOf(ctx[0].sibling.right) == Red && ColorOf(ctx[0].sibling.left) == Black
    ensures DeleteInv([ctx[0].(sibling := NearRedRight(ctx[0].sibling))] + ctx[1..], t)
    ensures NearRedRight(ctx[0].sibling).color == Black
    ensures ColorOf(NearRedRight(ctx[0].sibling).left) == Red
  {
    SiblingParts(ctx, t);
    var w := ctx[0].sibling;
    var wr := w.right;
    assert NoRedRed(wr) && NoRedRed(w.left) && Balanced(wr) && Balanced(w.left);
    assert NoRedRed(wr.left) && NoRedRed(wr.right) && ColorOf(wr.left) == Black;
    assert BH(wr.left) == BH(t) && BH(wr.right) == BH(t) && BH(w.left) == BH(t);
    var inner := Node(w.left, w.id, Red, w.key, w.value, wr.left);
    assert NoRedRed(inner) && Balanced(inner) && BH(inner) == BH(t);
    var w' := Node(inner, wr.id, Black, wr.key, wr.value, wr.right);
    assert NearRedRight(w) == w';
    assert NoRedRed(w') && Balanced(w') && BH(w') == BH(t) + 1;
    var c' := [ctx[0].(sibling := w')] + ctx[1..];
    assert c'[1..] == ctx[1..];
    assert c'[|c'| - 1].color == ctx[|ctx| - 1].color;
  }

  /** Case 4, `x` a left child: the sibling is black with a red right
      child. The sibling takes the parent's colour, parent and far nephew
      turn black, and the left rotation at the parent absorbs the extra
      black: the tree is red-black again, but for maybe a red root. */
  function FarRedLeft(ctx: seq<Frame>, t: Tree): Tree
    requires ctx != [] && ctx[0].sibling.Node?
  {
    var p, w := ctx[0], ctx[0].sibling;
    Node(t, p.id, Black, p.key, p.value, w.(color := p.color, right := PaintBlack(w.right)))
  }

  lemma DeleteCase4Left(ctx: seq<Frame>, t: Tree)
    requires DeleteInv(ctx, t) && ColorOf(t) == Black && ctx != [] && ctx[0].dir == L
    requires ctx[0].sibling.Node? && ctx[0].sibling.color == Black
    requires ColorOf(ctx[0].sibling.right) == Red
    ensures FarRedLeft(ctx, t).right.Node?
    ensures DeleteInv([], Plug(ctx[1..], RotateLeft(FarRedLeft(ctx, t))))
  {
    SiblingParts(ctx, t);
    var p, w := ctx[0], ctx[0].sibling;
    assert NoRedRed(t);
    assert NoRedRed(w.left) && NoRedRed(w.right) && Balanced(w.left) && Balanced(w.right);
    assert BH(w.left) == BH(t) && BH(w.right) == BH(t);
    var far := PaintBlack(w.right);
    assert NoRedRed(far) && Balanced(far) && BH(far) == BH(t) + 1 && ColorOf(far) == Black;
    var near := Node(t, p.id, Black, p.key, p.value, w.left);
    assert NoRedRed(near) && Balanced(near) && BH(near) == BH(t) + 1;
    var n := Node(near, w.id, p.color, w.key, w.value, far);
    assert RotateLeft(FarRedLeft(ctx, t)) == n;
    assert NoRedRed(n) && Balanced(n) && BH(n) == BH(t) + 1 + Blk(p.color);
    PlugRedBlack(ctx[1..], n);
  }

  function FarRedRight(ctx: seq<Frame>, t: Tree): Tree
    requires ctx != [] && ctx[0].sibling.Node?
  {
    var p, w := ctx[0], ctx[0].sibling;
    Node(w.(color := p.color, left := PaintBlack(w.left)), p.id, Black, p.key, p.value, t)
  }

  lemma DeleteCase4Right(ctx: seq<Frame>, t: Tree)
    requires DeleteInv(ctx, t) && ColorOf(t) == Black && ctx != [] && ctx[0].dir == R
    requires ctx[0].sibling.Node? && ctx[0].sibling.color == Black
    requires ColorOf(ctx[0].sibling.left) == Red
    ensures FarRedRight(ctx, t).left.Node?
    ensures DeleteInv([], Plug(ctx[1..], RotateRight(FarRedRight(ctx, t))))
  {
    SiblingParts(ctx, t);
    var p, w := ctx[0], ctx[0].sibling;
    assert NoRedRed(t);
    assert NoRedRed(w.left) && NoRedRed(w.right) && Balanced(w.left) && Balanced(w.right);
    assert BH(w.left) == BH(t) && BH(w.right) == BH(t);
    var far := PaintBlack(w.left);
    assert NoRedRed(far) && Balanced(far) && BH(far) == BH(t) + 1 && ColorOf(far) == Black;
    var near := Node(w.right, p.id, Black, p.key, p.value, t);
    assert NoRedRed(near) && Balanced(near) && BH(near) == BH(t) + 1;
    var n := Node(far, w.id, p.color, w.key, w.value, near);
    assert RotateRight(FarRedRight(ctx, t)) == n;
    assert NoRedRed(n) && Balanced(n) && BH(n) == BH(t) + 1 + Blk(p.color);
    PlugRedBlack(ctx[1..], n);
  }

  lemma PlugTwo(f: Frame, g: Frame, t: Tree)
    ensures Plug([f, g], t) == Attach(g, Attach(f, t))
  {
    assert [f, g][1..] == [g] && [g][1..] == [];
    calc {
      Plug([f, g], t);
      Plug([g], Attach(f, t));
      Plug([], Attach(g, Attach(f, t)));
    }
  }

  /** The rotations and recolourings of the four cases move no entry. */
  lemma Case1KeepsEntries(ctx: seq<Frame>, t: Tree)
    requires ctx != [] && ctx[0].sibling.Node?
    ensures ctx[0].dir == L ==> Entries(Plug(RedSiblingLeftCtx(ctx), t)) == Entries(Plug(ctx, t))
    ensures ctx[0].dir == R ==> Entries(Plug(RedSiblingRightCtx(ctx), t)) == Entries(Plug(ctx, t))
  {
    var rc := RedSiblingRecolored(ctx, t);
    assert Entries(rc) == Entries(Attach(ctx[0], t));
    RedSiblingRotates(ctx, t);
    var c' := if ctx[0].dir == L then RedSiblingLeftCtx(ctx) else RedSiblingRightCtx(ctx);
    assert c' == [c'[0], c'[1]] + c'[2..];
    PlugConcat([c'[0], c'[1]], c'[2..], t);
    PlugTwo(c'[0], c'[1], t);
    if ctx[0].dir == L {
      RotateLeftKeepsOrder(rc);
      PlugSameEntries(ctx[1..], RotateLeft(rc), Attach(ctx[0], t));
    } else {
      RotateRightKeepsOrder(rc);
      PlugSameEntries(ctx[1..], RotateRight(rc), Attach(ctx[0], t));
    }
  }

  lemma Case2KeepsEntries(ctx: seq<Frame>, t: Tree)
    requires ctx != [] && ctx[0].sibling.Node?
    ensures Entries(Plug(ctx[1..], PushUp(ctx, t))) == Entries(Plug(ctx, t))
  {
    assert Entries(PushUp(ctx, t)) == Entries(Attach(ctx[0], t));
    PlugSameEntries(ctx[1..], PushUp(ctx, t), Attach(ctx[0], t));
  }

  lemma Case3KeepsEntries(ctx: seq<Frame>, t: Tree)
    requires ctx != [] && ctx[0].sibling.Node?
    ensures ctx[0].dir == L && ctx[0].sibling.left.Node? ==>
      Entries(Plug([ctx[0].(sibling := NearRedLeft(ctx[0].sibling))] + ctx[1..], t)) == Entries(Plug(ctx, t))
    ensures ctx[0].dir == R && ctx[0].sibling.right.Node? ==>
      Entries(Plug([ctx[0].(sibling := NearRedRight(ctx[0].sibling))] + ctx[1..], t)) == Entries(Plug(ctx, t))
  {
    var w := ctx[0].sibling;
    if ctx[0].dir == L && w.left.Node? {
      var w0 := w.(color := Red, left := w.left.(color := Black));
      RotateRightKeepsOrder(w0);
      assert Entries(w0) == Entries(w);
      var f' := ctx[0].(sibling := NearRedLeft(w));
      assert ([f'] + ctx[1..])[1..] == ctx[1..];
      assert Entries(Attach(f', t)) == Entries(Attach(ctx[0], t));
      PlugSameEntries(ctx[1..], Attach(f', t), Attach(ctx[0], t));
    }
    if ctx[0].dir == R && w.right.Node? {
      var w0 := w.(color := Red, right := w.right.(color := Black));
      RotateLeftKeepsOrder(w0);
      assert Entries(w0) == Entries(w);
      var f' := ctx[0].(sibling := NearRedRight(w));
      assert ([f'] + ctx[1..])[1..] == ctx[1..];
      assert Entries(Attach(f', t)) == Entries(Attach(ctx[0], t));
      PlugSameEntries(ctx[1..], Attach(f', t), Attach(ctx[0], t));
    }
  }

  lemma Case4KeepsEntries(ctx: seq<Frame>, t: Tree)
    requires ctx != [] && ctx[0].sibling.Node?
    ensures ctx[0].dir == L && ctx[0].sibling.right.Node? ==>
      Entries(Plug(ctx[1..], RotateLeft(FarRedLeft(ctx, t)))) == Entries(Plug(ctx, t))
    ensures ctx[0].dir == R && ctx[0].sibling.left.Node? ==>
      Entries(Plug(ctx[1..], RotateRight(FarRedRight(ctx, t)))) == Entries(Plug(ctx, t))
  {
    var w := ctx[0].sibling;
    if ctx[0].dir == L && w.right.Node? {
      var f := FarRedLeft(ctx, t);
      RotateLeftKeepsOrder(f);
      assert Entries(PaintBlack(w.right)) == Entries(w.right);
      assert Entries(f) == Entries(Attach(ctx[0], t));
      PlugSameEntries(ctx[1..], RotateLeft(f), Attach(ctx[0], t));
    }
    if ctx[0].dir == R && w.left.Node? {
      var f := FarRedRight(ctx, t);
      RotateRightKeepsOrder(f);
      assert Entries(PaintBlack(w.left)) == Entries(w.left);
      assert Entries(f) == Entries(Attach(ctx[0], t));
      PlugSameEntries(ctx[1..], RotateRight(f), Attach(ctx[0], t));
    }
  }
}
