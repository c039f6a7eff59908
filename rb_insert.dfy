/** Insertion into the red-black tree as values: where `rbInsert(Node*)`
    hangs the new node, and the invariant `rbInsertFixup` keeps while it
    climbs, case by case (Cormen et al., section 13.3). */
module RedBlackInsert {
  import opened Common
  import opened RedBlack
  import opened RedBlackZipper

  /** The descent of `rbInsert(Node*)`: left only for strictly smaller
      keys, and the new red node replaces the nil leaf it reaches. */
  function InsertT(t: Tree, id: int, k: string, v: string): Tree {
    match t
    case Leaf => Node(Leaf, id, Red, k, v, Leaf)
    case Node(l, i, c, kk, vv, r) =>
      if StrLess(k, kk) then Node(InsertT(l, id, k, v), i, c, kk, vv, r)
      else Node(l, i, c, kk, vv, InsertT(r, id, k, v))
  }

  /** How many in-order entries precede the new one. */
  function InsertPos(t: Tree, k: string): (n: nat)
    ensures n <= |Entries(t)|
  {
    match t
    case Leaf => 0
    case Node(l, _, _, kk, _, r) =>
      if StrLess(k, kk) then InsertPos(l, k) else |Entries(l)| + 1 + InsertPos(r, k)
  }

  lemma InsertLeftSplice(el: seq<Entry>, m: Entry, er: seq<Entry>, e: Entry, n: nat)
    requires n <= |el|
    ensures (el[..n] + [e] + el[n..]) + [m] + er
      == (el + [m] + er)[..n] + [e] + (el + [m] + er)[n..]
  {
    var es := el + [m] + er;
    assert es[..n] == el[..n];
    assert es[n..] == el[n..] + [m] + er;
  }

  lemma InsertRightSplice(el: seq<Entry>, m: Entry, er: seq<Entry>, e: Entry, n: nat)
    requires n <= |er|
    ensures el + [m] + (er[..n] + [e] + er[n..])
      == (el + [m] + er)[..|el| + 1 + n] + [e] + (el + [m] + er)[|el| + 1 + n..]
  {
    var es, q := el + [m] + er, |el| + 1 + n;
    assert es[..q] == el + [m] + er[..n];
    assert es[q..] == er[n..];
  }

  /** The in-order sequence gains exactly the new entry, at `InsertPos`. */
  lemma {:induction false} InsertTEntries(t: Tree, id: int, k: string, v: string)
    ensures InsertPos(t, k) <= |Entries(t)|
    ensures Entries(InsertT(t, id, k, v))
      == Entries(t)[..InsertPos(t, k)] + [Entry(id, k, v)] + Entries(t)[InsertPos(t, k)..]
  {
    match t
    case Leaf =>
    case Node(l, i, c, kk, vv, r) =>
      if StrLess(k, kk) {
        InsertTEntries(l, id, k, v);
        InsertLeftSplice(Entries(l), Entry(i, kk, vv), Entries(r), Entry(id, k, v), InsertPos(l, k));
      } else {
        InsertTEntries(r, id, k, v);
        InsertRightSplice(Entries(l), Entry(i, kk, vv), Entries(r), Entry(id, k, v), InsertPos(r, k));
      }
  }

  /** In a sorted tree every entry before the insertion point has a key at
      or below the new key, and every entry after it a strictly greater
      key: duplicates go after the keys they equal. */
  lemma {:induction false} InsertPosSplits(t: Tree, k: string)
    requires Sorted(Entries(t))
    ensures InsertPos(t, k) <= |Entries(t)|
    ensures forall i :: 0 <= i < InsertPos(t, k) ==> !StrLess(k, Entries(t)[i].key)
    ensures forall i :: InsertPos(t, k) <= i < |Entries(t)| ==> StrLess(k, Entries(t)[i].key)
  {
    match t
    case Leaf =>
    case Node(l, i, c, kk, vv, r) =>
      var es, el, er := Entries(t), Entries(l), Entries(r);
      SortedSplit(t);
      assert forall j :: 0 <= j < |el| ==> es[j] == el[j];
      assert forall j :: 0 <= j < |er| ==> es[|el| + 1 + j] == er[j];
      assert es[|el|].key == kk;
      if StrLess(k, kk) {
        InsertPosSplits(l, k);
        forall j | |el| <= j < |es|
          ensures StrLess(k, es[j].key)
        {
          if j > |el| {
            assert es[j] in er;
            StrLessEqTotalOrder(k, kk, es[j].key);
            if StrLess(kk, es[j].key) {
              StrLessTransitive(k, kk, es[j].key);
            }
          }
        }
      } else {
        InsertPosSplits(r, k);
        forall j | 0 <= j <= |el|
          ensures !StrLess(k, es[j].key)
        {
          if j < |el| {
            assert es[j] in el;
            if StrLess(k, es[j].key) {
              StrLessEqTotalOrder(es[j].key, kk, k);
              if StrLess(es[j].key, kk) {
                StrLessTransitive(k, es[j].key, kk);
              }
            }
          }
        }
      }
  }

  /** Hence the key order survives the insertion. */
  lemma InsertKeepsSorted(t: Tree, id: int, k: string, v: string)
    requires Sorted(Entries(t))
    ensures Sorted(Entries(InsertT(t, id, k, v)))
  {
    InsertTEntries(t, id, k, v);
    InsertPosSplits(t, k);
    var es, n := Entries(t), InsertPos(t, k);
    var es' := Entries(InsertT(t, id, k, v));
    forall i, j | 0 <= i < j < |es'|
      ensures StrLessEq(es'[i].key, es'[j].key)
    {
      if j < n {
        assert es'[i] == es[i] && es'[j] == es[j];
      } else if i > n {
        assert es'[i] == es[i - 1] && es'[j] == es[j - 1];
      } else if i == n {
        assert es'[j] == es[j - 1];
        assert StrLess(k, es[j - 1].key);
      } else if j == n {
        assert es'[i] == es[i];
        StrLessTrichotomy(k, es[i].key);
      } else {
        assert es'[i] == es[i] && es'[j] == es[j - 1];
      }
    }
  }

  /** What holds at the top of every round of `rbInsertFixup`: the focus
      `z` is red and a valid red-black subtree, and the tree is a
      red-black tree except that `z`'s parent may be red too. */
  ghost predicate InsertInv(ctx: seq<Frame>, t: Tree) {
    t.Node? && t.color == Red && NoRedRed(t) && Balanced(t)
    && CtxFits(ctx, BH(t), Black) && RootBlack(ctx)
  }

  /** The freshly linked red node satisfies the invariant. */
  lemma InsertInvStart(ctx: seq<Frame>, id: int, k: string, v: string)
    requires IsRedBlack(Plug(ctx, Leaf))
    ensures InsertInv(ctx, Node(Leaf, id, Red, k, v, Leaf))
  {
    PlugRedBlack(ctx, Leaf);
    PlugRoot(ctx, Leaf);
  }

  /** A red parent is never the root, and its parent is black. */
  lemma InsertInvGrandparent(ctx: seq<Frame>, t: Tree)
    requires InsertInv(ctx, t) && ctx != [] && ctx[0].color == Red
    ensures |ctx| >= 2 && ctx[1].color == Black
  {
    assert CtxFits(ctx[1..], BH(t), Red);
  }

  /** Once the parent is black (or there is none), only the root may
      break the red-black properties, and only by being red. */
  lemma InsertInvDone(ctx: seq<Frame>, t: Tree)
    requires InsertInv(ctx, t) && (ctx == [] || ctx[0].color == Black)
    ensures NoRedRed(Plug(ctx, t)) && Balanced(Plug(ctx, t))
    ensures Plug(ctx, t).Node?
    ensures ctx != [] ==> Plug(ctx, t).color == Black
  {
    PlugRedBlack(ctx, t);
    PlugRoot(ctx, t);
  }

  /** The subtree of the grandparent with parent and grandparent put back. */
  function Grand(ctx: seq<Frame>, t: Tree): Tree
    requires |ctx| >= 2
  {
    Attach(ctx[1], Attach(ctx[0], t))
  }

  lemma PlugGrand(ctx: seq<Frame>, t: Tree)
    requires |ctx| >= 2
    ensures Plug(ctx, t) == Plug(ctx[2..], Grand(ctx, t))
  {
    assert ctx[1..][1..] == ctx[2..];
  }

  /** Case 1: the uncle is red. Parent and uncle turn black, the
      grandparent red, and the grandparent becomes the new focus. */
  function RecolorUp(ctx: seq<Frame>, t: Tree): Tree
    requires |ctx| >= 2
  {
    var u := ctx[1].sibling;
    Attach(ctx[1].(color := Red, sibling := PaintBlack(u)), Attach(ctx[0].(color := Black), t))
  }

  lemma InsertCase1(ctx: seq<Frame>, t: Tree)
    requires InsertInv(ctx, t) && |ctx| >= 2 && ctx[0].color == Red
    requires ColorOf(ctx[1].sibling) == Red
    ensures InsertInv(ctx[2..], RecolorUp(ctx, t))
  {
    InsertInvGrandparent(ctx, t);
    assert CtxFits(ctx[1..], BH(t), Red);
    assert ctx[1..][1..] == ctx[2..];
    assert CtxFits(ctx[2..], BH(t) + 1, Black);
  }

  /** The parent, turned black, and the grandparent, turned red, before
      the rotation of case 3. */
  function Recolored(ctx: seq<Frame>, t: Tree): Tree
    requires |ctx| >= 2
  {
    Attach(ctx[1].(color := Red), Attach(ctx[0].(color := Black), t))
  }

  /** Case 2, parent a left child: `z` is a right child; rotating left at
      the parent makes the old parent the red focus, a left child of `z`. */
  function TurnLeftCtx(ctx: seq<Frame>, t: Tree): seq<Frame>
    requires ctx != [] && t.Node?
  {
    [Frame(L, t.id, t.color, t.key, t.value, t.right)] + ctx[1..]
  }

  function TurnLeftFocus(ctx: seq<Frame>, t: Tree): Tree
    requires ctx != [] && t.Node?
  {
    Node(ctx[0].sibling, ctx[0].id, ctx[0].color, ctx[0].key, ctx[0].value, t.left)
  }

  lemma InsertCase2Left(ctx: seq<Frame>, t: Tree)
    requires InsertInv(ctx, t) && |ctx| >= 2 && ctx[0].color == Red
    requires ctx[0].dir == R && ctx[1].dir == L
    ensures InsertInv(TurnLeftCtx(ctx, t), TurnLeftFocus(ctx, t))
    ensures Attach(ctx[0], t).right.Node?
    ensures RotateLeft(Attach(ctx[0], t))
      == Attach(TurnLeftCtx(ctx, t)[0], TurnLeftFocus(ctx, t))
    ensures TurnLeftCtx(ctx, t)[1..] == ctx[1..]
    ensures TurnLeftCtx(ctx, t)[0].color == Red && TurnLeftCtx(ctx, t)[0].dir == L
  {
    InsertInvGrandparent(ctx, t);
    var c' := TurnLeftCtx(ctx, t);
    assert c'[1..] == ctx[1..];
    assert CtxFits(ctx[1..], BH(t), Red);
  }

  /** Case 2 mirrored, parent a right child and `z` a left child. */
  function TurnRightCtx(ctx: seq<Frame>, t: Tree): seq<Frame>
    requires ctx != [] && t.Node?
  {
    [Frame(R, t.id, t.color, t.key, t.value, t.left)] + ctx[1..]
  }

  function TurnRightFocus(ctx: seq<Frame>, t: Tree): Tree
    requires ctx != [] && t.Node?
  {
    Node(t.right, ctx[0].id, ctx[0].color, ctx[0].key, ctx[0].value, ctx[0].sibling)
  }

  lemma InsertCase2Right(ctx: seq<Frame>, t: Tree)
    requires InsertInv(ctx, t) && |ctx| >= 2 && ctx[0].color == Red
    requires ctx[0].dir == L && ctx[1].dir == R
    ensures InsertInv(TurnRightCtx(ctx, t), TurnRightFocus(ctx, t))
    ensures Attach(ctx[0], t).left.Node?
    ensures RotateRight(Attach(ctx[0], t))
      == Attach(TurnRightCtx(ctx, t)[0], TurnRightFocus(ctx, t))
    ensures TurnRightCtx(ctx, t)[1..] == ctx[1..]
    ensures TurnRightCtx(ctx, t)[0].color == Red && TurnRightCtx(ctx, t)[0].dir == R
  {
    InsertInvGrandparent(ctx, t);
    var c' := TurnRightCtx(ctx, t);
    assert c'[1..] == ctx[1..];
    assert CtxFits(ctx[1..], BH(t), Red);
  }

  /** Case 3: the uncle is black and `z` is on the outer side. After the
      recolouring and the rotation at the grandparent, `z`'s parent is the
      black root of that subtree. */
  function SettleCtx(ctx: seq<Frame>, t: Tree): seq<Frame>
    requires |ctx| >= 2
  {
    var p, g := ctx[0], ctx[1];
    [p.(color := Black, sibling := Attach(g.(color := Red), p.sibling))] + ctx[2..]
  }

  lemma InsertCase3(ctx: seq<Frame>, t: Tree)
    requires InsertInv(ctx, t) && |ctx| >= 2 && ctx[0].color == Red
    requires ColorOf(ctx[1].sibling) == Black && ctx[0].dir == ctx[1].dir
    ensures InsertInv(SettleCtx(ctx, t), t) && SettleCtx(ctx, t)[0].color == Black
  {
    InsertInvGrandparent(ctx, t);
    var c' := SettleCtx(ctx, t);
    assert c'[1..] == ctx[2..];
    assert CtxFits(ctx[1..], BH(t), Red);
    assert ctx[1..][1..] == ctx[2..];
  }

  /** The rotation of case 3 leaves `z` under its parent, now the subtree
      root. */
  lemma SettleRotates(ctx: seq<Frame>, t: Tree)
    requires |ctx| >= 2 && ctx[0].dir == ctx[1].dir
    ensures SettleCtx(ctx, t)[1..] == ctx[2..]
    ensures ctx[0].dir == L ==>
      (Recolored(ctx, t).left.Node? && RotateRight(Recolored(ctx, t)) == Attach(SettleCtx(ctx, t)[0], t))
    ensures ctx[0].dir == R ==>
      (Recolored(ctx, t).right.Node? && RotateLeft(Recolored(ctx, t)) == Attach(SettleCtx(ctx, t)[0], t))
  {
    var c' := SettleCtx(ctx, t);
    assert c'[1..] == ctx[2..];
  }

  /** Recolouring changes no entry. */
  lemma RecolorKeepsEntries(ctx: seq<Frame>, t: Tree)
    requires |ctx| >= 2
    ensures Entries(Recolored(ctx, t)) == Entries(Grand(ctx, t))
    ensures Entries(RecolorUp(ctx, t)) == Entries(Grand(ctx, t))
  {
  }

  /** The three cases of `rbInsertFixup` move no entry of the whole tree. */
  lemma RecolorUpKeepsEntries(ctx: seq<Frame>, t: Tree)
    requires |ctx| >= 2
    ensures Entries(Plug(ctx[2..], RecolorUp(ctx, t))) == Entries(Plug(ctx, t))
  {
    PlugGrand(ctx, t);
    RecolorKeepsEntries(ctx, t);
    PlugSameEntries(ctx[2..], RecolorUp(ctx, t), Grand(ctx, t));
  }

  lemma TurnKeepsEntries(ctx: seq<Frame>, t: Tree)
    requires ctx != [] && t.Node?
    ensures ctx[0].dir == R ==>
      Entries(Plug(TurnLeftCtx(ctx, t), TurnLeftFocus(ctx, t))) == Entries(Plug(ctx, t))
    ensures ctx[0].dir == L ==>
      Entries(Plug(TurnRightCtx(ctx, t), TurnRightFocus(ctx, t))) == Entries(Plug(ctx, t))
  {
    var p := Attach(ctx[0], t);
    if ctx[0].dir == R {
      var c', f' := TurnLeftCtx(ctx, t), TurnLeftFocus(ctx, t);
      assert c'[1..] == ctx[1..];
      assert Attach(c'[0], f') == RotateLeft(p);
      RotateLeftKeepsOrder(p);
      PlugSameEntries(ctx[1..], RotateLeft(p), p);
    } else {
      var c', f' := TurnRightCtx(ctx, t), TurnRightFocus(ctx, t);
      assert c'[1..] == ctx[1..];
      assert Attach(c'[0], f') == RotateRight(p);
      RotateRightKeepsOrder(p);
      PlugSameEntries(ctx[1..], RotateRight(p), p);
    }
  }

  lemma SettleKeepsEntries(ctx: seq<Frame>, t: Tree)
    requires |ctx| >= 2 && ctx[0].dir == ctx[1].dir
    ensures Entries(Plug(SettleCtx(ctx, t), t)) == Entries(Plug(ctx, t))
  {
    SettleRotates(ctx, t);
    PlugGrand(ctx, t);
    RecolorKeepsEntries(ctx, t);
    var rc := Recolored(ctx, t);
    var s := SettleCtx(ctx, t);
    if ctx[0].dir == L {
      RotateRightKeepsOrder(rc);
      PlugSameEntries(ctx[2..], RotateRight(rc), Grand(ctx, t));
    } else {
      RotateLeftKeepsOrder(rc);
      PlugSameEntries(ctx[2..], RotateLeft(rc), Grand(ctx, t));
    }
  }
}
