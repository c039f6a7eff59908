/** The red-black multi-map of `RBTree` as a value: nodes carry the arena
    index of the C++ node (its identity), its colour, key and value. The
    in-order sequence of entries, key order, the red-black properties and
    the search, minimum and maximum of `rbtree.cpp` are stated here, once,
    for the class in `RedBlackTree` to be proved against. */
module RedBlack {
  import opened Common

  datatype Color = Red | Black

  datatype Tree =
    | Leaf
    | Node(left: Tree, id: int, color: Color, key: string, value: string, right: Tree)

  /** One node as the in-order walk meets it. */
  datatype Entry = Entry(id: int, key: string, value: string)

  /** A step from a node to its left or right child. */
  datatype Dir = L | R

  /** The entries of `t` in order: left subtree, node, right subtree. */
  function Entries(t: Tree): seq<Entry> {
    match t
    case Leaf => []
    case Node(l, id, _, k, v, r) => Entries(l) + [Entry(id, k, v)] + Entries(r)
  }

  function Ids(t: Tree): set<int> {
    match t
    case Leaf => {}
    case Node(l, id, _, _, _, r) => Ids(l) + {id} + Ids(r)
  }

  /** No node appears twice. */
  ghost predicate Distinct(t: Tree) {
    match t
    case Leaf => true
    case Node(l, id, _, _, _, r) =>
      id !in Ids(l) && id !in Ids(r) && Ids(l) !! Ids(r) && Distinct(l) && Distinct(r)
  }

  function EntryIds(es: seq<Entry>): set<int> {
    set e | e in es :: e.id
  }

  /** No two entries belong to the same node. */
  ghost predicate DistinctIds(es: seq<Entry>) {
    forall i, j :: 0 <= i < j < |es| ==> es[i].id != es[j].id
  }

  lemma EntryIdsConcat(a: seq<Entry>, b: seq<Entry>)
    ensures EntryIds(a + b) == EntryIds(a) + EntryIds(b)
  {
    forall x | x in EntryIds(a + b)
      ensures x in EntryIds(a) + EntryIds(b)
    {
      var e :| e in a + b && e.id == x;
    }
    forall x | x in EntryIds(a) + EntryIds(b)
      ensures x in EntryIds(a + b)
    {
      var e :| (e in a || e in b) && e.id == x;
      assert e in a + b;
    }
  }

  lemma DistinctConcat(a: seq<Entry>, b: seq<Entry>)
    requires DistinctIds(a) && DistinctIds(b) && EntryIds(a) !! EntryIds(b)
    ensures DistinctIds(a + b)
  {
    forall i, j | 0 <= i < j < |a + b|
      ensures (a + b)[i].id != (a + b)[j].id
    {
      if j < |a| {
        assert (a + b)[i] == a[i] && (a + b)[j] == a[j];
      } else if i >= |a| {
        assert (a + b)[i] == b[i - |a|] && (a + b)[j] == b[j - |a|];
      } else {
        assert (a + b)[i] == a[i] && a[i] in a && a[i].id in EntryIds(a);
        assert (a + b)[j] == b[j - |a|] && b[j - |a|] in b && b[j - |a|].id in EntryIds(b);
      }
    }
  }

  /** The in-order walk meets exactly the nodes of the tree. */
  lemma {:induction false} EntriesOfIds(t: Tree)
    ensures EntryIds(Entries(t)) == Ids(t)
    ensures |Entries(t)| == 0 <==> t == Leaf
  {
    match t
    case Leaf =>
    case Node(l, id, _, k, v, r) =>
      EntriesOfIds(l);
      EntriesOfIds(r);
      EntryIdsConcat(Entries(l), [Entry(id, k, v)]);
      EntryIdsConcat(Entries(l) + [Entry(id, k, v)], Entries(r));
      assert EntryIds([Entry(id, k, v)]) == {id};
  }

  lemma DistinctSplit(a: seq<Entry>, b: seq<Entry>)
    requires DistinctIds(a + b)
    ensures DistinctIds(a) && DistinctIds(b) && EntryIds(a) !! EntryIds(b)
  {
    forall i, j | 0 <= i < j < |a|
      ensures a[i].id != a[j].id
    {
      assert a[i] == (a + b)[i] && a[j] == (a + b)[j];
    }
    forall i, j | 0 <= i < j < |b|
      ensures b[i].id != b[j].id
    {
      assert b[i] == (a + b)[|a| + i] && b[j] == (a + b)[|a| + j];
    }
    forall e, f | e in a && f in b
      ensures e.id != f.id
    {
      var i :| 0 <= i < |a| && a[i] == e;
      var j :| 0 <= j < |b| && b[j] == f;
      assert (a + b)[i] == e && (a + b)[|a| + j] == f;
    }
  }

  /** The nodes are distinct exactly when the in-order walk meets each
      node once: distinctness depends on the entries alone. */
  lemma {:induction false} EntriesDistinct(t: Tree)
    ensures Distinct(t) <==> DistinctIds(Entries(t))
  {
    match t
    case Leaf =>
    case Node(l, id, _, k, v, r) =>
      var el, e, er := Entries(l), [Entry(id, k, v)], Entries(r);
      EntriesDistinct(l);
      EntriesDistinct(r);
      EntriesOfIds(l);
      EntriesOfIds(r);
      EntryIdsConcat(el, e);
      assert EntryIds(e) == {id};
      assert DistinctIds(e);
      if Distinct(t) {
        DistinctConcat(el, e);
        DistinctConcat(el + e, er);
      }
      if DistinctIds(el + e + er) {
        DistinctSplit(el + e, er);
        DistinctSplit(el, e);
      }
  }

  /** Trees with the same in-order entries have the same nodes, and one
      is distinct when the other is: rotations and recolourings need only
      show that they keep the entries. */
  lemma SameEntries(t: Tree, t': Tree)
    requires Entries(t') == Entries(t)
    ensures Ids(t') == Ids(t)
    ensures Distinct(t') <==> Distinct(t)
  {
    EntriesOfIds(t);
    EntriesOfIds(t');
    EntriesDistinct(t);
    EntriesDistinct(t');
  }

  /** The keys of the entries never decrease (duplicates allowed). */
  ghost predicate Sorted(es: seq<Entry>) {
    forall i, j :: 0 <= i < j < |es| ==> StrLessEq(es[i].key, es[j].key)
  }

  /** A sorted in-order walk puts every key of the left subtree at or below
      the node's key and every key of the right subtree at or above it. */
  lemma SortedSplit(t: Tree)
    requires t.Node? && Sorted(Entries(t))
    ensures Sorted(Entries(t.left)) && Sorted(Entries(t.right))
    ensures forall e :: e in Entries(t.left) ==> StrLessEq(e.key, t.key)
    ensures forall e :: e in Entries(t.right) ==> StrLessEq(t.key, e.key)
  {
    var es := Entries(t);
    var nl := |Entries(t.left)|;
    assert es[nl].key == t.key;
    assert forall i :: 0 <= i < nl ==> es[i] == Entries(t.left)[i];
    assert forall i :: 0 <= i < |Entries(t.right)| ==> es[nl + 1 + i] == Entries(t.right)[i];
  }

  predicate HasKey(es: seq<Entry>, k: string) {
    exists e :: e in es && e.key == k
  }

  /** `rbTreeSearch(x, key)` on the subtree `t`: the node met first on the
      way down whose key equals `key`, going left only for smaller keys;
      0, the sentinel, if there is none. */
  function Search(t: Tree, k: string): int {
    match t
    case Leaf => 0
    case Node(l, id, _, key, _, r) =>
      if key == k then id
      else if StrLess(k, key) then Search(l, k)
      else Search(r, k)
  }

  /** In a tree whose in-order keys are sorted, the search returns the
      sentinel exactly when no node has the key, and otherwise a node of
      the tree holding that key. */
  lemma {:induction false} SearchFinds(t: Tree, k: string)
    requires Sorted(Entries(t)) && 0 !in Ids(t)
    ensures Search(t, k) == 0 <==> !HasKey(Entries(t), k)
    ensures Search(t, k) != 0 ==> exists e :: e in Entries(t) && e.id == Search(t, k) && e.key == k
  {
    match t
    case Leaf =>
    case Node(l, id, _, key, v, r) =>
      SortedSplit(t);
      EntriesOfIds(l);
      EntriesOfIds(r);
      assert Entry(id, key, v) in Entries(t);
      if key != k {
        if StrLess(k, key) {
          SearchFinds(l, k);
          if Search(t, k) == 0 {
            forall e | e in Entries(r)
              ensures e.key != k
            {
              StrLessAsymmetric(k, key);
            }
          }
        } else {
          SearchFinds(r, k);
          if Search(t, k) == 0 {
            forall e | e in Entries(l)
              ensures e.key != k
            {
              StrLessTrichotomy(k, key);
              StrLessAsymmetric(key, k);
            }
          }
        }
      }
  }

  /** The node `rbTreeMinimum` reaches: keep going left. */
  function Leftmost(t: Tree): int {
    match t
    case Leaf => 0
    case Node(l, id, _, _, _, _) => if l == Leaf then id else Leftmost(l)
  }

  /** The node `rbTreeMaximum` reaches: keep going right. */
  function Rightmost(t: Tree): int {
    match t
    case Leaf => 0
    case Node(_, id, _, _, _, r) => if r == Leaf then id else Rightmost(r)
  }

  /** The leftmost node comes first in order and the rightmost last. */
  lemma {:induction false} ExtremesAreEnds(t: Tree)
    requires t.Node?
    ensures Entries(t)[0].id == Leftmost(t)
    ensures Entries(t)[|Entries(t)| - 1].id == Rightmost(t)
  {
    EntriesOfIds(t.left);
    EntriesOfIds(t.right);
    if t.left.Node? {
      ExtremesAreEnds(t.left);
    }
    if t.right.Node? {
      ExtremesAreEnds(t.right);
    }
  }

  function ColorOf(t: Tree): Color {
    if t.Leaf? then Black else t.color
  }

  /** 1 for a black node, 0 for a red one. */
  function Blk(c: Color): nat {
    if c == Black then 1 else 0
  }

  /** Black nodes on the leftmost path; the black-height when balanced. */
  function BH(t: Tree): nat {
    match t
    case Leaf => 0
    case Node(l, _, c, _, _, _) => BH(l) + Blk(c)
  }

  /** No red node has a red child. */
  ghost predicate NoRedRed(t: Tree) {
    match t
    case Leaf => true
    case Node(l, _, c, _, _, r) =>
      (c == Red ==> ColorOf(l) == Black && ColorOf(r) == Black) && NoRedRed(l) && NoRedRed(r)
  }

  /** Both subtrees of every node have the same black-height. */
  ghost predicate Balanced(t: Tree) {
    match t
    case Leaf => true
    case Node(l, _, _, _, _, r) => BH(l) == BH(r) && Balanced(l) && Balanced(r)
  }

  /** The red-black properties: a black root, no red node with a red
      child, and equal black-heights. */
  ghost predicate IsRedBlack(t: Tree) {
    ColorOf(t) == Black && NoRedRed(t) && Balanced(t)
  }

  /** A root painted black, as `root->color = 'B'` and `x->color = 'B'` do. */
  function PaintBlack(t: Tree): Tree {
    if t.Leaf? then t else t.(color := Black)
  }

  lemma PaintBlackRedBlack(t: Tree)
    requires NoRedRed(t) && Balanced(t)
    ensures IsRedBlack(PaintBlack(t))
    ensures Entries(PaintBlack(t)) == Entries(t) && Ids(PaintBlack(t)) == Ids(t)
    ensures Distinct(t) ==> Distinct(PaintBlack(t))
  {
  }

  /** Following the steps `p` from the root of `t` ends exactly at a nil
      leaf. */
  predicate LeafPath(t: Tree, p: seq<Dir>) {
    match t
    case Leaf => p == []
    case Node(l, _, _, _, _, r) => p != [] && LeafPath(if p[0] == L then l else r, p[1..])
  }

  /** The black nodes met when following `p` from the root of `t`. */
  function BlackOnPath(t: Tree, p: seq<Dir>): nat {
    match t
    case Leaf => 0
    case Node(l, _, c, _, _, r) =>
      if p == [] then Blk(c) else Blk(c) + BlackOnPath(if p[0] == L then l else r, p[1..])
  }

  function LeftSpine(t: Tree): (p: seq<Dir>)
    ensures LeafPath(t, p) && BlackOnPath(t, p) == BH(t)
  {
    match t
    case Leaf => []
    case Node(l, _, _, _, _, _) =>
      var p := [L] + LeftSpine(l);
      assert p[1..] == LeftSpine(l);
      p
  }

  /** Balanced is the same as: every path from the root down to a nil leaf
      meets the same number of black nodes. */
  lemma {:induction false} BalancedIffEqualBlackPaths(t: Tree)
    ensures Balanced(t) <==> forall p :: LeafPath(t, p) ==> BlackOnPath(t, p) == BH(t)
  {
    match t
    case Leaf =>
    case Node(l, _, c, _, _, r) =>
      BalancedIffEqualBlackPaths(l);
      BalancedIffEqualBlackPaths(r);
      if Balanced(t) {
        forall p | LeafPath(t, p)
          ensures BlackOnPath(t, p) == BH(t)
        {
          if p[0] == L {
            assert LeafPath(l, p[1..]);
            assert BlackOnPath(l, p[1..]) == BH(l);
            assert BlackOnPath(t, p) == Blk(c) + BlackOnPath(l, p[1..]);
          } else {
            assert LeafPath(r, p[1..]);
            assert BlackOnPath(r, p[1..]) == BH(r);
            assert BlackOnPath(t, p) == Blk(c) + BlackOnPath(r, p[1..]);
          }
        }
      } else {
        if BH(l) != BH(r) {
          var p := [R] + LeftSpine(r);
          assert p[1..] == LeftSpine(r);
          assert LeafPath(t, p) && BlackOnPath(t, p) != BH(t);
        } else if !Balanced(l) {
          var q :| LeafPath(l, q) && BlackOnPath(l, q) != BH(l);
          var p := [L] + q;
          assert p[1..] == q;
          assert LeafPath(t, p) && BlackOnPath(t, p) != BH(t);
        } else {
          var q :| LeafPath(r, q) && BlackOnPath(r, q) != BH(r);
          var p := [R] + q;
          assert p[1..] == q;
          assert LeafPath(t, p) && BlackOnPath(t, p) != BH(t);
        }
      }
  }
}
