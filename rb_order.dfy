/** The in-order walk of `RBTree` seen from one node: `rbTreeSuccessor`
    and `rbTreePredecessor` as the neighbours of a node in the walk, the
    runs of equal keys `rbFind` and `rbDelete(key, value)` collect around
    the node the search finds, and the entries `rbDelete(key, value)`
    leaves behind. */
module RedBlackOrder {
  import opened Common
  import opened RedBlack
  import opened RedBlackZipper
  import opened RedBlackDelete

  /** The node after `x` in the walk `es`: 0, the sentinel, when `x` is
      last (or absent). */
  function NextId(es: seq<Entry>, x: int): int
    decreases |es|
  {
    if |es| < 2 then 0
    else if es[0].id == x then es[1].id
    else NextId(es[1..], x)
  }

  /** The node before `x` in the walk `es`: 0 when `x` is first (or
      absent). */
  function PrevId(es: seq<Entry>, x: int): int
    decreases |es|
  {
    if |es| < 2 then 0
    else if es[1].id == x then es[0].id
    else PrevId(es[1..], x)
  }

  lemma {:induction false} NextIdSplit(a: seq<Entry>, e: Entry, b: seq<Entry>)
    requires DistinctIds(a + [e] + b)
    ensures NextId(a + [e] + b, e.id) == if b == [] then 0 else b[0].id
    decreases |a|
  {
    var es := a + [e] + b;
    if a != [] {
      assert es[0] == a[0] && es[|a|] == e;
      assert es[1..] == a[1..] + [e] + b && es == [a[0]] + es[1..];
      DistinctSplit([a[0]], es[1..]);
      NextIdSplit(a[1..], e, b);
    } else {
      assert es == [e] + b;
    }
  }

  lemma {:induction false} PrevIdAbsent(es: seq<Entry>, x: int)
    requires forall i :: 0 <= i < |es| ==> es[i].id != x
    ensures PrevId(es, x) == 0
    decreases |es|
  {
    if |es| >= 2 {
      PrevIdAbsent(es[1..], x);
    }
  }

  lemma {:induction false} PrevIdSplit(a: seq<Entry>, e: Entry, b: seq<Entry>)
    requires DistinctIds(a + [e] + b)
    ensures PrevId(a + [e] + b, e.id) == if a == [] then 0 else a[|a| - 1].id
    decreases |a|
  {
    var es := a + [e] + b;
    if a == [] {
      assert es == [e] + b;
      forall i | 0 <= i < |b|
        ensures b[i].id != e.id
      {
        assert es[0] == e && es[i + 1] == b[i];
      }
      if |es| >= 2 {
        assert es[1..] == b;
        PrevIdAbsent(b, e.id);
      }
    } else if |a| == 1 {
      assert es[0] == a[0] && es[1] == e;
    } else {
      assert es[1] == a[1] && es[|a|] == e;
      assert es[1..] == a[1..] + [e] + b && es == [a[0]] + es[1..];
      DistinctSplit([a[0]], es[1..]);
      PrevIdSplit(a[1..], e, b);
    }
  }

  /** The neighbours of the entry at index `i` of a walk without repeated
      nodes. */
  lemma NeighboursAt(es: seq<Entry>, i: int)
    requires DistinctIds(es) && 0 <= i < |es|
    ensures NextId(es, es[i].id) == if i + 1 < |es| then es[i + 1].id else 0
    ensures PrevId(es, es[i].id) == if i > 0 then es[i - 1].id else 0
  {
    assert es == es[..i] + [es[i]] + es[i + 1..];
    NextIdSplit(es[..i], es[i], es[i + 1..]);
    PrevIdSplit(es[..i], es[i], es[i + 1..]);
  }

  /** A node's entry between its subtrees, inside what comes before and
      after the subtree. */
  lemma Around(p: seq<Entry>, l: seq<Entry>, e: Entry, r: seq<Entry>, q: seq<Entry>)
    ensures p + (l + [e] + r) + q == (p + l) + [e] + (r + q)
  {
  }

  /** `rbTreeSuccessor(x)` when `x` has a right subtree: the leftmost node
      of that subtree comes next. */
  lemma SuccessorBelow(ctx: seq<Frame>, x: Tree)
    requires x.Node? && x.right.Node? && Distinct(Plug(ctx, x))
    ensures NextId(Entries(Plug(ctx, x)), x.id) == Leftmost(x.right)
  {
    PlugEntries(ctx, x);
    EntriesDistinct(Plug(ctx, x));
    ExtremesAreEnds(x.right);
    var e := Entry(x.id, x.key, x.value);
    var a, b := Before(ctx) + Entries(x.left), Entries(x.right) + After(ctx);
    Around(Before(ctx), Entries(x.left), e, Entries(x.right), After(ctx));
    EntriesOfIds(x.right);
    NextIdSplit(a, e, b);
    assert b[0] == Entries(x.right)[0];
  }

  /** `rbTreePredecessor(x)` when `x` has a left subtree: the rightmost
      node of that subtree comes before. */
  lemma PredecessorBelow(ctx: seq<Frame>, x: Tree)
    requires x.Node? && x.left.Node? && Distinct(Plug(ctx, x))
    ensures PrevId(Entries(Plug(ctx, x)), x.id) == Rightmost(x.left)
  {
    PlugEntries(ctx, x);
    EntriesDistinct(Plug(ctx, x));
    ExtremesAreEnds(x.left);
    var e := Entry(x.id, x.key, x.value);
    var a, b := Before(ctx) + Entries(x.left), Entries(x.right) + After(ctx);
    Around(Before(ctx), Entries(x.left), e, Entries(x.right), After(ctx));
    EntriesOfIds(x.left);
    PrevIdSplit(a, e, b);
    assert a[|a| - 1] == Entries(x.left)[|Entries(x.left)| - 1];
  }

  /** The node after the last entry of a block is the first after it. */
  lemma NextAfterBlock(pre: seq<Entry>, blk: seq<Entry>, post: seq<Entry>)
    requires blk != [] && DistinctIds(pre + blk + post)
    ensures NextId(pre + blk + post, blk[|blk| - 1].id) == if post == [] then 0 else post[0].id
  {
    var n := |blk|;
    assert pre + blk + post == (pre + blk[..n - 1]) + [blk[n - 1]] + post;
    NextIdSplit(pre + blk[..n - 1], blk[n - 1], post);
  }

  /** The node before the first entry of a block is the last before it. */
  lemma PrevBeforeBlock(pre: seq<Entry>, blk: seq<Entry>, post: seq<Entry>)
    requires blk != [] && DistinctIds(pre + blk + post)
    ensures PrevId(pre + blk + post, blk[0].id) == if pre == [] then 0 else pre[|pre| - 1].id
  {
    assert pre + blk + post == pre + [blk[0]] + (blk[1..] + post);
    PrevIdSplit(pre, blk[0], blk[1..] + post);
  }

  /** `rbTreeSuccessor(x)` after climbing: `x` is the last node of the
      subtree `t`, and `t` is the root or a left child, so the node above
      `t` (the sentinel at the root) comes next. */
  lemma SuccessorAbove(ctx: seq<Frame>, t: Tree, x: int)
    requires t.Node? && Rightmost(t) == x && Distinct(Plug(ctx, t))
    requires ctx == [] || ctx[0].dir == L
    ensures NextId(Entries(Plug(ctx, t)), x) == ParentIn(ctx, 0)
  {
    PlugEntries(ctx, t);
    EntriesDistinct(Plug(ctx, t));
    ExtremesAreEnds(t);
    EntriesOfIds(t);
    NextAfterBlock(Before(ctx), Entries(t), After(ctx));
    if ctx != [] {
      AfterStartsAtLeft(ctx);
    }
  }

  /** `rbTreePredecessor(x)` after climbing: `x` is the first node of the
      subtree `t`, and `t` is the root or a right child. */
  lemma PredecessorAbove(ctx: seq<Frame>, t: Tree, x: int)
    requires t.Node? && Leftmost(t) == x && Distinct(Plug(ctx, t))
    requires ctx == [] || ctx[0].dir == R
    ensures PrevId(Entries(Plug(ctx, t)), x) == ParentIn(ctx, 0)
  {
    PlugEntries(ctx, t);
    EntriesDistinct(Plug(ctx, t));
    ExtremesAreEnds(t);
    EntriesOfIds(t);
    PrevBeforeBlock(Before(ctx), Entries(t), After(ctx));
    if ctx != [] {
      BeforeEndsAtRight(ctx);
    }
  }

  /** Above a left child, the parent is the first node the walk meets
      after the child's subtree. */
  lemma AfterStartsAtLeft(ctx: seq<Frame>)
    requires ctx != [] && ctx[0].dir == L
    ensures After(ctx) != [] && After(ctx)[0].id == ctx[0].id
  {
    assert After(ctx) == ([FrameEntry(ctx[0])] + Entries(ctx[0].sibling)) + After(ctx[1..]);
  }

  /** Above a right child, the parent is the last node the walk meets
      before the child's subtree. */
  lemma BeforeEndsAtRight(ctx: seq<Frame>)
    requires ctx != [] && ctx[0].dir == R
    ensures Before(ctx) != [] && Before(ctx)[|Before(ctx)| - 1].id == ctx[0].id
  {
    assert Before(ctx) == Before(ctx[1..]) + (Entries(ctx[0].sibling) + [FrameEntry(ctx[0])]);
  }

  /** The entries from index `i` on, while their key is `k`: what the
      forward loop of `rbFind` meets. */
  function RunUp(es: seq<Entry>, i: int, k: string): seq<Entry>
    decreases |es| - i
  {
    if i < 0 || i >= |es| || es[i].key != k then [] else [es[i]] + RunUp(es, i + 1, k)
  }

  /** The entries from index `i` down, while their key is `k`: what the
      backward loop of `rbFind` meets. */
  function RunDown(es: seq<Entry>, i: int, k: string): seq<Entry>
    decreases i
  {
    if i < 0 || i >= |es| || es[i].key != k then [] else [es[i]] + RunDown(es, i - 1, k)
  }

  /** The index of node `x` in the walk, `|es|` when it is absent. */
  function IndexOf(es: seq<Entry>, x: int): (i: int)
    ensures 0 <= i <= |es| && (i < |es| ==> es[i].id == x)
    ensures i == |es| ==> forall j :: 0 <= j < |es| ==> es[j].id != x
    decreases |es|
  {
    if es == [] then 0
    else if es[0].id == x then 0
    else 1 + IndexOf(es[1..], x)
  }

  /** The entries `rbFind(key)` and `rbDelete(key, value)` collect when
      the search found node `s` (0 when it found none): forward from `s`,
      then backward from the node before it. */
  ghost function Collected(es: seq<Entry>, s: int, k: string): seq<Entry> {
    if s == 0 then [] else RunUp(es, IndexOf(es, s), k) + RunDown(es, IndexOf(es, s) - 1, k)
  }

  /** One step of the forward run: the entry at `j` holds `k`. */
  lemma RunUpStep(es: seq<Entry>, j: int, k: string)
    requires 0 <= j < |es| && es[j].key == k
    ensures IdList(RunUp(es, j, k)) == [es[j].id] + IdList(RunUp(es, j + 1, k))
    ensures Pairs(RunUp(es, j, k)) == [es[j].key, es[j].value] + Pairs(RunUp(es, j + 1, k))
  {
    var run := RunUp(es, j, k);
    assert run == [es[j]] + RunUp(es, j + 1, k);
    assert run[0] == es[j] && run[1..] == RunUp(es, j + 1, k);
  }

  /** One step of the backward run: the entry at `j` holds `k`. */
  lemma RunDownStep(es: seq<Entry>, j: int, k: string)
    requires 0 <= j < |es| && es[j].key == k
    ensures IdList(RunDown(es, j, k)) == [es[j].id] + IdList(RunDown(es, j - 1, k))
    ensures Pairs(RunDown(es, j, k)) == [es[j].key, es[j].value] + Pairs(RunDown(es, j - 1, k))
  {
    var run := RunDown(es, j, k);
    assert run == [es[j]] + RunDown(es, j - 1, k);
    assert run[0] == es[j] && run[1..] == RunDown(es, j - 1, k);
  }

  /** Position `p` of the forward run from `i` is index `i + p`. */
  lemma {:induction false} RunUpAt(es: seq<Entry>, i: int, k: string, p: int)
    requires 0 <= i && 0 <= p < |RunUp(es, i, k)|
    ensures i + p < |es| && RunUp(es, i, k)[p] == es[i + p] && es[i + p].key == k
    decreases p
  {
    if p > 0 {
      RunUpAt(es, i + 1, k, p - 1);
    }
  }

  /** Position `p` of the backward run from `i` is index `i - p`. */
  lemma {:induction false} RunDownAt(es: seq<Entry>, i: int, k: string, p: int)
    requires i < |es| && 0 <= p < |RunDown(es, i, k)|
    ensures 0 <= i - p && RunDown(es, i, k)[p] == es[i - p] && es[i - p].key == k
    decreases p
  {
    if p > 0 {
      RunDownAt(es, i - 1, k, p - 1);
    }
  }

  /** In a sorted walk, every entry with key `k` at or after index `i`
      (which holds `k`) is on the forward run. */
  lemma {:induction false} RunUpCovers(es: seq<Entry>, i: int, k: string, j: int)
    requires Sorted(es) && 0 <= i <= j < |es| && es[i].key == k && es[j].key == k
    ensures es[j] in RunUp(es, i, k)
    decreases j - i
  {
    if j > i {
      StrLessEqTotalOrder(es[i + 1].key, k, k);
      RunUpCovers(es, i + 1, k, j);
    }
  }

  /** In a sorted walk, every entry with key `k` before index `i` (which
      holds `k`) is on the backward run from `i - 1`. */
  lemma {:induction false} RunDownCovers(es: seq<Entry>, i: int, k: string, j: int)
    requires Sorted(es) && 0 <= j < i < |es| && es[i].key == k && es[j].key == k
    ensures es[j] in RunDown(es, i - 1, k)
    decreases i - j
  {
    StrLessEqTotalOrder(es[i - 1].key, k, k);
    if j < i - 1 {
      RunDownCovers(es, i - 1, k, j);
    }
  }

  /** What `rbFind(key)` collects, given the search's answer: exactly the
      entries with key `k`, each once. */
  lemma CollectedIsKeyRun(es: seq<Entry>, s: int, k: string)
    requires Sorted(es) && DistinctIds(es)
    requires s == 0 <==> !HasKey(es, k)
    requires s != 0 ==> exists e :: e in es && e.id == s && e.key == k
    ensures forall e :: e in Collected(es, s, k) <==> e in es && e.key == k
    ensures DistinctIds(Collected(es, s, k))
  {
    if s != 0 {
      var i := FoundAt(es, s, k);
      assert Collected(es, s, k) == RunUp(es, i, k) + RunDown(es, i - 1, k);
      RunsAround(es, i, k);
    } else {
      assert Collected(es, s, k) == [];
    }
  }

  /** The search's node is where `IndexOf` finds it, and holds `k`. */
  lemma FoundAt(es: seq<Entry>, s: int, k: string) returns (i: int)
    requires DistinctIds(es)
    requires exists e :: e in es && e.id == s && e.key == k
    ensures i == IndexOf(es, s) && 0 <= i < |es| && es[i].key == k
  {
    var e0 :| e0 in es && e0.id == s && e0.key == k;
    i := IndexOf(es, s);
    var m :| 0 <= m < |es| && es[m] == e0;
    assert i < |es|;
    assert i == m;
  }

  /** The two runs around an entry with key `k` hold exactly the entries
      with that key, each once. */
  lemma RunsAround(es: seq<Entry>, i: int, k: string)
    requires Sorted(es) && DistinctIds(es) && 0 <= i < |es| && es[i].key == k
    ensures forall e :: e in RunUp(es, i, k) + RunDown(es, i - 1, k) <==> e in es && e.key == k
    ensures DistinctIds(RunUp(es, i, k) + RunDown(es, i - 1, k))
  {
    RunsCover(es, i, k);
    RunsWithin(es, i, k);
    RunsDistinct(es, i, k);
  }

  /** Both runs around an entry with key `k` meet every entry with that
      key. */
  lemma RunsCover(es: seq<Entry>, i: int, k: string)
    requires Sorted(es) && 0 <= i < |es| && es[i].key == k
    ensures forall e :: e in es && e.key == k ==> e in RunUp(es, i, k) + RunDown(es, i - 1, k)
  {
    forall e | e in es && e.key == k
      ensures e in RunUp(es, i, k) + RunDown(es, i - 1, k)
    {
      var j :| 0 <= j < |es| && es[j] == e;
      if j >= i {
        RunUpCovers(es, i, k, j);
      } else {
        RunDownCovers(es, i, k, j);
      }
    }
  }

  /** The runs hold entries with key `k` only. */
  lemma RunsWithin(es: seq<Entry>, i: int, k: string)
    requires 0 <= i < |es|
    ensures forall e :: e in RunUp(es, i, k) + RunDown(es, i - 1, k) ==> e in es && e.key == k
  {
    var up: seq<Entry>, down: seq<Entry> := RunUp(es, i, k), RunDown(es, i - 1, k);
    forall e | e in up + down
      ensures e in es && e.key == k
    {
      var p :| 0 <= p < |up + down| && (up + down)[p] == e;
      var j := Origin(es, i, k, p);
    }
  }

  /** The runs go in opposite directions from `i`, so no node is met
      twice. */
  lemma RunsDistinct(es: seq<Entry>, i: int, k: string)
    requires DistinctIds(es) && 0 <= i < |es|
    ensures DistinctIds(RunUp(es, i, k) + RunDown(es, i - 1, k))
  {
    var up: seq<Entry>, down: seq<Entry> := RunUp(es, i, k), RunDown(es, i - 1, k);
    forall p, q | 0 <= p < q < |up + down|
      ensures (up + down)[p].id != (up + down)[q].id
    {
      var ip := Origin(es, i, k, p);
      var iq := Origin(es, i, k, q);
    }
  }

  /** Where the entry at position `p` of the two runs around `i` sits in
      the walk. */
  lemma Origin(es: seq<Entry>, i: int, k: string, p: int) returns (j: int)
    requires 0 <= i < |es| && 0 <= p < |RunUp(es, i, k) + RunDown(es, i - 1, k)|
    ensures 0 <= j < |es| && (RunUp(es, i, k) + RunDown(es, i - 1, k))[p] == es[j] && es[j].key == k
    ensures j == if p < |RunUp(es, i, k)| then i + p else i - 1 - (p - |RunUp(es, i, k)|)
  {
    var up: seq<Entry>, down: seq<Entry> := RunUp(es, i, k), RunDown(es, i - 1, k);
    if p < |up| {
      RunUpAt(es, i, k, p);
      j := i + p;
    } else {
      RunDownAt(es, i - 1, k, p - |up|);
      j := i - 1 - (p - |up|);
    }
  }

  /** The node ids of a list of entries, in order. */
  function IdList(es: seq<Entry>): seq<int>
    decreases |es|
  {
    if es == [] then [] else [es[0].id] + IdList(es[1..])
  }

  /** The key and value of each entry, in order: `rbFind`'s result. */
  function Pairs(es: seq<Entry>): seq<string>
    decreases |es|
  {
    if es == [] then [] else [es[0].key, es[0].value] + Pairs(es[1..])
  }

  lemma {:induction false} IdListAt(es: seq<Entry>)
    ensures |IdList(es)| == |es|
    ensures forall p :: 0 <= p < |es| ==> IdList(es)[p] == es[p].id
    decreases |es|
  {
    if es != [] {
      IdListAt(es[1..]);
    }
  }

  lemma ListsConcat(a: seq<Entry>, b: seq<Entry>)
    ensures IdList(a + b) == IdList(a) + IdList(b)
    ensures Pairs(a + b) == Pairs(a) + Pairs(b)
  {
    IdListConcat(a, b);
    PairsConcat(a, b);
  }

  lemma {:induction false} IdListConcat(a: seq<Entry>, b: seq<Entry>)
    ensures IdList(a + b) == IdList(a) + IdList(b)
    decreases |a|
  {
    if a == [] {
      assert a + b == b;
    } else {
      assert (a + b)[0] == a[0] && (a + b)[1..] == a[1..] + b;
      IdListConcat(a[1..], b);
      assert IdList(a + b) == [a[0].id] + (IdList(a[1..]) + IdList(b));
    }
  }

  lemma {:induction false} PairsConcat(a: seq<Entry>, b: seq<Entry>)
    ensures Pairs(a + b) == Pairs(a) + Pairs(b)
    decreases |a|
  {
    if a == [] {
      assert a + b == b;
    } else {
      assert (a + b)[0] == a[0] && (a + b)[1..] == a[1..] + b;
      PairsConcat(a[1..], b);
      assert Pairs(a + b) == [a[0].key, a[0].value] + (Pairs(a[1..]) + Pairs(b));
    }
  }

  /** The entries whose node is not in `gone`. */
  function Keep(es: seq<Entry>, gone: set<int>): seq<Entry>
    decreases |es|
  {
    if es == [] then [] else (if es[0].id in gone then [] else [es[0]]) + Keep(es[1..], gone)
  }

  /** `rbDelete(key, value)`'s promise: the entries holding both `k` and
      `v` are gone, the others stay in order. */
  function Drop(es: seq<Entry>, k: string, v: string): (r: seq<Entry>)
    ensures forall e :: e in r <==> e in es && !(e.key == k && e.value == v)
    decreases |es|
  {
    if es == [] then [] else (if es[0].key == k && es[0].value == v then [] else [es[0]]) + Drop(es[1..], k, v)
  }

  /** Deleting one more node is keeping one node fewer. */
  lemma {:induction false} WithoutKeep(es: seq<Entry>, gone: set<int>, z: int)
    ensures Without(Keep(es, gone), z) == Keep(es, gone + {z})
    decreases |es|
  {
    if es != [] {
      var head := if es[0].id in gone then [] else [es[0]];
      WithoutConcat(head, Keep(es[1..], gone), z);
      WithoutKeep(es[1..], gone, z);
      if es[0].id !in gone {
        assert Without(head, z) == (if es[0].id == z then [] else [es[0]]) + Without([], z);
      }
    }
  }

  lemma {:induction false} KeepAll(es: seq<Entry>)
    ensures Keep(es, {}) == es
    decreases |es|
  {
    if es != [] {
      KeepAll(es[1..]);
      assert es == [es[0]] + es[1..];
    }
  }

  lemma {:induction false} KeepIn(es: seq<Entry>, gone: set<int>, e: Entry)
    requires e in es && e.id !in gone
    ensures e in Keep(es, gone)
    decreases |es|
  {
    if es[0] != e {
      KeepIn(es[1..], gone, e);
    }
  }

  /** Keeping the nodes outside `gone` is dropping the entries holding
      `k` and `v`, when those are exactly the entries whose node is in
      `gone`. */
  lemma {:induction false} KeepIsDrop(es: seq<Entry>, gone: set<int>, k: string, v: string)
    requires forall e :: e in es ==> (e.id in gone <==> e.key == k && e.value == v)
    ensures Keep(es, gone) == Drop(es, k, v)
    decreases |es|
  {
    if es != [] {
      KeepIsDrop(es[1..], gone, k, v);
    }
  }

  /** The nodes of the entries in `fs` that hold value `v`. */
  function MatchIds(fs: seq<Entry>, v: string): set<int>
    decreases |fs|
  {
    if fs == [] then {} else MatchIds(fs[..|fs| - 1], v) + (if fs[|fs| - 1].value == v then {fs[|fs| - 1].id} else {})
  }

  lemma {:induction false} MatchIdsIn(fs: seq<Entry>, v: string)
    ensures forall e :: e in fs && e.value == v ==> e.id in MatchIds(fs, v)
    ensures forall x :: x in MatchIds(fs, v) ==> exists e :: e in fs && e.id == x && e.value == v
    decreases |fs|
  {
    if fs != [] {
      var init := fs[..|fs| - 1];
      MatchIdsIn(init, v);
      assert fs == init + [fs[|fs| - 1]];
      forall x | x in MatchIds(fs, v)
        ensures exists e :: e in fs && e.id == x && e.value == v
      {
        if x in MatchIds(init, v) {
          var e :| e in init && e.id == x && e.value == v;
          assert e in fs;
        } else {
          assert fs[|fs| - 1] in fs;
        }
      }
    }
  }

  /** The loop of `rbDelete(key, value)` at position `j` of the list:
      the entry there has not been deleted by the earlier positions. */
  lemma Pending(es: seq<Entry>, fs: seq<Entry>, j: int, v: string)
    requires DistinctIds(fs) && 0 <= j < |fs| && forall e :: e in fs ==> e in es
    ensures fs[j] in Keep(es, MatchIds(fs[..j], v))
  {
    MatchIdsIn(fs[..j], v);
    forall e | e in fs[..j]
      ensures e.id != fs[j].id
    {
      var m :| 0 <= m < j && fs[..j][m] == e;
      assert fs[m] == e;
    }
    KeepIn(es, MatchIds(fs[..j], v), fs[j]);
  }

  /** After the loop of `rbDelete(key, value)`: the nodes deleted are
      exactly those of the entries with key `k` and value `v`. */
  lemma DeletedAreMatches(es: seq<Entry>, fs: seq<Entry>, k: string, v: string)
    requires DistinctIds(es)
    requires forall e :: e in fs <==> e in es && e.key == k
    ensures Keep(es, MatchIds(fs, v)) == Drop(es, k, v)
  {
    MatchIdsIn(fs, v);
    forall e | e in es
      ensures e.id in MatchIds(fs, v) <==> e.key == k && e.value == v
    {
      if e.id in MatchIds(fs, v) {
        var f :| f in fs && f.id == e.id && f.value == v;
        var i :| 0 <= i < |es| && es[i] == e;
        var j :| 0 <= j < |es| && es[j] == f;
        assert i == j;
      }
    }
    KeepIsDrop(es, MatchIds(fs, v), k, v);
  }
}
