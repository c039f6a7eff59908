/** `MinPriorityQ`: a vector of (id, key) elements that `insert`,
    `decreaseKey` and `extractMin` keep rearranging by swaps. The children
    of index `i` are `2i+1` and `2i+2`, but `parent(i)` is `i/2`, so the
    sift-up of `decreaseKey` climbs a different path from the one the
    children describe; `SiftUpBreaksHeap` shows a heap it leaves out of
    order. */
module MinPriority {
  import opened Common

  /** One queued element; the vector holds a pointer to each, and no two
      entries share one, so values model them. */
  datatype Element = Element(id: string, key: int)

  /** `parent(i)`: `floor(i/2)` on an `int` quotient, which C++ truncates
      toward zero. */
  function Parent(i: int): (p: int)
    ensures i >= 0 ==> 0 <= 2 * p <= i <= 2 * p + 1
    ensures i > 0 ==> p < i
  {
    if i >= 0 then i / 2 else -((-i) / 2)
  }

  /** `left(i)`: the first child, whose tree parent `(l-1)/2` is `i`. */
  function Left(i: int): (l: int)
    ensures i >= 0 ==> l > i && (l - 1) / 2 == i
  {
    2 * i + 1
  }

  /** `right(i)`: the second child, whose tree parent `(r-1)/2` is `i`. */
  function Right(i: int): (r: int)
    ensures i >= 0 ==> r > i && (r - 1) / 2 == i && r == Left(i) + 1
  {
    2 * i + 2
  }

  /** The mismatch: `parent` undoes `left` but not `right`; for the right
      child it names the next index, not the node whose child it is. */
  lemma ParentOfChildren(i: int)
    requires i >= 0
    ensures Parent(Left(i)) == i
    ensures Parent(Right(i)) == i + 1 != (Right(i) - 1) / 2
  {
  }

  function Swap(s: seq<Element>, i: int, j: int): (t: seq<Element>)
    requires 0 <= i < |s| && 0 <= j < |s|
    ensures |t| == |s| && t[i] == s[j] && t[j] == s[i]
    ensures forall k :: 0 <= k < |s| && k != i && k != j ==> t[k] == s[k]
  {
    s[i := s[j]][j := s[i]]
  }

  lemma SwapPermutes(s: seq<Element>, i: int, j: int)
    requires 0 <= i < |s| && 0 <= j < |s|
    ensures multiset(Swap(s, i, j)) == multiset(s)
  {
  }

  /** Some element of `s` has identifier `id`. */
  predicate Present(s: seq<Element>, id: string) {
    exists k :: 0 <= k < |s| && s[k].id == id
  }

  /** The position where the scan of `decreaseKey` stops: the first
      element with identifier `id`, or `|s|` when there is none. */
  function FirstIndex(s: seq<Element>, id: string): (k: nat)
    ensures k <= |s| && (k < |s| ==> s[k].id == id)
    ensures forall j :: 0 <= j < k ==> s[j].id != id
    ensures k == |s| <==> !Present(s, id)
  {
    if |s| == 0 then 0
    else if s[0].id == id then 0
    else
      var k := FirstIndex(s[1..], id);
      assert forall j :: 1 <= j < |s| ==> s[1..][j - 1] == s[j];
      k + 1
  }

  /** The first element with identifier `id` gets key `newKey`. */
  function Rekeyed(s: seq<Element>, id: string, newKey: int): (t: seq<Element>)
    requires Present(s, id)
  {
    s[FirstIndex(s, id) := Element(id, newKey)]
  }

  /** The sift-up loop of `decreaseKey` as written: swap with `parent(i)`
      while that holds a larger key. */
  function SiftUp(s: seq<Element>, i: int): (t: seq<Element>)
    requires 0 <= i < |s|
    decreases i
  {
    if i > 0 && s[Parent(i)].key > s[i].key then SiftUp(Swap(s, i, Parent(i)), Parent(i))
    else s
  }

  lemma {:induction false} SiftUpPermutes(s: seq<Element>, i: int)
    requires 0 <= i < |s|
    ensures |SiftUp(s, i)| == |s| && multiset(SiftUp(s, i)) == multiset(s)
    decreases i
  {
    if i > 0 && s[Parent(i)].key > s[i].key {
      SwapPermutes(s, i, Parent(i));
      SiftUpPermutes(Swap(s, i, Parent(i)), Parent(i));
    }
  }

  /** What `decreaseKey(id, newKey)` leaves: the first element with
      identifier `id` gets `newKey`, then the sift-up runs from its index.
      On an empty vector the scan stops at index 0 and nothing happens. */
  function AfterDecrease(s: seq<Element>, id: string, newKey: int): (t: seq<Element>)
    requires Present(s, id) || s == []
  {
    if s == [] then s else SiftUp(Rekeyed(s, id, newKey), FirstIndex(s, id))
  }

  /** `decreaseKey(id, newKey)` changes exactly one element: the first with
      identifier `id` now has key `newKey`; the sift-up only reorders. */
  lemma DecreaseKeyChangesOne(s: seq<Element>, id: string, newKey: int)
    requires Present(s, id)
    ensures var t := AfterDecrease(s, id, newKey);
      |t| == |s| && multiset(t) == multiset(s) - multiset{s[FirstIndex(s, id)]} + multiset{Element(id, newKey)}
  {
    var f := FirstIndex(s, id);
    SiftUpPermutes(Rekeyed(s, id, newKey), f);
    MultisetUpdate(s, f, Element(id, newKey));
  }

  /** Overwriting one position swaps one element of the multiset. */
  lemma MultisetUpdate<T>(s: seq<T>, f: int, v: T)
    requires 0 <= f < |s|
    ensures multiset(s[f := v]) == multiset(s) - multiset{s[f]} + multiset{v}
  {
    assert s == s[..f] + [s[f]] + s[f + 1..];
    assert s[f := v] == s[..f] + [v] + s[f + 1..];
  }

  /** What `insert(id, key)` leaves: `(id, INT_MAX)` pushed at the end, then
      `decreaseKey(id, key)`. */
  function AfterInsert(s: seq<Element>, id: string, key: int): (t: seq<Element>)
  {
    var s' := s + [Element(id, INT_MAX)];
    assert s'[|s|].id == id;
    AfterDecrease(s', id, key)
  }

  /** `insert(id, key)` adds one element and replaces at most the first
      element that had identifier `id` by one with key `key`. */
  lemma InsertChangesOne(s: seq<Element>, id: string, key: int)
    ensures var s' := s + [Element(id, INT_MAX)];
      var t := AfterInsert(s, id, key);
      && s'[|s|].id == id && |t| == |s| + 1
      && multiset(t) == multiset(s) + multiset{Element(id, INT_MAX)} - multiset{s'[FirstIndex(s', id)]} + multiset{Element(id, key)}
  {
    var s' := s + [Element(id, INT_MAX)];
    assert s'[|s|].id == id;
    DecreaseKeyChangesOne(s', id, key);
    assert multiset(s') == multiset(s) + multiset{Element(id, INT_MAX)};
  }

  /** After `insert(id, key)`, `isMember(id)` holds. */
  lemma InsertMakesMember(s: seq<Element>, id: string, key: int)
    ensures Present(AfterInsert(s, id, key), id)
  {
    var t := AfterInsert(s, id, key);
    InsertChangesOne(s, id, key);
    assert Element(id, key) in multiset(t);
  }

  /** `insert` of an identifier not yet queued adds it with key `key`. */
  lemma InsertNew(s: seq<Element>, id: string, key: int)
    requires !Present(s, id)
    ensures multiset(AfterInsert(s, id, key)) == multiset(s) + multiset{Element(id, key)}
  {
    var s' := s + [Element(id, INT_MAX)];
    assert FirstIndex(s', id) == |s| by {
      assert s'[|s|].id == id;
    }
    InsertChangesOne(s, id, key);
  }

  /** `insert` of an identifier already queued gives its first element key
      `key` and queues a second element with key `INT_MAX`. */
  lemma InsertDuplicate(s: seq<Element>, id: string, key: int)
    requires Present(s, id)
    ensures var f := FirstIndex(s, id);
      multiset(AfterInsert(s, id, key)) == multiset(s) - multiset{s[f]} + multiset{Element(id, key), Element(id, INT_MAX)}
  {
    var f := FirstIndex(s, id);
    FirstIndexAppend(s, Element(id, INT_MAX), id);
    assert (s + [Element(id, INT_MAX)])[f] == s[f];
    InsertChangesOne(s, id, key);
    MultisetExchange(multiset(s), Element(id, INT_MAX), s[f], Element(id, key));
  }

  /** Appending leaves the first occurrence of an identifier already there
      where it was. */
  lemma FirstIndexAppend(s: seq<Element>, e: Element, id: string)
    requires Present(s, id)
    ensures FirstIndex(s + [e], id) == FirstIndex(s, id)
  {
    var f := FirstIndex(s, id);
    assert (s + [e])[f] == s[f];
    forall j | 0 <= j < f
      ensures (s + [e])[j].id != id
    {
      assert (s + [e])[j] == s[j];
    }
  }

  /** Adding `x` before taking out a `y` that is already there is taking
      it out first. */
  lemma MultisetExchange<T>(a: multiset<T>, x: T, y: T, z: T)
    requires y in a
    ensures a + multiset{x} - multiset{y} + multiset{z} == a - multiset{y} + multiset{x, z}
  {
  }

  /** A vector in heap order whose element `"c"`, at index 2, is a child
      of the root. */
  const ExampleHeap: seq<Element> := [Element("a", 0), Element("b", 10), Element("c", 3),
    Element("d", 11), Element("e", 12), Element("f", 4), Element("g", 5)]

  lemma ExampleIsHeap()
    ensures HeapFrom(ExampleHeap, 0) && FirstIndex(ExampleHeap, "c") == 2
  {
    var s := ExampleHeap;
    forall j | 0 < j < |s| && Below(0, j)
      ensures s[(j - 1) / 2].key <= s[j].key
    {
    }
    assert s[0].id != "c" && s[1].id != "c" && s[2].id == "c";
  }

  /** A counterexample to the sift-up: lowering the key of `"c"` to 2 swaps
      it with index 1, `parent(2)`, instead of the root, which leaves key 10
      above its children 4 and 5 at indices 5 and 6. */
  lemma SiftUpBreaksHeap()
    ensures Present(ExampleHeap, "c") && HeapFrom(ExampleHeap, 0)
    ensures !HeapFrom(AfterDecrease(ExampleHeap, "c", 2), 0)
  {
    ExampleIsHeap();
    var s1 := Rekeyed(ExampleHeap, "c", 2);
    var s2 := Swap(s1, 2, 1);
    assert AfterDecrease(ExampleHeap, "c", 2) == SiftUp(s1, 2) == SiftUp(s2, 1) == s2;
    assert Below(0, 5) by {
      assert Below(0, 0) && Below(0, 2);
    }
    assert s2[2].key > s2[5].key;
  }

  /** `j` is in the subtree rooted at `i` of the tree that `left` and
      `right` describe. */
  ghost predicate Below(i: nat, j: nat)
    decreases j
  {
    j == i || (j > i && Below(i, (j - 1) / 2))
  }

  /** The subtree rooted at `i` is in min-heap order: no node of it holds a
      smaller key than its child. */
  ghost predicate HeapFrom(s: seq<Element>, i: nat) {
    forall j :: i < j < |s| && Below(i, j) ==> s[(j - 1) / 2].key <= s[j].key
  }

  lemma {:induction false} BelowTrans(a: nat, b: nat, c: nat)
    requires Below(a, b) && Below(b, c)
    ensures Below(a, c)
    decreases c
  {
    if c != b {
      BelowTrans(a, b, (c - 1) / 2);
    }
  }

  /** Of two nodes above `j`, the lower-indexed is above the other. */
  lemma {:induction false} BelowOrdered(a: nat, b: nat, j: nat)
    requires Below(a, j) && Below(b, j) && a <= b
    ensures Below(a, b)
    decreases j
  {
    if j != b {
      BelowOrdered(a, b, (j - 1) / 2);
    }
  }

  /** A node below `i` other than `i` is below one of its two children,
      and never below both. */
  lemma {:induction false} BelowChild(i: nat, j: nat)
    requires Below(i, j) && j != i
    ensures Below(Left(i), j) || Below(Right(i), j)
    ensures !(Below(Left(i), j) && Below(Right(i), j))
    decreases j
  {
    var p := (j - 1) / 2;
    if p != i {
      BelowChild(i, p);
    }
    if Below(Left(i), j) && Below(Right(i), j) {
      BelowOrdered(Left(i), Right(i), j);
      assert false;
    }
  }

  lemma ChildBelow(i: nat)
    ensures Below(i, Left(i)) && Below(i, Right(i))
  {
    assert Below(i, i);
  }

  /** The root of a subtree in heap order holds its smallest key. */
  lemma {:induction false} HeapRootMin(s: seq<Element>, i: nat, j: nat)
    requires HeapFrom(s, i) && Below(i, j) && j < |s|
    ensures s[i].key <= s[j].key
    decreases j
  {
    if j != i {
      HeapRootMin(s, i, (j - 1) / 2);
    }
  }

  /** A subtree of a subtree in heap order is in heap order. */
  lemma HeapFromSub(s: seq<Element>, a: nat, b: nat)
    requires HeapFrom(s, a) && Below(a, b)
    ensures HeapFrom(s, b)
  {
    forall j | b < j < |s| && Below(b, j)
      ensures s[(j - 1) / 2].key <= s[j].key
    {
      BelowTrans(a, b, j);
    }
  }

  /** Heap order of a subtree depends only on the subtree's positions. */
  lemma HeapFromFrame(s: seq<Element>, t: seq<Element>, k: nat)
    requires HeapFrom(s, k) && |t| <= |s|
    requires forall j :: 0 <= j < |t| && Below(k, j) ==> t[j] == s[j]
    ensures HeapFrom(t, k)
  {
    forall j | k < j < |t| && Below(k, j)
      ensures t[(j - 1) / 2].key <= t[j].key
    {
      assert Below(k, (j - 1) / 2);
    }
  }

  /** The node among `i` and its children holding the smallest key, the
      left child winning ties with the right, and `i` winning any tie. */
  function Smallest(s: seq<Element>, i: nat): (m: nat)
    ensures m == i || (m == Left(i) && m < |s|) || (m == Right(i) && m < |s|)
    ensures m != i ==> i < m && s[m].key < s[i].key
    ensures m != i ==> forall c :: c in {Left(i), Right(i)} && c < |s| ==> s[m].key <= s[c].key
    ensures m == i && Left(i) < |s| ==> s[i].key <= s[Left(i)].key
    ensures m == i && Right(i) < |s| ==> s[i].key <= s[Right(i)].key
  {
    var l, r := Left(i), Right(i);
    var smallest := if l < |s| && s[l].key < s[i].key then l else i;
    if r < |s| && s[r].key < s[smallest].key then r else smallest
  }

  /** `minHeapify(i)`: swap `i` with its smaller child while that child
      holds a smaller key. */
  function Heapify(s: seq<Element>, i: nat): (t: seq<Element>)
    decreases |s| - i
  {
    var m := Smallest(s, i);
    if m != i then Heapify(Swap(s, i, m), m) else s
  }

  lemma {:induction false} HeapifyPermutes(s: seq<Element>, i: nat)
    ensures |Heapify(s, i)| == |s| && multiset(Heapify(s, i)) == multiset(s)
    decreases |s| - i
  {
    var m := Smallest(s, i);
    if m != i {
      SwapPermutes(s, i, m);
      HeapifyPermutes(Swap(s, i, m), m);
    }
  }

  /** `minHeapify(i)` touches only the subtree rooted at `i`. */
  lemma {:induction false} HeapifyOutside(s: seq<Element>, i: nat)
    ensures |Heapify(s, i)| == |s|
    ensures forall j :: 0 <= j < |s| && !Below(i, j) ==> Heapify(s, i)[j] == s[j]
    decreases |s| - i
  {
    var m := Smallest(s, i);
    if m != i {
      HeapifyOutside(Swap(s, i, m), m);
      ChildBelow(i);
      forall j | 0 <= j < |s| && !Below(i, j)
        ensures Heapify(s, i)[j] == s[j]
      {
        if Below(m, j) {
          BelowTrans(i, m, j);
        }
      }
    }
  }

  /** A lower bound on the keys of the subtree at `i` survives
      `minHeapify(i)`. */
  lemma {:induction false} HeapifyKeepsBound(s: seq<Element>, i: nat, b: int)
    requires forall j :: 0 <= j < |s| && Below(i, j) ==> s[j].key >= b
    ensures |Heapify(s, i)| == |s|
    ensures forall j :: 0 <= j < |s| && Below(i, j) ==> Heapify(s, i)[j].key >= b
    decreases |s| - i
  {
    var m := Smallest(s, i);
    if m != i {
      var t := Swap(s, i, m);
      ChildBelow(i);
      forall j | 0 <= j < |t| && Below(m, j)
        ensures t[j].key >= b
      {
        BelowTrans(i, m, j);
      }
      HeapifyKeepsBound(t, m, b);
      HeapifyOutside(t, m);
      forall j | 0 <= j < |s| && Below(i, j)
        ensures Heapify(s, i)[j].key >= b
      {
        if !Below(m, j) {
          assert Heapify(s, i)[j] == t[j];
        }
      }
    }
  }

  /** Two subtrees in heap order under a root no larger than either
      child make a subtree in heap order. */
  lemma HeapJoin(s: seq<Element>, i: nat)
    requires HeapFrom(s, Left(i)) && HeapFrom(s, Right(i))
    requires Left(i) < |s| ==> s[i].key <= s[Left(i)].key
    requires Right(i) < |s| ==> s[i].key <= s[Right(i)].key
    ensures HeapFrom(s, i)
  {
    forall j | i < j < |s| && Below(i, j)
      ensures s[(j - 1) / 2].key <= s[j].key
    {
      BelowChild(i, j);
    }
  }

  /** After the swap at `i` with its smaller child `m`, the keys of the
      subtree at `m` stay at least the key that moved up to `i`. */
  lemma HeapifySwapBound(s: seq<Element>, i: nat)
    requires HeapFrom(s, Left(i)) && HeapFrom(s, Right(i)) && Smallest(s, i) != i
    ensures var m := Smallest(s, i);
      var u := Heapify(Swap(s, i, m), m);
      m < |u| && u[m].key >= s[m].key
  {
    var m := Smallest(s, i);
    var t := Swap(s, i, m);
    forall j | 0 <= j < |t| && Below(m, j)
      ensures t[j].key >= s[m].key
    {
      if j != m {
        HeapRootMin(s, m, j);
      }
    }
    HeapifyKeepsBound(t, m, s[m].key);
    assert Below(m, m);
  }

  /** The swap at `i` and the sift-down below the smaller child `m` leave
      the subtree of the other child `o` as it was. */
  lemma HeapifySiblingKept(s: seq<Element>, i: nat, o: nat)
    requires Smallest(s, i) != i
    requires o == (if Smallest(s, i) == Left(i) then Right(i) else Left(i))
    ensures var m := Smallest(s, i);
      var u := Heapify(Swap(s, i, m), m);
      |u| == |s| && forall j :: 0 <= j < |u| && Below(o, j) ==> u[j] == s[j]
  {
    var m := Smallest(s, i);
    var t := Swap(s, i, m);
    var u := Heapify(t, m);
    HeapifyOutside(t, m);
    forall j | 0 <= j < |u| && Below(o, j)
      ensures u[j] == s[j]
    {
      if Below(m, j) {
        BelowOrdered(Left(i), Right(i), j);
        assert false;
      }
    }
  }

  /** `minHeapify(i)` with both child subtrees in heap order puts the
      subtree at `i` in heap order. */
  lemma {:induction false} HeapifyOrders(s: seq<Element>, i: nat)
    requires HeapFrom(s, Left(i)) && HeapFrom(s, Right(i))
    ensures HeapFrom(Heapify(s, i), i)
    decreases |s| - i
  {
    var m := Smallest(s, i);
    if m == i {
      HeapJoin(s, i);
    } else {
      var o := if m == Left(i) then Right(i) else Left(i);
      var t := Swap(s, i, m);
      ChildBelow(m);
      HeapFromSub(s, m, Left(m));
      HeapFromSub(s, m, Right(m));
      HeapFromFrame(s, t, Left(m));
      HeapFromFrame(s, t, Right(m));
      HeapifyOrders(t, m);
      var u := Heapify(t, m);
      HeapifySwapBound(s, i);
      HeapifySiblingKept(s, i, o);
      HeapifyOutside(t, m);
      assert !Below(m, i);
      HeapFromFrame(s, u, o);
      if o < |u| {
        assert Below(o, o);
      }
      HeapJoin(u, i);
    }
  }

  /** What `extractMin` leaves in a non-empty vector: the last element
      moved to the root, the vector one shorter, then `minHeapify(0)`. */
  function AfterExtract(s: seq<Element>): (t: seq<Element>)
    requires |s| > 0
  {
    Heapify(s[0 := s[|s| - 1]][..|s| - 1], 0)
  }

  /** `extractMin` drops exactly the root element. */
  lemma ExtractRemovesRoot(s: seq<Element>)
    requires |s| > 0
    ensures |AfterExtract(s)| == |s| - 1
    ensures multiset(AfterExtract(s)) == multiset(s) - multiset{s[0]}
  {
    var n := |s|;
    var moved := s[0 := s[n - 1]][..n - 1];
    HeapifyPermutes(moved, 0);
    if n > 1 {
      var mid := s[1..n - 1];
      assert s == [s[0]] + mid + [s[n - 1]];
      assert moved == [s[n - 1]] + mid;
      assert multiset(s) == multiset{s[0]} + multiset(mid) + multiset{s[n - 1]};
      assert multiset(moved) == multiset{s[n - 1]} + multiset(mid);
    } else {
      assert moved == [] && s == [s[0]];
    }
  }

  /** The identifiers of the queued elements, in vector order. */
  function Names(s: seq<Element>): seq<string> {
    seq(|s|, k requires 0 <= k < |s| => s[k].id)
  }

  lemma NamesConcat(a: seq<Element>, b: seq<Element>)
    ensures Names(a + b) == Names(a) + Names(b)
  {
    assert forall k :: 0 <= k < |a| + |b| ==> Names(a + b)[k] == (Names(a) + Names(b))[k];
  }

  /** Reordering the elements reorders their identifiers. */
  lemma {:induction false} NamesPermuted(s: seq<Element>, t: seq<Element>)
    requires multiset(s) == multiset(t)
    ensures multiset(Names(s)) == multiset(Names(t))
    decreases |s|
  {
    if s == [] {
      assert |t| == |multiset(t)| == 0;
    } else {
      var a := s[0];
      assert a in multiset(t);
      var j :| 0 <= j < |t| && t[j] == a;
      var t' := t[..j] + t[j + 1..];
      assert t == t[..j] + [a] + t[j + 1..];
      assert s == [a] + s[1..];
      assert multiset(t) == multiset(t[..j]) + multiset{a} + multiset(t[j + 1..]);
      assert multiset(s) == multiset{a} + multiset(s[1..]);
      assert multiset(t') == multiset(t[..j]) + multiset(t[j + 1..]);
      assert multiset(s[1..]) == multiset(s) - multiset{a};
      assert multiset(t') == multiset(t) - multiset{a};
      NamesPermuted(s[1..], t');
      NamesConcat([a], s[1..]);
      NamesConcat(t[..j] + [a], t[j + 1..]);
      NamesConcat(t[..j], [a]);
      NamesConcat(t[..j], t[j + 1..]);
    }
  }

  /** `decreaseKey` keeps the multiset of queued identifiers: it re-keys an
      element and only swaps after that. */
  lemma DecreaseKeepsNames(s: seq<Element>, id: string, newKey: int)
    requires Present(s, id) || s == []
    ensures multiset(Names(AfterDecrease(s, id, newKey))) == multiset(Names(s))
  {
    if s != [] {
      var f := FirstIndex(s, id);
      SiftUpPermutes(Rekeyed(s, id, newKey), f);
      assert Names(Rekeyed(s, id, newKey)) == Names(s);
      NamesPermuted(AfterDecrease(s, id, newKey), Rekeyed(s, id, newKey));
    }
  }

  /** `insert(id, key)` queues `id` once more, whether or not it was
      already queued. */
  lemma InsertAddsName(s: seq<Element>, id: string, key: int)
    ensures multiset(Names(AfterInsert(s, id, key))) == multiset(Names(s)) + multiset{id}
  {
    var s' := s + [Element(id, INT_MAX)];
    assert s'[|s|].id == id;
    DecreaseKeepsNames(s', id, key);
    NamesConcat(s, [Element(id, INT_MAX)]);
  }

  /** `extractMin` on a non-empty queue takes out one occurrence of the
      root's identifier and nothing else. */
  lemma ExtractRemovesName(s: seq<Element>)
    requires |s| > 0
    ensures multiset(Names(AfterExtract(s))) == multiset(Names(s)) - multiset{s[0].id}
  {
    ExtractRemovesRoot(s);
    NamesOfRemoved(s, AfterExtract(s));
  }

  lemma NamesOfRemoved(s: seq<Element>, t: seq<Element>)
    requires |s| > 0 && multiset(t) == multiset(s) - multiset{s[0]}
    ensures multiset(Names(t)) == multiset(Names(s)) - multiset{s[0].id}
  {
    assert multiset(t + [s[0]]) == multiset(s);
    NamesPermuted(t + [s[0]], s);
    NamesConcat(t, [s[0]]);
  }

  /** On a vector in heap order, `extractMin` returns the smallest key's
      element and leaves the rest in heap order. */
  lemma ExtractFromHeap(s: seq<Element>)
    requires |s| > 0 && HeapFrom(s, 0)
    ensures forall j :: 0 <= j < |s| ==> s[0].key <= s[j].key
    ensures HeapFrom(AfterExtract(s), 0)
  {
    forall j | 0 <= j < |s|
      ensures s[0].key <= s[j].key
    {
      BelowToRoot(j);
      HeapRootMin(s, 0, j);
    }
    var n := |s|;
    var moved := s[0 := s[n - 1]][..n - 1];
    ChildBelow(0);
    forall k | k in {Left(0), Right(0)}
      ensures HeapFrom(moved, k)
    {
      forall j | 0 <= j < |moved| && Below(k, j)
        ensures moved[j] == s[j]
      {
      }
      HeapFromSub(s, 0, k);
      HeapFromFrame(s, moved, k);
    }
    HeapifyOrders(moved, 0);
  }

  /** Every index is in the subtree of the root. */
  lemma {:induction false} BelowToRoot(j: nat)
    ensures Below(0, j)
    decreases j
  {
    if j > 0 {
      BelowToRoot((j - 1) / 2);
    }
  }

  class MinPriorityQ {
    var heap: seq<Element>

    /** The default constructor: an empty vector. */
    constructor ()
      ensures heap == []
    {
      heap := [];
    }

    /** `insert`: push `(id, INT_MAX)`, then `decreaseKey(id, key)`. */
    method Insert(id: string, key: int)
      modifies this
      ensures heap == AfterInsert(old(heap), id, key)
    {
      heap := heap + [Element(id, INT_MAX)];
      assert heap[|heap| - 1].id == id;
      DecreaseKey(id, key);
    }

    /** `decreaseKey`: the scan for the first element with `id`, which gets
        `newKey`, then the sift-up from its index. An `id` absent from a
        non-empty vector would make the sift-up read past the end, so it is
        excluded. */
    method DecreaseKey(id: string, newKey: int)
      requires Present(heap, id) || heap == []
      modifies this
      ensures heap == AfterDecrease(old(heap), id, newKey)
    {
      var index := 0;
      while index < |heap|
        invariant index <= FirstIndex(heap, id) && heap == old(heap)
      {
        if heap[index].id == id {
          heap := heap[index := Element(id, newKey)];
          break;
        }
        index := index + 1;
      }
      ghost var t := heap;
      while index > 0 && heap[Parent(index)].key > heap[index].key
        invariant heap == [] ==> index == 0 && old(heap) == []
        invariant heap != [] ==> 0 <= index < |heap| == |t| && FirstIndex(old(heap), id) < |t|
        invariant heap != [] ==> SiftUp(heap, index) == SiftUp(t, FirstIndex(old(heap), id))
        decreases index
      {
        heap := heap[index := heap[Parent(index)]][Parent(index) := heap[index]];
        index := Parent(index);
      }
    }

    /** `extractMin`: `"empty"` on an empty queue; otherwise the root's
        identifier, with the last element moved to the root and sifted
        down. */
    method ExtractMin() returns (r: string)
      modifies this
      ensures old(heap) == [] ==> r == "empty" && heap == []
      ensures old(heap) != [] ==> r == old(heap)[0].id && heap == AfterExtract(old(heap))
    {
      if |heap| == 0 {
        return "empty";
      }
      r := heap[0].id;
      heap := heap[0 := heap[|heap| - 1]];
      heap := heap[..|heap| - 1];
      MinHeapify(0);
    }

    /** `isMember`: a scan for an element with identifier `id`. */
    method IsMember(id: string) returns (b: bool)
      ensures b <==> Present(heap, id)
    {
      var k := 0;
      while k < |heap|
        invariant 0 <= k <= |heap| && forall j :: 0 <= j < k ==> heap[j].id != id
      {
        if heap[k].id == id {
          return true;
        }
        k := k + 1;
      }
      return false;
    }

    /** `minHeapify(i)`: the recursive sift-down. */
    method MinHeapify(i: nat)
      modifies this
      ensures heap == Heapify(old(heap), i)
      decreases |heap| - i
    {
      var l := Left(i);
      var r := Right(i);
      var smallest;
      if l < |heap| && heap[l].key < heap[i].key {
        smallest := l;
      } else {
        smallest := i;
      }
      if r < |heap| && heap[r].key < heap[smallest].key {
        smallest := r;
      }
      if smallest != i {
        heap := heap[i := heap[smallest]][smallest := heap[i]];
        MinHeapify(smallest);
      }
    }
  }
}
