/** `Graph`: named vertices, per-vertex lists of weighted out-edges, and
    Dijkstra's single-source shortest paths over the `MinPriorityQ` of
    `MinPriority`, with the tree of the last source kept for later
    queries. Where the C++ would read an uninitialised or missing map
    entry, overflow an `int` or read past the end of the queue's vector, the
    model stops and reports it (`ok == false`, or `None`). */
module Graphs {
  import opened Common
  import opened MinPriority

  /** A vertex's predecessor on the current tree and its tentative
      distance. */
  datatype Vertex = Vertex(pi: string, key: int)

  /** An out-edge: the target's name and the weight. */
  datatype Neighbor = Neighbor(name: string, weight: int)

  /** `relax(u, v, weight)` on the vertex records: `v` takes the path
      through `u` when that is strictly shorter. */
  function Relaxed(vs: map<string, Vertex>, u: string, v: string, w: int): (r: map<string, Vertex>)
    requires u in vs && v in vs
  {
    if vs[v].key > vs[u].key + w then vs[v := Vertex(u, vs[u].key + w)] else vs
  }

  /** `relax` never raises a key, leaves the edge `u -> v` with
      `key[v] <= key[u] + w`, and when it changes anything it only gives
      `v` the new key and the predecessor `u`. */
  lemma RelaxNeverRaises(vs: map<string, Vertex>, u: string, v: string, w: int)
    requires u in vs && v in vs
    ensures var r := Relaxed(vs, u, v, w);
      && r.Keys == vs.Keys
      && (forall x :: x in r ==> r[x].key <= vs[x].key)
      && r[v].key <= vs[u].key + w
      && (r != vs ==> r[v] == Vertex(u, vs[u].key + w) && forall x :: x in r && x != v ==> r[x] == vs[x])
  {
  }

  /** The records after `relax(u, e.name, e.weight)` for each edge `e` of
      `adj` in order; an edge that names a missing vertex leaves them as
      they are. */
  function RelaxedAll(vs: map<string, Vertex>, u: string, adj: seq<Neighbor>): map<string, Vertex>
    decreases |adj|
  {
    if adj == [] then vs
    else
      var prev, e := RelaxedAll(vs, u, adj[..|adj| - 1]), adj[|adj| - 1];
      if u in prev && e.name in prev then Relaxed(prev, u, e.name, e.weight) else prev
  }

  /** One more edge of the fold is one more `relax`. */
  lemma RelaxedAllStep(vs: map<string, Vertex>, u: string, adj: seq<Neighbor>, k: int)
    requires 0 <= k < |adj|
    requires u in RelaxedAll(vs, u, adj[..k]) && adj[k].name in RelaxedAll(vs, u, adj[..k])
    ensures RelaxedAll(vs, u, adj[..k + 1]) == Relaxed(RelaxedAll(vs, u, adj[..k]), u, adj[k].name, adj[k].weight)
  {
    assert adj[..k + 1][..k] == adj[..k];
  }

  /** Relaxing all out-edges of `u` keeps the vertex set and raises no key,
      and every record it changes belongs to a target of one of the edges
      and now has predecessor `u`. */
  lemma {:induction false} RelaxedAllNeverRaises(vs: map<string, Vertex>, u: string, adj: seq<Neighbor>)
    ensures var r := RelaxedAll(vs, u, adj);
      && r.Keys == vs.Keys
      && (forall x :: x in r ==> r[x].key <= vs[x].key)
      && (forall x :: x in r && r[x] != vs[x] ==> r[x].pi == u && exists k :: 0 <= k < |adj| && adj[k].name == x)
    decreases |adj|
  {
    if adj != [] {
      var n := |adj|;
      var prev, e := RelaxedAll(vs, u, adj[..n - 1]), adj[n - 1];
      RelaxedAllNeverRaises(vs, u, adj[..n - 1]);
      if u in prev && e.name in prev {
        RelaxNeverRaises(prev, u, e.name, e.weight);
        var r := Relaxed(prev, u, e.name, e.weight);
        forall x | x in r && r[x] != vs[x]
          ensures r[x].pi == u && exists k :: 0 <= k < n && adj[k].name == x
        {
          if r[x] != prev[x] {
            assert x == e.name && adj[n - 1].name == x;
          } else {
            var k :| 0 <= k < n - 1 && adj[..n - 1][k].name == x;
            assert adj[k].name == x;
          }
        }
      } else {
        forall x | x in prev && prev[x] != vs[x]
          ensures exists k :: 0 <= k < n && adj[k].name == x
        {
          var k :| 0 <= k < n - 1 && adj[..n - 1][k].name == x;
          assert adj[k].name == x;
        }
      }
    }
  }

  /** The records after the first loop of `buildSSPTree(source)`: every
      other vertex has key `INT_MAX` and predecessor `"NIL"`; the source has
      key 0 and keeps its predecessor. */
  function Initialized(vs: map<string, Vertex>, source: string): (r: map<string, Vertex>)
    ensures r.Keys == vs.Keys
  {
    map v | v in vs :: if v == source then vs[v].(key := 0) else Vertex("NIL", INT_MAX)
  }

  /** What holds of the records throughout `buildSSPTree(source)`: no key
      above its starting value, and every other vertex whose key has come
      down below `INT_MAX` names a vertex as predecessor. */
  ghost predicate Bounded(vs: map<string, Vertex>, source: string) {
    forall v :: v in vs ==>
      && vs[v].key <= (if v == source then 0 else INT_MAX)
      && (v != source && vs[v].key < INT_MAX ==> vs[v].pi in vs)
  }

  lemma InitializedBounded(vs: map<string, Vertex>, source: string)
    ensures Bounded(Initialized(vs, source), source)
    ensures forall v :: v in vs && v != source ==> Initialized(vs, source)[v] == Vertex("NIL", INT_MAX)
    ensures source in vs ==> Initialized(vs, source)[source] == Vertex(vs[source].pi, 0)
  {
  }

  /** The records while the first loop of `buildSSPTree` runs: those
      still in `todo` as they were, the others reset. */
  function PartlyInitialized(vs: map<string, Vertex>, source: string, todo: set<string>): map<string, Vertex> {
    map v | v in vs :: if v in todo then vs[v] else Initialized(vs, source)[v]
  }

  lemma InitializedOneMore(vs: map<string, Vertex>, source: string, todo: set<string>, name: string)
    requires name in todo && todo <= vs.Keys
    ensures PartlyInitialized(vs, source, todo - {name})
      == PartlyInitialized(vs, source, todo)[name := Initialized(PartlyInitialized(vs, source, todo), source)[name]]
    ensures PartlyInitialized(vs, source, {}) == Initialized(vs, source)
    ensures PartlyInitialized(vs, source, vs.Keys) == vs
  {
  }

  lemma RelaxKeepsBounded(vs: map<string, Vertex>, source: string, u: string, v: string, w: int)
    requires Bounded(vs, source) && u in vs && v in vs
    ensures Bounded(Relaxed(vs, u, v, w), source)
  {
    RelaxNeverRaises(vs, u, v, w);
  }

  /** The elements `buildSSPTree`'s first loop queues for `names`, in
      that order: each name with its key in `vs`. */
  function Queued(names: seq<string>, vs: map<string, Vertex>): (q: seq<Element>)
    requires forall n :: n in names ==> n in vs
    ensures |q| == |names|
    ensures forall k :: 0 <= k < |names| ==> q[k] == Element(names[k], vs[names[k]].key)
  {
    if names == [] then []
    else Queued(names[..|names| - 1], vs) + [Element(names[|names| - 1], vs[names[|names| - 1]].key)]
  }

  /** No element of `heap` belongs to one of `names`. */
  predicate Unqueued(heap: seq<Element>, names: set<string>) {
    forall k :: 0 <= k < |heap| ==> heap[k].id !in names
  }

  /** A name queued neither before nor by the loop so far is not in the
      queue, so `insert` adds it fresh. */
  lemma NotQueuedYet(heap: seq<Element>, h0: seq<Element>, q: seq<Element>, names: set<string>, id: string)
    requires multiset(heap) == multiset(h0) + multiset(q)
    requires Unqueued(h0, names) && id in names
    requires forall k :: 0 <= k < |q| ==> q[k].id != id
    ensures !Present(heap, id)
  {
    forall k | 0 <= k < |heap|
      ensures heap[k].id != id
    {
      var e := heap[k];
      assert e in multiset(heap);
      if e in multiset(h0) {
        var j :| 0 <= j < |h0| && h0[j] == e;
      } else {
        assert e in multiset(q);
        var j :| 0 <= j < |q| && q[j] == e;
      }
    }
  }


  /** A sequence of distinct names holds each name of its set once. */
  lemma {:induction false} DistinctMultiset(names: seq<string>, all: set<string>)
    requires forall i, j :: 0 <= i < j < |names| ==> names[i] != names[j]
    requires forall n :: n in names <==> n in all
    ensures multiset(names) == multiset(all)
    decreases |names|
  {
    if names == [] {
      assert all == {};
    } else {
      var n := |names|;
      var pre, last := names[..n - 1], names[n - 1];
      assert names == pre + [last];
      assert last !in pre by {
        assert forall i :: 0 <= i < n - 1 ==> pre[i] == names[i] != names[n - 1];
      }
      DistinctMultiset(pre, all - {last});
      assert multiset(all) == multiset(all - {last}) + multiset{last} by {
        assert forall x :: multiset(all)[x] == (multiset(all - {last}) + multiset{last})[x];
      }
    }
  }

  /** One step of `buildSSPTree`'s first loop on the queue: inserting a
      name not yet visited adds it to the queued names, and, when no vertex
      was queued beforehand, adds exactly its element. */
  lemma QueueOneMore(h0: seq<Element>, h: seq<Element>, order: seq<string>, fin: map<string, Vertex>, name: string)
    requires forall n :: n in order ==> n in fin
    requires name in fin && name !in order
    requires multiset(Names(h)) == multiset(Names(h0)) + multiset(order)
    requires Unqueued(h0, fin.Keys) ==> multiset(h) == multiset(h0) + multiset(Queued(order, fin))
    ensures multiset(Names(AfterInsert(h, name, fin[name].key))) == multiset(Names(h0)) + multiset(order + [name])
    ensures Unqueued(h0, fin.Keys) ==>
      multiset(AfterInsert(h, name, fin[name].key)) == multiset(h0) + multiset(Queued(order + [name], fin))
  {
    InsertAddsName(h, name, fin[name].key);
    if Unqueued(h0, fin.Keys) {
      NotQueuedYet(h, h0, Queued(order, fin), fin.Keys, name);
      InsertNew(h, name, fin[name].key);
      assert (order + [name])[..|order|] == order;
    }
  }

  /** The visiting order of that loop: the least remaining name comes
      after every visited one, and before every other remaining one. */
  lemma AscendingOneMore(order: seq<string>, todo: set<string>, name: string)
    requires forall i, j :: 0 <= i < j < |order| ==> StrLess(order[i], order[j])
    requires forall i, y :: 0 <= i < |order| && y in todo ==> StrLess(order[i], y)
    requires name in todo && forall y :: y in todo ==> StrLessEq(name, y)
    ensures forall i, j :: 0 <= i < j < |order| + 1 ==> StrLess((order + [name])[i], (order + [name])[j])
    ensures forall i, y :: 0 <= i < |order| + 1 && y in todo - {name} ==> StrLess((order + [name])[i], y)
  {
  }

  /** One round of `buildSSPTree`'s second loop on the queue: the name
      `extractMin` takes out moves from the queue to the extracted ones. */
  lemma ExtractedOneMore(h: seq<Element>, extracted: seq<string>, total: multiset<string>)
    requires |h| > 0 && multiset(Names(h)) + multiset(extracted) == total
    ensures multiset(Names(AfterExtract(h))) + multiset(extracted + [h[0].id]) == total
  {
    ExtractRemovesName(h);
    assert h[0].id in multiset(Names(h)) by {
      assert Names(h)[0] == h[0].id;
    }
  }

  /** When the queue started and ended empty, the extracted names are
      exactly the queued ones. */
  lemma AllExtracted(heap: seq<Element>, extracted: seq<string>, before: seq<Element>, names: set<string>)
    requires heap == [] && before == []
    requires multiset(Names(heap)) + multiset(extracted) == multiset(Names(before)) + multiset(names)
    ensures multiset(extracted) == multiset(names)
  {
    assert Names(heap) == [] == Names(before);
    assert multiset(Names(heap)) + multiset(extracted) == multiset(extracted);
    assert multiset(Names(before)) + multiset(names) == multiset(names);
  }

  /** Names in ascending order are distinct. */
  lemma AscendingDistinct(order: seq<string>)
    requires forall i, j :: 0 <= i < j < |order| ==> StrLess(order[i], order[j])
    ensures forall i, j :: 0 <= i < j < |order| ==> order[i] != order[j]
  {
    forall i, j | 0 <= i < j < |order|
      ensures order[i] != order[j]
    {
      StrLessIrreflexive(order[i]);
    }
  }

  /** Every element of the queue names a vertex or was queued before. */
  ghost predicate IdsKnown(heap: seq<Element>, names: set<string>, before: seq<Element>) {
    forall k :: 0 <= k < |heap| ==> heap[k].id in names || Present(before, heap[k].id)
  }

  lemma IdsKnownFromMultiset(heap: seq<Element>, heap': seq<Element>, names: set<string>, before: seq<Element>, e: Element)
    requires IdsKnown(heap, names, before) && (e.id in names || Present(before, e.id))
    requires forall x :: x in multiset(heap') ==> x in multiset(heap) || x == e
    ensures IdsKnown(heap', names, before)
  {
    forall k | 0 <= k < |heap'|
      ensures heap'[k].id in names || Present(before, heap'[k].id)
    {
      assert heap'[k] in multiset(heap');
      if heap'[k] != e {
        var j :| 0 <= j < |heap| && heap[j] == heap'[k];
      }
    }
  }

  lemma IdsKnownInsert(heap: seq<Element>, names: set<string>, before: seq<Element>, id: string, key: int)
    requires IdsKnown(heap, names, before) && id in names
    ensures IdsKnown(AfterInsert(heap, id, key), names, before)
  {
    var h' := AfterInsert(heap, id, key);
    InsertChangesOne(heap, id, key);
    var s' := heap + [Element(id, INT_MAX)];
    var f := FirstIndex(s', id);
    assert s'[f].id == id;
    forall k | 0 <= k < |h'|
      ensures h'[k].id in names || Present(before, h'[k].id)
    {
      assert h'[k] in multiset(h');
      if h'[k].id != id {
        assert h'[k] in multiset(heap);
        var j :| 0 <= j < |heap| && heap[j] == h'[k];
      }
    }
  }

  lemma IdsKnownDecrease(heap: seq<Element>, names: set<string>, before: seq<Element>, id: string, key: int)
    requires IdsKnown(heap, names, before) && id in names && (Present(heap, id) || heap == [])
    ensures IdsKnown(AfterDecrease(heap, id, key), names, before)
  {
    if heap != [] {
      DecreaseKeyChangesOne(heap, id, key);
      IdsKnownFromMultiset(heap, AfterDecrease(heap, id, key), names, before, Element(id, key));
    }
  }

  lemma IdsKnownExtract(heap: seq<Element>, names: set<string>, before: seq<Element>)
    requires IdsKnown(heap, names, before) && heap != []
    ensures IdsKnown(AfterExtract(heap), names, before)
  {
    ExtractRemovesRoot(heap);
    IdsKnownFromMultiset(heap, AfterExtract(heap), names, before, heap[0]);
  }

  /** A non-empty set of names has a least one under `std::string`'s `<`,
      the order in which a `std::map` is traversed. */
  lemma {:induction false} LeastNameExists(names: set<string>)
    requires names != {}
    ensures exists m :: m in names && forall y :: y in names ==> StrLessEq(m, y)
    decreases names
  {
    var x :| x in names;
    if names == {x} {
      StrLessEqTotalOrder(x, x, x);
    } else {
      LeastNameExists(names - {x});
      var m :| m in names - {x} && forall y :: y in names - {x} ==> StrLessEq(m, y);
      StrLessEqTotalOrder(x, m, m);
      var least := if StrLessEq(x, m) then x else m;
      forall y | y in names
        ensures StrLessEq(least, y)
      {
        StrLessEqTotalOrder(least, m, y);
        StrLessEqTotalOrder(x, x, y);
      }
    }
  }

  /** The names the predecessor walk of `getShortestPath` visits from `t`
      until it meets `from` (which is not included), following `pi`;
      `None` when it reaches a name that is not a vertex or needs more than
      `n` steps. */
  function Walk(vs: map<string, Vertex>, from: string, t: string, n: nat): (w: Option<seq<string>>)
    ensures w.Some? ==> |w.value| <= n
    decreases n
  {
    if t == from then Some([])
    else if n == 0 || t !in vs then None
    else
      match Walk(vs, from, vs[t].pi, n - 1)
      case None => None
      case Some(rest) => Some([t] + rest)
  }

  /** A finished walk goes from `t` along `pi` through vertices and ends
      next to `from`, which it never visits. */
  lemma {:induction false} WalkLinks(vs: map<string, Vertex>, from: string, t: string, n: nat)
    requires Walk(vs, from, t, n).Some?
    ensures var w := Walk(vs, from, t, n).value;
      && (w == [] <==> t == from)
      && (forall k :: 0 <= k < |w| ==> w[k] in vs && w[k] != from)
      && (w != [] ==> w[0] == t && vs[w[|w| - 1]].pi == from)
      && (forall k :: 0 <= k < |w| - 1 ==> vs[w[k]].pi == w[k + 1])
    decreases n
  {
    if t != from {
      WalkLinks(vs, from, vs[t].pi, n - 1);
      var rest := Walk(vs, from, vs[t].pi, n - 1).value;
      var w := [t] + rest;
      assert forall k :: 1 <= k < |w| ==> w[k] == rest[k - 1];
    }
  }

  /** More steps than a walk needs give the same walk. */
  lemma {:induction false} WalkMoreFuel(vs: map<string, Vertex>, from: string, t: string, n: nat, m: nat)
    requires Walk(vs, from, t, n).Some? && m >= |Walk(vs, from, t, n).value|
    ensures Walk(vs, from, t, m) == Walk(vs, from, t, n)
    decreases n
  {
    if t != from {
      WalkMoreFuel(vs, from, vs[t].pi, n - 1, m - 1);
    }
  }

  /** The part of a finished walk from its `k`th name on is the walk from
      that name. */
  lemma {:induction false} WalkSuffix(vs: map<string, Vertex>, from: string, t: string, n: nat, k: nat)
    requires Walk(vs, from, t, n).Some? && k < |Walk(vs, from, t, n).value|
    ensures var w := Walk(vs, from, t, n).value;
      Walk(vs, from, w[k], n - k) == Some(w[k..])
    decreases k
  {
    var w := Walk(vs, from, t, n).value;
    if k > 0 {
      var rest := Walk(vs, from, vs[t].pi, n - 1).value;
      assert w == [t] + rest;
      WalkSuffix(vs, from, vs[t].pi, n - 1, k - 1);
      assert rest[k - 1..] == w[k..];
    }
  }

  /** A finished walk visits no name twice: a repeated name would make it
      its own proper suffix. */
  lemma WalkDistinct(vs: map<string, Vertex>, from: string, t: string, n: nat)
    requires Walk(vs, from, t, n).Some?
    ensures var w := Walk(vs, from, t, n).value;
      forall i, j :: 0 <= i < j < |w| ==> w[i] != w[j]
  {
    var w := Walk(vs, from, t, n).value;
    forall i, j | 0 <= i < j < |w|
      ensures w[i] != w[j]
    {
      if w[i] == w[j] {
        WalkSuffix(vs, from, t, n, i);
        WalkSuffix(vs, from, t, n, j);
        WalkMoreFuel(vs, from, w[j], n - j, n - i);
      }
    }
  }

  lemma {:induction false} DistinctFits(w: seq<string>, names: set<string>)
    requires forall i, j :: 0 <= i < j < |w| ==> w[i] != w[j]
    requires forall k :: 0 <= k < |w| ==> w[k] in names
    ensures |w| <= |names|
    decreases |w|
  {
    if w != [] {
      var x := w[|w| - 1];
      var w' := w[..|w| - 1];
      assert forall k :: 0 <= k < |w'| ==> w'[k] == w[k];
      DistinctFits(w', names - {x});
    }
  }

  /** The bound `|vs|` on the walk loses nothing: a walk that has not met
      `from` within `|vs|` steps never meets it, so the C++ loop never ends
      or reads a missing entry. */
  lemma WalkBoundExact(vs: map<string, Vertex>, from: string, t: string, n: nat)
    requires Walk(vs, from, t, n).Some?
    ensures Walk(vs, from, t, |vs|) == Walk(vs, from, t, n)
  {
    var w := Walk(vs, from, t, n).value;
    WalkLinks(vs, from, t, n);
    WalkDistinct(vs, from, t, n);
    DistinctFits(w, vs.Keys);
    WalkMoreFuel(vs, from, t, n, |vs|);
  }

  /** The list of names `pathList` holds once the walk `w` from `pi[to]` is
      done: `from`, the walk backwards, then `to`. */
  function PathList(from: string, w: seq<string>, to: string): (p: seq<string>)
    ensures |p| == |w| + 2 && p[0] == from && p[|p| - 1] == to
    ensures forall k :: 0 <= k < |w| ==> p[|w| - k] == w[k]
  {
    [from] + Reversed(w) + [to]
  }

  function Reversed(w: seq<string>): (r: seq<string>)
    ensures |r| == |w| && forall k :: 0 <= k < |w| ==> r[k] == w[|w| - 1 - k]
  {
    if w == [] then [] else Reversed(w[1..]) + [w[0]]
  }

  lemma ReversedSnoc(w: seq<string>, x: string)
    ensures Reversed(w + [x]) == [x] + Reversed(w)
  {
    var r := Reversed(w + [x]);
    assert forall k :: 0 <= k < |r| ==> r[k] == ([x] + Reversed(w))[k];
  }

  /** The path `getShortestPath(from, to)` prints runs from `from` to `to`
      along predecessor links: each name after the first is a vertex whose
      `pi` is the name before it. */
  lemma PathFollowsPredecessors(vs: map<string, Vertex>, from: string, to: string, n: nat)
    requires to in vs && Walk(vs, from, vs[to].pi, n).Some?
    ensures var p := PathList(from, Walk(vs, from, vs[to].pi, n).value, to);
      && p[0] == from && p[|p| - 1] == to
      && forall k :: 1 <= k < |p| ==> p[k] in vs && vs[p[k]].pi == p[k - 1]
  {
    var w := Walk(vs, from, vs[to].pi, n).value;
    var p := PathList(from, w, to);
    WalkLinks(vs, from, vs[to].pi, n);
    forall k | 1 <= k < |p|
      ensures p[k] in vs && vs[p[k]].pi == p[k - 1]
    {
      if k == |p| - 1 {
        if w != [] {
          assert p[k - 1] == w[0];
        }
      } else if k == 1 {
        assert p[1] == w[|w| - 1];
      } else {
        assert p[k - 1] == w[|w| - k + 1] && p[k] == w[|w| - k];
      }
    }
  }

  /** The walk back from `pi[to]` never passes through `to`: it would then
      come back to `pi[to]` or end there. */
  lemma WalkAvoidsTarget(vs: map<string, Vertex>, from: string, to: string, n: nat)
    requires to in vs && Walk(vs, from, vs[to].pi, n).Some?
    ensures var w := Walk(vs, from, vs[to].pi, n).value;
      forall k :: 0 <= k < |w| ==> w[k] != to
  {
    var w := Walk(vs, from, vs[to].pi, n).value;
    WalkLinks(vs, from, vs[to].pi, n);
    WalkDistinct(vs, from, vs[to].pi, n);
    forall k | 0 <= k < |w|
      ensures w[k] != to
    {
      if k + 1 < |w| {
        assert vs[w[k]].pi == w[k + 1] != w[0];
      } else {
        assert vs[w[k]].pi == from != w[0];
      }
    }
  }

  /** What the printing loop writes for the names `p`: each name, followed
      by `->` unless it equals `to`. */
  function Render(p: seq<string>, to: string): string {
    if p == [] then "" else Render(p[..|p| - 1], to) + Piece(p[|p| - 1], to)
  }

  function Piece(x: string, to: string): string {
    if x != to then x + "->" else x
  }

  /** The names joined with `->`. */
  function Joined(p: seq<string>): string
    requires p != []
  {
    if |p| == 1 then p[0] else Joined(p[..|p| - 1]) + "->" + p[|p| - 1]
  }

  /** Names other than `to` each print with a trailing `->`. */
  lemma {:induction false} RenderArrows(q: seq<string>, to: string)
    requires q != [] && forall k :: 0 <= k < |q| ==> q[k] != to
    ensures Render(q, to) == Joined(q) + "->"
    decreases |q|
  {
    if |q| > 1 {
      var q' := q[..|q| - 1];
      assert forall k :: 0 <= k < |q'| ==> q'[k] == q[k];
      RenderArrows(q', to);
    }
  }

  /** When `to` occurs only at the end, the printing loop writes the names
      joined by `->`. */
  lemma RenderJoins(p: seq<string>, to: string)
    requires p != [] && p[|p| - 1] == to
    requires forall k :: 0 <= k < |p| - 1 ==> p[k] != to
    ensures Render(p, to) == Joined(p)
  {
    if |p| > 1 {
      var q := p[..|p| - 1];
      assert forall k :: 0 <= k < |q| ==> q[k] == p[k];
      RenderArrows(q, to);
    }
  }

  /** The text `getShortestPath(from, to)` returns once the tree is built:
      the path, then its length `key[to]`; `None` where the C++ walk never
      ends or reads a name that is not a vertex. */
  function ShortestPathText(vs: map<string, Vertex>, from: string, to: string): (r: Option<string>)
    requires to in vs
  {
    match PathOf(vs, from, to)
    case None => None
    case Some(p) => Some(Render(p, to) + " with length " + IntToString(vs[to].key))
  }

  /** The names from `from` to `to` along the predecessor links, if the
      walk back from `to` finishes. */
  function PathOf(vs: map<string, Vertex>, from: string, to: string): Option<seq<string>>
    requires to in vs
  {
    match Walk(vs, from, vs[to].pi, |vs|)
    case None => None
    case Some(w) => Some(PathList(from, w, to))
  }

  /** Once the walk finishes, `getShortestPath(from, to)` for `from != to`
      prints `from`, the predecessors of `to` in order, and `to`, joined by
      `->`, then the length `key[to]`. */
  lemma ShortestPathJoined(vs: map<string, Vertex>, from: string, to: string)
    requires to in vs && from != to && Walk(vs, from, vs[to].pi, |vs|).Some?
    ensures var p := PathList(from, Walk(vs, from, vs[to].pi, |vs|).value, to);
      ShortestPathText(vs, from, to) == Some(Joined(p) + " with length " + IntToString(vs[to].key))
  {
    var w := Walk(vs, from, vs[to].pi, |vs|).value;
    var p := PathList(from, w, to);
    WalkAvoidsTarget(vs, from, to, |vs|);
    forall k | 0 <= k < |p| - 1
      ensures p[k] != to
    {
      if k > 0 {
        assert p[k] == w[|w| - k];
      }
    }
    RenderJoins(p, to);
  }

  class Graph {
    var currentSource: string
    var vertices: map<string, Vertex>
    var adjList: map<string, seq<Neighbor>>
    var minQ: MinPriorityQ

    /** The implicit constructor: empty maps, an empty source name and an
        empty queue. */
    constructor ()
      ensures currentSource == "" && vertices == map[] && adjList == map[]
      ensures fresh(minQ) && minQ.heap == []
    {
      currentSource := "";
      vertices := map[];
      adjList := map[];
      minQ := new MinPriorityQ();
    }

    /** The out-edges of `u`; `adjList[u]` of a name without any is an
        empty vector. */
    function Adj(u: string): seq<Neighbor>
      reads this
    {
      if u in adjList then adjList[u] else []
    }

    /** `addVertex`: `vertices[name]` becomes a value-initialised vertex,
        replacing any earlier record. */
    method AddVertex(name: string)
      modifies this
      ensures vertices == old(vertices)[name := Vertex("", 0)]
      ensures currentSource == old(currentSource) && adjList == old(adjList) && minQ == old(minQ)
    {
      vertices := vertices[name := Vertex("", 0)];
    }

    /** `addEdge`: `(to, weight)` is appended to the out-edges of `from`. */
    method AddEdge(from: string, to: string, weight: int)
      modifies this
      ensures adjList == old(adjList)[from := old(Adj(from)) + [Neighbor(to, weight)]]
      ensures currentSource == old(currentSource) && vertices == old(vertices) && minQ == old(minQ)
    {
      adjList := adjList[from := Adj(from) + [Neighbor(to, weight)]];
    }

    /** `relax(u, v, weight)`: when the path through `u` is shorter, `v`
        takes it and its queue entry gets the new key. The sum must fit in
        an `int`, and a lowered key must belong to a queued vertex unless
        the queue is empty. */
    method Relax(u: string, v: string, weight: int)
      requires u in vertices && v in vertices
      requires INT_MIN <= vertices[u].key + weight <= INT_MAX
      requires vertices[v].key > vertices[u].key + weight ==> Present(minQ.heap, v) || minQ.heap == []
      modifies this, minQ
      ensures vertices == Relaxed(old(vertices), u, v, weight)
      ensures minQ.heap == if old(vertices[v].key > vertices[u].key + weight)
        then AfterDecrease(old(minQ.heap), v, vertices[v].key) else old(minQ.heap)
      ensures currentSource == old(currentSource) && adjList == old(adjList) && minQ == old(minQ)
    {
      if vertices[v].key > vertices[u].key + weight {
        vertices := vertices[v := vertices[v].(key := vertices[u].key + weight)];
        vertices := vertices[v := vertices[v].(pi := u)];
        minQ.DecreaseKey(v, vertices[v].key);
      }
    }

    /** The loop over the out-edges of `u` in `buildSSPTree` (lines
        60-62): `relax` along each in order, stopping with `false` where the
        C++ would insert a missing name, overflow or read past the queue. */
    method RelaxNeighbors(u: string, ghost source: string, ghost before: seq<Element>) returns (ok: bool)
      requires Bounded(vertices, source) && IdsKnown(minQ.heap, vertices.Keys, before)
      modifies this, minQ
      ensures vertices.Keys == old(vertices).Keys && |minQ.heap| == old(|minQ.heap|)
      ensures multiset(Names(minQ.heap)) == old(multiset(Names(minQ.heap)))
      ensures ok ==> vertices == RelaxedAll(old(vertices), u, Adj(u))
      ensures Bounded(vertices, source) && IdsKnown(minQ.heap, vertices.Keys, before)
      ensures currentSource == old(currentSource) && adjList == old(adjList) && minQ == old(minQ)
    {
      var adj := Adj(u);
      var k := 0;
      while k < |adj|
        invariant vertices.Keys == old(vertices).Keys && |minQ.heap| == old(|minQ.heap|)
        invariant multiset(Names(minQ.heap)) == old(multiset(Names(minQ.heap)))
        invariant 0 <= k <= |adj| && adj == Adj(u) && vertices == RelaxedAll(old(vertices), u, adj[..k])
        invariant Bounded(vertices, source) && IdsKnown(minQ.heap, vertices.Keys, before)
        invariant currentSource == old(currentSource) && adjList == old(adjList) && minQ == old(minQ)
      {
        ok := RelaxEdge(u, adj[k], source, before);
        if !ok {
          return;
        }
        RelaxedAllStep(old(vertices), u, adj, k);
        k := k + 1;
      }
      assert adj[..k] == adj;
      return true;
    }

    /** One round of that loop: `relax(u, e.name, e.weight)`, or `false`
        where the C++ would insert a missing name, overflow or re-key a
        vertex that is no longer queued. */
    method RelaxEdge(u: string, e: Neighbor, ghost source: string, ghost before: seq<Element>) returns (ok: bool)
      requires Bounded(vertices, source) && IdsKnown(minQ.heap, vertices.Keys, before)
      modifies this, minQ
      ensures vertices.Keys == old(vertices).Keys && |minQ.heap| == old(|minQ.heap|)
      ensures multiset(Names(minQ.heap)) == old(multiset(Names(minQ.heap)))
      ensures ok ==> u in old(vertices) && e.name in old(vertices)
      ensures ok ==> vertices == Relaxed(old(vertices), u, e.name, e.weight)
      ensures Bounded(vertices, source) && IdsKnown(minQ.heap, vertices.Keys, before)
      ensures currentSource == old(currentSource) && adjList == old(adjList) && minQ == old(minQ)
    {
      var v, w := e.name, e.weight;
      if u !in vertices || v !in vertices || !(INT_MIN <= vertices[u].key + w <= INT_MAX) {
        return false;
      }
      if vertices[v].key > vertices[u].key + w && |minQ.heap| > 0 {
        var queued := minQ.IsMember(v);
        if !queued {
          return false;
        }
      }
      ghost var h := minQ.heap;
      RelaxKeepsBounded(vertices, source, u, v, w);
      Relax(u, v, w);
      if minQ.heap != h {
        IdsKnownDecrease(h, vertices.Keys, before, v, vertices[v].key);
        DecreaseKeyChangesOne(h, v, vertices[v].key);
        DecreaseKeepsNames(h, v, vertices[v].key);
      }
      return true;
    }

    /** The first loop of `buildSSPTree(source)`: in the map's ascending
        order, reset each record and queue the vertex with its new key.
        `order` is the order in which the names are visited. */
    method InitializeSingleSource(source: string, ghost before: seq<Element>) returns (ghost order: seq<string>)
      requires IdsKnown(minQ.heap, vertices.Keys, before)
      modifies this, minQ
      ensures vertices == Initialized(old(vertices), source)
      ensures forall n :: n in order <==> n in vertices
      ensures forall i, j :: 0 <= i < j < |order| ==> StrLess(order[i], order[j])
      ensures multiset(Names(minQ.heap)) == multiset(Names(old(minQ.heap))) + multiset(order)
      ensures Unqueued(old(minQ.heap), vertices.Keys) ==>
        multiset(minQ.heap) == multiset(old(minQ.heap)) + multiset(Queued(order, vertices))
      ensures IdsKnown(minQ.heap, vertices.Keys, before)
      ensures currentSource == old(currentSource) && adjList == old(adjList) && minQ == old(minQ)
    {
      ghost var vs0, h0 := vertices, minQ.heap;
      ghost var fin := Initialized(vs0, source);
      order := [];
      var todo := vertices.Keys;
      while todo != {}
        invariant todo <= vs0.Keys && vertices == PartlyInitialized(vs0, source, todo)
        invariant forall n :: n in order <==> n in vs0 && n !in todo
        invariant forall i, j :: 0 <= i < j < |order| ==> StrLess(order[i], order[j])
        invariant forall i, y :: 0 <= i < |order| && y in todo ==> StrLess(order[i], y)
        invariant multiset(Names(minQ.heap)) == multiset(Names(h0)) + multiset(order)
        invariant Unqueued(h0, vs0.Keys) ==> multiset(minQ.heap) == multiset(h0) + multiset(Queued(order, fin))
        invariant IdsKnown(minQ.heap, vs0.Keys, before)
        invariant currentSource == old(currentSource) && adjList == old(adjList) && minQ == old(minQ)
        decreases todo
      {
        LeastNameExists(todo);
        var name :| name in todo && forall y :: y in todo ==> StrLessEq(name, y);
        ghost var h := minQ.heap;
        InitializeOne(name, source, before);
        InitializedOneMore(vs0, source, todo, name);
        QueueOneMore(h0, h, order, fin, name);
        AscendingOneMore(order, todo, name);
        order := order + [name];
        todo := todo - {name};
      }
    }

    /** One step of that loop: reset the record of `name` and queue it. */
    method InitializeOne(name: string, source: string, ghost before: seq<Element>)
      requires name in vertices && IdsKnown(minQ.heap, vertices.Keys, before)
      modifies this, minQ
      ensures vertices == old(vertices)[name := Initialized(old(vertices), source)[name]]
      ensures minQ.heap == AfterInsert(old(minQ.heap), name, vertices[name].key)
      ensures IdsKnown(minQ.heap, vertices.Keys, before)
      ensures currentSource == old(currentSource) && adjList == old(adjList) && minQ == old(minQ)
    {
      if name != source {
        vertices := vertices[name := vertices[name].(key := INT_MAX)];
        vertices := vertices[name := vertices[name].(pi := "NIL")];
      } else {
        vertices := vertices[name := vertices[name].(key := 0)];
      }
      IdsKnownInsert(minQ.heap, vertices.Keys, before, name, vertices[name].key);
      minQ.Insert(name, vertices[name].key);
    }

    /** `buildSSPTree(source)`: reset the records in the map's (ascending)
        order, queue every vertex, then extract and relax until the queue
        reports `"empty"`. `extracted` lists the names taken out of the
        queue, in order: every vertex once, from a queue that started
        empty. */
    method BuildSSPTree(source: string) returns (ok: bool, ghost extracted: seq<string>)
      modifies this, minQ
      ensures currentSource == source && vertices.Keys == old(vertices).Keys
      ensures adjList == old(adjList) && minQ == old(minQ)
      ensures ok ==> Bounded(vertices, source)
      ensures ok && "empty" !in vertices && !Present(old(minQ.heap), "empty") ==> minQ.heap == []
      ensures ok ==>
        multiset(Names(minQ.heap)) + multiset(extracted) == multiset(Names(old(minQ.heap))) + multiset(vertices.Keys)
      ensures ok && "empty" !in vertices && old(minQ.heap) == [] ==> multiset(extracted) == multiset(vertices.Keys)
    {
      currentSource := source;
      ghost var vs0 := vertices;
      ghost var before := minQ.heap;
      ghost var order := InitializeSingleSource(source, before);
      InitializedBounded(vs0, source);
      AscendingDistinct(order);
      DistinctMultiset(order, vs0.Keys);
      ok, extracted := ExtractAll(source, before);
      if ok && "empty" !in vertices && before == [] {
        assert !Present(before, "empty");
        AllExtracted(minQ.heap, extracted, before, vertices.Keys);
      }
    }

    /** The second loop of `buildSSPTree`: extract a name and relax its
        out-edges until the queue reports `"empty"`. `extracted` lists the
        names taken out of the queue, in order. */
    method ExtractAll(source: string, ghost before: seq<Element>) returns (ok: bool, ghost extracted: seq<string>)
      requires Bounded(vertices, source) && IdsKnown(minQ.heap, vertices.Keys, before)
      modifies this, minQ
      ensures vertices.Keys == old(vertices).Keys && Bounded(vertices, source)
      ensures currentSource == old(currentSource) && adjList == old(adjList) && minQ == old(minQ)
      ensures ok && "empty" !in vertices && !Present(before, "empty") ==> minQ.heap == []
      ensures multiset(Names(minQ.heap)) + multiset(extracted) == old(multiset(Names(minQ.heap)))
    {
      ghost var total := multiset(Names(minQ.heap));
      extracted := [];
      while true
        invariant vertices.Keys == old(vertices).Keys && Bounded(vertices, source)
        invariant IdsKnown(minQ.heap, vertices.Keys, before)
        invariant multiset(Names(minQ.heap)) + multiset(extracted) == total
        invariant currentSource == old(currentSource) && adjList == old(adjList) && minQ == old(minQ)
        decreases |minQ.heap|
      {
        ghost var h := minQ.heap;
        var u := minQ.ExtractMin();
        if h != [] {
          ExtractedOneMore(h, extracted, total);
          extracted := extracted + [u];
        }
        if u == "empty" {
          if h != [] {
            assert h[0].id in vertices || Present(before, h[0].id);
          }
          break;
        }
        ExtractRemovesRoot(h);
        IdsKnownExtract(h, vertices.Keys, before);
        ok := RelaxNeighbors(u, source, before);
        if !ok {
          return;
        }
      }
      ok := true;
    }

    /** `getShortestPath(from, to)`: rebuild the tree unless `from` is the
        cached source, walk the predecessors back from `to`, and print the
        path and its length. Reading `vertices[to]` adds a value-initialised
        record when `to` is not a vertex. `None` stands for a build that
        stopped, a walk that reaches a name that is not a vertex, and a walk
        that never ends. */
    method GetShortestPath(from: string, to: string) returns (r: Option<string>)
      modifies this, minQ
      ensures vertices.Keys == old(vertices).Keys + {to} || (r.None? && vertices.Keys == old(vertices).Keys)
      ensures adjList == old(adjList) && currentSource == from
      ensures old(currentSource) == from ==> minQ.heap == old(minQ.heap)
      ensures old(currentSource) == from ==>
        vertices == (if to in old(vertices) then old(vertices) else old(vertices)[to := Vertex("", 0)])
      ensures old(currentSource) == from ==> r == ShortestPathText(vertices, from, to)
      ensures r.Some? ==> currentSource == from && r == ShortestPathText(vertices, from, to)
    {
      if currentSource != from {
        var ok;
        ghost var extracted;
        ok, extracted := BuildSSPTree(from);
        if !ok {
          return None;
        }
      }
      Touch(to);
      var pathList := PathNames(from, to);
      if pathList.None? {
        return None;
      }
      var text := PrintPath(pathList.value, to);
      r := Some(text + " with length " + IntToString(vertices[to].key));
    }

    /** `vertices[name]` read through `map::operator[]`: a missing name is
        added with a value-initialised record. */
    method Touch(name: string)
      modifies this
      ensures vertices == if name in old(vertices) then old(vertices) else old(vertices)[name := Vertex("", 0)]
      ensures currentSource == old(currentSource) && adjList == old(adjList) && minQ == old(minQ)
    {
      if name !in vertices {
        vertices := vertices[name := Vertex("", 0)];
      }
    }

    /** The first loop of `getShortestPath`: the names from `from` along
        the predecessors to `to`, built by walking back from `pi[to]` at
        most `|vertices|` steps. */
    method PathNames(from: string, to: string) returns (p: Option<seq<string>>)
      requires to in vertices
      ensures p == PathOf(vertices, from, to)
    {
      var back;
      ghost var visited;
      back, visited := WalkBack(vertices, from, to);
      if back.None? {
        return None;
      }
      assert [from] + back.value == PathList(from, visited, to);
      return Some([from] + back.value);
    }
  }

  /** The second loop of `getShortestPath`: each name, then `->` unless it
      is `to`. */
  method PrintPath(pathList: seq<string>, to: string) returns (text: string)
    ensures text == Render(pathList, to)
  {
    text := "";
    var k := 0;
    while k < |pathList|
      invariant 0 <= k <= |pathList| && text == Render(pathList[..k], to)
    {
      assert pathList[..k + 1][..k] == pathList[..k];
      text := text + pathList[k];
      if pathList[k] != to {
        text := text + "->";
      }
      k := k + 1;
    }
    assert pathList[..k] == pathList;
  }

  /** The walk of `getShortestPath`'s first loop: from `pi[to]` back
      along `pi` until `from`, at most `|vs|` steps, each name put in
      front of `to`. */
  method WalkBack(vs: map<string, Vertex>, from: string, to: string) returns (pathList: Option<seq<string>>, ghost visited: seq<string>)
    requires to in vs
    ensures pathList.None? <==> Walk(vs, from, vs[to].pi, |vs|).None?
    ensures pathList.Some? ==> Walk(vs, from, vs[to].pi, |vs|) == Some(visited) && pathList.value == Reversed(visited) + [to]
  {
    var list := [to];
    var temp := vs[to].pi;
    visited := [];
    var n := |vs|;
    var steps := 0;
    assert Prefixed(visited, Walk(vs, from, temp, n)) == Walk(vs, from, temp, n) by {
      assert forall x: seq<string> :: [] + x == x;
    }
    while temp != from
      invariant steps == |visited| <= n && list == Reversed(visited) + [to]
      invariant Walk(vs, from, vs[to].pi, n) == Prefixed(visited, Walk(vs, from, temp, n - |visited|))
      decreases n - steps
    {
      if temp !in vs || steps == n {
        return None, visited;
      }
      WalkStep(vs, from, temp, n - steps, visited);
      ReversedSnoc(visited, temp);
      list := [temp] + list;
      visited := visited + [temp];
      steps := steps + 1;
      temp := vs[temp].pi;
    }
    assert visited + [] == visited;
    return Some(list), visited;
  }

  lemma WalkStep(vs: map<string, Vertex>, from: string, t: string, n: nat, p: seq<string>)
    requires t != from && t in vs && n > 0
    ensures Prefixed(p, Walk(vs, from, t, n)) == Prefixed(p + [t], Walk(vs, from, vs[t].pi, n - 1))
  {
    var o := Walk(vs, from, vs[t].pi, n - 1);
    if o.Some? {
      assert p + ([t] + o.value) == p + [t] + o.value;
    }
  }

  /** `p` in front of the walk `o`, if it finished. */
  function Prefixed(p: seq<string>, o: Option<seq<string>>): Option<seq<string>> {
    if o.None? then None else Some(p + o.value)
  }
}
