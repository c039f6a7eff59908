/** The template `DoublyLinkedList<T>`: nodes linked both ways from `head`,
    with a `current` cursor that `append`, `first`, `next` and `remove`
    move. The data pointers the nodes hold are modelled as values of `T`,
    and a returned null pointer as `None`. */
module DoublyLinkedLists {
  import opened Common

  /** What `remove` does to the list's records `s` when the cursor is at
      `c` (`-1` for a null cursor): the new records, the new cursor and
      what it returns. */
  function RemoveAt<T>(s: seq<T>, c: int): (res: (seq<T>, int, Option<T>))
    requires -1 <= c < |s| && (c == -1 <==> |s| == 0)
  {
    if c == -1 then (s, c, None)
    else
      var rest := s[..c] + s[c + 1..];
      if c == 0 then
        if |rest| > 0 then (rest, 0, Some(rest[0])) else (rest, -1, None)
      else if c == |s| - 1 then (rest, c - 1, None)
      else (rest, c, Some(rest[c]))
  }

  /** `remove` takes out exactly the record under the cursor; on an empty
      list it changes nothing. */
  lemma RemoveAtDrops<T>(s: seq<T>, c: int)
    requires -1 <= c < |s| && (c == -1 <==> |s| == 0)
    ensures c == -1 ==> RemoveAt(s, c).0 == s
    ensures c >= 0 ==> multiset(RemoveAt(s, c).0) == multiset(s) - multiset{s[c]}
  {
    if c >= 0 {
      assert s == s[..c] + [s[c]] + s[c + 1..];
      assert RemoveAt(s, c).0 == s[..c] + s[c + 1..];
    }
  }

  /** `remove` keeps the other records in their order. */
  lemma RemoveAtKeepsOrder<T>(s: seq<T>, c: int)
    requires 0 <= c < |s|
    ensures var t := RemoveAt(s, c).0;
      |t| == |s| - 1 && (forall k :: 0 <= k < c ==> t[k] == s[k]) && (forall k :: c <= k < |t| ==> t[k] == s[k + 1])
  {
    DropAtIndex(s, c);
  }

  /** After `remove` the cursor is again on a record, or null exactly when
      the list has become empty; what `remove` returns is the record the
      cursor is then on, which is the follower of the removed one; nothing
      is returned when the removed record had no follower. */
  lemma RemoveAtCursor<T>(s: seq<T>, c: int)
    requires -1 <= c < |s| && (c == -1 <==> |s| == 0)
    ensures var res := RemoveAt(s, c);
      && -1 <= res.1 < |res.0| && (res.1 == -1 <==> |res.0| == 0)
      && (res.2.Some? <==> 0 <= c < |s| - 1)
      && (res.2.Some? ==> res.2.value == s[c + 1] && res.2.value == res.0[res.1])
  {
    if c >= 0 {
      var rest := s[..c] + s[c + 1..];
      assert |rest| == |s| - 1;
      if c < |s| - 1 {
        assert rest[c] == s[c + 1];
      }
    }
  }

  /** The quirk of removing the last record when it is not the first: the
      cursor moves back to the previous record, not forward to null. */
  lemma RemoveLastStepsBack<T>(s: seq<T>)
    requires |s| >= 2
    ensures var res := RemoveAt(s, |s| - 1);
      res.1 == |s| - 2 && res.0[res.1] == s[|s| - 2] && res.2 == None
  {
  }

  /** Removing a record just appended takes the list back to what it was. */
  lemma RemoveUndoesAppend<T>(s: seq<T>, d: T)
    ensures RemoveAt(s + [d], |s|).0 == s
  {
    assert (s + [d])[..|s|] == s;
  }

  /** The list's nodes live in an arena: node `k` has fields `next[k]`,
      `prev[k]` and `data[k]`, and `Null` stands for `nullptr`. A node that
      `remove` unlinks stays in the arena, unreachable, as a deleted node
      is unreachable in the source. */
  const Null: int := -1

  /** The arena links the distinct nodes `nodes` in order, from the first,
      whose `prev` is null, to the last, whose `next` is null, and they hold
      `contents`. */
  ghost predicate Linked<T>(next: seq<int>, prev: seq<int>, data: seq<T>, nodes: seq<int>, contents: seq<T>) {
    && |next| == |prev| == |data|
    && |nodes| == |contents|
    && (forall i :: 0 <= i < |nodes| ==> 0 <= nodes[i] < |data| && data[nodes[i]] == contents[i])
    && (forall i :: 0 <= i < |nodes| ==> nodes[i] !in nodes[..i])
    && (forall i {:trigger next[nodes[i]]} :: 0 <= i < |nodes| - 1 ==> next[nodes[i]] == nodes[i + 1])
    && (forall i {:trigger prev[nodes[i]]} :: 0 < i < |nodes| ==> prev[nodes[i]] == nodes[i - 1])
    && (|nodes| > 0 ==> next[nodes[|nodes| - 1]] == Null && prev[nodes[0]] == Null)
  }

  /** Each node of a list with distinct prefixes differs from every later one. */
  lemma DistinctApart(nodes: seq<int>, i: int, j: int)
    requires forall k :: 0 <= k < |nodes| ==> nodes[k] !in nodes[..k]
    requires 0 <= i < j < |nodes|
    ensures nodes[i] != nodes[j]
  {
    assert nodes[..j][i] == nodes[i];
  }

  /** What the links say about the node at position `c`: its neighbours,
      and that it is the first node only at position 0. */
  lemma LinkedAt<T>(next: seq<int>, prev: seq<int>, data: seq<T>, nodes: seq<int>, contents: seq<T>, c: int)
    requires Linked(next, prev, data, nodes, contents) && 0 <= c < |nodes|
    ensures next[nodes[c]] == if c + 1 < |nodes| then nodes[c + 1] else Null
    ensures prev[nodes[c]] == if c > 0 then nodes[c - 1] else Null
    ensures nodes[c] == nodes[0] ==> c == 0
    ensures data[nodes[c]] == contents[c]
  {
  }

  /** `new Node()` with its data set: a fresh node at the end of the arena,
      with null links, leaves the list as it was. */
  lemma LinkedGrow<T>(next: seq<int>, prev: seq<int>, data: seq<T>, nodes: seq<int>, contents: seq<T>, d: T)
    requires Linked(next, prev, data, nodes, contents)
    ensures Linked(next + [Null], prev + [Null], data + [d], nodes, contents)
  {
  }

  /** `append` on an empty list: node `k`, with null links, is the whole
      list. */
  lemma LinkedSingle<T>(next: seq<int>, prev: seq<int>, data: seq<T>, k: int)
    requires |next| == |prev| == |data| && 0 <= k < |data|
    requires next[k] == Null && prev[k] == Null
    ensures Linked(next, prev, data, [k], [data[k]])
  {
  }

  /** `append` on a non-empty list: linking node `k` after the last node
      (`tail->next = current; current->prev = tail; current->next =
      nullptr`) adds its data at the end. */
  lemma LinkedAppend<T>(next: seq<int>, prev: seq<int>, data: seq<T>, nodes: seq<int>, contents: seq<T>, k: int)
    requires Linked(next, prev, data, nodes, contents) && |nodes| > 0
    requires 0 <= k < |data| && k !in nodes
    ensures var last := nodes[|nodes| - 1];
      Linked(next[last := k][k := Null], prev[k := last], data, nodes + [k], contents + [data[k]])
  {
    var last := nodes[|nodes| - 1];
    var next', prev', nodes' := next[last := k][k := Null], prev[k := last], nodes + [k];
    forall i | 0 <= i < |nodes'| - 1
      ensures next'[nodes'[i]] == nodes'[i + 1]
    {
      if i < |nodes| - 1 {
        assert nodes[i] != last;
      }
    }
  }

  /** `remove` of the head when it has a follower: the follower becomes
      the first node (`head->prev = nullptr`). */
  lemma LinkedRemoveFirst<T>(next: seq<int>, prev: seq<int>, data: seq<T>, nodes: seq<int>, contents: seq<T>)
    requires Linked(next, prev, data, nodes, contents) && |nodes| >= 2
    ensures Linked(next, prev[nodes[1] := Null], data, nodes[1..], contents[1..])
  {
    var prev' := prev[nodes[1] := Null];
    forall i | 0 < i < |nodes| - 1
      ensures prev'[nodes[1..][i]] == nodes[1..][i - 1]
    {
      assert nodes[i + 1] != nodes[1];
    }
  }

  /** `remove` of the last node when it is not the head: its predecessor
      becomes the last node (`tail->next = nullptr`). */
  lemma LinkedRemoveLast<T>(next: seq<int>, prev: seq<int>, data: seq<T>, nodes: seq<int>, contents: seq<T>)
    requires Linked(next, prev, data, nodes, contents) && |nodes| >= 2
    ensures var n := |nodes|;
      Linked(next[nodes[n - 2] := Null], prev, data, nodes[..n - 1], contents[..n - 1])
  {
    var n := |nodes|;
    var next' := next[nodes[n - 2] := Null];
    forall i | 0 <= i < n - 2
      ensures next'[nodes[i]] == nodes[i + 1]
    {
      assert nodes[i] != nodes[n - 2];
    }
  }

  /** Dropping position `c` of `s` shifts every later element down by one. */
  lemma DropAtIndex<T>(s: seq<T>, c: int)
    requires 0 <= c < |s|
    ensures |s[..c] + s[c + 1..]| == |s| - 1
    ensures forall i :: 0 <= i < |s| - 1 ==> (s[..c] + s[c + 1..])[i] == if i < c then s[i] else s[i + 1]
  {
  }

  /** Dropping a position keeps the nodes distinct. */
  lemma DropAtDistinct(nodes: seq<int>, c: int)
    requires forall k :: 0 <= k < |nodes| ==> nodes[k] !in nodes[..k]
    requires 0 <= c < |nodes|
    ensures var nodes' := nodes[..c] + nodes[c + 1..];
      forall i :: 0 <= i < |nodes'| ==> nodes'[i] !in nodes'[..i]
  {
    var nodes' := nodes[..c] + nodes[c + 1..];
    DropAtIndex(nodes, c);
    forall i | 0 <= i < |nodes'|
      ensures nodes'[i] !in nodes'[..i]
    {
      if nodes'[i] in nodes'[..i] {
        var k :| 0 <= k < i && nodes'[..i][k] == nodes'[i];
        var k', i' := if k < c then k else k + 1, if i < c then i else i + 1;
        DistinctApart(nodes, k', i');
        assert false;
      }
    }
  }

  /** `remove` of a node with both neighbours: the removed node's links are
      cleared and its neighbours are linked to each other. */
  lemma LinkedRemoveMiddle<T>(next: seq<int>, prev: seq<int>, data: seq<T>, nodes: seq<int>, contents: seq<T>, c: int)
    requires Linked(next, prev, data, nodes, contents) && 0 < c < |nodes| - 1
    ensures var x, p, y := nodes[c], nodes[c - 1], nodes[c + 1];
      Linked(next[x := Null][p := y], prev[x := Null][y := p], data,
        nodes[..c] + nodes[c + 1..], contents[..c] + contents[c + 1..])
  {
    var x, p, y := nodes[c], nodes[c - 1], nodes[c + 1];
    var next', prev' := next[x := Null][p := y], prev[x := Null][y := p];
    var nodes' := nodes[..c] + nodes[c + 1..];
    var n := |nodes|;
    DropAtIndex(nodes, c);
    DropAtDistinct(nodes, c);
    RelinkNext(next, nodes, c, next', nodes');
    RelinkPrev(prev, nodes, c, prev', nodes');
    DistinctApart(nodes, c - 1, n - 1);
    DistinctApart(nodes, c, n - 1);
    DistinctApart(nodes, 0, c);
    DistinctApart(nodes, 0, c + 1);
    assert nodes'[|nodes'| - 1] == nodes[n - 1] && nodes'[0] == nodes[0];
    assert next'[nodes'[|nodes'| - 1]] == Null && prev'[nodes'[0]] == Null;
    DropData(data, nodes, contents, c);
  }

  /** Dropping the same position from the nodes and their contents keeps
      each node's data in step. */
  lemma DropData<T>(data: seq<T>, nodes: seq<int>, contents: seq<T>, c: int)
    requires |nodes| == |contents| && 0 <= c < |nodes|
    requires forall i :: 0 <= i < |nodes| ==> 0 <= nodes[i] < |data| && data[nodes[i]] == contents[i]
    ensures var nodes', contents' := nodes[..c] + nodes[c + 1..], contents[..c] + contents[c + 1..];
      forall i :: 0 <= i < |nodes'| ==> 0 <= nodes'[i] < |data| && data[nodes'[i]] == contents'[i]
  {
    var nodes', contents' := nodes[..c] + nodes[c + 1..], contents[..c] + contents[c + 1..];
    forall i | 0 <= i < |nodes'|
      ensures 0 <= nodes'[i] < |data| && data[nodes'[i]] == contents'[i]
    {
      var j := if i < c then i else i + 1;
      assert nodes'[i] == nodes[j] && contents'[i] == contents[j];
    }
  }

  /** Unlinking position `c` forward: `c - 1` now leads to `c + 1`. */
  lemma RelinkNext(next: seq<int>, nodes: seq<int>, c: int, next': seq<int>, nodes': seq<int>)
    requires forall k :: 0 <= k < |nodes| ==> nodes[k] !in nodes[..k]
    requires forall k :: 0 <= k < |nodes| ==> 0 <= nodes[k] < |next|
    requires forall i {:trigger next[nodes[i]]} :: 0 <= i < |nodes| - 1 ==> next[nodes[i]] == nodes[i + 1]
    requires 0 < c < |nodes| - 1
    requires next' == next[nodes[c] := Null][nodes[c - 1] := nodes[c + 1]]
    requires nodes' == nodes[..c] + nodes[c + 1..]
    ensures forall i {:trigger next'[nodes'[i]]} :: 0 <= i < |nodes'| - 1 ==> next'[nodes'[i]] == nodes'[i + 1]
  {
    DropAtIndex(nodes, c);
    forall i | 0 <= i < |nodes'| - 1
      ensures next'[nodes'[i]] == nodes'[i + 1]
    {
      if i < c - 1 {
        DistinctApart(nodes, i, c - 1);
        DistinctApart(nodes, i, c);
      } else if i >= c {
        DistinctApart(nodes, c - 1, i + 1);
        DistinctApart(nodes, c, i + 1);
      }
    }
  }

  /** Unlinking position `c` backward: `c + 1` now leads back to `c - 1`. */
  lemma RelinkPrev(prev: seq<int>, nodes: seq<int>, c: int, prev': seq<int>, nodes': seq<int>)
    requires forall k :: 0 <= k < |nodes| ==> nodes[k] !in nodes[..k]
    requires forall k :: 0 <= k < |nodes| ==> 0 <= nodes[k] < |prev|
    requires forall i {:trigger prev[nodes[i]]} :: 0 < i < |nodes| ==> prev[nodes[i]] == nodes[i - 1]
    requires 0 < c < |nodes| - 1
    requires prev' == prev[nodes[c] := Null][nodes[c + 1] := nodes[c - 1]]
    requires nodes' == nodes[..c] + nodes[c + 1..]
    ensures forall i {:trigger prev'[nodes'[i]]} :: 0 < i < |nodes'| ==> prev'[nodes'[i]] == nodes'[i - 1]
  {
    DropAtIndex(nodes, c);
    forall i | 0 < i < |nodes'|
      ensures prev'[nodes'[i]] == nodes'[i - 1]
    {
      if i < c {
        DistinctApart(nodes, i, c);
        DistinctApart(nodes, i, c + 1);
      } else if i > c {
        DistinctApart(nodes, c, i + 1);
        DistinctApart(nodes, c + 1, i + 1);
      }
    }
  }

  class DoublyLinkedList<T> {
    var next: seq<int>
    var prev: seq<int>
    var data: seq<T>
    var head: int
    /** A scratch pointer: `append` and `remove` set it before they read
        it, and it is not kept pointing at the last node. */
    var tail: int
    var current: int

    /** The nodes from `head` on in link order, their data, and the
        position of `current` among them (`-1` when it is null). */
    ghost var nodes: seq<int>
    ghost var Contents: seq<T>
    ghost var Cursor: int

    ghost predicate Valid()
      reads this
    {
      && Linked(next, prev, data, nodes, Contents)
      && head == (if |nodes| > 0 then nodes[0] else Null)
      && -1 <= Cursor < |nodes| && (Cursor == -1 <==> |nodes| == 0)
      && current == (if Cursor >= 0 then nodes[Cursor] else Null)
    }

    /** The empty list of line 65: every pointer null. */
    constructor ()
      ensures Valid() && Contents == [] && Cursor == -1
      ensures head == Null && tail == Null && current == Null
    {
      next, prev, data := [], [], [];
      head, tail, current := Null, Null, Null;
      nodes, Contents, Cursor := [], [], -1;
    }

    /** `empty`: the list has no node. */
    function Empty(): (b: bool)
      requires Valid()
      reads this
      ensures b <==> Contents == []
    {
      head == Null
    }

    /** `append`: a new node holding `d` is linked after the last node,
        found by walking from `head`, and becomes `current`. */
    method Append(d: T)
      requires Valid()
      modifies this
      ensures Valid()
      ensures Contents == old(Contents) + [d] && Cursor == |Contents| - 1
      ensures old(Contents) != [] ==> tail == old(nodes[|nodes| - 1])
      ensures old(Contents) == [] ==> tail == old(tail)
    {
      current := NewNode(d);
      if head == Null {
        LinkAsHead();
      } else {
        FindTail();
        LinkAfterTail();
      }
    }

    /** The empty-list arm of `append`: the new node `current` becomes
        `head`, with null links. */
    method LinkAsHead()
      requires Linked(next, prev, data, nodes, Contents) && head == Null && nodes == []
      requires 0 <= current == |data| - 1
      modifies this`head, this`next, this`prev, this`nodes, this`Contents, this`Cursor
      ensures Valid()
      ensures Contents == [data[current]] && Cursor == 0
    {
      head := current;
      next := next[current := Null];
      prev := prev[current := Null];
      nodes, Contents, Cursor := [current], [data[current]], 0;
      LinkedSingle(next, prev, data, current);
    }

    /** The non-empty arm of `append`: the new node `current` is linked
        after `tail`, the last node, and the cursor moves onto it. */
    method LinkAfterTail()
      requires Linked(next, prev, data, nodes, Contents) && |nodes| > 0 && head == nodes[0]
      requires tail == nodes[|nodes| - 1] && current == |data| - 1 && current !in nodes
      modifies this`next, this`prev, this`nodes, this`Contents, this`Cursor
      ensures Valid()
      ensures Contents == old(Contents) + [data[current]] && Cursor == |Contents| - 1
    {
      LinkedAppend(next, prev, data, nodes, Contents, current);
      next := next[tail := current];
      prev := prev[current := tail];
      next := next[current := Null];
      Cursor := |nodes|;
      nodes, Contents := nodes + [current], Contents + [data[current]];
    }

    /** `new Node()` holding `d`: a node with null links at the end of the
        arena, outside the list. */
    method NewNode(d: T) returns (k: int)
      requires Linked(next, prev, data, nodes, Contents)
      modifies this`next, this`prev, this`data
      ensures Linked(next, prev, data, nodes, Contents)
      ensures k == old(|data|) && k !in nodes
      ensures next == old(next) + [Null] && prev == old(prev) + [Null] && data == old(data) + [d]
    {
      LinkedGrow(next, prev, data, nodes, Contents, d);
      k := |data|;
      next, prev, data := next + [Null], prev + [Null], data + [d];
    }

    /** The walk of `append` from `head` along `next` until the node whose
        `next` is null, which is left in `tail`. */
    method FindTail()
      requires Linked(next, prev, data, nodes, Contents) && |nodes| > 0 && head == nodes[0]
      modifies this`tail
      ensures tail == nodes[|nodes| - 1]
    {
      tail := head;
      ghost var t := 0;
      while next[tail] != Null
        invariant 0 <= t < |nodes| && tail == nodes[t]
        decreases |nodes| - t
      {
        LinkedAt(next, prev, data, nodes, Contents, t);
        tail := next[tail];
        t := t + 1;
      }
      LinkedAt(next, prev, data, nodes, Contents, t);
    }

    /** `first`: the cursor goes to `head`, whose data is returned. */
    method First() returns (r: Option<T>)
      requires Valid()
      modifies this
      ensures Valid() && Contents == old(Contents)
      ensures Cursor == (if Contents == [] then -1 else 0)
      ensures r == if Contents == [] then None else Some(Contents[0])
    {
      current := head;
      Cursor := if head == Null then -1 else 0;
      if head == Null {
        return None;
      } else {
        return Some(data[head]);
      }
    }

    /** `next`: with a follower of `current`, the cursor moves to it and its
        data is returned; otherwise nothing changes. */
    method Next() returns (r: Option<T>)
      requires Valid() && current != Null
      modifies this
      ensures Valid() && Contents == old(Contents)
      ensures old(Cursor) + 1 < |Contents| ==> Cursor == old(Cursor) + 1 && r == Some(Contents[Cursor])
      ensures old(Cursor) + 1 == |Contents| ==> Cursor == old(Cursor) && r == None
    {
      LinkedAt(next, prev, data, nodes, Contents, Cursor);
      if next[current] != Null {
        current := next[current];
        Cursor := Cursor + 1;
        return Some(data[current]);
      } else {
        return None;
      }
    }

    /** `remove`: unlinks the node under the cursor and moves the cursor as
        `RemoveAt` says; the three cases with a node to unlink are the
        methods below. */
    method Remove() returns (r: Option<T>)
      requires Valid()
      modifies this
      ensures Valid()
      ensures (Contents, Cursor, r) == RemoveAt(old(Contents), old(Cursor))
      ensures old(current) == Null ==> unchanged(this)
    {
      if head == Null || current == Null {
        return None;
      }
      LinkedAt(next, prev, data, nodes, Contents, Cursor);
      if current == head {
        if next[current] != Null {
          r := RemoveHead();
        } else {
          head := Null;
          current := Null;
          nodes, Contents, Cursor := [], [], -1;
          return None;
        }
      } else if next[current] == Null {
        r := RemoveLast();
      } else {
        r := RemoveInner();
      }
    }

    /** `remove` of the head when it has a follower (lines 173-184): the
        follower becomes `head` and `current`. */
    method RemoveHead() returns (r: Option<T>)
      requires Valid() && Cursor == 0 && |Contents| >= 2
      modifies this
      ensures Valid()
      ensures (Contents, Cursor, r) == RemoveAt(old(Contents), old(Cursor))
    {
      LinkedAt(next, prev, data, nodes, Contents, 0);
      LinkedRemoveFirst(next, prev, data, nodes, Contents);
      ghost var prev0 := prev;
      current := next[current];
      head := current;
      prev := prev[head := Null];
      prev := prev[current := Null];
      assert prev == prev0[nodes[1] := Null];
      assert Contents[..0] + Contents[1..] == Contents[1..];
      nodes, Contents, Cursor := nodes[1..], Contents[1..], 0;
      return Some(data[current]);
    }

    /** `remove` of the last node when it is not the head (lines 186-192):
        the cursor steps back to the previous node. */
    method RemoveLast() returns (r: Option<T>)
      requires Valid() && 0 < Cursor == |Contents| - 1
      modifies this
      ensures Valid()
      ensures (Contents, Cursor, r) == RemoveAt(old(Contents), old(Cursor))
    {
      ghost var c := Cursor;
      LinkedAt(next, prev, data, nodes, Contents, c);
      LinkedRemoveLast(next, prev, data, nodes, Contents);
      ghost var next0 := next;
      tail := current;
      current := prev[current];
      tail := current;
      next := next[current := Null];
      next := next[tail := Null];
      assert next == next0[nodes[c - 1] := Null];
      assert Contents[..c] + Contents[c + 1..] == Contents[..c];
      nodes, Contents, Cursor := nodes[..c], Contents[..c], c - 1;
      return None;
    }

    /** `remove` of a node with both neighbours (lines 193-201): they are
        linked to each other and the follower becomes `current`. */
    method RemoveInner() returns (r: Option<T>)
      requires Valid() && 0 < Cursor < |Contents| - 1
      modifies this
      ensures Valid()
      ensures (Contents, Cursor, r) == RemoveAt(old(Contents), old(Cursor))
    {
      ghost var c := Cursor;
      LinkedAt(next, prev, data, nodes, Contents, c);
      LinkedAt(next, prev, data, nodes, Contents, c + 1);
      LinkedRemoveMiddle(next, prev, data, nodes, Contents, c);
      ghost var rest := Contents[..c] + Contents[c + 1..];
      assert rest[c] == Contents[c + 1];
      var tempNode := current;
      var prevNode := prev[current];
      current := next[current];
      next := next[tempNode := Null];
      prev := prev[tempNode := Null];
      next := next[prevNode := current];
      prev := prev[current := prevNode];
      nodes, Contents := nodes[..c] + nodes[c + 1..], rest;
      return Some(data[current]);
    }
  }
}
