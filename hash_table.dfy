/** The chained hash table `Hash`: a fixed number of buckets, each a list
    of strings, with the collision and longest-list counters that
    `processFile` keeps while it inserts lines. */
module HashTable {
  import opened HashFunction

  /** What `std::list::remove(w)` leaves: every element equal to `w` gone,
      the others in their order. */
  function RemoveAll(s: seq<string>, w: string): (r: seq<string>)
    ensures |r| <= |s|
    decreases |s|
  {
    if |s| == 0 then []
    else if s[0] == w then RemoveAll(s[1..], w)
    else [s[0]] + RemoveAll(s[1..], w)
  }

  /** `RemoveAll` keeps exactly the elements different from `w`. */
  lemma {:induction false} RemoveAllMembers(s: seq<string>, w: string, x: string)
    ensures x in RemoveAll(s, w) <==> x in s && x != w
    decreases |s|
  {
    if |s| > 0 {
      RemoveAllMembers(s[1..], w, x);
      assert s == [s[0]] + s[1..];
    }
  }

  /** `RemoveAll` keeps every other element as often as it occurred. */
  lemma {:induction false} RemoveAllCounts(s: seq<string>, w: string, x: string)
    requires x != w
    ensures multiset(RemoveAll(s, w))[x] == multiset(s)[x]
    decreases |s|
  {
    if |s| > 0 {
      RemoveAllCounts(s[1..], w, x);
      assert s == [s[0]] + s[1..];
    }
  }

  class Hash {
    /** `HASH_TABLE_SIZE`, a positive compile-time constant of the source. */
    const tableSize: int
    const hashTable: array<seq<string>>
    var collisions: int
    var longestList: int

    /** The table has `tableSize` buckets and `longestList` bounds every
        bucket's length. */
    ghost predicate Valid()
      reads this, hashTable
    {
      && tableSize > 0
      && hashTable.Length == tableSize
      && collisions >= 0
      && forall i :: 0 <= i < hashTable.Length ==> |hashTable[i]| <= longestList
    }

    constructor (size: int)
      requires size > 0
      ensures Valid() && fresh(hashTable)
      ensures tableSize == size
      ensures collisions == 0 && longestList == 0
      ensures forall i :: 0 <= i < hashTable.Length ==> hashTable[i] == []
    {
      tableSize := size;
      hashTable := new seq<string>[size](_ => []);
      collisions := 0;
      longestList := 0;
    }

    /** `search`: scans bucket `hf(word)`. */
    method Search(word: string) returns (found: bool)
      requires Valid()
      ensures found <==> word in hashTable[Horner(word, tableSize)]
    {
      var index := Hf(word, tableSize);
      var bucket := hashTable[index];
      var k := 0;
      while k < |bucket|
        invariant 0 <= k <= |bucket|
        invariant word !in bucket[..k]
      {
        if bucket[k] == word {
          return true;
        }
        k := k + 1;
      }
      assert bucket[..k] == bucket;
      return false;
    }

    /** `remove`: when `word` is in its bucket, every copy of it is taken out
        of that bucket; nothing else changes. */
    method Remove(word: string)
      requires Valid()
      modifies hashTable
      ensures Valid()
      ensures var index := Horner(word, tableSize);
        && hashTable[index] == RemoveAll(old(hashTable[index]), word)
        && forall i :: 0 <= i < hashTable.Length && i != index ==> hashTable[i] == old(hashTable[i])
      ensures word !in hashTable[Horner(word, tableSize)]
      ensures word !in old(hashTable[Horner(word, tableSize)]) ==> hashTable[..] == old(hashTable[..])
    {
      var index := Hf(word, tableSize);
      var bucket := hashTable[index];
      var k := 0;
      while k < |bucket|
        invariant 0 <= k <= |bucket|
        invariant word !in bucket[..k]
        invariant hashTable[..] == old(hashTable[..])
      {
        if bucket[k] == word {
          hashTable[index] := RemoveAll(bucket, word);
          break;
        }
        k := k + 1;
      }
      if k == |bucket| {
        assert bucket[..k] == bucket;
        RemoveAllAbsent(bucket, word);
      }
      RemoveAllMembers(bucket, word, word);
    }

    /** The per-line step of `processFile`: append `line` to bucket
        `hf(line)`, count a collision when that bucket already held
        something, and raise `longestList` to the longest bucket. */
    method InsertLine(line: string)
      requires Valid()
      modifies this, hashTable
      ensures Valid()
      ensures var index := Horner(line, tableSize);
        && hashTable[index] == old(hashTable[index]) + [line]
        && (forall i :: 0 <= i < hashTable.Length && i != index ==> hashTable[i] == old(hashTable[i]))
        && collisions == old(collisions) + (if old(hashTable[index]) != [] then 1 else 0)
        && longestList == (if |hashTable[index]| > old(longestList) then |hashTable[index]| else old(longestList))
    {
      var index := Hf(line, tableSize);
      if hashTable[index] != [] {
        collisions := collisions + 1;
      }
      hashTable[index] := hashTable[index] + [line];
      var i := 0;
      while i < tableSize
        modifies this
        invariant 0 <= i <= tableSize
        invariant collisions == old(collisions) + (if old(hashTable[index]) != [] then 1 else 0)
        invariant longestList >= old(longestList)
        invariant forall j :: 0 <= j < i ==> |hashTable[j]| <= longestList
        invariant longestList == old(longestList) || (index < i && longestList == |hashTable[index]|)
      {
        if |hashTable[i]| > longestList {
          longestList := |hashTable[i]|;
        }
        i := i + 1;
      }
    }
  }

  lemma RemoveAllAbsent(s: seq<string>, w: string)
    requires w !in s
    ensures RemoveAll(s, w) == s
  {
    if |s| > 0 {
      RemoveAllAbsent(s[1..], w);
    }
  }
}
