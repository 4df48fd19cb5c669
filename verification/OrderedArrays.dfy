/**
  The address-sorted array that indexes the holes of the kernel heap
  (source/utils/array.cpp). Slots at and beyond `size_` keep whatever was last
  written there, as in the source.
 */
module OrderedArrays {

  predicate Sorted(s: seq<int>) {
    forall i, j :: 0 <= i < j < |s| ==> s[i] < s[j]
  }

  /** Number of leading elements below x: where x belongs in a sorted sequence. */
  function Rank(s: seq<int>, x: int): (r: nat)
    ensures r <= |s|
    ensures forall i :: 0 <= i < r ==> s[i] < x
    ensures r < |s| ==> x <= s[r]
  {
    if s == [] || x <= s[0] then 0 else 1 + Rank(s[1..], x)
  }

  lemma {:induction false} RankIs(s: seq<int>, x: int, r: nat)
    requires r <= |s| && (forall i :: 0 <= i < r ==> s[i] < x) && (r < |s| ==> x <= s[r])
    ensures Rank(s, x) == r
  {
  }

  function Insert(s: seq<int>, x: int): seq<int> {
    s[..Rank(s, x)] + [x] + s[Rank(s, x)..]
  }

  predicate Below(x: int, s: seq<int>) {
    forall k :: 0 <= k < |s| ==> x < s[k]
  }

  predicate Above(s: seq<int>, x: int) {
    forall k :: 0 <= k < |s| ==> s[k] < x
  }

  function Remove(s: seq<int>, p: nat): seq<int>
    requires p < |s|
  {
    s[..p] + s[p + 1..]
  }

  /** Adding an item to the index keeps it sorted and adds exactly that item. */
  lemma {:induction false} InsertSorted(s: seq<int>, x: int)
    requires Sorted(s) && x !in s
    ensures Sorted(Insert(s, x))
    ensures multiset(Insert(s, x)) == multiset(s) + multiset{x}
  {
    var r := Rank(s, x);
    assert s == s[..r] + s[r..];
    assert x < (if r < |s| then s[r] else x + 1);
    SortedAround(s[..r], x, s[r..]);
  }

  lemma {:induction false} SortedAround(before: seq<int>, x: int, after: seq<int>)
    requires Sorted(before) && Sorted(after)
    requires forall i :: 0 <= i < |before| ==> before[i] < x
    requires after != [] ==> x < after[0]
    ensures Sorted(before + [x] + after)
  {
    forall i | 0 <= i < |after| ensures x < after[i] { assert i == 0 || after[0] < after[i]; }
  }

  lemma {:induction false} RemoveSorted(s: seq<int>, p: nat)
    requires Sorted(s) && p < |s|
    ensures Sorted(Remove(s, p))
    ensures multiset(Remove(s, p)) == multiset(s) - multiset{s[p]}
    ensures s[p] !in Remove(s, p)
  {
    assert s == s[..p] + [s[p]] + s[p + 1..];
  }

  /** Insertion and removal undo each other. */
  lemma {:induction false} RemoveUndoesInsert(s: seq<int>, x: int)
    ensures Remove(Insert(s, x), Rank(s, x)) == s
  {
  }

  /** An element that belongs between two parts of a sequence is inserted between them. */
  lemma {:induction false} InsertBetween(before: seq<int>, x: int, after: seq<int>)
    requires Above(before, x) && Below(x, after)
    ensures Insert(before + after, x) == before + [x] + after
  {
    var s := before + after;
    if after != [] { assert s[|before|] == after[0]; }
    RankIs(s, x, |before|);
    assert s[..|before|] == before && s[|before|..] == after;
  }

  class OrderedArray {
    const array_: array<int>
    const maxSize_: nat
    var size_: nat

    ghost predicate Valid()
      reads this
    {
      size_ <= maxSize_ == array_.Length
    }

    ghost function Items(): seq<int>
      reads this, array_
      requires Valid()
    {
      array_[..size_]
    }

    /** Placed over a region that is zeroed first. */
    constructor (maxSize: nat)
      ensures Valid() && maxSize_ == maxSize && size_ == 0 && Items() == [] && fresh(array_)
      ensures forall k :: 0 <= k < maxSize ==> array_[k] == 0
    {
      array_ := new int[maxSize](_ => 0);
      maxSize_ := maxSize;
      size_ := 0;
    }

    /** The source writes the slot after the last item without testing for room. */
    method Add(item: int)
      requires Valid() && size_ < maxSize_
      modifies this, array_
      ensures Valid() && Items() == Insert(old(Items()), item)
      ensures array_[size_..] == old(array_[size_ + 1..])
    {
      ghost var was := array_[..];
      ghost var s := Items();
      var i := 0;
      while i < size_ && array_[i] < item
        invariant i <= size_ == |s|
        invariant forall k :: 0 <= k < i ==> s[k] < item
        invariant array_[..] == was
      {
        i := i + 1;
      }
      RankIs(s, item, i);
      if i == size_ {
        array_[i] := item;
      } else {
        PushUp(i, item);
      }
      size_ := size_ + 1;
      assert array_[..size_] == s[..i] + [item] + s[i..];
    }

    /** Puts item at a position and moves the items from there on one place up. */
    method PushUp(position: nat, item: int)
      requires Valid() && position < size_ < maxSize_
      modifies array_
      ensures array_[position] == item
      ensures forall k :: 0 <= k < position || size_ < k < maxSize_ ==> array_[k] == old(array_[k])
      ensures forall k :: position < k <= size_ ==> array_[k] == old(array_[k - 1])
    {
      var i, tmp := position, array_[position];
      array_[i] := item;
      while i < size_
        invariant position <= i <= size_
        invariant i < size_ ==> tmp == old(array_[i])
        invariant array_[position] == item
        invariant forall k :: 0 <= k < position || i < k < maxSize_ ==> array_[k] == old(array_[k])
        invariant forall k :: position < k <= i ==> array_[k] == old(array_[k - 1])
      {
        i := i + 1;
        var tmp2 := array_[i];
        array_[i] := tmp;
        tmp := tmp2;
      }
    }

    method Erase(position: nat)
      requires Valid() && position < size_
      modifies this, array_
      ensures Valid() && Items() == Remove(old(Items()), position)
      ensures array_[size_..] == old(array_[size_ - 1..])
    {
      ghost var was := array_[..];
      var i := position;
      while i < size_ - 1
        invariant position <= i <= size_ - 1 && size_ == old(size_)
        invariant forall k :: position <= k < i ==> array_[k] == was[k + 1]
        invariant forall k :: 0 <= k < position || i <= k < maxSize_ ==> array_[k] == was[k]
      {
        array_[i] := array_[i + 1];
        i := i + 1;
      }
      size_ := size_ - 1;
    }
  }
}
