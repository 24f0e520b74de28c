/**
 * The effect of the linked-list primitive on the sequence of cells it links: insertion at an
 * index, removal of one cell, reversal. The nodes a list holds are modelled by these sequences.
 */
module Sequences {
  import opened Wrappers

  function Min(a: nat, b: nat): nat { if a <= b then a else b }

  /** `x` linked in before the element now at index `i`. */
  function InsertAt<T>(s: seq<T>, i: nat, x: T): (r: seq<T>)
    requires i <= |s|
    ensures |r| == |s| + 1 && r[i] == x
    ensures forall j :: 0 <= j < i ==> r[j] == s[j]
    ensures forall j :: i <= j < |s| ==> r[j + 1] == s[j]
  {
    s[..i] + [x] + s[i..]
  }

  /** Insertion adds exactly one occurrence of `x` and keeps every other element. */
  lemma InsertAtMultiset<T>(s: seq<T>, i: nat, x: T)
    requires i <= |s|
    ensures multiset(InsertAt(s, i, x)) == multiset(s) + multiset{x}
  {
    assert s == s[..i] + s[i..];
  }

  /** The cell at index `i` unlinked. */
  function RemoveAt<T>(s: seq<T>, i: nat): (r: seq<T>)
    requires i < |s|
    ensures |r| == |s| - 1
    ensures forall j :: 0 <= j < i ==> r[j] == s[j]
    ensures forall j :: i <= j < |r| ==> r[j] == s[j + 1]
  {
    s[..i] + s[i + 1..]
  }

  /** Every element left after a removal was there before. */
  lemma RemoveAtMembers<T>(s: seq<T>, i: nat)
    requires i < |s|
    ensures forall x :: x in RemoveAt(s, i) ==> x in s
  {
    assert RemoveAt(s, i) == s[..i] + s[i + 1..];
  }

  /** Removal drops exactly one occurrence of the removed element. */
  lemma RemoveAtMultiset<T>(s: seq<T>, i: nat)
    requires i < |s|
    ensures multiset(RemoveAt(s, i)) + multiset{s[i]} == multiset(s)
  {
    assert s == s[..i] + [s[i]] + s[i + 1..];
  }

  /** A prefix one element longer is the shorter prefix and that element. */
  lemma PrefixSnoc<T>(s: seq<T>, i: nat)
    requires i < |s|
    ensures s[..i + 1] == s[..i] + [s[i]]
  {
  }

  /** Removing what was inserted gives back the original: the old elements keep their order. */
  lemma RemoveInserted<T>(s: seq<T>, i: nat, x: T)
    requires i <= |s|
    ensures RemoveAt(InsertAt(s, i, x), i) == s
  {
    var r := RemoveAt(InsertAt(s, i, x), i);
    assert |r| == |s|;
    forall j | 0 <= j < |s| ensures r[j] == s[j] {
    }
  }

  /** The list read from its last cell to its first. */
  function Reversed<T>(s: seq<T>): (r: seq<T>)
    ensures |r| == |s|
  {
    if s == [] then [] else [s[|s| - 1]] + Reversed(s[..|s| - 1])
  }

  lemma {:induction false} ReversedIndex<T>(s: seq<T>, k: nat)
    requires k < |s|
    ensures Reversed(s)[k] == s[|s| - 1 - k]
  {
    if k > 0 {
      ReversedIndex(s[..|s| - 1], k - 1);
    }
  }

  /** Reversal keeps exactly the same elements. */
  lemma ReversedMembers<T>(s: seq<T>)
    ensures forall x :: x in Reversed(s) <==> x in s
  {
    forall x ensures x in Reversed(s) <==> x in s {
      if x in s {
        var k :| 0 <= k < |s| && s[k] == x;
        ReversedIndex(s, |s| - 1 - k);
      }
      if x in Reversed(s) {
        var k :| 0 <= k < |s| && Reversed(s)[k] == x;
        ReversedIndex(s, k);
      }
    }
  }

  /** Reversal keeps every element with its multiplicity. */
  lemma {:induction false} ReversedMultiset<T>(s: seq<T>)
    ensures multiset(Reversed(s)) == multiset(s)
  {
    if s != [] {
      ReversedMultiset(s[..|s| - 1]);
      assert s == s[..|s| - 1] + [s[|s| - 1]];
    }
  }

  /** Reversing twice restores the original order. */
  lemma ReversedTwice<T>(s: seq<T>)
    ensures Reversed(Reversed(s)) == s
  {
    var r := Reversed(Reversed(s));
    forall k | 0 <= k < |s| ensures r[k] == s[k] {
      ReversedIndex(Reversed(s), k);
      ReversedIndex(s, |s| - 1 - k);
    }
  }

  /** Appending `x` and then reversing puts `x` in front of the reversal. */
  lemma ReversedSnoc<T>(s: seq<T>, x: T)
    ensures Reversed(s + [x]) == [x] + Reversed(s)
  {
    assert (s + [x])[..|s|] == s;
  }

  /**
   * The insertion of a node at index `i` as the list code does it: index 0 links the new cell in
   * front; an index at or past the length links it after the cell at index `len - 1`; any other
   * index links it after the cell at `i - 1`. With an empty list and `i > 0` the unsigned
   * `len - 1` wraps to 2^32 - 1, no such cell exists and the missing cell is dereferenced:
   * `None` stands for that crash.
   */
  function InsertAsWritten<T>(s: seq<T>, i: nat, x: T): (r: Option<seq<T>>)
    ensures r.None? <==> (i > 0 && |s| == 0)
  {
    if i == 0 then Some([x] + s)
    else if i >= |s| then (if |s| == 0 then None else Some(s + [x]))
    else Some(s[..i] + [x] + s[i..])
  }

  /** Insertion at index 0 puts the element in front. */
  lemma InsertClampedFront<T>(s: seq<T>, x: T)
    ensures InsertClamped(s, 0, x) == [x] + s
  {
    assert s[..0] + [x] + s[0..] == [x] + s;
  }

  /** Inserting at index 1 into an empty list does not append: the code dereferences a missing cell. */
  lemma InsertIntoEmptyPastEnd<T>(x: T)
    ensures InsertAsWritten([], 1, x) == None
    ensures InsertClamped([], 1, x) == [x]
  {
  }

  /**
   * The insertion the list operation is meant to perform: before index `i`, or at the end when
   * `i` is at or past the length, for every list including the empty one.
   */
  function InsertClamped<T>(s: seq<T>, i: nat, x: T): (r: seq<T>)
    ensures |r| == |s| + 1 && r[Min(i, |s|)] == x
  {
    InsertAt(s, Min(i, |s|), x)
  }

  /** The intended insertion is undone by removing the cell it linked. */
  lemma InsertClampedRemove<T>(s: seq<T>, i: nat, x: T)
    ensures RemoveAt(InsertClamped(s, i, x), Min(i, |s|)) == s
  {
    RemoveInserted(s, Min(i, |s|), x);
  }

  /** Wherever the code does not crash it performs exactly the intended insertion. */
  lemma {:induction false} InsertAsWrittenAgrees<T>(s: seq<T>, i: nat, x: T)
    requires !(i > 0 && |s| == 0)
    ensures InsertAsWritten(s, i, x) == Some(InsertClamped(s, i, x))
  {
    if i == 0 {
      assert [x] + s == s[..0] + [x] + s[0..];
    } else if i >= |s| {
      assert s + [x] == s[..|s|] + [x] + s[|s|..];
    }
  }
}
