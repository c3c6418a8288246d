/**
  Positional insertion and removal on sequences: the abstract effect of shifting a block of
  elements one place right (to make room) or one place left (to close a gap).  Both containers
  state their mutators in these terms.
*/
module Sequences {

  /** s with v placed at index i; the elements from i on move one place up. */
  function InsertAt<T>(s: seq<T>, i: int, v: T): (r: seq<T>)
    requires 0 <= i <= |s|
    ensures |r| == |s| + 1 && r[i] == v
    ensures forall k :: 0 <= k < i ==> r[k] == s[k]
    ensures forall k :: i < k < |r| ==> r[k] == s[k - 1]
  {
    seq(|s| + 1, k requires 0 <= k <= |s| => if k < i then s[k] else if k == i then v else s[k - 1])
  }

  /** s without the element at index i; the elements after it move one place down. */
  function RemoveAt<T>(s: seq<T>, i: int): (r: seq<T>)
    requires 0 <= i < |s|
    ensures |r| == |s| - 1
    ensures forall k :: 0 <= k < i ==> r[k] == s[k]
    ensures forall k :: i <= k < |r| ==> r[k] == s[k + 1]
  {
    seq(|s| - 1, k requires 0 <= k < |s| - 1 => if k < i then s[k] else s[k + 1])
  }

  /** Removing what was just inserted gives back the original sequence. */
  lemma RemoveAfterInsert<T>(s: seq<T>, i: int, v: T)
    requires 0 <= i <= |s|
    ensures RemoveAt(InsertAt(s, i, v), i) == s
  {
    var r := RemoveAt(InsertAt(s, i, v), i);
    assert forall k :: 0 <= k < |s| ==> r[k] == s[k];
  }

  /** Putting a removed element back where it was gives back the original sequence. */
  lemma InsertAfterRemove<T>(s: seq<T>, i: int)
    requires 0 <= i < |s|
    ensures InsertAt(RemoveAt(s, i), i, s[i]) == s
  {
    var r := InsertAt(RemoveAt(s, i), i, s[i]);
    assert forall k :: 0 <= k < |s| ==> r[k] == s[k];
  }

  /** Inserting adds exactly one occurrence of v and keeps every other element. */
  lemma InsertAtMultiset<T>(s: seq<T>, i: int, v: T)
    requires 0 <= i <= |s|
    ensures multiset(InsertAt(s, i, v)) == multiset(s) + multiset{v}
  {
    assert InsertAt(s, i, v) == s[..i] + [v] + s[i..];
    assert s == s[..i] + s[i..];
  }

  /** Removing takes away exactly one occurrence of the removed element. */
  lemma RemoveAtMultiset<T>(s: seq<T>, i: int)
    requires 0 <= i < |s|
    ensures multiset(RemoveAt(s, i)) == multiset(s) - multiset{s[i]}
  {
    assert RemoveAt(s, i) == s[..i] + s[i + 1..];
    assert s == s[..i] + [s[i]] + s[i + 1..];
  }

  /** Inserting at the front and at the back are the familiar prepend and append. */
  lemma InsertAtEnds<T>(s: seq<T>, v: T)
    ensures InsertAt(s, 0, v) == [v] + s
    ensures InsertAt(s, |s|, v) == s + [v]
  {
    assert s[..0] == [] && s[0..] == s;
    assert s[..|s|] == s && s[|s|..] == [];
  }

  /** Removing at the front and at the back drop the first and the last element. */
  lemma RemoveAtEnds<T>(s: seq<T>)
    requires |s| > 0
    ensures RemoveAt(s, 0) == s[1..]
    ensures RemoveAt(s, |s| - 1) == s[..|s| - 1]
  {
    assert s[..0] == [];
    assert s[|s|..] == [];
  }
}
