/**
 * The abstract view of a linked list: a sequence of elements in head-to-tail
 * order, with the three operations the list performs on it (insertion at an
 * ordinal, removal at an ordinal, first-occurrence search).
 */
module Sequences {

  /** `s` with `x` inserted so that it sits at ordinal `i`. */
  function Inserted<T>(s: seq<T>, i: nat, x: T): (r: seq<T>)
    requires i <= |s|
    ensures |r| == |s| + 1 && r[i] == x
    ensures forall k {:trigger r[k]} :: 0 <= k < i ==> r[k] == s[k]
    ensures forall k :: i < k < |r| ==> r[k] == s[k - 1]
  {
    s[..i] + [x] + s[i..]
  }

  /** `s` with the element at ordinal `i` taken out. */
  function Removed<T>(s: seq<T>, i: nat): (r: seq<T>)
    requires i < |s|
    ensures |r| == |s| - 1
    ensures forall k {:trigger r[k]} :: 0 <= k < i ==> r[k] == s[k]
    ensures forall k :: i <= k < |r| ==> r[k] == s[k + 1]
  {
    s[..i] + s[i + 1..]
  }

  /** The smallest ordinal holding `x`, or -1 when `x` does not occur. */
  function IndexOf<T(==)>(s: seq<T>, x: T): (r: int)
    ensures -1 <= r < |s|
    ensures r == -1 <==> x !in s
    ensures r >= 0 ==> s[r] == x && forall k :: 0 <= k < r ==> s[k] != x
  {
    if |s| == 0 then -1
    else if s[0] == x then 0
    else
      var t := IndexOf(s[1..], x);
      if t == -1 then -1 else t + 1
  }

  /** Removing what was just inserted gives back the original sequence. */
  lemma {:induction false} RemovedInserted<T>(s: seq<T>, i: nat, x: T)
    requires i <= |s|
    ensures Removed(Inserted(s, i, x), i) == s
  {
    var r := Removed(Inserted(s, i, x), i);
    assert |r| == |s|;
    forall k | 0 <= k < |s| ensures r[k] == s[k] {
      if k >= i { assert Inserted(s, i, x)[k + 1] == s[k]; }
    }
  }

  /** Inserting at ordinal |s| is appending. */
  lemma InsertedAtEnd<T>(s: seq<T>, x: T)
    ensures Inserted(s, |s|, x) == s + [x]
  {
    assert s[|s|..] == [];
  }

  /** Removing the last element is taking the prefix without it. */
  lemma RemovedLast<T>(s: seq<T>)
    requires |s| > 0
    ensures Removed(s, |s| - 1) == s[..|s| - 1]
  {
    assert s[|s|..] == [];
  }

  /** Inserting at ordinal 0 of a non-empty sequence leaves its last element in place. */
  lemma InsertedAtFrontKeepsLast<T>(s: seq<T>, x: T)
    requires |s| > 0
    ensures var r := Inserted(s, 0, x); r[|r| - 1] == s[|s| - 1] && r[0] == x
  {
  }

  /** Insertion adds exactly one occurrence of `x` and nothing else. */
  lemma {:induction false} InsertedMultiset<T>(s: seq<T>, i: nat, x: T)
    requires i <= |s|
    ensures multiset(Inserted(s, i, x)) == multiset(s) + multiset{x}
  {
    assert s == s[..i] + s[i..];
    assert multiset(s) == multiset(s[..i]) + multiset(s[i..]);
  }

  /** Removal takes out exactly one occurrence of the removed element. */
  lemma {:induction false} RemovedMultiset<T>(s: seq<T>, i: nat)
    requires i < |s|
    ensures multiset(Removed(s, i)) == multiset(s) - multiset{s[i]}
  {
    assert s == s[..i] + [s[i]] + s[i + 1..];
    assert multiset(s) == multiset(s[..i]) + multiset{s[i]} + multiset(s[i + 1..]);
  }

  /** Membership after an insertion. */
  lemma {:induction false} InsertedMembers<T>(s: seq<T>, i: nat, x: T)
    requires i <= |s|
    ensures forall y :: y in Inserted(s, i, x) <==> y in s || y == x
  {
    InsertedMultiset(s, i, x);
    forall y ensures y in Inserted(s, i, x) <==> y in s || y == x {
      assert y in Inserted(s, i, x) <==> y in multiset(Inserted(s, i, x));
      assert y in s <==> y in multiset(s);
    }
  }

  /** Membership after a removal from a sequence without repetitions. */
  lemma {:induction false} RemovedMembers<T>(s: seq<T>, i: nat)
    requires i < |s|
    requires forall a, b :: 0 <= a < b < |s| ==> s[a] != s[b]
    ensures forall y :: y in Removed(s, i) <==> y in s && y != s[i]
  {
    var r := Removed(s, i);
    forall y ensures y in r <==> y in s && y != s[i] {
      if y in r {
        var k :| 0 <= k < |r| && r[k] == y;
        if k < i { assert s[k] == y; } else { assert s[k + 1] == y; }
      }
      if y in s && y != s[i] {
        var k :| 0 <= k < |s| && s[k] == y;
        if k < i { assert r[k] == y; } else { assert r[k - 1] == y; }
      }
    }
  }

  /** Removing the first occurrence of `x` drops exactly one `x` and keeps every element before it. */
  lemma {:induction false} RemovedFirstOccurrence<T>(s: seq<T>, x: T)
    requires x in s
    ensures var i := IndexOf(s, x);
      multiset(Removed(s, i)) == multiset(s) - multiset{x} && Removed(s, i)[..i] == s[..i]
  {
    var i := IndexOf(s, x);
    RemovedMultiset(s, i);
  }
}
