/** Sequence helpers used to describe record-array contents. */
module Seqs {

  /** The set of elements of a sequence. */
  function Members<T>(s: seq<T>): set<T> {
    set x | x in s
  }

  /** No element occurs twice. */
  predicate NoDup<T(==)>(s: seq<T>) {
    forall j, k :: 0 <= j < k < |s| ==> s[j] != s[k]
  }

  /**
   * `s` with every occurrence of an element of `drop` taken out, the order of the
   * survivors kept: what removing a batch of identifiers from a record array does.
   */
  function Without<T(==,!new)>(s: seq<T>, drop: set<T>): (r: seq<T>)
    ensures forall x :: x in r <==> x in s && x !in drop
    ensures |r| <= |s|
    ensures NoDup(s) ==> NoDup(r)
  {
    if s == [] then []
    else
      var rest := Without(s[1..], drop);
      assert forall x :: x in rest ==> x in s[1..];
      if s[0] in drop then rest else [s[0]] + rest
  }

  /**
   * The elements of `s` that are not in `present`, each once, in the order of
   * their first occurrence: what appending "every element not yet there" adds.
   */
  function Unseen<T(==,!new)>(s: seq<T>, present: set<T>): (r: seq<T>)
    ensures forall x {:trigger x in r} :: x in r <==> x in s && x !in present
    ensures NoDup(r)
  {
    if s == [] then []
    else
      var earlier := Unseen(s[..|s| - 1], present);
      var last := s[|s| - 1];
      assert forall x :: x in s <==> x in s[..|s| - 1] || x == last;
      if last !in present && last !in earlier then earlier + [last] else earlier
  }

  /** `Unseen` of a prefix one element longer. */
  lemma UnseenPrefixStep<T(!new)>(s: seq<T>, j: nat, present: set<T>)
    requires j < |s|
    ensures Unseen(s[..j + 1], present) ==
      (var earlier := Unseen(s[..j], present);
       if s[j] !in present && s[j] !in earlier then earlier + [s[j]] else earlier)
  {
    assert s[..j + 1][..j] == s[..j];
  }

  lemma {:induction false} WithoutNothing<T(!new)>(s: seq<T>, drop: set<T>)
    requires forall x :: x in s ==> x !in drop
    ensures Without(s, drop) == s
  {
    if s != [] {
      WithoutNothing(s[1..], drop);
    }
  }

  lemma {:induction false} WithoutConcat<T(!new)>(a: seq<T>, b: seq<T>, drop: set<T>)
    ensures Without(a + b, drop) == Without(a, drop) + Without(b, drop)
  {
    if a == [] {
      assert a + b == b;
    } else {
      assert (a + b)[1..] == a[1..] + b;
      WithoutConcat(a[1..], b, drop);
    }
  }

  lemma {:induction false} WithoutTwice<T(!new)>(s: seq<T>, first: set<T>, second: set<T>)
    ensures Without(Without(s, first), second) == Without(s, first + second)
  {
    if s != [] {
      WithoutTwice(s[1..], first, second);
      if s[0] !in first {
        assert Without(s, first) == [s[0]] + Without(s[1..], first);
        assert Without(s, first)[1..] == Without(s[1..], first);
      }
    }
  }
}
