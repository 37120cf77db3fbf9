/** Sequence facts shared by the report model: distinctness, element sets and
    first-occurrence de-duplication (the "seen set, append on first sight" idiom). */
module Seqs {

  /** No value occurs twice in `s`. */
  ghost predicate Distinct<T>(s: seq<T>) {
    forall i, j :: 0 <= i < j < |s| ==> s[i] != s[j]
  }

  /** The set of values that occur in `s`. */
  ghost function Elements<T>(s: seq<T>): set<T> {
    set x | x in s
  }

  /** `s` with every repeated value dropped after its first occurrence; the
      survivors keep the order in which they were first seen. */
  function Dedup<T(==)>(s: seq<T>): (r: seq<T>)
    ensures Distinct(r)
    ensures Elements(r) == Elements(s)
    ensures |r| <= |s|
  {
    if s == [] then []
    else
      var init, last := s[..|s| - 1], s[|s| - 1];
      var d := Dedup(init);
      assert s == init + [last];
      assert Elements(s) == Elements(init) + {last};
      if last in d then d
      else
        assert Elements(d + [last]) == Elements(d) + {last};
        d + [last]
  }

  /** The position of the first occurrence of `x` in `s`, or `|s|` when `x`
      does not occur. */
  function FirstIndex<T(==)>(s: seq<T>, x: T): (k: nat)
    ensures k <= |s|
    ensures k < |s| ==> s[k] == x
    ensures x !in s[..k]
  {
    if s == [] || s[0] == x then 0
    else
      var k := 1 + FirstIndex(s[1..], x);
      assert s[..k] == [s[0]] + s[1..][..k - 1];
      k
  }

  /** A position holding `x` with no `x` before it is the first occurrence. */
  lemma FirstIndexAt<T>(s: seq<T>, x: T, k: nat)
    requires k < |s| && s[k] == x && x !in s[..k]
    ensures FirstIndex(s, x) == k
  {
  }

  /** Dedup keeps the values in the order of their first occurrence in `s`. */
  lemma {:induction false} DedupFirstSeenOrder<T>(s: seq<T>)
    ensures forall i, j :: 0 <= i < j < |Dedup(s)| ==>
              FirstIndex(s, Dedup(s)[i]) < FirstIndex(s, Dedup(s)[j])
  {
    if s != [] {
      var init, last := s[..|s| - 1], s[|s| - 1];
      assert s == init + [last];
      var d := Dedup(init);
      DedupFirstSeenOrder(init);
      forall y | y in d
        ensures FirstIndex(s, y) == FirstIndex(init, y) < |init|
      {
        assert y in Elements(init);
        var k := FirstIndex(init, y);
        assert s[..k] == init[..k];
        FirstIndexAt(s, y, k);
      }
      if last !in d {
        assert last !in Elements(init);
        assert s[..|init|] == init;
        FirstIndexAt(s, last, |init|);
      }
      var r := Dedup(s);
      forall i, j | 0 <= i < j < |r|
        ensures FirstIndex(s, r[i]) < FirstIndex(s, r[j])
      {
        assert r[i] in d;
      }
    }
  }

  /** Dedup advances one value at a time: the value is appended exactly when it
      has not been seen before. */
  lemma DedupSnoc<T>(s: seq<T>, x: T)
    ensures Dedup(s + [x]) == if x in Dedup(s) then Dedup(s) else Dedup(s) + [x]
  {
    assert (s + [x])[..|s|] == s;
  }

  /** A sequence without repetitions has as many elements as it has values. */
  lemma {:induction false} DistinctCardinality<T>(s: seq<T>)
    requires Distinct(s)
    ensures |Elements(s)| == |s|
  {
    if s != [] {
      var init, last := s[..|s| - 1], s[|s| - 1];
      assert s == init + [last];
      assert Distinct(init);
      DistinctCardinality(init);
      assert last !in Elements(init);
      assert Elements(s) == Elements(init) + {last};
    }
  }

  /** Each value occurs at most once in a sequence without repetitions. */
  lemma {:induction false} DistinctMultiplicity<T>(s: seq<T>, x: T)
    requires Distinct(s)
    ensures multiset(s)[x] <= 1
  {
    if s != [] {
      assert s == [s[0]] + s[1..];
      assert Distinct(s[1..]);
      DistinctMultiplicity(s[1..], x);
      if x == s[0] {
        assert x !in s[1..];
      }
    }
  }

  /** Rearranging a sequence without repetitions cannot introduce one. */
  lemma DistinctPermutation<T>(a: seq<T>, b: seq<T>)
    requires Distinct(a)
    requires multiset(a) == multiset(b)
    ensures Distinct(b)
  {
    forall i, j | 0 <= i < j < |b|
      ensures b[i] != b[j]
    {
      if b[i] == b[j] {
        var x := b[i];
        assert b == b[..j] + [b[j]] + b[j + 1..];
        assert x in multiset(b[..j]);
        assert multiset(b)[x] >= 2;
        DistinctMultiplicity(a, x);
      }
    }
  }
}
