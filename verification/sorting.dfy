/** Ascending sort as Go's `sort.Strings` and `sort.Ints` provide it, stated on
    values with a comparator, and Go's ordering of strings. */
module Sorting {
  import opened Seqs

  /** `leq` relates every two values one way or the other. */
  ghost predicate Total<T(!new)>(leq: (T, T) -> bool) {
    forall a, b :: leq(a, b) || leq(b, a)
  }

  ghost predicate Transitive<T(!new)>(leq: (T, T) -> bool) {
    forall a, b, c :: leq(a, b) && leq(b, c) ==> leq(a, c)
  }

  ghost predicate Antisymmetric<T(!new)>(leq: (T, T) -> bool) {
    forall a, b :: leq(a, b) && leq(b, a) ==> a == b
  }

  /** A total order: what Go's sort package needs of its `Less` to sort. */
  ghost predicate TotalOrder<T(!new)>(leq: (T, T) -> bool) {
    Total(leq) && Transitive(leq) && Antisymmetric(leq)
  }

  /** Every value in `s` is `leq` every value after it. */
  ghost predicate Sorted<T>(s: seq<T>, leq: (T, T) -> bool) {
    forall i, j :: 0 <= i < j < |s| ==> leq(s[i], s[j])
  }

  /** Puts `x` in front of the first value of `s` it is `leq` to. */
  function Insert<T>(x: T, s: seq<T>, leq: (T, T) -> bool): (r: seq<T>)
    ensures multiset(r) == multiset(s) + multiset{x}
  {
    if s == [] || leq(x, s[0]) then [x] + s
    else
      assert s == [s[0]] + s[1..];
      [s[0]] + Insert(x, s[1..], leq)
  }

  /** The values of `s` rearranged in ascending `leq` order. */
  function Sort<T>(s: seq<T>, leq: (T, T) -> bool): (r: seq<T>)
    ensures multiset(r) == multiset(s)
  {
    if s == [] then []
    else
      assert s == [s[0]] + s[1..];
      Insert(s[0], Sort(s[1..], leq), leq)
  }

  /** Inserting into a sorted sequence keeps it sorted. */
  lemma {:induction false} InsertSorted<T(!new)>(x: T, s: seq<T>, leq: (T, T) -> bool)
    requires Total(leq) && Transitive(leq)
    requires Sorted(s, leq)
    ensures Sorted(Insert(x, s, leq), leq)
  {
    if s != [] && !leq(x, s[0]) {
      var tail := s[1..];
      assert Sorted(tail, leq);
      InsertSorted(x, tail, leq);
      var t := Insert(x, tail, leq);
      forall k | 0 <= k < |t|
        ensures leq(s[0], t[k])
      {
        assert t[k] in multiset(t);
        if t[k] != x {
          assert t[k] in multiset(tail);
          var m :| 0 <= m < |tail| && tail[m] == t[k];
          assert s[m + 1] == t[k];
        }
      }
      assert Insert(x, s, leq) == [s[0]] + t;
    }
  }

  /** Sort produces an ascending sequence. */
  lemma {:induction false} SortSorted<T(!new)>(s: seq<T>, leq: (T, T) -> bool)
    requires Total(leq) && Transitive(leq)
    ensures Sorted(Sort(s, leq), leq)
  {
    if s != [] {
      SortSorted(s[1..], leq);
      InsertSorted(s[0], Sort(s[1..], leq), leq);
    }
  }

  /** Under a total order, a set has exactly one ascending listing without
      repetitions: such a listing depends only on the set. */
  lemma {:induction false} SortedDistinctUnique<T(!new)>(a: seq<T>, b: seq<T>, leq: (T, T) -> bool)
    requires Antisymmetric(leq)
    requires Sorted(a, leq) && Distinct(a)
    requires Sorted(b, leq) && Distinct(b)
    requires Elements(a) == Elements(b)
    ensures a == b
  {
    DistinctCardinality(a);
    DistinctCardinality(b);
    if a != [] {
      assert a[0] in Elements(b);
      var j :| 0 <= j < |b| && b[j] == a[0];
      assert b[0] in Elements(a);
      var i :| 0 <= i < |a| && a[i] == b[0];
      assert leq(a[0], a[i]) || i == 0;
      assert leq(b[0], b[j]) || j == 0;
      assert a[0] == b[0];
      assert a == [a[0]] + a[1..];
      assert b == [b[0]] + b[1..];
      assert Elements(a[1..]) == Elements(a) - {a[0]};
      assert Elements(b[1..]) == Elements(b) - {b[0]};
      assert Sorted(a[1..], leq) && Distinct(a[1..]);
      assert Sorted(b[1..], leq) && Distinct(b[1..]);
      SortedDistinctUnique(a[1..], b[1..], leq);
    }
  }

  /** The textbook lexicographic order: `a` is a prefix of `b`, or at the
      first position where they differ `a` has the smaller character. */
  ghost predicate LexBefore(a: string, b: string) {
    || a <= b
    || exists k :: 0 <= k < |a| && k < |b| && a[..k] == b[..k] && a[k] < b[k]
  }

  lemma LexBeforeHeads(a: string, b: string)
    requires a != [] && b != [] && a[0] != b[0]
    ensures LexBefore(a, b) <==> a[0] < b[0]
  {
    if a[0] < b[0] {
      assert a[..0] == b[..0];
    }
  }

  lemma LexBeforeTails(a: string, b: string)
    requires a != [] && b != [] && a[0] == b[0]
    ensures LexBefore(a, b) <==> LexBefore(a[1..], b[1..])
  {
    assert a == [a[0]] + a[1..] && b == [b[0]] + b[1..];
    assert a <= b <==> a[1..] <= b[1..];
    if k :| 0 <= k < |a| && k < |b| && a[..k] == b[..k] && a[k] < b[k] {
      assert k > 0;
      var ta, tb := a[1..], b[1..];
      assert ta[..k - 1] == a[..k][1..];
      assert tb[..k - 1] == b[..k][1..];
      assert ta[k - 1] < tb[k - 1];
    }
    if k :| 0 <= k < |a| - 1 && k < |b| - 1 && a[1..][..k] == b[1..][..k] && a[1..][k] < b[1..][k] {
      assert a[..k + 1] == [a[0]] + a[1..][..k] && b[..k + 1] == [b[0]] + b[1..][..k];
    }
  }

  /** Go's ordering of strings (`a < b` or `a == b`): lexicographic by
      character. For valid UTF-8, Go's byte-wise comparison orders strings as
      their code points do, which is the order used here. */
  predicate StringLeq(a: string, b: string)
    ensures a <= b ==> StringLeq(a, b)
  {
    if a == [] then true
    else if b == [] then false
    else if a[0] != b[0] then a[0] < b[0]
    else StringLeq(a[1..], b[1..])
  }

  /** StringLeq is exactly the textbook lexicographic order. */
  lemma {:induction false} StringLeqLexicographic(a: string, b: string)
    ensures StringLeq(a, b) <==> LexBefore(a, b)
  {
    if a != [] && b != [] {
      if a[0] != b[0] {
        LexBeforeHeads(a, b);
      } else {
        LexBeforeTails(a, b);
        StringLeqLexicographic(a[1..], b[1..]);
      }
    }
  }

  lemma {:induction false} StringLeqTotal(a: string, b: string)
    ensures StringLeq(a, b) || StringLeq(b, a)
  {
    if a != [] && b != [] && a[0] == b[0] {
      StringLeqTotal(a[1..], b[1..]);
    }
  }

  lemma {:induction false} StringLeqTransitive(a: string, b: string, c: string)
    requires StringLeq(a, b) && StringLeq(b, c)
    ensures StringLeq(a, c)
  {
    if a != [] && b != [] && c != [] && a[0] == b[0] && b[0] == c[0] {
      StringLeqTransitive(a[1..], b[1..], c[1..]);
    }
  }

  lemma {:induction false} StringLeqAntisymmetric(a: string, b: string)
    requires StringLeq(a, b) && StringLeq(b, a)
    ensures a == b
  {
    if a != [] && b != [] {
      StringLeqAntisymmetric(a[1..], b[1..]);
      assert a == [a[0]] + a[1..] && b == [b[0]] + b[1..];
    }
  }

  /** Go's string comparison is a total order, so `sort.Strings` is well defined. */
  lemma StringLeqTotalOrder()
    ensures TotalOrder(StringLeq)
  {
    forall a, b ensures StringLeq(a, b) || StringLeq(b, a) {
      StringLeqTotal(a, b);
    }
    forall a, b, c | StringLeq(a, b) && StringLeq(b, c) ensures StringLeq(a, c) {
      StringLeqTransitive(a, b, c);
    }
    forall a, b | StringLeq(a, b) && StringLeq(b, a) ensures a == b {
      StringLeqAntisymmetric(a, b);
    }
  }

  /** Go's `a <= b` on `int`. */
  predicate IntLeq(a: int, b: int) {
    a <= b
  }

  lemma IntLeqTotalOrder()
    ensures TotalOrder(IntLeq)
  {
  }
}
