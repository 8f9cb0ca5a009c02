/** Small generic building blocks shared by both stores: an optional value,
    order-preserving filtering, counting, and pairwise relations over sequences. */
module Basics {

  /** An optional value; `None` plays the part of Ruby's `nil` and of SQL's NULL. */
  datatype Option<T> = None | Some(value: T)

  /** The outcome of a statement that the database may refuse. */
  datatype Result<T, E> = Ok(value: T) | Err(error: E)

  /** The elements of `s` that satisfy `p`, in their original order
      (Ruby's `select`, the complement of `reject!`/`delete_if`, and SQL's `WHERE`). */
  function Filter<T(!new)>(s: seq<T>, p: T -> bool): (r: seq<T>)
    ensures |r| <= |s|
    ensures forall x :: x in r <==> x in s && p(x)
    decreases |s|
  {
    if |s| == 0 then []
    else if p(s[0]) then [s[0]] + Filter(s[1..], p)
    else Filter(s[1..], p)
  }

  /** Number of elements of `s` that satisfy `p`. */
  function Count<T(!new)>(s: seq<T>, p: T -> bool): (n: nat)
    ensures n <= |s|
    ensures n == 0 <==> forall x :: x in s ==> !p(x)
    decreases |s|
  {
    if |s| == 0 then 0
    else (if p(s[0]) then 1 else 0) + Count(s[1..], p)
  }

  /** `rel` holds between every element and every later element. */
  ghost predicate Pairwise<T>(s: seq<T>, rel: (T, T) -> bool) {
    forall i, j :: 0 <= i < j < |s| ==> rel(s[i], s[j])
  }

  /** Filtering splits over concatenation: the kept elements of `a` come
      first, then the kept elements of `b`, so the original order survives. */
  lemma {:induction false} FilterConcat<T(!new)>(a: seq<T>, b: seq<T>, p: T -> bool)
    ensures Filter(a + b, p) == Filter(a, p) + Filter(b, p)
    decreases |a|
  {
    if |a| == 0 {
      assert a + b == b;
    } else {
      assert (a + b)[0] == a[0];
      assert (a + b)[1..] == a[1..] + b;
      FilterConcat(a[1..], b, p);
    }
  }

  /** When no element passes, filtering leaves nothing. */
  lemma FilterDropsAll<T(!new)>(s: seq<T>, p: T -> bool)
    requires forall x :: x in s ==> !p(x)
    ensures Filter(s, p) == []
  {
  }

  /** When every element passes, filtering changes nothing. */
  lemma {:induction false} FilterKeepsAll<T(!new)>(s: seq<T>, p: T -> bool)
    requires forall x :: x in s ==> p(x)
    ensures Filter(s, p) == s
    decreases |s|
  {
    if |s| > 0 {
      assert s[0] in s;
      assert forall x :: x in s[1..] ==> x in s;
      FilterKeepsAll(s[1..], p);
      assert [s[0]] + s[1..] == s;
    }
  }

  /** Filtering twice by the same test is filtering once. */
  lemma FilterIdempotent<T(!new)>(s: seq<T>, p: T -> bool)
    ensures Filter(Filter(s, p), p) == Filter(s, p)
  {
    FilterKeepsAll(Filter(s, p), p);
  }

  /** A relation that holds pairwise in order still holds after filtering. */
  lemma {:induction false} FilterPreservesPairwise<T(!new)>(s: seq<T>, p: T -> bool, rel: (T, T) -> bool)
    requires Pairwise(s, rel)
    ensures Pairwise(Filter(s, p), rel)
    decreases |s|
  {
    if |s| > 0 {
      var tail := s[1..];
      assert Pairwise(tail, rel) by {
        forall i, j | 0 <= i < j < |tail|
          ensures rel(tail[i], tail[j])
        {
          assert tail[i] == s[i + 1] && tail[j] == s[j + 1];
        }
      }
      FilterPreservesPairwise(tail, p, rel);
      if p(s[0]) {
        var r := Filter(s, p);
        var ft := Filter(tail, p);
        assert r == [s[0]] + ft;
        forall i, j | 0 <= i < j < |r|
          ensures rel(r[i], r[j])
        {
          if i == 0 {
            assert r[j] == ft[j - 1];
            assert ft[j - 1] in tail;
            var k :| 0 <= k < |tail| && tail[k] == ft[j - 1];
            assert tail[k] == s[k + 1];
          } else {
            assert r[i] == ft[i - 1] && r[j] == ft[j - 1];
          }
        }
      }
    }
  }

  /** Appending an element that is related to everything before it keeps
      the relation pairwise. */
  lemma PairwiseAppend<T(!new)>(s: seq<T>, x: T, rel: (T, T) -> bool)
    requires Pairwise(s, rel)
    requires forall y :: y in s ==> rel(y, x)
    ensures Pairwise(s + [x], rel)
  {
    var r := s + [x];
    forall i, j | 0 <= i < j < |r|
      ensures rel(r[i], r[j])
    {
      if j == |s| {
        assert r[i] == s[i];
        assert s[i] in s;
      } else {
        assert r[i] == s[i] && r[j] == s[j];
      }
    }
  }

  /** When exactly the element at position `i` fails the test, filtering cuts
      out that one element and keeps the rest in order. */
  lemma FilterRemovesOne<T(!new)>(s: seq<T>, i: nat, p: T -> bool)
    requires i < |s| && !p(s[i])
    requires forall k :: 0 <= k < |s| && k != i ==> p(s[k])
    ensures Filter(s, p) == s[..i] + s[i + 1..]
  {
    var before, here, after := s[..i], [s[i]], s[i + 1..];
    assert s == before + here + after;
    assert Filter(before, p) == before by {
      forall x | x in before
        ensures p(x)
      {
        var k :| 0 <= k < |before| && before[k] == x;
        assert s[k] == x;
      }
      FilterKeepsAll(before, p);
    }
    assert Filter(after, p) == after by {
      forall x | x in after
        ensures p(x)
      {
        var k :| 0 <= k < |after| && after[k] == x;
        assert s[i + 1 + k] == x;
      }
      FilterKeepsAll(after, p);
    }
    FilterConcat(before + here, after, p);
    FilterConcat(before, here, p);
    calc {
      Filter(s, p);
      Filter(before + here + after, p);
      Filter(before + here, p) + Filter(after, p);
      Filter(before, p) + Filter(here, p) + Filter(after, p);
      before + [] + after;
      { assert before + [] == before; }
      before + after;
    }
  }

  /** Replacing one element by a value related to every other element, in the
      right direction, keeps the relation pairwise. */
  lemma PairwiseUpdate<T(!new)>(s: seq<T>, i: nat, x: T, rel: (T, T) -> bool)
    requires Pairwise(s, rel) && i < |s|
    requires forall k :: 0 <= k < i ==> rel(s[k], x)
    requires forall k :: i < k < |s| ==> rel(x, s[k])
    ensures Pairwise(s[i := x], rel)
  {
    var r := s[i := x];
    forall a, b | 0 <= a < b < |r|
      ensures rel(r[a], r[b])
    {
      if a != i && b != i {
        assert r[a] == s[a] && r[b] == s[b];
      }
    }
  }

  /** Counting splits over concatenation. */
  lemma {:induction false} CountConcat<T(!new)>(a: seq<T>, b: seq<T>, p: T -> bool)
    ensures Count(a + b, p) == Count(a, p) + Count(b, p)
    decreases |a|
  {
    if |a| == 0 {
      assert a + b == b;
    } else {
      assert (a + b)[0] == a[0];
      assert (a + b)[1..] == a[1..] + b;
      CountConcat(a[1..], b, p);
    }
  }

  /** A stronger test never counts more elements than a weaker one. */
  lemma {:induction false} CountMonotone<T(!new)>(s: seq<T>, p: T -> bool, q: T -> bool)
    requires forall x :: x in s && p(x) ==> q(x)
    ensures Count(s, p) <= Count(s, q)
    decreases |s|
  {
    if |s| > 0 {
      assert s[0] in s;
      assert forall x :: x in s[1..] ==> x in s;
      CountMonotone(s[1..], p, q);
    }
  }

  /** Two tests that agree on every element count the same. */
  lemma {:induction false} CountCongruent<T(!new)>(s: seq<T>, p: T -> bool, q: T -> bool)
    requires forall x :: x in s ==> (p(x) <==> q(x))
    ensures Count(s, p) == Count(s, q)
    decreases |s|
  {
    if |s| > 0 {
      assert s[0] in s;
      assert forall x :: x in s[1..] ==> x in s;
      CountCongruent(s[1..], p, q);
    }
  }

  /** Counting the elements that pass is the length of the filtered sequence. */
  lemma {:induction false} CountIsFilterLength<T(!new)>(s: seq<T>, p: T -> bool)
    ensures Count(s, p) == |Filter(s, p)|
    decreases |s|
  {
    if |s| > 0 {
      CountIsFilterLength(s[1..], p);
    }
  }
}
