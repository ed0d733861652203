/**
 * Selecting the rows of a table that satisfy a `WHERE` condition, keeping
 * their order: the shape shared by the note queries and the note delete.
 */
module Seqs {

  /** The elements of `s` that satisfy `p`, in their order in `s`. */
  function Filter<T>(p: T -> bool, s: seq<T>): (r: seq<T>)
    ensures |r| <= |s|
  {
    if s == [] then []
    else (if p(s[0]) then [s[0]] else []) + Filter(p, s[1..])
  }

  /** The elements `Filter` keeps are exactly those of `s` that satisfy `p`. */
  lemma {:induction false} FilterMembers<T>(p: T -> bool, s: seq<T>)
    ensures forall x :: x in Filter(p, s) <==> x in s && p(x)
  {
    if s != [] {
      FilterMembers(p, s[1..]);
      assert s == [s[0]] + s[1..];
    }
  }

  /** One step of the filter over a sequence whose first element is `x`. */
  lemma FilterCons<T>(p: T -> bool, x: T, t: seq<T>)
    ensures Filter(p, [x] + t) == (if p(x) then [x] else []) + Filter(p, t)
  {
    assert ([x] + t)[1..] == t;
  }

  /** Filtering a concatenation filters each part. */
  lemma {:induction false} FilterAppend<T>(p: T -> bool, a: seq<T>, b: seq<T>)
    ensures Filter(p, a + b) == Filter(p, a) + Filter(p, b)
  {
    if a == [] {
      assert a + b == b;
    } else {
      assert a + b == [a[0]] + (a[1..] + b);
      assert a == [a[0]] + a[1..];
      FilterCons(p, a[0], a[1..] + b);
      FilterCons(p, a[0], a[1..]);
      FilterAppend(p, a[1..], b);
    }
  }

  /** A condition every element meets removes nothing. */
  lemma {:induction false} FilterAll<T>(p: T -> bool, s: seq<T>)
    requires forall i :: 0 <= i < |s| ==> p(s[i])
    ensures Filter(p, s) == s
  {
    if s != [] {
      FilterAll(p, s[1..]);
    }
  }

  /** Filtering twice by the same condition is filtering once. */
  lemma {:induction false} FilterIdempotent<T>(p: T -> bool, s: seq<T>)
    ensures Filter(p, Filter(p, s)) == Filter(p, s)
  {
    if s != [] {
      var t := s[1..];
      assert s == [s[0]] + t;
      FilterIdempotent(p, t);
      FilterCons(p, s[0], t);
      if p(s[0]) {
        FilterCons(p, s[0], Filter(p, t));
      } else {
        assert Filter(p, s) == Filter(p, t);
      }
    }
  }

  /** Filtering by `q` and then by `p` is filtering by their conjunction `r`. */
  lemma {:induction false} FilterFilter<T>(p: T -> bool, q: T -> bool, r: T -> bool, s: seq<T>)
    requires forall x :: r(x) == (p(x) && q(x))
    ensures Filter(p, Filter(q, s)) == Filter(r, s)
  {
    if s != [] {
      FilterFilter(p, q, r, s[1..]);
      FilterAppend(p, if q(s[0]) then [s[0]] else [], Filter(q, s[1..]));
    }
  }

  /** When `p` fails at position `k` alone, filtering removes exactly that element. */
  lemma {:induction false} FilterAllBut<T>(p: T -> bool, s: seq<T>, k: nat)
    requires k < |s| && !p(s[k])
    requires forall i :: 0 <= i < |s| && i != k ==> p(s[i])
    ensures Filter(p, s) == s[..k] + s[k + 1..]
  {
    if k == 0 {
      FilterAll(p, s[1..]);
    } else {
      FilterAllBut(p, s[1..], k - 1);
      assert s[1..][..k - 1] == s[1..k];
      assert s[1..][k..] == s[k + 1..];
      assert s[..k] == [s[0]] + s[1..k];
    }
  }
}
