/** Shared vocabulary of the model: optional values, the services' error
    taxonomy, and order-preserving sequence helpers used by every list endpoint. */
module Common {

  datatype Option<T> = None | Some(value: T) {
    function GetOr(default: T): T {
      match this
      case Some(v) => v
      case None => default
    }
  }

  /** The three failure kinds a service call can end in: the requested id is
      absent (404), the store accepted a write but answered with no rows (500),
      or any other store exception wrapped by the service (500). */
  datatype Error = NotFound | WriteFailed | Failure

  datatype Result<T> = Ok(value: T) | Err(error: Error)

  /** The elements of `s` that satisfy `p`, in their original order
      (Python's list comprehension with an `if`, JavaScript's `filter`). */
  function Filter<T>(s: seq<T>, p: T -> bool): (r: seq<T>)
    ensures |r| <= |s|
  {
    if s == [] then []
    else Filter(s[..|s| - 1], p) + (if p(s[|s| - 1]) then [s[|s| - 1]] else [])
  }

  /** `Filter` keeps exactly the elements that satisfy the condition: all it
      returns comes from `s` and satisfies `p`, and nothing of `s` that
      satisfies `p` is dropped. */
  lemma {:induction false} FilterMembers<T>(s: seq<T>, p: T -> bool)
    ensures forall i :: 0 <= i < |Filter(s, p)| ==> Filter(s, p)[i] in s && p(Filter(s, p)[i])
    ensures forall i :: 0 <= i < |s| && p(s[i]) ==> s[i] in Filter(s, p)
    ensures (forall i :: 0 <= i < |s| ==> !p(s[i])) ==> Filter(s, p) == []
  {
    if s != [] {
      var init := s[..|s| - 1];
      FilterMembers(init, p);
      forall i | 0 <= i < |s| && p(s[i]) ensures s[i] in Filter(s, p) {
        if i < |s| - 1 {
          assert s[i] == init[i];
        }
      }
      if forall i :: 0 <= i < |s| ==> !p(s[i]) {
        assert forall i :: 0 <= i < |init| ==> !p(init[i]) by {
          forall i | 0 <= i < |init| ensures !p(init[i]) {
            assert init[i] == s[i];
          }
        }
      }
    }
  }

  /** `s` back to front: what `order(..., desc=True)` yields from an ascending list. */
  function Reverse<T>(s: seq<T>): (r: seq<T>)
    ensures |r| == |s|
    ensures forall i :: 0 <= i < |s| ==> r[i] == s[|s| - 1 - i]
  {
    if s == [] then [] else [s[|s| - 1]] + Reverse(s[..|s| - 1])
  }

  /** A property of every element holds of every element of the reversal. */
  lemma ReverseAll<T>(s: seq<T>, P: T -> bool)
    requires forall i :: 0 <= i < |s| ==> P(s[i])
    ensures forall i :: 0 <= i < |Reverse(s)| ==> P(Reverse(s)[i])
  {
    var r := Reverse(s);
    forall i | 0 <= i < |r| ensures P(r[i]) {
      assert r[i] == s[|s| - 1 - i];
    }
  }

  /** What is in a prefix is in the whole. */
  lemma InPrefix<T>(s: seq<T>, n: nat, x: T)
    requires n <= |s| && x in s[..n]
    ensures x in s
  {
    var k :| 0 <= k < n && s[..n][k] == x;
    assert s[k] == x;
  }

  /** Reversing keeps the elements. */
  lemma ReverseMembers<T>(s: seq<T>)
    ensures forall x :: x in Reverse(s) <==> x in s
  {
    var r := Reverse(s);
    forall x | x in s ensures x in r {
      var k :| 0 <= k < |s| && s[k] == x;
      assert r[|s| - 1 - k] == x;
    }
  }

  /** Number of elements of `s` that satisfy `p`. */
  function Count<T>(s: seq<T>, p: T -> bool): (n: nat)
    ensures n <= |s|
  {
    |Filter(s, p)|
  }

  /** A key function strictly increases along `s`. */
  ghost predicate IncreasingBy<T>(s: seq<T>, key: T -> int) {
    forall i, j :: 0 <= i < j < |s| ==> key(s[i]) < key(s[j])
  }

  /** When every element satisfies the condition, `Filter` keeps them all. */
  lemma {:induction false} FilterAll<T>(s: seq<T>, p: T -> bool)
    requires forall i :: 0 <= i < |s| ==> p(s[i])
    ensures Filter(s, p) == s
  {
    if s != [] {
      var init := s[..|s| - 1];
      assert forall i :: 0 <= i < |init| ==> p(init[i]) by {
        forall i | 0 <= i < |init| ensures p(init[i]) {
          assert init[i] == s[i];
        }
      }
      FilterAll(init, p);
      assert s == init + [s[|s| - 1]];
    }
  }

  /** When some element fails the condition, `Filter` returns fewer
      elements than it was given. */
  lemma {:induction false} FilterShorter<T>(s: seq<T>, p: T -> bool, k: nat)
    requires k < |s| && !p(s[k])
    ensures |Filter(s, p)| < |s|
  {
    var init := s[..|s| - 1];
    if k < |s| - 1 {
      assert init[k] == s[k];
      FilterShorter(init, p, k);
    }
  }

  /** Filtering keeps the relative order of what it keeps: a list sorted by
      some key is still sorted by it after `Filter`. */
  lemma {:induction false} FilterKeepsIncreasing<T>(s: seq<T>, p: T -> bool, key: T -> int)
    requires IncreasingBy(s, key)
    ensures IncreasingBy(Filter(s, p), key)
  {
    if s != [] {
      var init := s[..|s| - 1];
      assert IncreasingBy(init, key) by {
        forall i, j | 0 <= i < j < |init| ensures key(init[i]) < key(init[j]) {
          assert init[i] == s[i] && init[j] == s[j];
        }
      }
      FilterKeepsIncreasing(init, p, key);
      FilterMembers(init, p);
      var last := s[|s| - 1];
      forall x | x in Filter(init, p) ensures key(x) < key(last) {
        var k :| 0 <= k < |init| && init[k] == x;
        assert s[k] == x;
      }
    }
  }

  /** Reversing a list sorted ascending by a key sorts it descending. */
  lemma ReverseDecreasing<T>(s: seq<T>, key: T -> int)
    requires IncreasingBy(s, key)
    ensures forall i, j :: 0 <= i < j < |s| ==> key(Reverse(s)[i]) > key(Reverse(s)[j])
  {
  }

  /** `Filter` distributes over concatenation; the loops that build a filtered
      list one element at a time rely on it. */
  lemma {:induction false} FilterAppend<T>(s: seq<T>, x: T, p: T -> bool)
    ensures Filter(s + [x], p) == Filter(s, p) + (if p(x) then [x] else [])
  {
    assert (s + [x])[..|s + [x]| - 1] == s;
  }

  /** `Filter` distributes over any concatenation. */
  lemma {:induction false} FilterConcat<T>(a: seq<T>, b: seq<T>, p: T -> bool)
    ensures Filter(a + b, p) == Filter(a, p) + Filter(b, p)
    decreases |b|
  {
    if b != [] {
      var init := b[..|b| - 1];
      var last := b[|b| - 1];
      assert a + b == (a + init) + [last];
      assert b == init + [last];
      FilterAppend(a + init, last, p);
      FilterAppend(init, last, p);
      FilterConcat(a, init, p);
    } else {
      assert a + b == a;
    }
  }

  /** Filtering twice is filtering once by both conditions. */
  lemma {:induction false} FilterFilter<T>(s: seq<T>, p: T -> bool, q: T -> bool, pq: T -> bool)
    requires forall x :: pq(x) == (p(x) && q(x))
    ensures Filter(Filter(s, p), q) == Filter(s, pq)
  {
    if s != [] {
      var init := s[..|s| - 1];
      var last := s[|s| - 1];
      assert s == init + [last];
      FilterAppend(init, last, p);
      FilterAppend(init, last, pq);
      FilterFilter(init, p, q, pq);
      assert pq(last) == (p(last) && q(last));
      if p(last) {
        FilterAppend(Filter(init, p), last, q);
      } else {
        assert Filter(s, p) == Filter(init, p);
        assert Filter(s, pq) == Filter(init, pq);
      }
    }
  }

  /** Reversing a list does not change how many of its elements satisfy a
      condition. */
  lemma {:induction false} CountReverse<T>(s: seq<T>, p: T -> bool)
    ensures Count(Reverse(s), p) == Count(s, p)
  {
    if s != [] {
      var init := s[..|s| - 1];
      var last := s[|s| - 1];
      var one := if p(last) then [last] else [];
      assert Reverse(s) == [last] + Reverse(init);
      FilterConcat([last], Reverse(init), p);
      FilterAppend([], last, p);
      assert [] + [last] == [last];
      assert Filter([last], p) == one;
      assert s == init + [last];
      FilterAppend(init, last, p);
      CountReverse(init, p);
    }
  }

  /** How many times `x` occurs in `s`. */
  function Occurrences<T(==)>(s: seq<T>, x: T): (n: nat)
    ensures n <= |s|
    ensures n == 0 <==> x !in s
  {
    if s == [] then 0 else Occurrences(s[..|s| - 1], x) + (if s[|s| - 1] == x then 1 else 0)
  }

  /** Sum of an integer-valued measure over a list. */
  function SumOf<T>(s: seq<T>, f: T -> int): int {
    if s == [] then 0 else SumOf(s[..|s| - 1], f) + f(s[|s| - 1])
  }

  lemma {:induction false} SumOfAppend<T>(s: seq<T>, x: T, f: T -> int)
    ensures SumOf(s + [x], f) == SumOf(s, f) + f(x)
  {
    assert (s + [x])[..|s + [x]| - 1] == s;
  }

  /** `part` out of `whole`, in percent. */
  function Percentage(part: nat, whole: nat): (p: real)
    requires part <= whole && whole > 0
    ensures 0.0 <= p <= 100.0
    ensures p * whole as real == part as real * 100.0
    ensures p == 100.0 <==> part == whole
    ensures p == 0.0 <==> part == 0
  {
    assert part as real / whole as real <= 1.0;
    part as real / whole as real * 100.0
  }

  /** The same part of a larger whole is a smaller share. */
  lemma PercentageOfLarger(part: nat, whole: nat)
    requires part <= whole && whole > 0
    ensures Percentage(part, whole + 1) <= Percentage(part, whole)
  {
    var p := Percentage(part, whole);
    var q := Percentage(part, whole + 1);
    var w := whole as real;
    assert q * (w + 1.0) == p * w;
    assert q * (w + 1.0) == q * w + q;
    assert (p - q) * w == q;
    NonnegativeFactor(p - q, w);
  }

  lemma NonnegativeFactor(x: real, w: real)
    requires w > 0.0 && x * w >= 0.0
    ensures x >= 0.0
  {
  }

  /** Where `x` first occurs in `s`. */
  function IndexOf<T(==)>(s: seq<T>, x: T): (i: nat)
    requires x in s
    ensures i < |s| && s[i] == x
    ensures forall j :: 0 <= j < i ==> s[j] != x
  {
    if s[0] == x then 0 else 1 + IndexOf(s[1..], x)
  }

  /** Appending elements does not move the first occurrence of an element
      that is already present. */
  lemma IndexOfPrefix<T>(a: seq<T>, b: seq<T>, x: T)
    requires x in a
    ensures IndexOf(a + b, x) == IndexOf(a, x)
  {
    var i := IndexOf(a, x);
    assert (a + b)[i] == x;
    assert forall j :: 0 <= j < i ==> (a + b)[j] == a[j];
  }

  /** Replacing one element changes a sum by the difference. */
  lemma {:induction false} SumOfUpdate<T>(s: seq<T>, k: nat, x: T, f: T -> int)
    requires k < |s|
    ensures SumOf(s[k := x], f) == SumOf(s, f) - f(s[k]) + f(x)
  {
    var n := |s| - 1;
    var t := s[k := x];
    assert t[..n] == if k < n then s[..n][k := x] else s[..n];
    if k < n {
      SumOfUpdate(s[..n], k, x, f);
    }
  }

  /** The list has no repeated element. */
  ghost predicate Distinct<T>(s: seq<T>) {
    forall i, j :: 0 <= i < j < |s| ==> s[i] != s[j]
  }
}
