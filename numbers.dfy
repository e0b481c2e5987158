/**
 * The arithmetic the monitor borrows from Python: `statistics.mean`, `min`,
 * `max`, `list[-n:]` and appending to a `deque(maxlen=n)`, on exact reals.
 */
module Numbers {

  function Sum(s: seq<real>): real
  {
    if s == [] then 0.0 else Sum(s[..|s| - 1]) + s[|s| - 1]
  }

  /** `statistics.mean(s)`. */
  function Mean(s: seq<real>): real
    requires |s| > 0
  {
    Sum(s) / |s| as real
  }

  /** `min(s)`: an element of `s` no larger than any other. */
  function MinOf(s: seq<real>): (m: real)
    requires |s| > 0
    ensures m in s
    ensures forall x :: x in s ==> m <= x
  {
    if |s| == 1 then s[0]
    else
      var rest := MinOf(s[1..]);
      assert forall x :: x in s ==> x == s[0] || x in s[1..];
      if s[0] <= rest then s[0] else rest
  }

  /** `max(s)`: an element of `s` no smaller than any other. */
  function MaxOf(s: seq<real>): (m: real)
    requires |s| > 0
    ensures m in s
    ensures forall x :: x in s ==> x <= m
  {
    if |s| == 1 then s[0]
    else
      var rest := MaxOf(s[1..]);
      assert forall x :: x in s ==> x == s[0] || x in s[1..];
      if s[0] >= rest then s[0] else rest
  }

  /** A sum of `n` values between `lo` and `hi` lies between `n * lo` and `n * hi`. */
  lemma {:induction false} SumBetween(s: seq<real>, lo: real, hi: real)
    requires forall x :: x in s ==> lo <= x <= hi
    ensures |s| as real * lo <= Sum(s) <= |s| as real * hi
  {
    if s != [] {
      var init := s[..|s| - 1];
      assert forall x :: x in init ==> x in s;
      assert s[|s| - 1] in s;
      SumBetween(init, lo, hi);
    }
  }

  /** Dividing by a positive count keeps the bounds: from `n * lo <= a <= n * hi` follows `lo <= a / n <= hi`. */
  lemma QuotientBetween(a: real, n: real, lo: real, hi: real)
    requires n > 0.0 && n * lo <= a <= n * hi
    ensures lo <= a / n <= hi
  {
    var q := a / n;
    assert q * n == a;
  }

  /** The mean of values between `lo` and `hi` lies between them. */
  lemma MeanBetween(s: seq<real>, lo: real, hi: real)
    requires |s| > 0
    requires forall x :: x in s ==> lo <= x <= hi
    ensures lo <= Mean(s) <= hi
  {
    SumBetween(s, lo, hi);
    QuotientBetween(Sum(s), |s| as real, lo, hi);
  }

  /** `min(s) <= mean(s) <= max(s)`. */
  lemma MeanBetweenMinAndMax(s: seq<real>)
    requires |s| > 0
    ensures MinOf(s) <= Mean(s) <= MaxOf(s)
  {
    MeanBetween(s, MinOf(s), MaxOf(s));
  }

  /** The last `min(n, |s|)` values, which is `list(s)[-n:]` for `n > 0`. */
  function LastN(s: seq<real>, n: nat): (r: seq<real>)
    ensures |r| == if |s| < n then |s| else n
    ensures forall i :: 0 <= i < |r| ==> r[i] == s[|s| - |r| + i]
  {
    if |s| <= n then s else s[|s| - n..]
  }

  /** The last values are values of the whole sequence. */
  lemma LastNMember(s: seq<real>, n: nat, x: real)
    requires x in LastN(s, n)
    ensures x in s
  {
    var r := LastN(s, n);
    var i :| 0 <= i < |r| && r[i] == x;
    var j := |s| - |r| + i;
    assert 0 <= j < |s| && s[j] == x;
  }

  /**
   * `d.append(x)` on a `deque(maxlen=capacity)`: the value goes at the back,
   * and the oldest values drop out so that at most `capacity` remain.
   */
  function PushBounded<T>(s: seq<T>, x: T, capacity: nat): (r: seq<T>)
    requires 0 < capacity
    ensures |r| == if |s| < capacity then |s| + 1 else capacity
    ensures r[|r| - 1] == x
    ensures |s| < capacity ==> r == s + [x]
    ensures forall i :: 0 <= i < |r| - 1 ==> r[i] == s[|s| + 1 - |r| + i]
  {
    if |s| < capacity then s + [x] else (s + [x])[|s| + 1 - capacity..]
  }

  /** Whatever a bounded append keeps was either there before or is the new value. */
  lemma PushBoundedMember<T>(s: seq<T>, x: T, capacity: nat, y: T)
    requires 0 < capacity && y in PushBounded(s, x, capacity)
    ensures y in s || y == x
  {
    var r := PushBounded(s, x, capacity);
    var i :| 0 <= i < |r| && r[i] == y;
    if i < |r| - 1 {
      assert s[|s| + 1 - |r| + i] == y;
    }
  }
}
