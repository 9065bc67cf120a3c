/**
 * Stride sampling: the `frame_count % frame_skip == 0` gate used both when
 * extracting video frames for a panorama and when choosing which live frames
 * go through detection.
 */
module Sampling {

  function Abs(k: int): nat
  {
    if k < 0 then -k else k
  }

  /**
   * The elements of `s` whose 0-based position `i` satisfies `i % k == 0`,
   * in their original order. Defined one element at a time, as a reader that
   * counts the frames it decodes sees them.
   */
  function Sampled<T>(s: seq<T>, k: int): seq<T>
    requires k != 0
  {
    if s == [] then []
    else Sampled(s[..|s| - 1], k) + (if (|s| - 1) % k == 0 then [s[|s| - 1]] else [])
  }

  lemma MulMonotone(x: int, y: int, d: nat)
    requires x <= y
    ensures x * d <= y * d
  {
    assert y * d == x * d + (y - x) * d;
  }

  /** Reading one more element keeps it exactly when its position is divisible by `k`. */
  lemma SampledStep<T>(s: seq<T>, k: int, i: int)
    requires k != 0 && 0 <= i < |s|
    ensures Sampled(s[..i + 1], k) == Sampled(s[..i], k) + (if i % k == 0 then [s[i]] else [])
  {
    assert s[..i + 1][..i] == s[..i];
  }

  /** Euclidean division is determined by its bounds. */
  lemma DivUnique(a: int, d: nat, q: int)
    requires d > 0 && q * d <= a < q * d + d
    ensures a / d == q && a % d == a - q * d
  {
    var p := a / d;
    assert a == p * d + a % d;
    if p > q {
      MulMonotone(q + 1, p, d);
      assert false;
    } else if p < q {
      MulMonotone(p + 1, q, d);
      assert false;
    }
  }

  /** A remainder is zero for a divisor exactly when it is zero for the divisor's magnitude. */
  lemma ModAbs(i: int, k: int)
    requires k != 0
    ensures (i % k == 0) == (i % Abs(k) == 0)
  {
    if k < 0 {
      var q := i / k;
      assert i == q * k + i % k;
      var p := i / Abs(k);
      assert i == p * Abs(k) + i % Abs(k);
      if i % k == 0 {
        DivUnique(i, Abs(k), -q);
      }
      if i % Abs(k) == 0 {
        assert i == (-p) * k;
        var r := i / k;
        assert (r + p) * k == -(i % k);
      }
    }
  }

  /** The number kept from the first m + 1 elements, given the number kept from the first m. */
  lemma CeilStep(m: nat, d: nat)
    requires d > 0
    ensures (m + d) / d == (m + d - 1) / d + (if m % d == 0 then 1 else 0)
  {
    var q := m / d;
    DivUnique(m, d, q);
    assert (q + 1) * d == q * d + d;
    assert (q + 2) * d == q * d + d + d;
    if m % d == 0 {
      DivUnique(m + d - 1, d, q);
      DivUnique(m + d, d, q + 1);
    } else {
      DivUnique(m + d - 1, d, q + 1);
      DivUnique(m + d, d, q + 1);
    }
  }

  /** A position divisible by `k` is |k| times the number kept before it. */
  lemma LastKept(m: nat, k: int)
    requires k != 0 && m % k == 0
    ensures (m + Abs(k) - 1) / Abs(k) * Abs(k) == m
  {
    var d := Abs(k);
    ModAbs(m, k);
    var q := m / d;
    DivUnique(m, d, q);
    DivUnique(m + d - 1, d, q);
  }

  /** With stride `k`, ceil(|s| / |k|) elements are kept. */
  lemma {:induction false} SampledLength<T>(s: seq<T>, k: int)
    requires k != 0
    ensures |Sampled(s, k)| == (|s| + Abs(k) - 1) / Abs(k)
  {
    var d := Abs(k);
    if s == [] {
      DivUnique(d - 1, d, 0);
    } else {
      var m := |s| - 1;
      assert Sampled(s, k) == Sampled(s[..m], k) + (if m % k == 0 then [s[m]] else []);
      SampledLength(s[..m], k);
      ModAbs(m, k);
      CeilStep(m, d);
    }
  }

  /** The j-th kept element is the element at position j * |k|, unmodified. */
  lemma {:induction false} SampledAt<T>(s: seq<T>, k: int, j: int)
    requires k != 0 && 0 <= j < |Sampled(s, k)|
    ensures j * Abs(k) < |s| && Sampled(s, k)[j] == s[j * Abs(k)]
  {
    var m := |s| - 1;
    var d := Abs(k);
    assert Sampled(s, k) == Sampled(s[..m], k) + (if m % k == 0 then [s[m]] else []);
    if j < |Sampled(s[..m], k)| {
      SampledAt(s[..m], k, j);
    } else {
      assert m % k == 0;
      SampledLength(s[..m], k);
      LastKept(m, k);
    }
  }

  /** A position below n that is a multiple of d lies below d * ceil(n / d). */
  lemma KeptBound(i: nat, n: nat, d: nat)
    requires d > 0 && i < n && i % d == 0
    ensures i / d < (n + d - 1) / d && i / d * d == i
  {
    var q := i / d;
    DivUnique(i, d, q);
    var c := (n + d - 1) / d;
    DivUnique(n + d - 1, d, c);
    if c <= q {
      MulMonotone(c, q, d);
      assert false;
    }
  }

  /** Every position divisible by `k` is kept, as the (i / |k|)-th element. */
  lemma KeptAt<T>(s: seq<T>, k: int, i: int)
    requires k != 0 && 0 <= i < |s| && i % k == 0
    ensures i / Abs(k) < |Sampled(s, k)| && Sampled(s, k)[i / Abs(k)] == s[i]
  {
    ModAbs(i, k);
    KeptBound(i, |s|, Abs(k));
    SampledLength(s, k);
    SampledAt(s, k, i / Abs(k));
  }
}
