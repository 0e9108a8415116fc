/** Facts about remainders. */
module Arithmetic {
  lemma PositiveMultiple(n: nat, d: int)
    ensures d > 0 ==> n * d >= n
    ensures d >= 0 ==> n * d >= 0
  {
    if d > 0 {
      assert n * d == n + n * (d - 1) && n * (d - 1) >= 0;
    }
  }

  lemma ModUnique(a: int, n: nat, q: int, r: nat)
    requires r < n && a == n * q + r
    ensures a % n == r
  {
    var p := a / n;
    assert a == n * p + a % n;
    assert n * (p - q) == n * p - n * q && n * (q - p) == n * q - n * p;
    PositiveMultiple(n, p - q);
    PositiveMultiple(n, q - p);
  }

  lemma ModThenAdd(a: nat, b: nat, n: nat)
    requires n > 0
    ensures (a % n + b) % n == (a + b) % n
  {
    var t := a % n + b;
    var q, r := t / n, t % n;
    assert t == n * q + r;
    assert a + b == n * (a / n + q) + r;
    ModUnique(a + b, n, a / n + q, r);
  }

  /** Two places less than n apart are different. */
  lemma ModApart(a: nat, d: nat, n: nat)
    requires 0 < d < n
    ensures a % n != (a + d) % n
  {
    ModThenAdd(a, d, n);
    var r := a % n;
    if r + d < n {
      ModUnique(r + d, n, 0, r + d);
    } else {
      ModUnique(r + d, n, 1, r + d - n);
    }
  }

  /** The latest multiple of the step not after `at`. */
  function Trunc(step: int, at: int): (start: int)
    requires step > 0
    ensures start <= at < start + step && start % step == 0
  {
    MultipleIsAligned(step, at / step);
    assert step * (at / step) == at - at % step;
    at - at % step
  }

  lemma MultipleIsAligned(step: int, q: int)
    requires step > 0
    ensures (step * q) % step == 0
  {
    ModUnique(step * q, step, q, 0);
  }

  /** A multiple of the step is at most `at` exactly when it is at most its truncation. */
  lemma AlignedBelow(step: int, start: int, at: int)
    requires step > 0 && start % step == 0
    ensures start <= at <==> start <= Trunc(step, at)
  {
    var t := Trunc(step, at);
    assert start == step * (start / step) && t == step * (t / step);
    var d := start / step - t / step;
    assert start - t == step * d && t - start == step * -d;
    PositiveMultiple(step, d);
    PositiveMultiple(step, -d);
  }

  /** Different multiples of the step are at least one step apart. */
  lemma AlignedGap(step: int, a: int, b: int)
    requires step > 0 && a % step == 0 && b % step == 0 && a < b
    ensures a + step <= b
  {
    var d := b / step - a / step;
    assert a == step * (a / step) && b == step * (b / step);
    assert b - a == step * d && a - b == step * -d;
    PositiveMultiple(step, d);
    PositiveMultiple(step, -d);
  }
}
