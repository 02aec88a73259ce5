/** Positional digits of a natural number, low digit first, and the sizes that follow from them. */
module Digits {
  function Pow(b: nat, k: nat): nat {
    if k == 0 then 1 else b * Pow(b, k - 1)
  }

  /** The digits of `n` in base `b`, low digit first, without leading zeros; zero has none. */
  function Of(n: nat, b: nat): (ds: seq<nat>)
    requires 2 <= b
    ensures forall d :: d in ds ==> d < b
  {
    if n == 0 then [] else [n % b] + Of(n / b, b)
  }

  /** The number that a digit sequence stands for, low digit first. */
  function Value(ds: seq<nat>, b: nat): nat {
    if ds == [] then 0 else ds[0] + b * Value(ds[1..], b)
  }

  /** The `k` low digits of `n`, padded with zeros. */
  function Fixed(n: nat, b: nat, k: nat): (ds: seq<nat>)
    requires 2 <= b
    ensures |ds| == k && forall d :: d in ds ==> d < b
  {
    if k == 0 then [] else [n % b] + Fixed(n / b, b, k - 1)
  }

  /** Reading the digits back gives the number. */
  lemma {:induction false} ValueOf(n: nat, b: nat)
    requires 2 <= b
    ensures Value(Of(n, b), b) == n
  {
    if n != 0 {
      ValueOf(n / b, b);
      assert Of(n, b)[1..] == Of(n / b, b);
    }
  }

  lemma MulMonotone(x: nat, y: nat, z: nat)
    requires x <= y
    ensures x * z <= y * z
  {
  }

  lemma {:induction false} PowPositive(b: nat, k: nat)
    requires 1 <= b
    ensures 1 <= Pow(b, k)
  {
    if k > 0 {
      PowPositive(b, k - 1);
      MulMonotone(1, b, Pow(b, k - 1));
    }
  }

  lemma DivBelow(n: nat, b: nat, m: nat)
    requires 2 <= b
    ensures n / b < m <==> n < b * m
  {
    var q, r := n / b, n % b;
    assert n == b * q + r;
    if q < m {
      MulMonotone(q + 1, m, b);
    } else {
      MulMonotone(m, q, b);
    }
  }

  /** `n` has at most `k` digits exactly when it is below `b` to the `k`. */
  lemma {:induction false} LengthBound(n: nat, b: nat, k: nat)
    requires 2 <= b
    ensures |Of(n, b)| <= k <==> n < Pow(b, k)
  {
    if n == 0 {
      PowPositive(b, k);
    } else if k > 0 {
      LengthBound(n / b, b, k - 1);
      DivBelow(n, b, Pow(b, k - 1));
    }
  }

  lemma {:induction false} PowAdd(b: nat, j: nat, k: nat)
    ensures Pow(b, j + k) == Pow(b, j) * Pow(b, k)
  {
    if j > 0 {
      PowAdd(b, j - 1, k);
      assert Pow(b, j + k) == b * (Pow(b, j - 1) * Pow(b, k));
    }
  }

  lemma {:induction false} PowMonotone(b: nat, j: nat, k: nat)
    requires 1 <= b && j <= k
    ensures Pow(b, j) <= Pow(b, k)
  {
    if j < k {
      PowMonotone(b, j, k - 1);
      MulMonotone(1, b, Pow(b, k - 1));
    }
  }

  lemma {:induction false} PowMonotoneBase(a: nat, b: nat, k: nat)
    requires a <= b
    ensures Pow(a, k) <= Pow(b, k)
  {
    if k > 0 {
      PowMonotoneBase(a, b, k - 1);
      MulMonotone(a, b, Pow(a, k - 1));
      MulMonotone(Pow(a, k - 1), Pow(b, k - 1), b);
    }
  }

  /** Larger numbers have at least as many digits. */
  lemma LengthMonotone(n: nat, m: nat, b: nat)
    requires 2 <= b && n <= m
    ensures |Of(n, b)| <= |Of(m, b)|
  {
    LengthBound(m, b, |Of(m, b)|);
    LengthBound(n, b, |Of(m, b)|);
  }

  lemma Recompose(n: nat, b: nat, v: nat, q: nat, p: nat)
    requires 2 <= b && n / b == v + q * p && v < p
    ensures n == (n % b + b * v) + q * (b * p)
    ensures n % b + b * v < b * p
  {
    assert n == n % b + b * (v + q * p);
    assert b * (q * p) == q * (b * p);
    MulMonotone(v + 1, p, b);
  }

  lemma {:induction false} FixedQuotient(n: nat, b: nat, k: nat) returns (q: nat)
    requires 2 <= b
    ensures n == Value(Fixed(n, b, k), b) + q * Pow(b, k)
    ensures Value(Fixed(n, b, k), b) < Pow(b, k)
  {
    if k == 0 {
      q := n;
    } else {
      q := FixedQuotient(n / b, b, k - 1);
      var v, p := Value(Fixed(n / b, b, k - 1), b), Pow(b, k - 1);
      assert Fixed(n, b, k)[1..] == Fixed(n / b, b, k - 1);
      Recompose(n, b, v, q, p);
    }
  }

  lemma ModUnique(n: nat, v: nat, q: nat, m: nat)
    requires v < m && n == v + q * m
    ensures n % m == v
  {
    var r, p := n % m, n / m;
    assert n == p * m + r;
    if p < q {
      MulMonotone(p + 1, q, m);
    } else if q < p {
      MulMonotone(q + 1, p, m);
    }
  }

  /** The fixed-width digits stand for `n` modulo `b` to the `k`. */
  lemma {:induction false} ValueFixed(n: nat, b: nat, k: nat)
    requires 2 <= b
    ensures Pow(b, k) > 0
    ensures Value(Fixed(n, b, k), b) == n % Pow(b, k)
  {
    PowPositive(b, k);
    var q := FixedQuotient(n, b, k);
    ModUnique(n, Value(Fixed(n, b, k), b), q, Pow(b, k));
  }

  lemma SameSplit(x: nat, p: nat, y: nat, q: nat, b: nat)
    requires x < b && y < b && x + b * p == y + b * q
    ensures x == y && p == q
  {
    if p < q { MulMonotone(p + 1, q, b); }
    if q < p { MulMonotone(q + 1, p, b); }
  }

  /** Two digit sequences of one length and base that stand for the same number are equal. */
  lemma {:induction false} ValueInjective(xs: seq<nat>, ys: seq<nat>, b: nat)
    requires 2 <= b && |xs| == |ys|
    requires (forall d :: d in xs ==> d < b) && (forall d :: d in ys ==> d < b)
    requires Value(xs, b) == Value(ys, b)
    ensures xs == ys
  {
    if xs != [] {
      var vx, vy := Value(xs[1..], b), Value(ys[1..], b);
      assert xs[0] in xs && ys[0] in ys;
      SameSplit(xs[0], vx, ys[0], vy, b);
      assert forall d :: d in xs[1..] ==> d in xs;
      assert forall d :: d in ys[1..] ==> d in ys;
      ValueInjective(xs[1..], ys[1..], b);
      assert xs == [xs[0]] + xs[1..] && ys == [ys[0]] + ys[1..];
    }
  }
}
