/** The arithmetic of the monkey exchange (day-11/src/math.rs): Euclid's gcd, the
    left fold that turns it into an lcm of a list, and the modular facts the
    worry-level reduction rests on. */
module MonkeyMath {

  /** `d` divides `n`. Zero divides only zero. */
  predicate Divides(d: nat, n: nat) {
    if d == 0 then n == 0 else n % d == 0
  }

  // ---------------------------------------------------------------------------
  // Euclidean division facts (Dafny's `/` and `%` agree with unsigned Rust here)
  // ---------------------------------------------------------------------------

  lemma MulDistributes(a: int, b: int, c: int)
    ensures (a + b) * c == a * c + b * c
    ensures (a - b) * c == a * c - b * c
    ensures c * (a + b) == c * a + c * b
    ensures c * (a - b) == c * a - c * b
  {
  }

  lemma MulAtLeast(t: int, d: int)
    requires t >= 1 && d >= 0
    ensures t * d >= d && d * t >= d
  {
  }

  /** Quotient and remainder are unique. */
  lemma ModUnique(x: int, d: int, q: int, r: int)
    requires d > 0 && 0 <= r < d && x == q * d + r
    ensures x % d == r && x / d == q
  {
    var q', r' := x / d, x % d;
    assert x == q' * d + r';
    MulDistributes(q, q', d);
    assert (q - q') * d == r' - r;
    if q > q' {
      MulAtLeast(q - q', d);
    } else if q < q' {
      MulAtLeast(q' - q, d);
      MulDistributes(q', q, d);
    }
  }

  lemma DividesProduct(d: nat, k: nat)
    ensures Divides(d, d * k) && Divides(d, k * d)
  {
    if d > 0 { ModUnique(d * k, d, k, 0); }
  }

  /** A divisor of `n` is a factor of it. */
  lemma DividesFactor(d: nat, n: nat)
    requires d > 0 && Divides(d, n)
    ensures n == d * (n / d) && n / d <= n
    ensures n > 0 ==> d <= n
  {
    var q := n / d;
    assert n == q * d + n % d;
    assert n == q * d;
    if n > 0 {
      assert q >= 1;
      MulAtLeast(q, d);
      MulAtLeast(d, q);
    }
  }

  lemma DividesTransitive(a: nat, b: nat, c: nat)
    requires Divides(a, b) && Divides(b, c)
    ensures Divides(a, c)
  {
    if a > 0 && b > 0 {
      DividesFactor(a, b);
      DividesFactor(b, c);
      var i, j := b / a, c / b;
      assert c == a * (i * j) by {
        assert c == (a * i) * j;
      }
      DividesProduct(a, i * j);
    } else if a > 0 {
      assert c == 0;
      assert c % a == 0;
    }
  }

  /** A common divisor of `x` and `y` divides `q * y + x`. */
  lemma DividesCombination(d: nat, x: nat, y: nat, q: nat)
    requires Divides(d, x) && Divides(d, y)
    ensures Divides(d, q * y + x)
  {
    if d > 0 {
      DividesFactor(d, x);
      DividesFactor(d, y);
      var i, j := x / d, y / d;
      assert q * y + x == d * (q * j + i) by {
        assert q * y == q * (d * j) == d * (q * j);
      }
      DividesProduct(d, q * j + i);
    }
  }

  /** A common divisor of `a` and `b > 0` divides `a % b`. */
  lemma DividesRemainder(d: nat, a: nat, b: nat)
    requires b > 0 && Divides(d, a) && Divides(d, b)
    ensures Divides(d, a % b)
  {
    DividesFactor(d, b);
    if d > 0 {
      DividesFactor(d, a);
      var i, j, q := a / d, b / d, a / b;
      assert a == q * b + a % b;
      var m := i - q * j;
      assert a % b == d * m by {
        assert a % b == a - q * b;
        assert q * b == q * (d * j) == d * (q * j);
        assert a - q * b == d * i - d * (q * j) == d * (i - q * j);
      }
      ModUnique(a % b, d, m, 0);
    }
  }

  // ---------------------------------------------------------------------------
  // gcd (math.rs:1-7)
  // ---------------------------------------------------------------------------

  /** Euclid's algorithm: terminates because `a % b < b` shrinks the second argument. */
  function Gcd(a: nat, b: nat): (g: nat)
    decreases b
    ensures b == 0 ==> g == a
  {
    if b == 0 then a else Gcd(b, a % b)
  }

  /** `Gcd(a, b)` is a common divisor of `a` and `b`. */
  lemma {:induction false} GcdDivides(a: nat, b: nat)
    ensures Divides(Gcd(a, b), a) && Divides(Gcd(a, b), b)
    decreases b
  {
    if b == 0 {
      DividesProduct(a, 1);
      DividesProduct(a, 0);
    } else {
      GcdDivides(b, a % b);
      var g := Gcd(b, a % b);
      assert a == (a / b) * b + a % b;
      DividesCombination(g, a % b, b, a / b);
    }
  }

  /** Every common divisor of `a` and `b` divides `Gcd(a, b)`: it is the greatest one. */
  lemma {:induction false} GcdGreatest(d: nat, a: nat, b: nat)
    requires Divides(d, a) && Divides(d, b)
    ensures Divides(d, Gcd(a, b))
    decreases b
  {
    if b != 0 {
      DividesRemainder(d, a, b);
      GcdGreatest(d, b, a % b);
    }
  }

  /** The gcd is positive as soon as one argument is. */
  lemma {:induction false} GcdPositive(a: nat, b: nat)
    requires a > 0 || b > 0
    ensures Gcd(a, b) > 0
    decreases b
  {
    if b != 0 {
      GcdPositive(b, a % b);
    }
  }

  // ---------------------------------------------------------------------------
  // lcm (math.rs:9-15)
  // ---------------------------------------------------------------------------

  /** One step of the fold: `a * b / gcd(a, b)`, defined unless both are zero
      (the Rust division by `gcd(0, 0) == 0` panics). */
  function LcmStep(a: nat, b: nat): nat
    requires a > 0 || b > 0
  {
    GcdPositive(a, b);
    a * b / Gcd(a, b)
  }

  /** Rearranging `a * b` when `a == g * i` and `b == g * k`. */
  lemma ProductRearranged(a: nat, b: nat, g: nat, i: nat, k: nat)
    requires a == g * i && b == g * k
    ensures a * b == g * (a * k) && a * k == b * i
  {
    calc {
      a * b;
      a * (g * k);
      (a * g) * k;
      (g * a) * k;
      g * (a * k);
    }
    calc {
      a * k;
      (g * i) * k;
      g * (i * k);
      g * (k * i);
      (g * k) * i;
    }
  }

  /** With `g = gcd(a, b)`, the step equals `a * (b / g)` and `b * (a / g)`. */
  lemma LcmStepFactors(a: nat, b: nat)
    requires a > 0 || b > 0
    ensures Gcd(a, b) > 0
    ensures LcmStep(a, b) == a * (b / Gcd(a, b)) == b * (a / Gcd(a, b))
  {
    var g := Gcd(a, b);
    GcdPositive(a, b);
    GcdDivides(a, b);
    DividesFactor(g, a);
    DividesFactor(g, b);
    var i, k := a / g, b / g;
    ProductRearranged(a, b, g, i, k);
    ModUnique(a * b, g, a * k, 0);
  }

  /** `LcmStep(a, b)` is a common multiple of `a` and `b`, and it is zero exactly
      when one of them is. */
  lemma LcmStepCommonMultiple(a: nat, b: nat)
    requires a > 0 || b > 0
    ensures Divides(a, LcmStep(a, b)) && Divides(b, LcmStep(a, b))
    ensures LcmStep(a, b) == 0 <==> a == 0 || b == 0
  {
    LcmStepFactors(a, b);
    var g := Gcd(a, b);
    assert g > 0;
    var i, k := a / g, b / g;
    DividesProduct(a, k);
    DividesProduct(b, i);
    if a > 0 && b > 0 {
      GcdDivides(a, b);
      DividesFactor(g, b);
      assert k >= 1;
      MulAtLeast(k, a);
    }
  }

  /** No two entries are both zero: the fold never divides by `gcd(0, 0)`. */
  predicate AtMostOneZero(numbers: seq<nat>) {
    forall i, j :: 0 <= i < j < |numbers| ==> numbers[i] != 0 || numbers[j] != 0
  }

  /** The value `lcm` computes: the left fold of `LcmStep` over the list. It is
      zero exactly when some entry is. */
  function LcmOf(numbers: seq<nat>): (r: nat)
    requires |numbers| > 0 && AtMostOneZero(numbers)
    ensures r == 0 <==> 0 in numbers
  {
    if |numbers| == 1 then numbers[0]
    else
      var init := numbers[..|numbers| - 1];
      var acc, last := LcmOf(init), numbers[|numbers| - 1];
      assert AtMostOneZero(init);
      assert acc > 0 || last > 0 by {
        if acc == 0 {
          var i :| 0 <= i < |init| && init[i] == 0;
          assert numbers[i] == 0;
        }
      }
      LcmStepCommonMultiple(acc, last);
      assert numbers == init + [last];
      LcmStep(acc, last)
  }

  /** Every entry divides `LcmOf` of the list. */
  lemma {:induction false} LcmOfCommonMultiple(numbers: seq<nat>)
    requires |numbers| > 0 && AtMostOneZero(numbers)
    ensures forall i :: 0 <= i < |numbers| ==> Divides(numbers[i], LcmOf(numbers))
  {
    if |numbers| == 1 {
      DividesProduct(numbers[0], 1);
    } else {
      var init := numbers[..|numbers| - 1];
      var last := numbers[|numbers| - 1];
      assert AtMostOneZero(init);
      LcmOfCommonMultiple(init);
      var acc := LcmOf(init);
      assert acc > 0 || last > 0 by {
        if acc == 0 {
          var i :| 0 <= i < |init| && init[i] == 0;
          assert numbers[i] == 0;
        }
      }
      LcmStepCommonMultiple(acc, last);
      forall i | 0 <= i < |numbers|
        ensures Divides(numbers[i], LcmOf(numbers))
      {
        if i < |numbers| - 1 {
          assert numbers[i] == init[i];
          DividesTransitive(numbers[i], acc, LcmStep(acc, last));
        }
      }
    }
  }

  /** Extending the list by one entry takes one more fold step. */
  lemma LcmOfSnoc(numbers: seq<nat>, i: nat)
    requires 0 < i < |numbers| && AtMostOneZero(numbers)
    ensures AtMostOneZero(numbers[..i]) && AtMostOneZero(numbers[..i + 1])
    ensures LcmOf(numbers[..i]) > 0 || numbers[i] > 0
    ensures LcmOf(numbers[..i + 1]) == LcmStep(LcmOf(numbers[..i]), numbers[i])
  {
    var pre := numbers[..i + 1];
    assert pre[..i] == numbers[..i];
    assert AtMostOneZero(pre);
    assert AtMostOneZero(numbers[..i]);
    if LcmOf(numbers[..i]) == 0 {
      var j :| 0 <= j < i && numbers[..i][j] == 0;
      assert numbers[j] == 0;
    }
  }

  /** `lcm` of math.rs: `numbers[0]` panics on an empty list, and the division panics
      if the accumulator and an entry are both zero, which happens exactly when two
      entries are zero. */
  method Lcm(numbers: seq<nat>) returns (lcm: nat)
    requires |numbers| > 0 && AtMostOneZero(numbers)
    ensures lcm == LcmOf(numbers)
    ensures forall i :: 0 <= i < |numbers| ==> Divides(numbers[i], lcm)
    ensures (forall i :: 0 <= i < |numbers| ==> numbers[i] > 0) ==> lcm > 0
    ensures |numbers| == 1 ==> lcm == numbers[0]
  {
    lcm := numbers[0];
    assert numbers[..1] == [numbers[0]];
    for i := 1 to |numbers|
      invariant lcm == LcmOf(numbers[..i])
    {
      LcmOfSnoc(numbers, i);
      GcdPositive(lcm, numbers[i]);
      lcm := lcm * numbers[i] / Gcd(lcm, numbers[i]);
    }
    assert numbers[..|numbers|] == numbers;
    LcmOfCommonMultiple(numbers);
  }

  // ---------------------------------------------------------------------------
  // Congruences: why reducing worry levels modulo a common multiple is safe
  // ---------------------------------------------------------------------------

  /** `x` and `y` leave the same remainder modulo `m`. */
  predicate Congruent(x: nat, y: nat, m: nat)
    requires m > 0
  {
    x % m == y % m
  }

  /** Adding a multiple of `m` does not change the remainder. */
  lemma ModAddMultiple(k: nat, m: nat, x: nat)
    requires m > 0
    ensures (k * m + x) % m == x % m
  {
    var q := x / m;
    assert x == q * m + x % m;
    MulDistributes(k, q, m);
    ModUnique(k * m + x, m, k + q, x % m);
  }

  /** A value is congruent to its own remainder. */
  lemma CongruentToRemainder(x: nat, m: nat)
    requires m > 0
    ensures Congruent(x % m, x, m)
  {
    ModUnique(x % m, m, 0, x % m);
  }

  /** Congruence modulo `m` implies congruence modulo every divisor of `m`. */
  lemma CongruentModDivisor(x: nat, y: nat, m: nat, d: nat)
    requires m > 0 && d > 0 && Divides(d, m) && Congruent(x, y, m)
    ensures Congruent(x, y, d)
  {
    DividesFactor(d, m);
    var j := m / d;
    forall z: nat | true
      ensures z % d == (z % m) % d
    {
      var q := z / m;
      assert z == q * m + z % m;
      assert q * m == (q * j) * d by {
        assert m == d * j;
        assert q * (d * j) == (q * j) * d;
      }
      ModAddMultiple(q * j, d, z % m);
    }
    assert x % d == (x % m) % d;
    assert y % d == (y % m) % d;
  }

  lemma AddMod(x: nat, y: nat, m: nat)
    requires m > 0
    ensures (x + y) % m == (x % m + y % m) % m
  {
    var qx, qy := x / m, y / m;
    assert x == qx * m + x % m;
    assert y == qy * m + y % m;
    MulDistributes(qx, qy, m);
    assert x + y == (qx + qy) * m + (x % m + y % m);
    ModAddMultiple(qx + qy, m, x % m + y % m);
  }

  /** Remainders of a sum depend only on the remainders of the summands. */
  lemma AddCongruent(a: nat, b: nat, a': nat, b': nat, m: nat)
    requires m > 0 && Congruent(a, a', m) && Congruent(b, b', m)
    ensures Congruent(a + b, a' + b', m)
  {
    AddMod(a, b, m);
    AddMod(a', b', m);
  }

  /** `x * y` written out with `x = qx * m + rx` and `y = qy * m + ry`. */
  lemma ProductExpanded(qx: nat, rx: nat, qy: nat, ry: nat, m: nat)
    ensures (qx * m + rx) * (qy * m + ry) == (qx * qy * m + qx * ry + rx * qy) * m + rx * ry
  {
    calc {
      (qx * m + rx) * (qy * m + ry);
      (qx * m) * (qy * m) + (qx * m) * ry + rx * (qy * m) + rx * ry;
      { assert (qx * m) * (qy * m) == (qx * qy * m) * m;
        assert (qx * m) * ry == (qx * ry) * m;
        assert rx * (qy * m) == (rx * qy) * m; }
      (qx * qy * m) * m + (qx * ry) * m + (rx * qy) * m + rx * ry;
      { MulDistributes(qx * qy * m, qx * ry, m);
        MulDistributes(qx * qy * m + qx * ry, rx * qy, m); }
      (qx * qy * m + qx * ry + rx * qy) * m + rx * ry;
    }
  }

  lemma MulMod(x: nat, y: nat, m: nat)
    requires m > 0
    ensures (x * y) % m == ((x % m) * (y % m)) % m
  {
    var qx, qy, rx, ry := x / m, y / m, x % m, y % m;
    assert x == qx * m + rx;
    assert y == qy * m + ry;
    ProductExpanded(qx, rx, qy, ry, m);
    assert x * y == (qx * qy * m + qx * ry + rx * qy) * m + rx * ry;
    ModAddMultiple(qx * qy * m + qx * ry + rx * qy, m, rx * ry);
  }

  /** Remainders of a product depend only on the remainders of the factors. */
  lemma MulCongruent(a: nat, b: nat, a': nat, b': nat, m: nat)
    requires m > 0 && Congruent(a, a', m) && Congruent(b, b', m)
    ensures Congruent(a * b, a' * b', m)
  {
    MulMod(a, b, m);
    MulMod(a', b', m);
  }
}
