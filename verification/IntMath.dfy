/** Integer arithmetic as C++ has it, and the facts about division the proofs share. */
module IntMath {
  function Min(a: int, b: int): int {
    if a < b then a else b
  }

  function Max(a: int, b: int): int {
    if a < b then b else a
  }

  /** C++ integer division, which truncates toward zero. */
  function TruncDiv(a: int, b: int): int
    requires b > 0
  {
    if a >= 0 then a / b else -((-a) / b)
  }

  /** `cute::ceil_div`. */
  function CeilDiv(a: int, b: int): int
    requires b > 0
  {
    TruncDiv(a + b - 1, b)
  }

  lemma MulMono(a: int, b: int, n: int)
    requires a <= b && n >= 0
    ensures a * n <= b * n
  {
  }

  /** `q` is the quotient exactly when the numerator lies in the `q`-th stretch of `b` numbers. */
  lemma QuotientUnique(a: int, b: int, q: int)
    requires b > 0 && q * b <= a < (q + 1) * b
    ensures a / b == q && a % b == a - q * b
  {
    var d := a / b;
    if d < q {
      MulMono(d + 1, q, b);
    } else if d > q {
      MulMono(q + 1, d, b);
    }
  }

  lemma QuotientBounds(a: int, b: int)
    requires b > 0
    ensures (a / b) * b <= a < (a / b + 1) * b
    ensures a >= 0 ==> a / b >= 0
  {
    var d := a / b;
    if a >= 0 && d < 0 {
      MulMono(d + 1, 0, b);
    }
  }

  lemma TruncDivNonPositive(a: int, b: int)
    requires b > 0 && a < b
    ensures TruncDiv(a, b) <= 0
  {
    if a < 0 {
      QuotientBounds(-a, b);
    } else {
      QuotientUnique(a, b, 0);
    }
  }

  /** The number of stretches of `b` that hold `a`. */
  function CeilNat(a: nat, b: nat): (q: nat)
    requires b > 0
    ensures q == (a + b - 1) / b
  {
    QuotientBounds(a + b - 1, b);
    CeilDiv(a, b)
  }

  /** For a positive numerator `CeilDiv` rounds up; otherwise it is at most zero. */
  lemma CeilDivBounds(a: int, b: int)
    requires b > 0
    ensures a > 0 ==> (CeilDiv(a, b) - 1) * b < a <= CeilDiv(a, b) * b && CeilDiv(a, b) >= 1
    ensures a <= 0 ==> CeilDiv(a, b) <= 0
  {
    if a > 0 {
      var q := (a + b - 1) / b;
      QuotientBounds(a + b - 1, b);
      assert (q + 1) * b == q * b + b && (q - 1) * b == q * b - b;
      if q < 1 {
        MulMono(q, 0, b);
      }
    } else {
      TruncDivNonPositive(a + b - 1, b);
    }
  }

  lemma TruncDivBelow(a: int, b: int, n: int)
    requires b > 0 && 0 <= n < TruncDiv(a, b)
    ensures (n + 1) * b <= a
  {
    if a < 0 {
      TruncDivNonPositive(a, b);
    } else {
      QuotientBounds(a, b);
      MulMono(n + 1, a / b, b);
    }
  }

  lemma CeilDivAbove(a: int, b: int, n: int, j: int)
    requires b > 0 && n >= 0 && n * b <= j < a
    ensures n < CeilDiv(a, b)
  {
    CeilDivBounds(a, b);
    if n >= CeilDiv(a, b) {
      MulMono(CeilDiv(a, b), n, b);
    }
  }

  /** A block counted by `CeilDiv`, other than the last, ends at or before `a`. */
  lemma CeilDivBlockEnd(a: int, b: int, n: int)
    requires b > 0 && 0 <= n && n + 1 < CeilDiv(a, b)
    ensures (n + 1) * b < a
  {
    CeilDivBounds(a, b);
    MulMono(n + 1, CeilDiv(a, b) - 1, b);
  }

  /** A key lies in the blocks `[lo, hi)` exactly when its block number does. */
  lemma BlockOfKey(j: int, N: nat, lo: int, hi: int)
    requires N > 0
    ensures lo * N <= j < hi * N <==> lo <= j / N < hi
  {
    var n := j / N;
    QuotientBounds(j, N);
    if n < lo {
      MulMono(n + 1, lo, N);
    } else {
      MulMono(lo, n, N);
    }
    if n < hi {
      MulMono(n + 1, hi, N);
    } else {
      MulMono(hi, n, N);
    }
  }

  lemma DivMod(a: int, b: int)
    requires b > 0
    ensures a == (a / b) * b + a % b
  {
  }

  lemma DistributeAdd(a: int, b: int, n: int)
    ensures (a + b) * n == a * n + b * n
  {
  }

  lemma DistributeSub(a: int, b: int, n: int)
    ensures (a - b) * n == a * n - b * n
  {
  }

  // ----- Divisibility and greatest common divisors

  ghost predicate Multiple(x: int, k: int, g: int) {
    x == k * g
  }

  ghost predicate Divides(g: int, x: int) {
    exists k :: Multiple(x, k, g)
  }

  lemma DividesTimes(g: int, x: int, n: int)
    requires Divides(g, x)
    ensures Divides(g, n * x)
  {
    var k :| Multiple(x, k, g);
    assert Multiple(n * x, n * k, g) by {
      assert n * (k * g) == (n * k) * g;
    }
  }

  lemma DividesSum(g: int, x: int, y: int)
    requires Divides(g, x) && Divides(g, y)
    ensures Divides(g, x + y)
  {
    var k :| Multiple(x, k, g);
    var l :| Multiple(y, l, g);
    DistributeAdd(k, l, g);
    assert Multiple(x + y, k + l, g);
  }

  function Gcd(a: nat, b: nat): (g: nat)
    requires a > 0 || b > 0
    ensures g > 0
    decreases b
  {
    if b == 0 then a else Gcd(b, a % b)
  }

  lemma {:induction false} GcdDivides(a: nat, b: nat)
    requires a > 0 || b > 0
    ensures Divides(Gcd(a, b), a) && Divides(Gcd(a, b), b)
    decreases b
  {
    var g := Gcd(a, b);
    if b == 0 {
      assert Multiple(a, 1, g) && Multiple(b, 0, g);
    } else {
      GcdDivides(b, a % b);
      DividesTimes(g, b, a / b);
      DivMod(a, b);
      DividesSum(g, (a / b) * b, a % b);
    }
  }

  lemma BezoutStep(x: int, y: int, a: int, b: int, q: int)
    ensures x * b + y * (a - q * b) == y * a + (x - y * q) * b
  {
    assert y * (a - q * b) == y * a - (y * q) * b;
  }

  lemma {:induction false} BezoutInt(a: nat, b: nat) returns (x: int, y: int)
    requires a > 0 || b > 0
    ensures x * a + y * b == Gcd(a, b)
    decreases b
  {
    if b == 0 {
      x, y := 1, 0;
    } else {
      var x', y' := BezoutInt(b, a % b);
      x, y := y', x' - y' * (a / b);
      BezoutStep(x', y', a, b, a / b);
    }
  }

  lemma BezoutShift(x: int, y: int, M: int, N: int, k: int)
    ensures (y + M * k) * N - (N * k - x) * M == x * M + y * N
  {
  }

  /** Natural numbers with `u * N - v * M` equal to the greatest common divisor. */
  lemma Bezout(M: nat, N: nat) returns (u: nat, v: nat)
    requires M > 0 && N > 0
    ensures u * N - v * M == Gcd(M, N) && u > 0
  {
    var x, y := BezoutInt(M, N);
    var k := (if x < 0 then -x else x) + (if y < 0 then -y else y) + 1;
    MulMono(1, M, k);
    MulMono(1, N, k);
    u, v := y + M * k, N * k - x;
    BezoutShift(x, y, M, N, k);
  }

  /** Rounding a multiple of `g` up to a multiple of `b`, itself a multiple of `g`, adds at most `b - g`. */
  lemma CeilDivAligned(x: int, b: int, g: int)
    requires b > 0 && g > 0 && x > 0 && Divides(g, x) && Divides(g, b)
    ensures CeilDiv(x, b) * b <= x + b - g
  {
    CeilDivBounds(x, b);
    var q := CeilDiv(x, b);
    DistributeSub(q, 1, b);
    DividesTimes(g, b, 1 - q);
    DistributeSub(1, q, b);
    DividesSum(g, x, (1 - q) * b);
    var k :| Multiple(x + (1 - q) * b, k, g);
    if k <= 0 {
      MulMono(k, 0, g);
    } else {
      MulMono(1, k, g);
    }
  }
}
