/** 64-bit division built from the 64-by-32 bit divide instruction (lib/arithmetic.c).
    Machine integers are modelled by mathematical integers; every place where the C
    code may wrap or truncate writes the reduction out. */
module Arithmetic {
  import opened Powers
  import opened Bytes

  const TWO31: int := 0x8000_0000
  const TWO32: int := 0x1_0000_0000
  const TWO63: int := 0x8000_0000_0000_0000
  const TWO64: int := 0x1_0000_0000_0000_0000

  type uint64 = x: int | 0 <= x < 0x1_0000_0000_0000_0000
  type int32 = x: int | -0x8000_0000 <= x < 0x8000_0000
  type int64 = x: int | -0x8000_0000_0000_0000 <= x < 0x8000_0000_0000_0000

  /** Outcome of a computation that may raise the divide-error exception. */
  datatype Trap<+T> = Value(v: T) | DivideError

  /** q is the floor of n / d. */
  ghost predicate IsQuotient(n: int, d: int, q: int)
  {
    q * d <= n < q * d + d
  }

  // ----- multiplication and quotients

  lemma MulMono(a: int, b: int, c: int)
    requires a <= b && c >= 0
    ensures a * c <= b * c
  {
  }

  lemma MulCancel(a: int, b: int, c: int)
    requires a * c < b * c && c > 0
    ensures a < b
  {
    if b <= a {
      MulMono(b, a, c);
    }
  }

  lemma QuotientUnique(n: int, d: int, q: int, t: int)
    requires d > 0 && IsQuotient(n, d, q) && IsQuotient(n, d, t)
    ensures q == t
  {
    assert (q + 1) * d == q * d + d && (t + 1) * d == t * d + d;
    MulCancel(q, t + 1, d);
    MulCancel(t, q + 1, d);
  }

  lemma DivIsQuotient(n: int, d: int)
    requires d > 0
    ensures IsQuotient(n, d, n / d)
  {
  }

  /** Successive floors compose: [[n/b]/c] = [n/(bc)]. */
  lemma NestedQuotient(n: int, b: int, c: int, x: int, y: int)
    requires b > 0 && c > 0
    requires IsQuotient(n, b, x) && IsQuotient(x, c, y)
    ensures IsQuotient(n, b * c, y)
  {
    MulMono(y * c, x, b);
    MulMono(x + 1, y * c + c, b);
    assert (x + 1) * b == x * b + b;
    assert y * (b * c) == (y * c) * b;
    assert (y * c + c) * b == (y * c) * b + b * c;
  }

  lemma QuotientRange(n: int, d: int, q: int)
    requires n >= 0 && d > 0 && IsQuotient(n, d, q)
    ensures 0 <= q <= n
    ensures d >= 2 && n > 0 ==> q < n
  {
    MulCancel(-1, q, d);
    MulMono(1, d, q);
    if d >= 2 { MulMono(2, d, q); }
  }

  // ----- powers of two

  lemma Pow2Add(a: nat, b: nat)
    ensures Pow2(a + b) == Pow2(a) * Pow2(b)
  {
    if b != 0 {
      Pow2Add(a, b - 1);
      calc {
        Pow2(a + b);
        2 * Pow2(a + (b - 1));
        2 * (Pow2(a) * Pow2(b - 1));
        Pow2(a) * (2 * Pow2(b - 1));
      }
    }
  }

  lemma Pow2Constants()
    ensures Pow2(1) == 2 && Pow2(2) == 4 && Pow2(4) == 16 && Pow2(8) == 256
    ensures Pow2(16) == 65536 && Pow2(31) == TWO31 && Pow2(32) == TWO32
  {
    assert Pow2(1) == 2 && Pow2(2) == 4;
    Pow2Add(2, 2);
    Pow2Add(4, 4);
    Pow2Add(8, 8);
    Pow2Add(16, 16);
    assert Pow2(32) == 2 * Pow2(31);
  }

  lemma Pow2Split(s: nat)
    requires s <= 32
    ensures Pow2(s) * Pow2(32 - s) == TWO32
  {
    Pow2Add(s, 32 - s);
    Pow2Constants();
  }

  lemma ShiftStep(x: int, n: nat, k: nat)
    ensures x * Pow2(n + k) == (x * Pow2(n)) * Pow2(k)
  {
    Pow2Add(n, k);
  }

  // ----- machine instructions

  /** DIVL: a 32-bit quotient, or a divide error when it does not fit (or d is 0). */
  method Divl(n: uint64, d: uint32) returns (r: Trap<uint32>)
    ensures r.Value? <==> d != 0 && n < TWO32 * d
    ensures r.Value? ==> IsQuotient(n, d, r.v)
  {
    if d == 0 {
      return DivideError;
    }
    var q := n / d;
    DivIsQuotient(n, d);
    QuotientRange(n, d, q);
    if q < TWO32 {
      MulMono(q + 1, TWO32, d);
      assert (q + 1) * d == q * d + d;
      r := Value(q);
    } else {
      MulMono(TWO32, q, d);
      r := DivideError;
    }
  }

  /** The 32-bit operators / and %. */
  method DivRem32(n: uint32, d: uint32) returns (q: uint32, r: uint32)
    requires d != 0
    ensures n == q * d + r && 0 <= r < d
  {
    DivIsQuotient(n, d);
    QuotientRange(n, d, n / d);
    q, r := n / d, n % d;
  }

  method ShiftRight(x: uint32, k: nat) returns (r: uint32)
    ensures IsQuotient(x, Pow2(k), r)
  {
    DivIsQuotient(x, Pow2(k));
    QuotientRange(x, Pow2(k), x / Pow2(k));
    r := x / Pow2(k);
  }

  // ----- nlz

  lemma ShiftInRange(x: int, low: int, limit: int, k: int, b: int)
    requires low < x <= limit && k >= 1 && (limit + 1) * k == b && (low + 1) * k == limit + 1
    ensures limit < x * k < b
  {
    MulMono(x, limit, k);
    MulMono(low + 1, x, k);
    assert (limit + 1) * k == limit * k + k;
  }

  /** One conditional step of nlz: if the top k bits of x are clear, shift them out. */
  method NlzStep(ghost x0: uint32, x: uint32, n: nat, k: nat, limit: uint32, ghost low: int)
    returns (x': uint32, n': nat)
    requires x == x0 * Pow2(n)
    requires (limit + 1) * Pow2(k) == TWO32
    requires low < x && (low + 1) * Pow2(k) == limit + 1
    ensures x' == x0 * Pow2(n') && limit < x'
    ensures n <= n' <= n + k
  {
    x', n' := x, n;
    if x <= limit {
      ShiftStep(x0, n, k);
      ShiftInRange(x, low, limit, Pow2(k), TWO32);
      var shifted := x * Pow2(k);
      x' := shifted % TWO32;
      n' := n + k;
    }
  }

  /** Counts leading zero bits: the result is the shift that normalises x. */
  method Nlz(x0: uint32) returns (n: nat)
    requires x0 != 0
    ensures n <= 31 && TWO31 <= x0 * Pow2(n) < TWO32
  {
    Pow2Constants();
    var x;
    x, n := NlzStep(x0, x0, 0, 16, 0x0000FFFF, 0);
    x, n := NlzStep(x0, x, n, 8, 0x00FFFFFF, 0x0000FFFF);
    x, n := NlzStep(x0, x, n, 4, 0x0FFFFFFF, 0x00FFFFFF);
    x, n := NlzStep(x0, x, n, 2, 0x3FFFFFFF, 0x0FFFFFFF);
    x, n := NlzStep(x0, x, n, 1, 0x7FFFFFFF, 0x3FFFFFFF);
  }

  // ----- unsigned division, narrow divisor

  /** Long division: the quotient of the high word, and of the low word with the carry. */
  lemma FoldQuotient(n1: int, n0: int, d: int, q1: int, r1: int, lo: int, b: int)
    requires n1 == q1 * d + r1 && IsQuotient(b * r1 + n0, d, lo)
    ensures IsQuotient(b * n1 + n0, d, lo + b * q1)
  {
    assert (lo + b * q1) * d == lo * d + b * (q1 * d);
    assert b * n1 == b * (q1 * d) + b * r1;
  }

  /** Folding the high word into the dividend of one DIVL, which cannot trap. */
  method UDivNarrow(n: uint64, d: uint32) returns (r: Trap<uint64>)
    ensures d == 0 <==> r == DivideError
    ensures d != 0 ==> IsQuotient(n, d, r.v)
  {
    if d == 0 {
      return DivideError;   // n1 % d0 is itself a 32-bit divide instruction
    }
    var n1, n0 := n / TWO32, n % TWO32;
    var q1, r1 := DivRem32(n1, d);
    assert TWO32 * r1 + n0 < TWO32 * d;
    var lo := Divl(TWO32 * r1 + n0, d);
    var q := lo.v + TWO32 * q1;
    FoldQuotient(n1, n0, d, q1, r1, lo.v, TWO32);
    QuotientRange(n, d, q);
    r := Value(q % TWO64);
  }

  // ----- unsigned division, wide divisor

  /** A shift that keeps the high half in range keeps the whole divisor in range. */
  lemma ShiftFits(d: int, d1: int, p: int, m: int, b: int)
    requires p > 0 && m > 0 && b > 0 && p * m == b
    requires d < d1 * b + b && d1 * p < b
    ensures d * p < b * b
  {
    MulCancel(d1, m, p);
    MulMono(d1 + 1, m, b);
    assert (d1 + 1) * b == d1 * b + b;
    MulMono(d + 1, m * b, p);
    assert (d + 1) * p == d * p + p;
    assert (m * b) * p == b * (p * m);
  }

  lemma ProductLower(d: int, d1: int, p: int, b: int)
    requires d1 * b <= d && p > 0
    ensures (d1 * p) * b <= d * p
  {
    MulMono(d1 * b, d, p);
    assert (d1 * b) * p == (d1 * p) * b;
  }

  /** A common factor cancels: [dp/(pm)] = [d/m]. */
  lemma CancelQuotient(d: int, p: int, m: int, b: int, v: int)
    requires p > 0 && m > 0 && p * m == b && IsQuotient(d * p, b, v)
    ensures IsQuotient(d, m, v)
  {
    assert (v * m) * p == v * b;
    assert (v * m - 1) * p == v * b - p;
    assert (v * m + m) * p == v * b + b;
    MulCancel(v * m - 1, d, p);
    MulCancel(d, v * m + m, p);
  }

  /** Normalising the divisor: the shift does not overflow, and the high word v it
      leaves is d without its low 32-s bits. */
  lemma Normalised(d: uint64, s: nat, v: int)
    requires s <= 31 && TWO31 <= (d / TWO32) * Pow2(s) < TWO32
    requires IsQuotient(d * Pow2(s), TWO32, v)
    ensures TWO31 <= v && IsQuotient(d, Pow2(32 - s), v)
  {
    Pow2Split(s);
    CancelQuotient(d, Pow2(s), Pow2(32 - s), TWO32, v);
    ProductLower(d, d / TWO32, Pow2(s), TWO32);
  }

  lemma NormalFits(d: uint64, s: nat)
    requires s <= 31 && (d / TWO32) * Pow2(s) < TWO32
    ensures d * Pow2(s) < TWO64
  {
    Pow2Split(s);
    ShiftFits(d, d / TWO32, Pow2(s), Pow2(32 - s), TWO32);
  }

  /** x << k for a 64-bit x. */
  method ShiftLeft(x: uint64, k: nat) returns (r: uint64)
    ensures x * Pow2(k) < TWO64 ==> r == x * Pow2(k)
  {
    var y := x * Pow2(k);
    r := y % TWO64;
  }

  /** x >> 32 for a 64-bit x. */
  function HighWord(x: uint64): (v: uint32)
    ensures IsQuotient(x, TWO32, v)
  {
    x / TWO32
  }

  /** Dividing by less cannot give less; and if the divisor shrinks by little enough,
      the quotient grows by at most one. */
  lemma CloseDivisor(n: int, d: int, dp: int, t: int, q: int)
    requires n >= 0 && 0 < dp <= d
    requires IsQuotient(n, d, t) && IsQuotient(n, dp, q)
    requires (t + 1) * (d - dp) <= dp
    ensures q == t || q == t + 1
  {
    QuotientRange(n, d, t);
    MulMono(dp, d, t);
    assert (q + 1) * dp == q * dp + dp;
    MulCancel(t, q + 1, dp);
    assert (t + 1) * d == t * d + d;
    assert (t + 1) * d == (t + 1) * dp + (t + 1) * (d - dp);
    assert (t + 2) * dp == (t + 1) * dp + dp;
    MulCancel(q, t + 2, dp);
  }

  /** A wide divisor with s leading zeros leaves a quotient below 2^(s+1). */
  lemma QuotientBound(n: uint64, d: uint64, s: nat, t: int)
    requires d > 0 && TWO31 <= (d / TWO32) * Pow2(s) && IsQuotient(n, d, t)
    ensures t + 1 <= 2 * Pow2(s)
  {
    ProductLower(d, d / TWO32, Pow2(s), TWO32);
    assert d * (2 * Pow2(s)) == 2 * (d * Pow2(s));
    assert d * (2 * Pow2(s)) == (2 * Pow2(s)) * d;
    MulCancel(t, 2 * Pow2(s), d);
  }

  lemma LargeModulus(s: nat)
    requires s <= 31
    ensures TWO31 * Pow2(32 - s) + 2 * Pow2(s) >= 2 * TWO32
  {
    Pow2Constants();
    if s == 31 {
      assert Pow2(32 - s) == 2;
    } else {
      Pow2Add(30 - s, 2);
      assert Pow2(32 - s) >= 4;
    }
  }

  lemma ErrorBound(t: nat, e: nat, p: nat, m: nat)
    requires t <= 2 * p && e < m && p * m == TWO32
    ensures t * e <= 2 * TWO32 - 2 * p
  {
    MulMono(t, 2 * p, e);
    MulMono(e, m - 1, 2 * p);
    assert e * (2 * p) == (2 * p) * e;
    assert (m - 1) * (2 * p) == 2 * (p * m) - 2 * p;
  }

  /** Dropping the low 32-s bits of the divisor shrinks it little enough. */
  lemma TruncationBound(n: uint64, d: uint64, s: nat, v: int, t: int)
    requires s <= 31 && d > 0 && TWO31 <= (d / TWO32) * Pow2(s)
    requires TWO31 <= v && IsQuotient(d, Pow2(32 - s), v) && IsQuotient(n, d, t)
    ensures var dp := v * Pow2(32 - s); 0 < dp <= d && (t + 1) * (d - dp) <= dp
  {
    Pow2Split(s);
    QuotientBound(n, d, s, t);
    QuotientRange(n, d, t);
    MulMono(TWO31, v, Pow2(32 - s));
    ErrorBound(t + 1, d - v * Pow2(32 - s), Pow2(s), Pow2(32 - s));
    LargeModulus(s);
  }

  /** The estimate divl (n >> 1, v) >> (31 - s) is the true quotient t or one more. */
  lemma WideEstimate(n: int, half: int, d: int, v: int, h: int, est: int, q: int, t: int)
    requires n >= 0 && h > 0 && v > 0 && half == n / 2
    requires IsQuotient(half, v, est) && IsQuotient(est, h, q) && IsQuotient(n, d, t)
    requires 0 < v * (2 * h) <= d && (t + 1) * (d - v * (2 * h)) <= v * (2 * h)
    ensures q == t || q == t + 1
  {
    NestedQuotient(half, v, h, est, q);
    HalfQuotient(n, half, v * h, q);
    assert v * (2 * h) == 2 * (v * h);
    CloseDivisor(n, d, 2 * (v * h), t, q);
  }

  lemma HalfQuotient(n: int, half: int, k: int, q: int)
    requires half == n / 2 && IsQuotient(half, k, q)
    ensures IsQuotient(n, 2 * k, q)
  {
    assert q * (2 * k) == 2 * (q * k);
  }

  /** divl (n >> 1, (d << s) >> 32) >> (31 - s): it does not trap and is off by at most one. */
  method WideQuotient(n: uint64, d: uint64, ghost t: int) returns (q: uint32)
    requires d >= TWO32 && IsQuotient(n, d, t)
    ensures q == t || q == t + 1
  {
    var s := Nlz(d / TWO32);
    var v := NormalisedHigh(d, s);
    TruncationBound(n, d, s, v, t);
    var half := n / 2;
    assert half < TWO32 * v;
    var est := Divl(half, v);
    q := ShiftRight(est.v, 31 - s);
    assert Pow2(32 - s) == 2 * Pow2(31 - s);
    WideEstimate(n, half, d, v, Pow2(31 - s), est.v, q, t);
  }

  /** (d << s) >> 32 */
  method NormalisedHigh(d: uint64, s: nat) returns (v: uint32)
    requires s <= 31 && TWO31 <= (d / TWO32) * Pow2(s) < TWO32
    ensures TWO31 <= v && IsQuotient(d, Pow2(32 - s), v)
  {
    NormalFits(d, s);
    var shifted := ShiftLeft(d, s);
    v := HighWord(shifted);
    Normalised(d, s, v);
  }

  /** The final correction picks the true quotient out of an estimate that may be one too big. */
  lemma Correction(n: uint64, d: uint64, q: int, t: int)
    requires n >= d > 0 && IsQuotient(n, d, t) && (q == t || q == t + 1)
    ensures 1 <= q && t <= n && 0 <= (q - 1) * d <= n
    ensures n - (q - 1) * d < d <==> q == t + 1
  {
    QuotientRange(n, d, t);
    assert (t + 1) * d == t * d + d;
    MulCancel(0, t, d) by { MulCancel(1, t + 1, d); }
    assert t * d == (t - 1) * d + d;
    MulMono(0, t - 1, d);
  }

  method UDivWide(n: uint64, d: uint64, ghost t: int) returns (r: uint64)
    requires n >= d >= TWO32 && IsQuotient(n, d, t)
    ensures r == t
  {
    var q := WideQuotient(n, d, t);
    Correction(n, d, q, t);
    var less := (q - 1) % TWO64;
    var product := less * d;
    assert product == (q - 1) * d;
    var rest := (n - product % TWO64) % TWO64;
    assert rest == n - product;
    r := if rest < d then less else q;
  }

  /** udiv64: exactly floor(n / d), trapping only when d is 0. */
  method UDiv64(n: uint64, d: uint64) returns (r: Trap<uint64>)
    ensures d == 0 <==> r == DivideError
    ensures d != 0 ==> r == Value(n / d)
  {
    ghost var t := if d == 0 then 0 else n / d;
    if d != 0 { DivIsQuotient(n, d); }
    if d / TWO32 == 0 {
      r := UDivNarrow(n, d % TWO32);
      if d != 0 { QuotientUnique(n, d, r.v, t); }
    } else if n < d {
      QuotientUnique(n, d, 0, t);
      r := Value(0);
    } else {
      var q := UDivWide(n, d, t);
      r := Value(q);
    }
  }

  /** umod64 keeps only the low 32 bits: it is the remainder exactly when that fits. */
  method UMod64(n: uint64, d: uint64) returns (r: Trap<uint32>)
    ensures d == 0 <==> r == DivideError
    ensures d != 0 ==> r.v == n % d % TWO32
    ensures d != 0 ==> (r.v == n % d <==> n % d < TWO32)
  {
    var q := UDiv64(n, d);
    if q.DivideError? {
      r := DivideError;
    } else {
      assert n % d == n - d * (n / d);
      r := Value((n - d * q.v) % TWO32);
    }
  }

  // ----- signed division

  function Abs(x: int): (r: nat)
    ensures r == x || r == -x
  {
    if x >= 0 then x else -x
  }

  /** Division truncating toward zero, defined from the magnitudes. */
  function TruncDiv(n: int, d: int): (q: int)
    requires d != 0
  {
    if (n < 0) == (d < 0) then Abs(n) / Abs(d) else -(Abs(n) / Abs(d))
  }

  /** The defining property: the remainder is smaller than the divisor and takes the dividend's sign. */
  lemma TruncDivCharacterised(n: int, d: int)
    requires d != 0
    ensures var r := n - d * TruncDiv(n, d);
            && (if n >= 0 then r >= 0 else r <= 0)
            && Abs(r) < Abs(d)
  {
    DivIsQuotient(Abs(n), Abs(d));
    var q := Abs(n) / Abs(d);
    SignedProduct(d, q);
    assert Abs(d) * q == q * Abs(d);
  }

  lemma SignedProduct(d: int, q: int)
    ensures d * q == if d >= 0 then Abs(d) * q else -(Abs(d) * q)
    ensures d * (-q) == -(d * q)
  {
  }

  /** Conversion to int64_t: the representative of x modulo 2^64. */
  function ToInt64(x: int): (r: int64)
    ensures (r - x) % TWO64 == 0
  {
    var m := x % TWO64;
    if m < TWO63 then m else m - TWO64
  }

  /** Conversion to int32_t: the representative of x modulo 2^32. */
  function ToInt32(x: int): (r: int32)
    ensures (r - x) % TWO32 == 0
  {
    var m := x % TWO32;
    if m < TWO31 then m else m - TWO32
  }

  /** x >= 0 ? (uint64_t) x : -(uint64_t) x */
  function Magnitude(x: int64): (r: uint64)
    ensures r == Abs(x)
  {
    if x >= 0 then x else (TWO64 - x % TWO64) % TWO64
  }

  /** same ? (int64_t) q : -(int64_t) q */
  function ApplySign(q: uint64, same: bool): (r: int64)
    ensures q < TWO63 || (q == TWO63 && !same) ==> r == if same then q else -(q as int)
    ensures q == TWO63 && same ==> r == -TWO63
  {
    if same then ToInt64(q) else ToInt64(0 - ToInt64(q) as int)
  }

  /** Only a dividend of INT64_MIN and a divisor of 1 or -1 reach a quotient of 2^63. */
  lemma QuotientFits(n: int64, d: int64)
    requires d != 0
    ensures 0 <= Abs(n) / Abs(d) <= TWO63
    ensures Abs(n) / Abs(d) == TWO63 <==> n == -TWO63 && (d == 1 || d == -1)
  {
    DivIsQuotient(Abs(n), Abs(d));
    QuotientRange(Abs(n), Abs(d), Abs(n) / Abs(d));
  }

  /** sdiv64 truncates toward zero, except that INT64_MIN / -1 wraps to INT64_MIN. */
  method SDiv64(n: int64, d: int64) returns (r: Trap<int64>)
    ensures d == 0 <==> r == DivideError
    ensures d != 0 ==> (r.v == TruncDiv(n, d) <==> !(n == -TWO63 && d == -1))
    ensures n == -TWO63 && d == -1 ==> r.v == -TWO63
  {
    var nAbs, dAbs := Magnitude(n), Magnitude(d);
    var q := UDiv64(nAbs, dAbs);
    if q.DivideError? {
      r := DivideError;
    } else {
      QuotientFits(n, d);
      r := Value(ApplySign(q.v, (n < 0) == (d < 0)));
    }
  }

  /** Even where sdiv64 wraps, the 64-bit remainder it leaves is the true one. */
  lemma WrappedRemainder(n: int64, d: int64, q: int64, t: int)
    requires q == t || (n == -TWO63 && d == -1 && q == -TWO63 && t == TWO63)
    requires -TWO63 <= n - d * t < TWO63
    ensures ToInt64(n - d * q) == n - d * t
  {
    if q != t {
      assert n - d * q == -TWO64;
    }
  }

  /** smod64 keeps 32 bits: it is the truncating remainder exactly when that fits an int. */
  method SMod64(n: int64, d: int64) returns (r: Trap<int32>)
    ensures d == 0 <==> r == DivideError
    ensures d != 0 ==> var m := n - d * TruncDiv(n, d); (r.v == m <==> -TWO31 <= m < TWO31)
  {
    var q := SDiv64(n, d);
    if q.DivideError? {
      r := DivideError;
    } else {
      TruncDivCharacterised(n, d);
      ghost var t := TruncDiv(n, d);
      WrappedRemainder(n, d, q.v, t);
      r := Value(ToInt32(ToInt64(n - d * q.v)));
    }
  }
}
