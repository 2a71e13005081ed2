/**
 Java `long` arithmetic over unbounded integers (src/deps/java/long.ts).

 A JavaScript bigint is an `int`; its bitwise operators act on the infinite two's
 complement expansion, so they are defined by recursion on halves. The helpers of
 long.ts then re-impose the 64-bit width with `ToLong`.
 */
module JavaLong {

  const TWO_31: int := 0x8000_0000
  const TWO_32: int := 0x1_0000_0000
  const TWO_63: int := 0x8000_0000_0000_0000
  const TWO_64: int := 0x1_0000_0000_0000_0000

  function Pow2(k: nat): (p: nat)
    ensures p >= 1
  {
    if k == 0 then 1 else 2 * Pow2(k - 1)
  }

  predicate IsLong(v: int) {
    -TWO_63 <= v < TWO_63
  }

  // BigInt.asIntN(64, value)
  function ToLong(value: int): (r: int)
    ensures IsLong(r)
  {
    var u := value % TWO_64;
    if u < TWO_63 then u else u - TWO_64
  }

  // BigInt.asUintN(64, value)
  function ToUnsignedLong(value: int): int {
    value % TWO_64
  }

  // The low six bits of a shift distance: two's complement `& 63`, also for negative distances.
  function ShiftDistance(distance: int): nat {
    distance % 64
  }

  function ShiftLeft(value: int, distance: int): int {
    ToLong(value * Pow2(ShiftDistance(distance)))
  }

  function UnsignedShiftRight(value: int, distance: int): int {
    ToLong(ToUnsignedLong(value) / Pow2(ShiftDistance(distance)))
  }

  // ----- bitwise operators of bigint -----

  function Magnitude(a: int): nat {
    if a < 0 then -a - 1 else a
  }

  // No further bit differs from the sign: the expansion is all zeros or all ones.
  predicate Uniform(a: int) {
    a == 0 || a == -1
  }

  function BitOr(a: int, b: int): int
    decreases Magnitude(a) + Magnitude(b)
  {
    if Uniform(a) && Uniform(b) then
      (if a == -1 || b == -1 then -1 else 0)
    else
      2 * BitOr(a / 2, b / 2) + (if a % 2 == 1 || b % 2 == 1 then 1 else 0)
  }

  function BitAnd(a: int, b: int): int
    decreases Magnitude(a) + Magnitude(b)
  {
    if Uniform(a) && Uniform(b) then
      (if a == -1 && b == -1 then -1 else 0)
    else
      2 * BitAnd(a / 2, b / 2) + (if a % 2 == 1 && b % 2 == 1 then 1 else 0)
  }

  function Not(value: int): int {
    ToLong(-value - 1)
  }

  function Or(left: int, right: int): int {
    ToLong(BitOr(left, right))
  }

  function And(left: int, right: int): int {
    ToLong(BitAnd(left, right))
  }

  function Add(left: int, right: int): int {
    ToLong(left + right)
  }

  function Subtract(left: int, right: int): int {
    ToLong(left - right)
  }

  // ----- division, powers of two -----

  lemma DivModUnique(x: int, d: int, q: int, r: int)
    requires d > 0 && 0 <= r < d && x == q * d + r
    ensures x / d == q && x % d == r
  {
    var q', r' := x / d, x % d;
    assert x == q' * d + r';
    assert (q - q') * d == r' - r;
    if q > q' {
      assert (q - q') * d >= d by { MulMonotone(1, q - q', d); }
    } else if q < q' {
      assert (q' - q) * d >= d by { MulMonotone(1, q' - q, d); }
    }
  }

  lemma MulMonotone(a: int, b: int, c: int)
    requires a <= b && c >= 0
    ensures a * c <= b * c
  {
  }

  lemma Pow2Add(a: nat, b: nat)
    ensures Pow2(a + b) == Pow2(a) * Pow2(b)
  {
    if a != 0 {
      Pow2Add(a - 1, b);
      assert Pow2(a + b) == 2 * Pow2(a + b - 1);
    }
  }

  lemma Pow2Monotone(a: nat, b: nat)
    requires a <= b
    ensures Pow2(a) <= Pow2(b)
    ensures a < b ==> 2 * Pow2(a) <= Pow2(b)
  {
    if a < b {
      Pow2Monotone(a, b - 1);
    }
  }

  lemma Pow2Values()
    ensures Pow2(5) == 32 && Pow2(30) == 0x4000_0000 && Pow2(31) == TWO_31 && Pow2(32) == TWO_32
    ensures Pow2(63) == TWO_63 && Pow2(64) == TWO_64
  {
    assert Pow2(4) == 16;
    assert Pow2(8) == 256;
    Pow2Add(8, 8);
    Pow2Add(16, 16);
    Pow2Add(32, 32);
  }

  // ToLong is the only signed 64-bit value in its residue class.
  lemma ToLongUnique(value: int, r: int, wraps: int)
    requires IsLong(r) && value == r + wraps * TWO_64
    ensures ToLong(value) == r
  {
    if r >= 0 {
      DivModUnique(value, TWO_64, wraps, r);
    } else {
      assert value == (wraps - 1) * TWO_64 + (r + TWO_64);
      DivModUnique(value, TWO_64, wraps - 1, r + TWO_64);
    }
  }

  lemma ToLongIdentity(value: int)
    requires IsLong(value)
    ensures ToLong(value) == value
  {
    ToLongUnique(value, value, 0);
  }

  lemma ToLongWraps(v: int) returns (wraps: int)
    ensures ToLong(v) == v + wraps * TWO_64
  {
    wraps := if v % TWO_64 < TWO_63 then -(v / TWO_64) else -(v / TWO_64) - 1;
  }

  // A multiple of 2^k stays a multiple of 2^k when it wraps.
  lemma ToLongScaled(d: int, k: nat) returns (y: int, wraps: int)
    requires k <= 64
    ensures ToLong(d * Pow2(k)) == y * Pow2(k)
    ensures y == d + wraps * Pow2(64 - k)
  {
    wraps := ToLongWraps(d * Pow2(k));
    Pow2Split(64 - k);
    y := d + wraps * Pow2(64 - k);
    Distribute(d, wraps, Pow2(64 - k), Pow2(k));
  }

  lemma Distribute(d: int, w: int, p: int, m: int)
    ensures (d + w * p) * m == d * m + w * (p * m)
  {
    assert (w * p) * m == w * (p * m);
  }

  // x mod (p * m), for a multiple of m
  lemma ScaledMod(x: int, p: int, m: int)
    requires p > 0 && m > 0
    ensures p * m > 0 && (x * m) % (p * m) == (x % p) * m
  {
    var q, r := x / p, x % p;
    assert x == q * p + r;
    assert x * m == q * (p * m) + r * m;
    assert 0 <= r * m < p * m by {
      MulMonotone(r + 1, p, m);
      MulMonotone(0, r, m);
      assert (r + 1) * m == r * m + m;
    }
    DivModUnique(x * m, p * m, q, r * m);
  }

  lemma ModOfSum(x: int, wraps: int, p: int, m: int)
    requires p > 0 && m > 0
    ensures (x + wraps * (p * m)) % p == x % p
  {
    var q, r := x / p, x % p;
    assert x + wraps * (p * m) == (q + wraps * m) * p + r by {
      assert (wraps * m) * p == wraps * (p * m);
    }
    DivModUnique(x + wraps * (p * m), p, q + wraps * m, r);
  }

  // Equal remainders less than one modulus apart are equal numbers.
  lemma CongruentClose(d: int, d': int, span: int)
    requires span > 0 && d % span == d' % span && -span < d - d' < span
    ensures d == d'
  {
    var q := d / span - d' / span;
    Distribute(d / span, -1, d' / span, span);
    assert d - d' == q * span;
    if q >= 1 {
      MulMonotone(1, q, span);
    } else if q <= -1 {
      MulMonotone(q, -1, span);
    }
  }

  lemma ModWraps(d: int, wraps: int, span: int)
    requires span > 0
    ensures (d + wraps * span) % span == d % span
    ensures 0 <= d % span < span
    ensures 0 <= d < span ==> d % span == d
  {
    ModOfSum(d, wraps, span, 1);
  }

  // ----- bit identities for symbolic widths -----

  lemma {:induction false} OrZero(a: int)
    ensures BitOr(a, 0) == a
    decreases Magnitude(a)
  {
    if !Uniform(a) {
      OrZero(a / 2);
    }
  }

  // OR of disjoint fields is their sum.
  lemma {:induction false} OrDisjoint(a: int, b: int, k: nat)
    requires 0 <= b < Pow2(k)
    ensures BitOr(a * Pow2(k), b) == a * Pow2(k) + b
    decreases k
  {
    if k == 0 {
      OrZero(a);
    } else {
      var p := Pow2(k - 1);
      var high := a * p;
      assert a * Pow2(k) == 2 * high;
      OrDisjoint(a, b / 2, k - 1);
      assert b == 2 * (b / 2) + b % 2;
    }
  }

  lemma HalfMod(a: int, p: int)
    requires p > 0
    ensures a % (2 * p) == 2 * ((a / 2) % p) + a % 2
  {
    var q, r := (a / 2) / p, (a / 2) % p;
    assert a / 2 == q * p + r;
    assert 2 * (q * p) == q * (2 * p);
    DivModUnique(a, 2 * p, q, 2 * r + a % 2);
  }

  // AND with a mask of k ones is the remainder modulo 2^k, also for negative numbers.
  lemma {:induction false} AndMask(a: int, k: nat)
    ensures BitAnd(a, Pow2(k) - 1) == a % Pow2(k)
    decreases k
  {
    hide BitAnd;
    if k == 0 {
      AndZero(a);
    } else {
      var p := Pow2(k - 1);
      AndMask(a / 2, k - 1);
      HalfMod(a, p);
      AndOdd(a, p);
    }
  }

  lemma AndOdd(a: int, p: int)
    requires p >= 1
    ensures BitAnd(a, 2 * p - 1) == 2 * BitAnd(a / 2, p - 1) + a % 2
  {
    assert (2 * p - 1) / 2 == p - 1 && (2 * p - 1) % 2 == 1;
  }

  lemma {:induction false} AndZero(a: int)
    ensures BitAnd(a, 0) == 0
    decreases Magnitude(a)
  {
    if !Uniform(a) {
      AndZero(a / 2);
    }
  }

  // ----- what the operators mean, bit by bit -----

  // Bit i of the infinite two's complement expansion.
  function Bit(a: int, i: nat): int {
    (a / Pow2(i)) % 2
  }

  lemma BitHalf(a: int, i: nat)
    ensures Bit(a, 0) == a % 2
    ensures Bit(a, i + 1) == Bit(a / 2, i)
  {
    assert Pow2(0) == 1;
    QuotientOfHalf(a, Pow2(i));
  }

  lemma QuotientOfHalf(a: int, p: int)
    requires p > 0
    ensures a / (2 * p) == (a / 2) / p
  {
    var q, r := (a / 2) / p, (a / 2) % p;
    assert a / 2 == q * p + r;
    assert 2 * (q * p) == q * (2 * p);
    DivModUnique(a, 2 * p, q, 2 * r + a % 2);
  }

  lemma UniformBit(a: int, i: nat)
    requires Uniform(a)
    ensures Bit(a, i) == -a
  {
    var p: int := Pow2(i);
    if a == 0 {
      DivModUnique(0, p, 0, 0);
    } else {
      DivModUnique(-1, p, -1, p - 1);
    }
  }

  /** Every bit of an OR is the OR of the bits, for negative numbers too. */
  lemma {:induction false} OrBits(a: int, b: int, i: nat)
    ensures Bit(BitOr(a, b), i) == 1 <==> Bit(a, i) == 1 || Bit(b, i) == 1
    decreases i
  {
    hide Bit;
    if Uniform(a) && Uniform(b) {
      UniformBit(a, i);
      UniformBit(b, i);
      UniformBit(BitOr(a, b), i);
    } else {
      var j: nat := if i == 0 then 0 else i - 1;
      BitHalf(a, j);
      BitHalf(b, j);
      BitHalf(BitOr(a, b), j);
      if i > 0 {
        OrBits(a / 2, b / 2, j);
      }
    }
  }

  /** Every bit of an AND is the AND of the bits, for negative numbers too. */
  lemma {:induction false} AndBits(a: int, b: int, i: nat)
    ensures Bit(BitAnd(a, b), i) == 1 <==> Bit(a, i) == 1 && Bit(b, i) == 1
    decreases i
  {
    hide Bit;
    if Uniform(a) && Uniform(b) {
      UniformBit(a, i);
      UniformBit(b, i);
      UniformBit(BitAnd(a, b), i);
    } else {
      var j: nat := if i == 0 then 0 else i - 1;
      BitHalf(a, j);
      BitHalf(b, j);
      BitHalf(BitAnd(a, b), j);
      if i > 0 {
        AndBits(a / 2, b / 2, j);
      }
    }
  }

  /** NOT, sum and difference are exact up to whole words, and stay within 64 bits. */
  lemma LongOperators(left: int, right: int) returns (n: int, s: int, d: int)
    ensures IsLong(Not(left)) && IsLong(Add(left, right)) && IsLong(Subtract(left, right))
    ensures Not(left) == -left - 1 + n * TWO_64
    ensures Add(left, right) == left + right + s * TWO_64
    ensures Subtract(left, right) == left - right + d * TWO_64
  {
    n := ToLongWraps(-left - 1);
    s := ToLongWraps(left + right);
    d := ToLongWraps(left - right);
  }

  // Shifting left and then logically right by the same distance keeps the low field.
  lemma LowField(u: int, k: nat)
    requires 1 <= k <= 63
    ensures UnsignedShiftRight(ShiftLeft(u, 64 - k), 64 - k) == u % Pow2(k)
  {
    MiddleField(u, k, 0);
  }

  // Shift out everything above k + low bits, then shift the low part away.
  lemma MiddleField(u: int, k: nat, low: nat)
    requires 1 <= k && k + low <= 63
    ensures UnsignedShiftRight(ShiftLeft(u, 64 - k - low), 64 - k)
            == (u % Pow2(k + low)) / Pow2(low)
    ensures low == 0 ==> (u % Pow2(k + low)) / Pow2(low) == u % Pow2(k)
  {
    var up := 64 - k - low;
    UnfoldShifts(u, up, 64 - k);
    Pow2Split(k + low);
    Pow2Add(low, up);
    KeptField(u, Pow2(k + low), Pow2(low), Pow2(up));
    Pow2Add(k, low);
    QuotientBound(u % Pow2(k + low), Pow2(k), Pow2(low));
    Pow2Split(k);
    FieldIsLong((u % Pow2(k + low)) / Pow2(low), k);
  }

  lemma UnfoldShifts(u: int, a: nat, b: nat)
    requires a < 64 && b < 64
    ensures UnsignedShiftRight(ShiftLeft(u, a), b) == ToLong(((u * Pow2(a)) % TWO_64) / Pow2(b))
  {
    assert ShiftDistance(a) == a && ShiftDistance(b) == b;
    UnsignedOfLong(u * Pow2(a));
  }

  lemma Pow2Split(a: nat)
    requires a <= 64
    ensures Pow2(a) * Pow2(64 - a) == TWO_64
  {
    Pow2Values();
    Pow2Add(a, 64 - a);
  }

  lemma Pow2Bound(k: nat)
    requires k <= 63
    ensures Pow2(k) <= TWO_63
    ensures k <= 62 ==> 2 * Pow2(k) <= TWO_63
  {
    Pow2Values();
    Pow2Monotone(k, 63);
  }

  lemma FieldIsLong(q: int, k: nat)
    requires k <= 63 && 0 <= q < Pow2(k)
    ensures ToLong(q) == q
  {
    Pow2Bound(k);
    ToLongIdentity(q);
  }

  lemma KeptField(u: int, p: int, l: int, m: int)
    requires p > 0 && l > 0 && m > 0
    ensures p * m > 0 && l * m > 0
    ensures ((u * m) % (p * m)) / (l * m) == (u % p) / l
  {
    ScaledMod(u, p, m);
    var kept := u % p;
    var q, r := kept / l, kept % l;
    Distribute(r, q, l, m);
    MulMonotone(r + 1, l, m);
    MulMonotone(0, r, m);
    Distribute(r, 1, 1, m);
    MulMonotone(1, l, m);
    DivModUnique(kept * m, l * m, q, r * m);
  }

  lemma QuotientBound(x: int, a: int, b: int)
    requires a > 0 && b > 0 && 0 <= x < a * b
    ensures 0 <= x / b < a
  {
    var q := x / b;
    if q >= a {
      MulMonotone(a, q, b);
    } else if q < 0 {
      MulMonotone(q, -1, b);
    }
  }

  lemma UnsignedOfLong(v: int)
    ensures ToUnsignedLong(ToLong(v)) == v % TWO_64
  {
  }

  // ----- 32-bit integers: Integer.bitCount and the int shift -----

  // value | 0
  function ToInt32(value: int): (r: int)
    ensures -TWO_31 <= r < TWO_31
  {
    var u := value % TWO_32;
    if u < TWO_31 then u else u - TWO_32
  }

  // `<<` on JavaScript numbers: both the operand and the result are 32-bit, the distance is masked to 5 bits.
  function ShiftLeftInt32(value: int, distance: int): int {
    ToInt32(ToInt32(value) * Pow2(distance % 32))
  }

  function PopCount(n: nat): (c: nat)
    ensures n > 0 ==> c > 0
  {
    if n == 0 then 0 else n % 2 + PopCount(n / 2)
  }

  ghost predicate IsPowerOfTwo(n: int) {
    exists k: nat :: n == Pow2(k)
  }

  // The loop sees the low 32 bits only.
  method BitCount(value: int) returns (count: nat)
    ensures count == PopCount(value % TWO_32)
  {
    var bits := ToInt32(value);
    count := 0;
    Int32Bits(value);
    while bits != 0
      invariant -TWO_31 <= bits < TWO_32
      invariant count + PopCount(ToUnsigned32(bits)) == PopCount(value % TWO_32)
      decreases ToUnsigned32(bits)
    {
      LowBit(bits);
      count := count + BitAnd(bits, 1);
      bits := ToUnsigned32(bits) / 2;
    }
  }

  // The reinterpretation `>>>` starts with.
  function ToUnsigned32(bits: int): nat {
    bits % TWO_32
  }

  lemma Int32Bits(value: int)
    ensures ToUnsigned32(ToInt32(value)) == value % TWO_32
    ensures ToUnsigned32(0) == 0
  {
  }

  lemma MaskOfOne(bits: int)
    ensures BitAnd(bits, 1) == bits % 2
  {
    AndMask(bits, 1);
    assert Pow2(1) == 2;
  }

  // One step of the loop: the low bit is counted, the unsigned shift keeps the others.
  lemma LowBit(bits: int)
    requires -TWO_31 <= bits < TWO_32 && bits != 0
    ensures BitAnd(bits, 1) == bits % 2
    ensures var u := ToUnsigned32(bits); u > 0 && u / 2 < u < TWO_32 && ToUnsigned32(u / 2) == u / 2
    ensures PopCount(ToUnsigned32(bits)) == bits % 2 + PopCount(ToUnsigned32(bits) / 2)
  {
    hide BitAnd, PopCount, ToUnsigned32;
    MaskOfOne(bits);
    UnsignedBits(bits);
    PopCountHalf(ToUnsigned32(bits));
  }

  lemma UnsignedBits(bits: int)
    requires -TWO_31 <= bits < TWO_32 && bits != 0
    ensures var u := ToUnsigned32(bits);
            u > 0 && u / 2 < u < TWO_32 && ToUnsigned32(u / 2) == u / 2 && u % 2 == bits % 2
  {
    var u := ToUnsigned32(bits);
    assert u == bits || u == bits + TWO_32;
  }

  lemma PopCountHalf(n: nat)
    requires n > 0
    ensures PopCount(n) == n % 2 + PopCount(n / 2)
  {
  }

  lemma {:induction false} PopCountOne(n: nat)
    ensures PopCount(n) == 1 <==> IsPowerOfTwo(n)
  {
    if n == 0 {
      forall k: nat ensures n != Pow2(k) { }
    } else if n % 2 == 1 {
      if n == 1 {
        assert 1 == Pow2(0);
      }
      forall k: nat ensures n == Pow2(k) ==> n == 1 { }
    } else {
      PopCountOne(n / 2);
      if k: nat :| n / 2 == Pow2(k) {
        assert n == Pow2(k + 1);
      }
      if k: nat :| n == Pow2(k) {
        assert k > 0 && n / 2 == Pow2(k - 1);
      }
    }
  }

  // Up to 2^30 the int shift is multiplication; beyond, the result is not positive.
  lemma ShiftedPowerOfTwo(s: nat, distance: int)
    ensures var r := ShiftLeftInt32(Pow2(s), distance);
            if s + distance % 32 <= 30 then r == Pow2(s + distance % 32) else r <= 0
  {
    var b: nat := distance % 32;
    Int32Power(s);
    if s < 31 {
      assert Pow2(s) * Pow2(b) == Pow2(s + b) by { Pow2Add(s, b); }
      Int32Power(s + b);
    } else if s == 31 {
      Int32Negative(b);
    }
  }

  lemma Int32Negative(b: nat)
    ensures ToInt32(-TWO_31 * Pow2(b)) <= 0
  {
    if b > 0 {
      var half: int := Pow2(b - 1);
      DivModUnique(-TWO_31 * Pow2(b), TWO_32, -half, 0);
    }
  }

  lemma Int32Power(e: nat)
    ensures ToInt32(Pow2(e)) == if e < 31 then Pow2(e) else if e == 31 then -TWO_31 else 0
  {
    hide Pow2, ToInt32;
    if e <= 31 {
      Int32Bounds(e);
      Int32Small(Pow2(e));
    } else {
      Int32Multiple(e - 32);
    }
  }

  lemma Int32Small(v: int)
    requires 0 <= v <= TWO_31
    ensures ToInt32(v) == if v < TWO_31 then v else -TWO_31
  {
  }

  lemma Int32Multiple(k: nat)
    ensures ToInt32(Pow2(k + 32)) == 0
  {
    var multiple := Pow2(k);
    assert Pow2(k + 32) == multiple * TWO_32 by { Int32Bounds(0); Pow2Add(k, 32); }
    DivModUnique(multiple * TWO_32, TWO_32, multiple, 0);
  }

  lemma Int32Bounds(e: nat)
    requires e <= 31
    ensures Pow2(31) == TWO_31 && Pow2(32) == TWO_32
    ensures Pow2(e) <= TWO_31
    ensures e < 31 ==> 2 * Pow2(e) <= TWO_31
  {
    Pow2Values();
    Pow2Monotone(e, 31);
  }
}
