/** Fixed-width integer operations as C# performs them on `int` in its
    default unchecked context, and the byte-level decodings the interpreter
    applies to inline operands. */
module Int32Ops {
  import opened Values

  const Two32: int := 0x1_0000_0000

  predicate InInt32(x: int) { MinInt32 <= x <= MaxInt32 }

  function Abs(x: int): nat { if x < 0 then -x else x }

  /** Unchecked wrap-around: the unique Int32 congruent to x modulo 2^32. */
  function Wrap32(x: int): (r: Int32)
    ensures (x - r) % Two32 == 0
    ensures InInt32(x) ==> r == x
  {
    var m := x % Two32;
    if m <= MaxInt32 then m else m - Two32
  }

  /** Integer division rounding toward zero, as C#'s `/` on integers:
      the remainder is smaller than the divisor and has the dividend's sign. */
  function TruncDiv(n: int, d: int): (q: int)
    requires d != 0
    ensures Abs(n - q * d) < Abs(d)
    ensures n - q * d == 0 || (n - q * d < 0 <==> n < 0)
    ensures Abs(q) * Abs(d) <= Abs(n)
  {
    var q0: int := Abs(n) / Abs(d);
    var q := if (n < 0) == (d < 0) then q0 else -q0;
    TruncDivFacts(n, d, q0, q);
    q
  }

  lemma TruncDivFacts(n: int, d: int, q0: int, q: int)
    requires d != 0 && q0 == Abs(n) / Abs(d)
    requires q == if (n < 0) == (d < 0) then q0 else -q0
    ensures Abs(n - q * d) < Abs(d)
    ensures n - q * d == 0 || (n - q * d < 0 <==> n < 0)
    ensures Abs(q) * Abs(d) <= Abs(n)
  {
    var a: int, b: int := Abs(n), Abs(d);
    var m := q0 * b;
    EuclidBounds(a, b, q0, m);
    var rem := a - m;
    assert Abs(q) == q0;
    SignedProduct(q, d, q0, b, m);
    assert n - q * d == (if n >= 0 then rem else -rem);
  }

  /** The Euclidean quotient q0 of a by b leaves a remainder in [0, b). */
  lemma EuclidBounds(a: nat, b: nat, q0: int, m: int)
    requires b > 0 && q0 == a / b && m == q0 * b
    ensures 0 <= q0 && 0 <= a - m < b
  {
    assert a == b * q0 + a % b;
  }

  /** With q = +-q0 and d = +-b, q * d is m = q0 * b exactly when the signs agree. */
  lemma SignedProduct(q: int, d: int, q0: int, b: int, m: int)
    requires b == Abs(d) && (q == q0 || q == -q0) && m == q0 * b
    ensures q * d == (if (q == q0) == (d >= 0) then m else -m)
  {
    if q == q0 && d >= 0 {
      assert q * d == q0 * b;
    } else if q == q0 {
      assert d == -b;
      assert q * d == -(q0 * b);
    } else if d >= 0 {
      assert q * d == -(q0 * b);
    } else {
      assert d == -b;
      assert q * d == q0 * b;
    }
  }

  /** a * b <= a * c when b <= c, by induction on a (kept linear per step). */
  lemma {:induction false} MulMonotone(a: nat, b: nat, c: nat)
    requires b <= c
    ensures a * b <= a * c
  {
    if a > 0 {
      MulMonotone(a - 1, b, c);
      assert a * b == (a - 1) * b + b;
      assert a * c == (a - 1) * c + c;
    }
  }

  /** `a / b` on two ints: division by zero throws `DivideByZeroException`
      and `int.MinValue / -1` throws `OverflowException`; otherwise the
      truncated quotient, which then always fits in an int. */
  function Div32(n: Int32, d: Int32): (r: Option<Int32>)
    ensures r.None? <==> d == 0 || (n == MinInt32 && d == -1)
    ensures r.Some? ==> r.value == TruncDiv(n, d)
  {
    if d == 0 || (n == MinInt32 && d == -1) then None
    else
      var q := TruncDiv(n, d);
      QuotientFits(n, d, q);
      Some(q)
  }

  lemma QuotientFits(n: Int32, d: Int32, q: int)
    requires d != 0 && !(n == MinInt32 && d == -1) && q == TruncDiv(n, d)
    ensures InInt32(q)
  {
    if Abs(d) == 1 {
      assert Abs(q) <= Abs(n);
    } else {
      MulMonotone(Abs(q), 2, Abs(d));
    }
  }

  function Pow2(k: nat): (p: nat)
    ensures p >= 1
  {
    if k == 0 then 1 else 2 * Pow2(k - 1)
  }

  /** The shift count C# uses for an int shift: `amt & 31`, which on two's
      complement is the Euclidean remainder modulo 32 (also for negative amt). */
  function ShiftCount(amt: Int32): (s: nat)
    ensures s < 32 && (amt - s) % 32 == 0
  {
    amt % 32
  }

  /** `v << amt` on int: the low 32 bits of v * 2^(amt & 31). */
  function Shl32(v: Int32, amt: Int32): Int32
  {
    Wrap32(v * Pow2(ShiftCount(amt)))
  }

  /** `v >> amt` on int is an arithmetic shift by `amt & 31`. */
  function Shr32(v: Int32, amt: Int32): Int32
  {
    HalveTimes(v, ShiftCount(amt))
  }

  /** s arithmetic one-bit right shifts: each halves rounding toward negative
      infinity, so the sign is kept and the magnitude never grows. */
  function HalveTimes(v: Int32, s: nat): (r: Int32)
    ensures v >= 0 ==> 0 <= r <= v
    ensures v < 0 ==> v <= r < 0
    ensures s > 0 && v >= 0 ==> r <= v / 2
    ensures s > 0 && v < 0 ==> v / 2 <= r
    decreases s
  {
    if s == 0 then v else HalveTimes(v / 2, s - 1)
  }

  /** s arithmetic right shifts by one are one floor division by 2^s: `shr`
      rounds toward negative infinity, unlike `div`, which truncates. */
  lemma {:induction false} HalveTimesIsFloorDiv(v: Int32, s: nat)
    ensures HalveTimes(v, s) == v / Pow2(s)
    decreases s
  {
    if s > 0 {
      HalveTimesIsFloorDiv(v / 2, s - 1);
      DivDiv(v, Pow2(s - 1));
    }
  }

  /** Halving and then dividing by p is dividing by 2p (floor division). */
  lemma DivDiv(v: int, p: nat)
    requires p >= 1
    ensures (v / 2) / p == v / (2 * p)
  {
    var q, r := v / 2, v % 2;
    var q2, r2 := q / p, q % p;
    assert v == 2 * q + r && 0 <= r < 2;
    assert q == p * q2 + r2 && 0 <= r2 < p;
    assert v == (2 * p) * q2 + (2 * r2 + r) by {
      assert 2 * (p * q2) == (2 * p) * q2;
    }
    DivUnique(v, 2 * p, q2, 2 * r2 + r);
  }

  /** Euclidean division has one quotient. */
  lemma DivUnique(v: int, d: int, q: int, r: int)
    requires d > 0 && v == d * q + r && 0 <= r < d
    ensures v / d == q
  {
    var q0, r0 := v / d, v % d;
    assert d * q0 + r0 == d * q + r;
    if q0 > q {
      assert d * q0 >= d * q + d by { MulStep(d, q, q0); }
    } else if q0 < q {
      assert d * q >= d * q0 + d by { MulStep(d, q0, q); }
    }
  }

  lemma MulStep(d: int, lo: int, hi: int)
    requires d > 0 && lo < hi
    ensures d * hi >= d * lo + d
  {
    MulMonotone(d, 1, hi - lo);
    assert d * hi == d * lo + d * (hi - lo);
  }

  /** The 32-bit two's-complement pattern of an int. */
  function ToBits(x: Int32): bv32
  {
    (x % Two32) as bv32
  }

  /** The int whose two's-complement pattern is b. */
  function FromBits(b: bv32): Int32
  {
    if b as int <= MaxInt32 then b as int else b as int - Two32
  }

  function And32(a: Int32, b: Int32): Int32 { FromBits(ToBits(a) & ToBits(b)) }
  function Or32(a: Int32, b: Int32): Int32 { FromBits(ToBits(a) | ToBits(b)) }
  function Xor32(a: Int32, b: Int32): Int32 { FromBits(ToBits(a) ^ ToBits(b)) }

  /** `(sbyte) b`: a byte reinterpreted as a signed 8-bit value. */
  function SignedByte(b: Byte): (r: int)
    ensures -128 <= r < 128
    ensures (r - b) % 256 == 0
  {
    if b < 128 then b else b - 256
  }

  /** `BitConverter.ToInt16` on a little-endian machine: the signed 16-bit
      value whose low byte is lo and whose high byte is hi. */
  function Int16LE(lo: Byte, hi: Byte): (r: int)
    ensures -0x8000 <= r < 0x8000
    ensures (r - (lo + 256 * hi)) % 0x1_0000 == 0
  {
    var u := lo + 256 * hi;
    if u < 0x8000 then u else u - 0x1_0000
  }
}
