/** Architectural widths of the 64-bit RISC-V machine and the bit arithmetic
    that the decoder, the execution unit and the memory regions share.
    Values are unbounded integers; every 64-bit wrap-around is written out
    with `% W64`. */
module Arch {

  const W64: int := 0x1_0000_0000_0000_0000
  const W32: int := 0x1_0000_0000

  /** RegValue and MemAddress (both uint64_t) */
  type u64 = x: int | 0 <= x < 0x1_0000_0000_0000_0000
  /** A raw instruction word (uint32_t) */
  type u32 = x: int | 0 <= x < 0x1_0000_0000
  /** uint8_t */
  type byte = x: int | 0 <= x < 256

  /** Number of architectural registers, register 0 included */
  const NumRegs: int := 32
  /** RegNumber is a uint8_t */
  type RegNumber = x: int | 0 <= x < 256
  /** A register index that is in range */
  type RegIndex = x: int | 0 <= x < 32

  /** The range of a C++ int */
  predicate IsInt(i: int)
  {
    -0x8000_0000 <= i < 0x8000_0000
  }

  /** The byte width of a sized access: byte, half word, word, double word */
  type Width = w: nat | w == 1 || w == 2 || w == 4 || w == 8 witness 1

  function Pow2(n: nat): (r: nat)
    ensures r >= 1
  {
    if n == 0 then 1 else 2 * Pow2(n - 1)
  }

  /** Bit i of x */
  function Bit(x: nat, i: nat): (b: nat)
    ensures b < 2
  {
    (x / Pow2(i)) % 2
  }

  /** The len-bit field of x that starts at bit lo */
  function Field(x: nat, lo: nat, len: nat): (f: nat)
    ensures f < Pow2(len)
  {
    (x / Pow2(lo)) % Pow2(len)
  }

  /** Conversion of a (possibly negative) int to a 64-bit pattern:
      two's complement, which is what C++ does for int -> uint64_t */
  function ToU64(i: int): (r: u64)
    ensures i >= 0 && i < W64 ==> r == i
    ensures i < 0 && i >= -W64 ==> r == W64 + i
  {
    i % W64
  }

  // ---------------------------------------------------------------------
  // Division and modulus facts
  // ---------------------------------------------------------------------

  lemma {:induction false} MulAtLeast(d: int, k: int)
    requires d > 0 && k >= 1
    ensures d * k >= d
    decreases k
  {
    if k > 1 {
      MulAtLeast(d, k - 1);
      assert d * k == d * (k - 1) + d;
    }
  }

  lemma DivModUnique(x: int, d: int, q: int, r: int)
    requires d > 0 && 0 <= r < d && x == d * q + r
    ensures x / d == q && x % d == r
  {
    var q0, r0 := x / d, x % d;
    assert x == d * q0 + r0;
    assert d * (q - q0) == r0 - r;
    if q0 < q {
      MulAtLeast(d, q - q0);
    } else if q0 > q {
      MulAtLeast(d, q0 - q);
    }
  }

  lemma DivDiv(x: nat, a: nat, b: nat)
    requires a > 0 && b > 0
    ensures x / a / b == x / (a * b)
  {
    var q, r := x / a, x % a;
    var q2, r2 := q / b, q % b;
    MulDistrib(a, b * q2, r2);
    MulAssoc(a, b, q2);
    assert x == (a * b) * q2 + (a * r2 + r);
    MulMonotone(a, r2, b - 1);
    MulDistrib(a, b - 1, 1);
    DivModUnique(x, a * b, q2, a * r2 + r);
  }

  lemma MulDistrib(a: int, b: int, c: int)
    ensures a * (b + c) == a * b + a * c
  {
  }

  lemma MulAssoc(a: int, b: int, c: int)
    ensures a * (b * c) == (a * b) * c
  {
  }

  lemma MulMonotone(a: nat, b: nat, c: nat)
    requires b <= c
    ensures a * b <= a * c
  {
  }

  /** x mod (a m) splits into x mod a and (x / a) mod m */
  lemma ModMul(x: nat, a: nat, m: nat)
    requires a > 0 && m > 0
    ensures x % (a * m) == x % a + a * ((x / a) % m)
  {
    var q, r := x / a, x % a;
    var q2, r2 := q / m, q % m;
    assert q == m * q2 + r2;
    assert x == a * q + r;
    assert a * q == a * (m * q2) + a * r2;
    assert a * (m * q2) == (a * m) * q2;
    assert x == (a * m) * q2 + (a * r2 + r);
    assert a * r2 <= a * (m - 1) by {
      MulMonotone(a, r2, m - 1);
    }
    assert a * (m - 1) == a * m - a;
    DivModUnique(x, a * m, q2, a * r2 + r);
  }

  lemma Distribute2(b0: int, x: int, p: int, t: int, p2: int)
    requires p2 == 2 * p
    ensures b0 + 2 * (x + p * t) == (b0 + 2 * x) + p2 * t
  {
  }

  lemma Pow2Add(a: nat, b: nat)
    ensures Pow2(a + b) == Pow2(a) * Pow2(b)
    decreases a
  {
    if a > 0 {
      Pow2Add(a - 1, b);
    }
  }

  /** The powers of two the instruction and word layouts are built from */
  lemma Pow2Table()
    ensures Pow2(0) == 0x1 && Pow2(1) == 0x2 && Pow2(2) == 0x4 && Pow2(3) == 0x8
    ensures Pow2(4) == 0x10 && Pow2(5) == 0x20 && Pow2(6) == 0x40 && Pow2(7) == 0x80
    ensures Pow2(8) == 0x100 && Pow2(9) == 0x200 && Pow2(10) == 0x400 && Pow2(11) == 0x800
    ensures Pow2(12) == 0x1000 && Pow2(13) == 0x2000 && Pow2(14) == 0x4000 && Pow2(15) == 0x8000
    ensures Pow2(16) == 0x10000 && Pow2(17) == 0x20000 && Pow2(18) == 0x40000 && Pow2(19) == 0x80000
    ensures Pow2(20) == 0x100000 && Pow2(21) == 0x200000 && Pow2(22) == 0x400000 && Pow2(23) == 0x800000
    ensures Pow2(24) == 0x1000000 && Pow2(25) == 0x2000000 && Pow2(26) == 0x4000000 && Pow2(27) == 0x8000000
    ensures Pow2(28) == 0x10000000 && Pow2(29) == 0x20000000 && Pow2(30) == 0x40000000 && Pow2(31) == 0x80000000
    ensures Pow2(32) == 0x100000000
    ensures Pow2(64) == W64
  {
    Pow2Add(32, 32);
  }

  lemma Pow2Monotone(a: nat, b: nat)
    requires a <= b
    ensures Pow2(a) <= Pow2(b)
    decreases b
  {
    if a < b {
      Pow2Monotone(a, b - 1);
    }
  }

  /** A field read out of a number assembled from a low part, the field and a high part */
  lemma FieldOfComposite(lowPart: nat, lo: nat, f: nat, len: nat, high: nat)
    requires lowPart < Pow2(lo) && f < Pow2(len)
    ensures Field(lowPart + Pow2(lo) * (f + Pow2(len) * high), lo, len) == f
  {
    var x := lowPart + Pow2(lo) * (f + Pow2(len) * high);
    DivModUnique(x, Pow2(lo), f + Pow2(len) * high, lowPart);
    DivModUnique(f + Pow2(len) * high, Pow2(len), high, f);
  }

  /** The same, for a number already known to have that shape */
  lemma FieldAt(x: nat, lowPart: nat, lo: nat, f: nat, len: nat, high: nat)
    requires lowPart < Pow2(lo) && f < Pow2(len)
    requires x == lowPart + Pow2(lo) * (f + Pow2(len) * high)
    ensures Field(x, lo, len) == f
  {
    FieldOfComposite(lowPart, lo, f, len, high);
  }

  // ---------------------------------------------------------------------
  // Bitsets: std::bitset<N> as a sequence of bits, least significant first
  // ---------------------------------------------------------------------

  /** to_ulong() */
  function ToNat(s: seq<bool>): (n: nat)
    ensures n < Pow2(|s|)
  {
    if s == [] then 0 else (if s[0] then 1 else 0) + 2 * ToNat(s[1..])
  }

  /** len bits of x starting at bit lo: std::bitset<len>(x >> lo) */
  function BitsOf(x: nat, lo: nat, len: nat): (s: seq<bool>)
    ensures |s| == len
  {
    seq(len, j requires 0 <= j < len => Bit(x, lo + j) == 1)
  }

  /** A zero-initialised std::bitset<n> */
  function Zeros(n: nat): (s: seq<bool>)
    ensures |s| == n && forall j :: 0 <= j < n ==> !s[j]
  {
    seq(n, _ => false)
  }

  /** operator~ */
  function Not(s: seq<bool>): (t: seq<bool>)
    ensures |t| == |s| && forall j :: 0 <= j < |s| ==> t[j] == !s[j]
  {
    seq(|s|, j requires 0 <= j < |s| => !s[j])
  }

  /** operator>>= 1 */
  function ShiftRight1(s: seq<bool>): (t: seq<bool>)
    requires |s| > 0
    ensures |t| == |s|
  {
    s[1..] + [false]
  }

  /** Dropping the low bit of a field */
  lemma FieldStep(x: nat, lo: nat, len: nat)
    requires len > 0
    ensures Field(x, lo, len) == Bit(x, lo) + 2 * Field(x, lo + 1, len - 1)
  {
    var y := x / Pow2(lo);
    DivDiv(x, Pow2(lo), 2);
    assert Pow2(lo + 1) == Pow2(lo) * 2;
    assert x / Pow2(lo + 1) == y / 2;
    assert Pow2(len) == 2 * Pow2(len - 1);
    ModMul(y, 2, Pow2(len - 1));
  }

  lemma {:induction false} ToNatBitsOf(x: nat, lo: nat, len: nat)
    ensures ToNat(BitsOf(x, lo, len)) == Field(x, lo, len)
    decreases len
  {
    var s := BitsOf(x, lo, len);
    if len == 0 {
      assert s == [];
    } else {
      assert s[1..] == BitsOf(x, lo + 1, len - 1);
      ToNatBitsOf(x, lo + 1, len - 1);
      FieldStep(x, lo, len);
      assert (if s[0] then 1 else 0) == Bit(x, lo);
    }
  }

  /** A value that fits in n bits is its own n-bit bitset */
  lemma SmallBitsOf(x: nat, n: nat)
    requires x < Pow2(n)
    ensures ToNat(BitsOf(x, 0, n)) == x
  {
    ToNatBitsOf(x, 0, n);
    assert x / Pow2(0) == x by {
      assert Pow2(0) == 1;
    }
    assert x % Pow2(n) == x by {
      DivModUnique(x, Pow2(n), 0, x);
    }
  }

  lemma {:induction false} ToNatAppend(a: seq<bool>, b: seq<bool>)
    ensures ToNat(a + b) == ToNat(a) + Pow2(|a|) * ToNat(b)
    decreases |a|
  {
    if a == [] {
      assert a + b == b;
    } else {
      assert (a + b)[1..] == a[1..] + b;
      ToNatAppend(a[1..], b);
      assert (a + b)[0] == a[0];
      Distribute2(if a[0] then 1 else 0, ToNat(a[1..]), Pow2(|a| - 1), ToNat(b), Pow2(|a|));
    }
  }

  lemma {:induction false} ToNatZeros(n: nat)
    ensures ToNat(Zeros(n)) == 0
    decreases n
  {
    if n > 0 {
      assert Zeros(n)[1..] == Zeros(n - 1);
      ToNatZeros(n - 1);
    }
  }

  /** Clear high bits add nothing */
  lemma ToNatPadZeros(s: seq<bool>, n: nat)
    ensures ToNat(s + Zeros(n)) == ToNat(s)
  {
    ToNatAppend(s, Zeros(n));
    ToNatZeros(n);
  }

  /** The low k bits of a bitset hold its value mod 2^k, the rest its value div 2^k */
  lemma ToNatSplit(s: seq<bool>, k: nat)
    requires k <= |s|
    ensures ToNat(s[..k]) == ToNat(s) % Pow2(k) && ToNat(s[k..]) == ToNat(s) / Pow2(k)
  {
    assert s == s[..k] + s[k..];
    ToNatAppend(s[..k], s[k..]);
    DivModUnique(ToNat(s), Pow2(k), ToNat(s[k..]), ToNat(s[..k]));
  }

  lemma {:induction false} ToNatNot(s: seq<bool>)
    ensures ToNat(Not(s)) == Pow2(|s|) - 1 - ToNat(s)
    decreases |s|
  {
    if s != [] {
      assert Not(s)[1..] == Not(s[1..]);
      ToNatNot(s[1..]);
    }
  }

  lemma {:induction false} ToNatShiftRight1(s: seq<bool>)
    requires |s| > 0
    ensures ToNat(ShiftRight1(s)) == ToNat(s) / 2
  {
    ToNatAppend(s[1..], [false]);
    assert ToNat([false]) == 0;
    DivModUnique(ToNat(s), 2, ToNat(s[1..]), if s[0] then 1 else 0);
  }

  // ---------------------------------------------------------------------
  // Little-endian byte strings
  // ---------------------------------------------------------------------

  /** The value of a little-endian byte string */
  function LeValue(bs: seq<byte>): (v: nat)
    ensures v < Pow2(8 * |bs|)
  {
    if bs == [] then 0
    else
      var rest := LeValue(bs[1..]);
      assert Pow2(8 * |bs|) == 256 * Pow2(8 * (|bs| - 1)) by {
        Pow2Add(8, 8 * (|bs| - 1));
      }
      bs[0] + 256 * rest
  }

  /** The n low-order bytes of v, least significant first */
  function LeBytes(v: nat, n: nat): (bs: seq<byte>)
    ensures |bs| == n
  {
    if n == 0 then [] else [v % 256] + LeBytes(v / 256, n - 1)
  }

  /** Encoding n bytes keeps exactly the low 8n bits */
  lemma {:induction false} LeValueOfBytes(v: nat, n: nat)
    ensures LeValue(LeBytes(v, n)) == v % Pow2(8 * n)
    decreases n
  {
    if n > 0 {
      var bs := LeBytes(v, n);
      assert bs[1..] == LeBytes(v / 256, n - 1);
      LeValueOfBytes(v / 256, n - 1);
      Pow2Add(8, 8 * (n - 1));
      assert Pow2(8) == 256;
      ModMul(v, 256, Pow2(8 * (n - 1)));
    }
  }

  /** Decoding then re-encoding a byte string gives it back */
  lemma {:induction false} LeBytesOfValue(bs: seq<byte>)
    ensures LeBytes(LeValue(bs), |bs|) == bs
    decreases |bs|
  {
    if bs != [] {
      var v := LeValue(bs);
      DivModUnique(v, 256, LeValue(bs[1..]), bs[0]);
      LeBytesOfValue(bs[1..]);
    }
  }
}
