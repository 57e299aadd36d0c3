/** Machine integers and the little-endian byte view of a 64-bit word.

    The tracer reads and writes the traced process's memory one 64-bit word
    at a time and reinterprets each word as eight bytes in memory order
    (a `transmute` on x86-64, hence little-endian). A word is modelled by
    that eight-byte view; the source's bit operations on whole words
    (masks, `|=` of shifted bytes) are bytewise operations on it. Registers
    and addresses are plain integers, and every two's-complement
    reinterpretation (`as i64`, `as u64`, `as i32`) is written out. */
module Bytes {

  type byte = b: int | 0 <= b < 256

  const TWO_32: int := 0x1_0000_0000
  const TWO_63: int := 0x8000_0000_0000_0000
  const TWO_64: int := 0x1_0000_0000_0000_0000

  type u64 = x: int | 0 <= x < TWO_64
  type i64 = x: int | -TWO_63 <= x < TWO_63
  type i32 = x: int | -0x8000_0000 <= x < 0x8000_0000

  /** A memory word in memory order: byte k is bits 8k..8k+7. */
  type Word = w: seq<byte> | |w| == 8 witness [0, 0, 0, 0, 0, 0, 0, 0]

  /** Rust `u as i64` for a `u64`: the same 64 bits read as two's complement. */
  function ToSigned(u: u64): (r: i64)
    ensures r % TWO_64 == u
    ensures (r < 0) <==> (u >= TWO_63)
  {
    if u < TWO_63 then u else u - TWO_64
  }

  /** Rust `i as u64` for an `i64`. */
  function ToUnsigned(i: i64): (r: u64)
    ensures r % TWO_64 == i % TWO_64
    ensures ToSigned(r) == i
  {
    if i >= 0 then i else i + TWO_64
  }

  /** Rust `x as i32` for an `i64`: keep the low 32 bits, read them signed. */
  function TruncI32(x: int): (r: i32)
    ensures (r - x) % TWO_32 == 0
    ensures -0x8000_0000 <= x < 0x8000_0000 ==> r == x
  {
    var m := x % TWO_32;
    if m < 0x8000_0000 then m else m - TWO_32
  }

  /** u64 addition and subtraction with wrap-around. */
  function Wrap64(x: int): (r: u64)
    ensures 0 <= x < TWO_64 ==> r == x
    ensures (r - x) % TWO_64 == 0
  {
    x % TWO_64
  }

  /** `wrapping_add` on two `u64`, without the modulus. */
  function Add64(a: u64, b: u64): (r: u64)
    ensures r == Wrap64(a + b)
    ensures a + b < TWO_64 ==> r == a + b
  {
    if a + b < TWO_64 then a + b else a + b - TWO_64
  }

  /** `wrapping_sub` on two `u64`; adding the subtrahend back gives the
      minuend. */
  function Sub64(a: u64, b: u64): (r: u64)
    ensures r == Wrap64(a - b)
    ensures b <= a ==> r == a - b
    ensures Add64(b, r) == a
  {
    if b <= a then a - b else a - b + TWO_64
  }

  function Pow256(n: nat): (r: nat)
    ensures r > 0
  {
    if n == 0 then 1 else 256 * Pow256(n - 1)
  }

  /** The low `n` bytes of `x`, least significant first. */
  function LeBytes(x: nat, n: nat): (r: seq<byte>)
    requires x < Pow256(n)
    ensures |r| == n
  {
    if n == 0 then [] else [x % 256] + LeBytes(x / 256, n - 1)
  }

  /** The number whose little-endian bytes are `bs`. */
  function LeValue(bs: seq<byte>): nat
  {
    if |bs| == 0 then 0 else bs[0] + 256 * LeValue(bs[1..])
  }

  lemma {:induction false} LeValueBound(bs: seq<byte>)
    ensures LeValue(bs) < Pow256(|bs|)
  {
    if |bs| > 0 {
      LeValueBound(bs[1..]);
    }
  }

  lemma {:induction false} LeValueOfLeBytes(x: nat, n: nat)
    requires x < Pow256(n)
    ensures LeValue(LeBytes(x, n)) == x
  {
    if n > 0 {
      var bs := LeBytes(x, n);
      assert Pow256(n) == 256 * Pow256(n - 1);
      assert x / 256 < Pow256(n - 1);
      assert bs[1..] == LeBytes(x / 256, n - 1);
      LeValueOfLeBytes(x / 256, n - 1);
      assert LeValue(bs) == (x % 256) + 256 * (x / 256);
    }
  }

  lemma {:induction false} LeBytesOfLeValue(bs: seq<byte>)
    ensures LeValue(bs) < Pow256(|bs|)
    ensures LeBytes(LeValue(bs), |bs|) == bs
  {
    LeValueBound(bs);
    if |bs| > 0 {
      LeBytesOfLeValue(bs[1..]);
      var v := LeValue(bs);
      assert v % 256 == bs[0];
      assert v / 256 == LeValue(bs[1..]);
    }
  }

  /** The memory image of an integer word (`transmute::<u64, [u8; 8]>`). */
  function WordOf(x: u64): (w: Word)
  {
    assert Pow256(8) == TWO_64;
    LeBytes(x, 8)
  }

  /** The integer a memory word holds. */
  function WordValue(w: Word): (x: u64)
  {
    LeValueBound(w);
    assert Pow256(8) == TWO_64;
    LeValue(w)
  }

  /** The two views of a word determine each other. */
  lemma WordRoundTrip(x: u64, w: Word)
    ensures WordValue(WordOf(x)) == x
    ensures WordOf(WordValue(w)) == w
  {
    assert Pow256(8) == TWO_64;
    LeValueOfLeBytes(x, 8);
    LeBytesOfLeValue(w);
  }

  /** `x` split as `q` times `m` plus a remainder below `m` has that
      remainder modulo `m`. */
  lemma ModOfSplit(x: int, q: int, m: int, r: int)
    requires m > 0 && 0 <= r < m && x == q * m + r
    ensures x % m == r
  {
    var d := x / m - q;
    assert x == (x / m) * m + x % m;
    assert d * m == r - x % m;
  }

  /** Prepending a byte to a little-endian value commutes with reducing
      it modulo a power of 256. */
  lemma ShiftMod(b: int, v: int, p: int)
    requires 0 <= b < 256 && 0 <= v && 0 < p
    ensures (b + 256 * v) % (256 * p) == b + 256 * (v % p)
  {
    var q := v / p;
    var r := v % p;
    assert v == q * p + r;
    assert 256 * (q * p) == q * (256 * p);
    assert b + 256 * v == q * (256 * p) + (b + 256 * r);
    ModOfSplit(b + 256 * v, q, 256 * p, b + 256 * r);
  }

  /** The first `n` bytes of a little-endian image hold the value modulo
      256^n. */
  lemma {:induction false} LeValuePrefix(bs: seq<byte>, n: nat)
    requires n <= |bs|
    ensures LeValue(bs[..n]) == LeValue(bs) % Pow256(n)
  {
    if n == 0 {
      assert bs[..0] == [];
    } else {
      LeValuePrefix(bs[1..], n - 1);
      assert bs[..n][1..] == bs[1..][..n - 1];
      ShiftMod(bs[0], LeValue(bs[1..]), Pow256(n - 1));
    }
  }

  function Pow2(n: nat): (r: nat)
    ensures r > 0
  {
    if n == 0 then 1 else 2 * Pow2(n - 1)
  }

  /** Bitwise `&` of the low `n` bits. */
  function BitAnd(a: nat, b: nat, n: nat): (r: nat)
    ensures r < Pow2(n)
  {
    if n == 0 then 0
    else (if a % 2 == 1 && b % 2 == 1 then 1 else 0) + 2 * BitAnd(a / 2, b / 2, n - 1)
  }

  /** Bitwise `|` of the low `n` bits. */
  function BitOr(a: nat, b: nat, n: nat): (r: nat)
    ensures r < Pow2(n)
  {
    if n == 0 then 0
    else (if a % 2 == 1 || b % 2 == 1 then 1 else 0) + 2 * BitOr(a / 2, b / 2, n - 1)
  }

  lemma {:induction false} BitAndZero(a: nat, n: nat)
    ensures BitAnd(a, 0, n) == 0
  {
    if n > 0 {
      BitAndZero(a / 2, n - 1);
    }
  }

  /** Masking with `n` one-bits keeps an `n`-bit value whole. */
  lemma {:induction false} BitAndOnes(a: nat, n: nat)
    requires a < Pow2(n)
    ensures BitAnd(a, Pow2(n) - 1, n) == a
  {
    if n > 0 {
      var mask := Pow2(n) - 1;
      assert mask % 2 == 1 && mask / 2 == Pow2(n - 1) - 1;
      BitAndOnes(a / 2, n - 1);
    }
  }

  lemma {:induction false} BitOrZero(a: nat, n: nat)
    requires a < Pow2(n)
    ensures BitOr(a, 0, n) == a
    ensures BitOr(0, a, n) == a
  {
    if n > 0 {
      BitOrZero(a / 2, n - 1);
    }
  }

  /** Bitwise `&` and `|` on bytes. */
  function AndByte(a: byte, b: byte): (r: byte)
  {
    assert Pow2(8) == 256;
    BitAnd(a, b, 8)
  }

  function OrByte(a: byte, b: byte): (r: byte)
  {
    assert Pow2(8) == 256;
    BitOr(a, b, 8)
  }

  /** The byte facts the tracer's masks rely on. */
  lemma ByteMaskFacts(a: byte)
    ensures AndByte(a, 0) == 0
    ensures AndByte(a, 0xff) == a
    ensures AndByte(a, 0xf0) == a - a % 16
    ensures OrByte(a, 0) == a && OrByte(0, a) == a
  {
    assert Pow2(8) == 256 && Pow2(4) == 16;
    BitAndZero(a, 8);
    BitAndOnes(a, 8);
    BitOrZero(a, 8);
    // the four low mask bits are zero: each strips one bit of `a`
    var a4 := a / 2 / 2 / 2 / 2;
    assert BitAnd(a, 0xf0, 8) == 2 * BitAnd(a / 2, 0x78, 7);
    assert BitAnd(a / 2, 0x78, 7) == 2 * BitAnd(a / 2 / 2, 0x3c, 6);
    assert BitAnd(a / 2 / 2, 0x3c, 6) == 2 * BitAnd(a / 2 / 2 / 2, 0x1e, 5);
    assert BitAnd(a / 2 / 2 / 2, 0x1e, 5) == 2 * BitAnd(a4, 0x0f, 4);
    assert a4 == a / 16;
    BitAndOnes(a4, 4);
  }

  /** `a & b` on two words. */
  function AndWord(a: Word, b: Word): (r: Word)
    ensures forall k :: 0 <= k < 8 ==> r[k] == AndByte(a[k], b[k])
  {
    seq(8, k requires 0 <= k < 8 => AndByte(a[k], b[k]))
  }

  /** `a | b` on two words. */
  function OrWord(a: Word, b: Word): (r: Word)
    ensures forall k :: 0 <= k < 8 ==> r[k] == OrByte(a[k], b[k])
  {
    seq(8, k requires 0 <= k < 8 => OrByte(a[k], b[k]))
  }

  /** The memory image of `(b as u64) << (8 * k)`: byte `b` at position `k`,
      zero elsewhere. */
  function ShiftedByte(b: byte, k: nat): (r: Word)
    requires k < 8
  {
    seq(8, j requires 0 <= j < 8 => if j == k then b else 0)
  }

  /** The byte view of a shift agrees with its arithmetic meaning. */
  lemma ShiftedByteValue(b: byte, k: nat)
    requires k < 8
    ensures LeValue(ShiftedByte(b, k)) == b * Pow256(k)
  {
    var w := ShiftedByte(b, k);
    ShiftedPrefixValue(w, b, k);
  }

  lemma {:induction false} ShiftedPrefixValue(w: seq<byte>, b: byte, k: nat)
    requires k < |w|
    requires w[k] == b
    requires forall j :: 0 <= j < |w| && j != k ==> w[j] == 0
    ensures LeValue(w) == b * Pow256(k)
  {
    if k == 0 {
      ZeroValue(w[1..]);
    } else {
      ShiftedPrefixValue(w[1..], b, k - 1);
      assert w[0] == 0;
      var p := Pow256(k - 1);
      assert LeValue(w) == 256 * (b * p);
      assert b * Pow256(k) == b * (256 * p);
    }
  }

  lemma {:induction false} ZeroValue(w: seq<byte>)
    requires forall j :: 0 <= j < |w| ==> w[j] == 0
    ensures LeValue(w) == 0
  {
    if |w| > 0 {
      ZeroValue(w[1..]);
    }
  }

  // ---------------------------------------------------------------------
  // Hex digits, as `{:x}` prints them and `from_str_radix` reads them.

  /** Lower-case spelling of a digit below 16. */
  function HexDigit(d: nat): (c: char)
    requires d < 16
    ensures IsHexDigit(c)
  {
    match d
    case 0 => '0' case 1 => '1' case 2 => '2' case 3 => '3'
    case 4 => '4' case 5 => '5' case 6 => '6' case 7 => '7'
    case 8 => '8' case 9 => '9' case 10 => 'a' case 11 => 'b'
    case 12 => 'c' case 13 => 'd' case 14 => 'e' case _ => 'f'
  }

  /** An ASCII hex digit, either case. */
  predicate IsHexDigit(c: char)
  {
    '0' <= c <= '9' || 'a' <= c <= 'f' || 'A' <= c <= 'F'
  }

  predicate IsDecDigit(c: char)
  {
    '0' <= c <= '9'
  }

  /** The value of a hex digit. */
  function DigitValue(c: char): (v: nat)
    requires IsHexDigit(c)
    ensures v < 16
    ensures IsDecDigit(c) <==> v < 10
  {
    if '0' <= c <= '9' then c as int - '0' as int
    else if 'a' <= c <= 'f' then c as int - 'a' as int + 10
    else c as int - 'A' as int + 10
  }

  /** Reading back a printed digit gives the digit. */
  lemma DigitValueOfHexDigit(d: nat)
    requires d < 16
    ensures IsHexDigit(HexDigit(d)) && DigitValue(HexDigit(d)) == d
    ensures d < 10 <==> IsDecDigit(HexDigit(d))
  {
  }

  /** `{:02x}`: the lower-case two-digit hex spelling of a byte. */
  function HexByte(b: byte): (s: string)
    ensures |s| == 2 && IsHexDigit(s[0]) && IsHexDigit(s[1])
    ensures 16 * DigitValue(s[0]) + DigitValue(s[1]) == b
  {
    DigitValueOfHexDigit(b / 16);
    DigitValueOfHexDigit(b % 16);
    [HexDigit(b / 16), HexDigit(b % 16)]
  }
}
