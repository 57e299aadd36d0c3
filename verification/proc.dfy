/** The procfs readers of src/proc.rs: the `/proc/[pid]/maps` line parser,
    the permission formatter, the all-or-nothing `decode_proc_maps` and the
    state letter of `/proc/[pid]/status`.

    The source builds its parser from parser combinators; each combinator is
    modelled as a function from the remaining input to `None` (no parse) or
    the value read and the input left over. Reading the files themselves is
    not modelled: the functions take the file contents. */
module Proc {
  import opened Wrappers
  import opened Bytes

  // ---------------------------------------------------------------------
  // Characters and runs of characters.

  /** Rust's `char::is_whitespace`: the Unicode White_Space property. */
  predicate IsWhitespace(c: char)
  {
    || ('\t' <= c <= '\r')
    || c == ' '
    || c == '\U{85}'
    || c == '\U{A0}'
    || c == '\U{1680}'
    || ('\U{2000}' <= c <= '\U{200A}')
    || c == '\U{2028}'
    || c == '\U{2029}'
    || c == '\U{202F}'
    || c == '\U{205F}'
    || c == '\U{3000}'
  }

  predicate NotWhitespace(c: char)
  {
    !IsWhitespace(c)
  }

  predicate NotNewline(c: char)
  {
    c != '\n'
  }

  /** Neither carriage return nor line feed. */
  predicate NotLineBreak(c: char)
  {
    c != '\r' && c != '\n'
  }

  /** Length of the longest prefix of `s` whose characters all satisfy `p`. */
  function RunLength(s: string, p: char -> bool): (n: nat)
    ensures n <= |s|
    ensures forall i :: 0 <= i < n ==> p(s[i])
    ensures n == |s| || !p(s[n])
  {
    if |s| > 0 && p(s[0]) then 1 + RunLength(s[1..], p) else 0
  }

  /** combine's `spaces()`: skip any whitespace. */
  function SkipSpaces(s: string): (r: string)
    ensures |r| <= |s|
    ensures |r| == 0 || !IsWhitespace(r[0])
  {
    s[RunLength(s, IsWhitespace)..]
  }

  /** Whitespace followed by text that starts with a non-space is skipped up
      to that text. */
  lemma {:induction false} SkipSpacesBefore(ws: string, t: string)
    requires forall i :: 0 <= i < |ws| ==> IsWhitespace(ws[i])
    requires |t| == 0 || !IsWhitespace(t[0])
    ensures SkipSpaces(ws + t) == t
  {
    RunLengthOfConcat(ws, t, IsWhitespace);
    assert (ws + t)[|ws|..] == t;
  }

  /** A run stops exactly where the characters stop satisfying `p`. */
  lemma {:induction false} RunLengthOfConcat(ds: string, rest: string, p: char -> bool)
    requires forall i :: 0 <= i < |ds| ==> p(ds[i])
    requires |rest| == 0 || !p(rest[0])
    ensures RunLength(ds + rest, p) == |ds|
  {
    if |ds| > 0 {
      assert (ds + rest)[1..] == ds[1..] + rest;
      RunLengthOfConcat(ds[1..], rest, p);
    } else {
      assert ds + rest == rest;
    }
  }

  /** The remaining input after a parser, and the value it read. */
  datatype Parsed<+T> = Parsed(value: T, rest: string)

  /** Parser result `r` read the value `v` and left `rest`. */
  predicate Reads<T(==)>(r: Option<Parsed<T>>, v: T, rest: string)
  {
    r.Some? && r.value.value == v && r.value.rest == rest
  }

  /** combine's `char(c)`. */
  function Char(s: string, c: char): (r: Option<string>)
    ensures r.Some? <==> |s| > 0 && s[0] == c
    ensures r.Some? ==> r.value == s[1..]
  {
    if |s| > 0 && s[0] == c then Some(s[1..]) else None
  }

  // ---------------------------------------------------------------------
  // Numbers.

  predicate AllDigits(ds: string, radix: nat)
  {
    forall i :: 0 <= i < |ds| ==> IsHexDigit(ds[i]) && DigitValue(ds[i]) < radix
  }

  /** The value of a digit string, most significant digit first. */
  function DigitsValue(ds: string, radix: nat): nat
    requires AllDigits(ds, radix)
  {
    if |ds| == 0 then 0
    else DigitsValue(ds[..|ds| - 1], radix) * radix + DigitValue(ds[|ds| - 1])
  }

  /** `u64::from_str_radix` / `str::parse::<u64>`: fails on an empty string,
      on a digit outside the radix, and on a value that does not fit. */
  function FromStrRadix(ds: string, radix: nat): (r: Option<u64>)
    ensures r.Some? <==> |ds| > 0 && AllDigits(ds, radix) && DigitsValue(ds, radix) < TWO_64
    ensures r.Some? ==> r.value == DigitsValue(ds, radix)
  {
    if |ds| > 0 && AllDigits(ds, radix) && DigitsValue(ds, radix) < TWO_64
    then Some(DigitsValue(ds, radix))
    else None
  }

  /** `hex_value`: one or more hex digits, read in base 16; a value too big
      for 64 bits reads as 0. */
  function HexValue(s: string): (r: Option<Parsed<u64>>)
    ensures r.Some? <==> |s| > 0 && IsHexDigit(s[0])
    ensures r.Some? ==>
      var n := RunLength(s, IsHexDigit);
      && r.value.rest == s[n..]
      && r.value.value == (if DigitsValue(s[..n], 16) < TWO_64 then DigitsValue(s[..n], 16) else 0)
  {
    var n := RunLength(s, IsHexDigit);
    assert AllDigits(s[..n], 16);
    if n == 0 then None
    else
      var v := FromStrRadix(s[..n], 16);
      Some(Parsed(if v.Some? then v.value else 0, s[n..]))
  }

  /** `dec_value`: one or more hex digits, read in base 10. A hex letter
      makes the decimal parse fail and the field reads as 0, as does a value
      too big for 64 bits. */
  function DecValue(s: string): (r: Option<Parsed<u64>>)
    ensures r.Some? <==> |s| > 0 && IsHexDigit(s[0])
    ensures r.Some? ==>
      var n := RunLength(s, IsHexDigit);
      && r.value.rest == s[n..]
      && (!AllDigits(s[..n], 10) ==> r.value.value == 0)
      && (AllDigits(s[..n], 10) && DigitsValue(s[..n], 10) < TWO_64 ==> r.value.value == DigitsValue(s[..n], 10))
      && (AllDigits(s[..n], 10) && DigitsValue(s[..n], 10) >= TWO_64 ==> r.value.value == 0)
  {
    var n := RunLength(s, IsHexDigit);
    if n == 0 then None
    else
      var v := FromStrRadix(s[..n], 10);
      Some(Parsed(if v.Some? then v.value else 0, s[n..]))
  }

  /** Digits of `n` in base `radix` (10 or 16), lower case, no leading
      zeros: what `{}` and `{:x}` print. */
  function DigitString(n: nat, radix: nat): (ds: string)
    requires radix == 10 || radix == 16
    ensures |ds| > 0 && IsHexDigit(ds[0])
    decreases n
  {
    if n < radix then [HexDigit(n)] else DigitString(n / radix, radix) + [HexDigit(n % radix)]
  }

  /** Printed digits are digits of the radix, and they read back as the
      number printed. */
  lemma {:induction false} DigitStringValue(n: nat, radix: nat)
    requires radix == 10 || radix == 16
    ensures AllDigits(DigitString(n, radix), radix)
    ensures DigitsValue(DigitString(n, radix), radix) == n
    decreases n
  {
    var ds := DigitString(n, radix);
    if n < radix {
      DigitValueOfHexDigit(n);
    } else {
      DigitStringValue(n / radix, radix);
      DigitValueOfHexDigit(n % radix);
      var hi := DigitString(n / radix, radix);
      assert ds[..|ds| - 1] == hi;
      assert AllDigits(ds, radix) by {
        forall i | 0 <= i < |ds|
          ensures IsHexDigit(ds[i]) && DigitValue(ds[i]) < radix
        {
          if i < |hi| {
            assert ds[i] == hi[i];
          }
        }
      }
    }
  }

  /** Reading a printed number back: `hex_value` and `dec_value` return it
      and stop at the first character that is not a hex digit. */
  lemma NumberFieldsRoundTrip(n: u64, rest: string)
    requires |rest| == 0 || !IsHexDigit(rest[0])
    ensures Reads(HexValue(DigitString(n, 16) + rest), n, rest)
    ensures Reads(DecValue(DigitString(n, 10) + rest), n, rest)
  {
    var hex, dec := DigitString(n, 16), DigitString(n, 10);
    DigitStringValue(n, 16);
    DigitStringValue(n, 10);
    RunLengthOfConcat(hex, rest, IsHexDigit);
    RunLengthOfConcat(dec, rest, IsHexDigit);
    assert (hex + rest)[..|hex|] == hex && (hex + rest)[|hex|..] == rest;
    assert (dec + rest)[..|dec|] == dec && (dec + rest)[|dec|..] == rest;
  }

  /** Seventeen hex digits (`1` and sixteen zeros, 2^64) overflow 64 bits,
      so `hex_value` reads them as 0. */
  lemma HexOverflowReadsZero(rest: string)
    requires |rest| == 0 || !IsHexDigit(rest[0])
    ensures Reads(HexValue("1" + seq(16, _ => '0') + rest), 0, rest)
  {
    var ds := "1" + seq(16, _ => '0');
    HexOnePowerValue(16);
    RunLengthOfConcat(ds, rest, IsHexDigit);
    assert (ds + rest)[..|ds|] == ds && (ds + rest)[|ds|..] == rest;
  }

  /** An inode field with a hex letter in it reads as 0. */
  lemma DecHexLetterReadsZero()
    ensures Reads(DecValue("1a "), 0, " ")
  {
    var bad := "1a ";
    RunLengthOfConcat("1a", " ", IsHexDigit);
    assert bad[..2] == "1a" && bad[2..] == " ";
    assert !AllDigits(bad[..2], 10) by {
      assert bad[..2][1] == 'a';
    }
  }

  /** Decimal digits read as a decimal number. */
  lemma DecDigitsReadDecimal()
    ensures Reads(DecValue("123 "), 123, " ")
  {
    var ok := "123 ";
    RunLengthOfConcat("123", " ", IsHexDigit);
    assert ok[..3] == "123" && ok[3..] == " ";
    assert "123"[..2] == "12" && "12"[..1] == "1" && "1"[..0] == "";
    assert DigitsValue("1", 10) == 1;
    assert DigitsValue("12", 10) == 12;
    assert DigitsValue("123", 10) == 123;
  }

  function Pow16(k: nat): nat
  {
    if k == 0 then 1 else 16 * Pow16(k - 1)
  }

  /** "1" followed by `k` zeros is 16^k in hex; sixteen zeros make 2^64. */
  lemma {:induction false} HexOnePowerValue(k: nat)
    ensures AllDigits("1" + seq(k, _ => '0'), 16)
    ensures DigitsValue("1" + seq(k, _ => '0'), 16) == Pow16(k)
    ensures k == 16 ==> Pow16(k) == TWO_64
  {
    var ds := "1" + seq(k, _ => '0');
    if k > 0 {
      HexOnePowerValue(k - 1);
      assert ds[..|ds| - 1] == "1" + seq(k - 1, _ => '0');
    }
    if k == 16 {
      assert Pow16(4) == 0x1_0000;
      assert Pow16(8) == 0x1_0000_0000;
      assert Pow16(12) == 0x1_0000_0000_0000;
      assert Pow16(16) == 0x1_0000_0000_0000_0000;
    }
  }

  // ---------------------------------------------------------------------
  // The fields of a maps line.

  // Protection and mapping flags are `i32` bit sets in the source; they
  // are kept as 32-bit vectors here so that `&` and `|` are the machine's.
  const PROT_READ: bv32 := 1
  const PROT_WRITE: bv32 := 2
  const PROT_EXEC: bv32 := 4
  const MAP_SHARED: bv32 := 1
  const MAP_PRIVATE: bv32 := 2

  /** `x & bit != 0`. */
  predicate HasBit(x: bv32, bit: bv32)
  {
    x & bit != 0
  }

  /** The four positions of a permission column: `-` or `r`, `-` or `w`,
      `-` or `x`, then `-`, `s` or `p`. */
  predicate PermChars(t: string)
  {
    && |t| >= 4
    && (t[0] == '-' || t[0] == 'r')
    && (t[1] == '-' || t[1] == 'w')
    && (t[2] == '-' || t[2] == 'x')
    && (t[3] == '-' || t[3] == 's' || t[3] == 'p')
  }

  /** The protection value with the read, write and execute bits as given. */
  function ProtBits(r: bool, w: bool, x: bool): (v: bv32)
    ensures v < 8
    ensures HasBit(v, PROT_READ) == r && HasBit(v, PROT_WRITE) == w && HasBit(v, PROT_EXEC) == x
  {
    (if r then PROT_READ else 0) | (if w then PROT_WRITE else 0) | (if x then PROT_EXEC else 0)
  }

  /** `prot`: four characters after optional whitespace, each from a fixed
      choice; `r`, `w`, `x` set the protection bits and `s` or `p` the
      sharing flag. */
  function Prot(s: string): (r: Option<Parsed<(bv32, bv32)>>)
    ensures
      var t := SkipSpaces(s);
      && (r.Some? <==> PermChars(t))
      && (r.Some? ==>
        && r.value.rest == t[4..]
        && r.value.value.0 < 8
        && (HasBit(r.value.value.0, PROT_READ) <==> t[0] == 'r')
        && (HasBit(r.value.value.0, PROT_WRITE) <==> t[1] == 'w')
        && (HasBit(r.value.value.0, PROT_EXEC) <==> t[2] == 'x')
        && (r.value.value.1 == MAP_SHARED <==> t[3] == 's')
        && (r.value.value.1 == MAP_PRIVATE <==> t[3] == 'p')
        && (r.value.value.1 == 0 <==> t[3] == '-'))
  {
    var t := SkipSpaces(s);
    if PermChars(t) then
      var prot := ProtBits(t[0] == 'r', t[1] == 'w', t[2] == 'x');
      var flags := FlagsOf(t[3]);
      Some(Parsed((prot, flags), t[4..]))
    else None
  }

  /** `format_prot_flags`: the four-character permission column. A mapping
      flagged both shared and private prints as shared. */
  function FormatProtFlags(prot: bv32, flags: bv32): (s: string)
    ensures |s| == 4
    ensures PermChars(s)
    ensures s[0] == 'r' <==> HasBit(prot, PROT_READ)
    ensures s[1] == 'w' <==> HasBit(prot, PROT_WRITE)
    ensures s[2] == 'x' <==> HasBit(prot, PROT_EXEC)
    ensures s[3] == 's' <==> HasBit(flags, MAP_SHARED)
    ensures s[3] == 'p' <==> !HasBit(flags, MAP_SHARED) && HasBit(flags, MAP_PRIVATE)
  {
    [ if HasBit(prot, PROT_READ) then 'r' else '-',
      if HasBit(prot, PROT_WRITE) then 'w' else '-',
      if HasBit(prot, PROT_EXEC) then 'x' else '-',
      if HasBit(flags, MAP_SHARED) then 's' else if HasBit(flags, MAP_PRIVATE) then 'p' else '-' ]
  }

  /** A permission column as the kernel prints it. */
  predicate ValidPerms(p: string)
  {
    |p| == 4 && PermChars(p)
  }

  /** The flags value of a sharing character. */
  function FlagsOf(c: char): bv32
  {
    if c == 'p' then MAP_PRIVATE else if c == 's' then MAP_SHARED else 0
  }

  /** A permission column at the head of the input reads as its bits. */
  lemma ProtOfPerms(p: string, rest: string)
    requires ValidPerms(p)
    ensures Reads(Prot(p + rest), (ProtBits(p[0] == 'r', p[1] == 'w', p[2] == 'x'), FlagsOf(p[3])), rest)
  {
    SkipSpacesBefore("", p + rest);
    assert "" + (p + rest) == p + rest;
    assert (p + rest)[4..] == rest;
  }

  /** Printing the bits of a permission column gives the column back. */
  lemma FormatPerms(p: string)
    requires ValidPerms(p)
    ensures FormatProtFlags(ProtBits(p[0] == 'r', p[1] == 'w', p[2] == 'x'), FlagsOf(p[3])) == p
  {
    var f := FormatProtFlags(ProtBits(p[0] == 'r', p[1] == 'w', p[2] == 'x'), FlagsOf(p[3]));
    assert f[0] == p[0] && f[1] == p[1] && f[2] == p[2] && f[3] == p[3];
  }

  /** Parse then print: every valid permission column is reproduced. */
  lemma PermsRoundTrip(p: string, rest: string)
    requires ValidPerms(p)
    ensures
      var r := Prot(p + rest);
      && r.Some? && r.value.rest == rest
      && FormatProtFlags(r.value.value.0, r.value.value.1) == p
  {
    ProtOfPerms(p, rest);
    FormatPerms(p);
  }

  /** Print then parse: protection bits 0..7 and flags none, shared or
      private come back unchanged. */
  lemma ProtFlagsRoundTrip(prot: bv32, flags: bv32, rest: string)
    requires prot < 8 && (flags == 0 || flags == MAP_SHARED || flags == MAP_PRIVATE)
    ensures Reads(Prot(FormatProtFlags(prot, flags) + rest), (prot, flags), rest)
  {
    var p := FormatProtFlags(prot, flags);
    SkipSpacesBefore("", p + rest);
    assert "" + (p + rest) == p + rest;
    assert (p + rest)[4..] == rest;
  }

  /** combine's `count(2, hex_digit())`, which takes up to two hex digits
      and also accepts none, mapped through
      `i32::from_str_radix(.., 16).unwrap_or(0)`: the digits taken and their
      value, an empty digit string reading as 0. */
  function ByteField(s: string): (r: Parsed<nat>)
    ensures var n := |s| - |r.rest|;
      && 0 <= n <= 2 && r.rest == s[n..]
      && AllDigits(s[..n], 16) && r.value == DigitsValue(s[..n], 16)
      && (n < 2 ==> n == |s| || !IsHexDigit(s[n]))
    ensures r.value < 256
  {
    if |s| > 0 && IsHexDigit(s[0]) then
      if |s| > 1 && IsHexDigit(s[1]) then
        TwoHexDigits(s);
        Parsed(16 * DigitValue(s[0]) + DigitValue(s[1]), s[2..])
      else
        OneHexDigit(s);
        Parsed(DigitValue(s[0]), s[1..])
    else
      Parsed(0, s)
  }

  lemma OneHexDigit(s: string)
    requires |s| >= 1 && IsHexDigit(s[0])
    ensures AllDigits(s[..1], 16) && DigitsValue(s[..1], 16) == DigitValue(s[0])
  {
    assert s[..1][..0] == "";
  }

  lemma TwoHexDigits(s: string)
    requires |s| >= 2 && IsHexDigit(s[0]) && IsHexDigit(s[1])
    ensures AllDigits(s[..2], 16) && DigitsValue(s[..2], 16) == 16 * DigitValue(s[0]) + DigitValue(s[1])
  {
    assert s[..2][..1] == s[..1];
    OneHexDigit(s);
  }

  /** `dev`: optional whitespace, up to two hex digits, `:`, up to two hex
      digits; the number is major * 256 + minor, a missing half reading as
      0. */
  function Dev(s: string): (r: Option<Parsed<int>>)
    ensures r.Some? ==> 0 <= r.value.value < 0x1_0000
  {
    var t := SkipSpaces(s);
    var major := ByteField(t);
    if |major.rest| > 0 && major.rest[0] == ':' then
      var minor := ByteField(major.rest[1..]);
      Some(Parsed(major.value * 256 + minor.value, minor.rest))
    else None
  }

  /** The major number, as `dev.wrapping_shr(8)` prints it. */
  function DevMajor(dev: int): int
    requires 0 <= dev
  {
    dev / 256
  }

  /** The minor number, as `dev & 0xff` prints it. */
  function DevMinor(dev: int): int
    requires 0 <= dev
  {
    dev % 256
  }

  predicate HexPair(h: string)
  {
    |h| == 2 && IsHexDigit(h[0]) && IsHexDigit(h[1])
  }

  /** The value of two hex digits. */
  function PairValue(h: string): nat
    requires HexPair(h)
  {
    16 * DigitValue(h[0]) + DigitValue(h[1])
  }

  /** Two hex digits are taken whole by `count(2, hex_digit())`, whatever
      follows them. */
  lemma HexPairField(h: string, rest: string)
    requires HexPair(h)
    ensures ByteField(h + rest).value == PairValue(h) && ByteField(h + rest).rest == rest
  {
    var s := h + rest;
    assert s[0] == h[0] && s[1] == h[1];
    assert s[2..] == rest;
  }

  /** A printed byte reads back as itself. */
  lemma HexByteReadsBack(b: byte)
    ensures HexPair(HexByte(b)) && PairValue(HexByte(b)) == b
  {
  }

  /** A device field "MM:mm" of two-digit hex halves reads as MM * 256 + mm,
      whatever follows it, and the printer's shift and mask recover the two
      halves. */
  lemma DevRoundTrip(major: byte, minor: byte, rest: string)
    ensures Reads(Dev(" " + HexByte(major) + ":" + HexByte(minor) + rest), major * 256 + minor, rest)
    ensures DevMajor(major * 256 + minor) == major && DevMinor(major * 256 + minor) == minor
  {
    DevReads(major, minor, rest);
    DevHalves(major, minor);
  }

  /** Shift and mask split `major * 256 + minor` into its two bytes. */
  lemma DevHalves(major: byte, minor: byte)
    ensures DevMajor(major * 256 + minor) == major && DevMinor(major * 256 + minor) == minor
  {
  }

  lemma DevReads(major: byte, minor: byte, rest: string)
    ensures Reads(Dev(" " + HexByte(major) + ":" + HexByte(minor) + rest), major * 256 + minor, rest)
  {
    HexByteReadsBack(major);
    HexByteReadsBack(minor);
    DevReadsPairs(HexByte(major), HexByte(minor), rest);
  }

  lemma DevReadsPairs(mj: string, mn: string, rest: string)
    requires HexPair(mj) && HexPair(mn)
    ensures Reads(Dev(" " + mj + ":" + mn + rest), PairValue(mj) * 256 + PairValue(mn), rest)
  {
    var t := mj + (":" + (mn + rest));
    assert " " + mj + ":" + mn + rest == " " + t;
    SkipSpacesBefore(" ", t);
    DevAfterSpaces(" " + t, mj, mn, rest);
  }

  lemma DevAfterSpaces(s: string, mj: string, mn: string, rest: string)
    requires HexPair(mj) && HexPair(mn)
    requires SkipSpaces(s) == mj + (":" + (mn + rest))
    ensures Reads(Dev(s), PairValue(mj) * 256 + PairValue(mn), rest)
  {
    var after := mn + rest;
    HexPairField(mj, ":" + after);
    HexPairField(mn, rest);
    assert (":" + after)[1..] == after;
  }

  /** `filepath`: optional whitespace, then the rest of the line up to a
      carriage return or line feed, or nothing when no such text follows. */
  function FilePath(s: string): (r: Parsed<Option<string>>)
    ensures r.value.Some? ==>
      && |r.value.value| > 0
      && forall i :: 0 <= i < |r.value.value| ==> NotLineBreak(r.value.value[i])
    ensures r.value.Some? ==> SkipSpaces(s) == r.value.value + r.rest
    ensures r.value.None? <==> |SkipSpaces(s)| == 0 || !NotLineBreak(SkipSpaces(s)[0])
    ensures r.value.None? ==> r.rest == SkipSpaces(s)
    ensures r.rest == "" || !NotLineBreak(r.rest[0])
  {
    var t := SkipSpaces(s);
    var n := RunLength(t, NotLineBreak);
    if n == 0 then Parsed(None, t) else Parsed(Some(t[..n]), t[n..])
  }

  // ---------------------------------------------------------------------
  // Whole entries.

  /** One line of a maps file. `size` is kept, not the end address. */
  datatype ProcMapsEntry = ProcMapsEntry(
    base: u64,
    size: u64,
    prot: bv32,
    flags: bv32,
    offset: u64,
    dev: int,
    inode: u64,
    file: Option<string>)

  /** `ProcMapsEntry::end`. */
  function End(e: ProcMapsEntry): (r: u64)
    ensures Sub64(r, e.base) == e.size
    ensures e.base + e.size < TWO_64 ==> r == e.base + e.size
  {
    Add64(e.base, e.size)
  }

  /** `parser`: start `-` end, permissions, offset, device, inode and an
      optional path. Text after the path is ignored. The size is
      `end - start` in 64-bit arithmetic. */
  function ParseEntry(line: string): (r: Option<ProcMapsEntry>)
    ensures r.Some? ==> r.value.prot < 8 && 0 <= r.value.dev < 0x1_0000
  {
    var from :- HexValue(line);
    var afterDash :- Char(from.rest, '-');
    var to :- HexValue(afterDash);
    var perms :- Prot(to.rest);
    var tail :- ParseTail(perms.rest);
    Some(ProcMapsEntry(from.value, Sub64(to.value, from.value), perms.value.0, perms.value.1,
                       tail.offset, tail.dev, tail.inode, tail.file))
  }

  /** The fields after the permissions. */
  datatype Tail = Tail(offset: u64, dev: int, inode: u64, file: Option<string>)

  /** The second half of `parser`: spaces, offset, device, spaces, inode
      and the optional path. */
  function ParseTail(s: string): (r: Option<Tail>)
    ensures r.Some? ==> 0 <= r.value.dev < 0x1_0000
  {
    var offset :- HexValue(SkipSpaces(s));
    var dev :- Dev(offset.rest);
    var inode :- DecValue(SkipSpaces(dev.rest));
    Some(Tail(offset.value, dev.value, inode.value, FilePath(inode.rest).value))
  }

  /** The fields of a maps line as the kernel would print them. */
  datatype MapsLine = MapsLine(
    start: u64,
    end: u64,
    prot: bv32,
    flags: bv32,
    offset: u64,
    major: byte,
    minor: byte,
    inode: u64,
    path: Option<string>)

  /** A path the line format can carry: non-empty, not starting with
      whitespace, with no line break inside. */
  predicate PrintablePath(p: Option<string>)
  {
    p.Some? ==>
      && |p.value| > 0
      && !IsWhitespace(p.value[0])
      && forall i :: 0 <= i < |p.value| ==> NotLineBreak(p.value[i])
  }

  predicate PrintableLine(l: MapsLine)
  {
    && l.prot < 8
    && (l.flags == 0 || l.flags == MAP_SHARED || l.flags == MAP_PRIVATE)
    && PrintablePath(l.path)
  }

  /** The line, one space between fields (the kernel pads the numbers with
      leading zeros and the path with more spaces; the parser skips both). */
  function FormatMapsLine(l: MapsLine): string
  {
    DigitString(l.start, 16) + EndOnwards(l)
  }

  /** The line from the dash before the end address on. */
  function EndOnwards(l: MapsLine): string
  {
    "-" + (DigitString(l.end, 16) + PermsOnwards(l))
  }

  /** The line from the space before the permissions on. */
  function PermsOnwards(l: MapsLine): string
  {
    " " + (FormatProtFlags(l.prot, l.flags) + OffsetOnwards(l))
  }

  /** The line from the space before the offset field on. */
  function OffsetOnwards(l: MapsLine): string
  {
    " " + (DigitString(l.offset, 16) + DevOnwards(l))
  }

  /** The line from the space before the device field on. */
  function DevOnwards(l: MapsLine): string
  {
    " " + HexByte(l.major) + ":" + HexByte(l.minor) + InodeOnwards(l)
  }

  /** The line from the space before the inode field on. */
  function InodeOnwards(l: MapsLine): string
  {
    " " + (DigitString(l.inode, 10) + PathSuffix(l.path))
  }

  function PathSuffix(p: Option<string>): string
  {
    if p.Some? then " " + p.value else ""
  }

  /** No hex digit is whitespace. */
  lemma HexDigitNotSpace(c: char)
    requires IsHexDigit(c)
    ensures !IsWhitespace(c)
  {
  }

  /** A printed number after one space reads back with `spaces()` then
      `hex_value` or `dec_value`. */
  lemma NumberAfterSpace(n: u64, rest: string)
    requires |rest| == 0 || !IsHexDigit(rest[0])
    ensures Reads(HexValue(SkipSpaces(" " + (DigitString(n, 16) + rest))), n, rest)
    ensures Reads(DecValue(SkipSpaces(" " + (DigitString(n, 10) + rest))), n, rest)
  {
    HexDigitNotSpace(DigitString(n, 16)[0]);
    HexDigitNotSpace(DigitString(n, 10)[0]);
    SkipSpacesBefore(" ", DigitString(n, 16) + rest);
    SkipSpacesBefore(" ", DigitString(n, 10) + rest);
    NumberFieldsRoundTrip(n, rest);
  }

  /** A printed permission column after one space reads back. */
  lemma ProtAfterSpace(prot: bv32, flags: bv32, rest: string)
    requires prot < 8 && (flags == 0 || flags == MAP_SHARED || flags == MAP_PRIVATE)
    ensures Reads(Prot(" " + (FormatProtFlags(prot, flags) + rest)), (prot, flags), rest)
  {
    var p := FormatProtFlags(prot, flags);
    SkipSpacesBefore(" ", p + rest);
    SkipSpacesBefore("", p + rest);
    assert "" + (p + rest) == p + rest;
    ProtFlagsRoundTrip(prot, flags, rest);
  }

  /** The entry a printable line stands for. */
  function EntryOf(l: MapsLine): ProcMapsEntry
  {
    ProcMapsEntry(l.start, Sub64(l.end, l.start), l.prot, l.flags, l.offset,
                  l.major * 256 + l.minor, l.inode, l.path)
  }

  /** The offset, device, inode and path of a printed line read back. */
  lemma TailFieldsRead(l: MapsLine)
    requires PrintableLine(l)
    ensures ParseTail(OffsetOnwards(l)).Some?
    ensures var t := ParseTail(OffsetOnwards(l)).value;
      t.offset == l.offset && t.dev == l.major * 256 + l.minor && t.inode == l.inode && t.file == l.path
  {
    NumberAfterSpace(l.offset, DevOnwards(l));
    DevRoundTrip(l.major, l.minor, InodeOnwards(l));
    NumberAfterSpace(l.inode, PathSuffix(l.path));
    FilePathOfSuffix(l.path);
  }

  /** Parsing a printed line gives back every field; the size is the
      distance from start to end, so `end()` returns the second address. */
  lemma ParseFormattedLine(l: MapsLine)
    requires PrintableLine(l)
    ensures ParseEntry(FormatMapsLine(l)) == Some(EntryOf(l))
    ensures End(ParseEntry(FormatMapsLine(l)).value) == l.end
    ensures l.start <= l.end ==> ParseEntry(FormatMapsLine(l)).value.size == l.end - l.start
  {
    LineFieldsRead(l);
    assert ParseEntry(FormatMapsLine(l)).value == EntryOf(l);
  }

  lemma LineFieldsRead(l: MapsLine)
    requires PrintableLine(l)
    ensures ParseEntry(FormatMapsLine(l)).Some?
    ensures var r := ParseEntry(FormatMapsLine(l)).value;
      && r.base == l.start && r.size == Sub64(l.end, l.start) && r.prot == l.prot && r.flags == l.flags
      && r.offset == l.offset && r.dev == l.major * 256 + l.minor && r.inode == l.inode && r.file == l.path
  {
    HeadFieldsRead(l);
    TailFieldsRead(l);
    EntryOfFields(FormatMapsLine(l), EndOnwards(l), DigitString(l.end, 16) + PermsOnwards(l),
                  PermsOnwards(l), OffsetOnwards(l), l.start, l.end, l.prot, l.flags,
                  ParseTail(OffsetOnwards(l)).value);
  }

  /** The addresses and permissions of a printed line read back. */
  lemma HeadFieldsRead(l: MapsLine)
    requires PrintableLine(l)
    ensures Reads(HexValue(FormatMapsLine(l)), l.start, EndOnwards(l))
    ensures EndOnwards(l) == "-" + (DigitString(l.end, 16) + PermsOnwards(l))
    ensures Reads(HexValue(DigitString(l.end, 16) + PermsOnwards(l)), l.end, PermsOnwards(l))
    ensures Reads(Prot(PermsOnwards(l)), (l.prot, l.flags), OffsetOnwards(l))
  {
    NumberFieldsRoundTrip(l.start, EndOnwards(l));
    NumberFieldsRoundTrip(l.end, PermsOnwards(l));
    ProtAfterSpace(l.prot, l.flags, OffsetOnwards(l));
  }

  /** `parser` over a line whose leading fields read as given and whose
      remainder parses to `tail`. */
  lemma EntryOfFields(line: string, s1: string, s2: string, s3: string, s4: string,
                      from: u64, to: u64, prot: bv32, flags: bv32, tail: Tail)
    requires Reads(HexValue(line), from, s1)
    requires s1 == "-" + s2
    requires Reads(HexValue(s2), to, s3)
    requires Reads(Prot(s3), (prot, flags), s4)
    requires ParseTail(s4).Some? && ParseTail(s4).value == tail
    ensures ParseEntry(line).Some?
    ensures var r := ParseEntry(line).value;
      && r.base == from && r.size == Sub64(to, from) && r.prot == prot && r.flags == flags
      && r.offset == tail.offset && r.dev == tail.dev && r.inode == tail.inode && r.file == tail.file
  {
    assert s1[1..] == s2;
  }

  /** `filepath` reads back the path a line was printed with. */
  lemma FilePathOfSuffix(p: Option<string>)
    requires PrintablePath(p)
    ensures FilePath(PathSuffix(p)).value == p
  {
    if p.Some? {
      SkipSpacesBefore(" ", p.value);
      RunLengthOfConcat(p.value, "", NotLineBreak);
      assert p.value + "" == p.value;
    }
  }

  // ---------------------------------------------------------------------
  // Whole files.

  /** Drop one trailing carriage return. */
  function StripCR(l: string): (r: string)
    ensures r == l || (|l| > 0 && l[|l| - 1] == '\r' && r == l[..|l| - 1])
  {
    if |l| > 0 && l[|l| - 1] == '\r' then l[..|l| - 1] else l
  }

  /** `str::lines` of the toolchain the source was built with: split at each
      `\n` (a final `\n` does not start another line) and drop one trailing
      `\r` from each line. */
  function Lines(s: string): (ls: seq<string>)
    ensures forall i :: 0 <= i < |ls| ==> '\n' !in ls[i]
    decreases |s|
  {
    if |s| == 0 then []
    else
      var n := RunLength(s, NotNewline);
      if n == |s| then [StripCR(s)] else [StripCR(s[..n])] + Lines(s[n + 1..])
  }

  /** Each line followed by `\n`. */
  function Unlines(ls: seq<string>): string
  {
    if |ls| == 0 then "" else ls[0] + "\n" + Unlines(ls[1..])
  }

  /** The first line of `l + "\n" + more` is `l`. */
  lemma LinesCons(l: string, more: string)
    requires '\n' !in l
    ensures Lines(l + "\n" + more) == [StripCR(l)] + Lines(more)
  {
    var s := l + "\n" + more;
    assert s == l + ("\n" + more);
    RunLengthOfConcat(l, "\n" + more, NotNewline);
    assert s[..|l|] == l;
    assert s[|l| + 1..] == more;
  }

  /** Splitting undoes joining for lines that hold no line feed and do not
      end in a carriage return. */
  lemma {:induction false} LinesOfUnlines(ls: seq<string>)
    requires forall i :: 0 <= i < |ls| ==> '\n' !in ls[i] && StripCR(ls[i]) == ls[i]
    ensures Lines(Unlines(ls)) == ls
  {
    if |ls| > 0 {
      LinesCons(ls[0], Unlines(ls[1..]));
      LinesOfUnlines(ls[1..]);
    }
  }

  /** Collecting per-line results into one result, as
      `collect::<Result<Vec<_>>>()` does: the first failure wins, reported
      here by its index. */
  function CollectAll<T>(ls: seq<string>, parse: string -> Option<T>): (r: Result<seq<T>, nat>)
    ensures r.Ok? <==> forall i :: 0 <= i < |ls| ==> parse(ls[i]).Some?
    ensures r.Ok? ==> |r.value| == |ls| && forall i :: 0 <= i < |ls| ==> parse(ls[i]).value == r.value[i]
    ensures r.Err? ==> r.error < |ls| && parse(ls[r.error]).None?
                       && forall i :: 0 <= i < r.error ==> parse(ls[i]).Some?
  {
    if |ls| == 0 then Ok([])
    else
      match parse(ls[0])
      case None => Err(0)
      case Some(e) =>
        match CollectAll(ls[1..], parse)
        case Err(k) => Err(k + 1)
        case Ok(es) => Ok([e] + es)
  }

  /** `decode_proc_maps` on the contents of the file: every line must parse,
      otherwise the whole decode fails with the index of the first line that
      does not. */
  function DecodeProcMaps(contents: string): (r: Result<seq<ProcMapsEntry>, nat>)
    ensures r.Err? ==> r.error < |Lines(contents)| && ParseEntry(Lines(contents)[r.error]).None?
    ensures r.Ok? ==>
      && |r.value| == |Lines(contents)|
      && forall i :: 0 <= i < |r.value| ==> ParseEntry(Lines(contents)[i]) == Some(r.value[i])
  {
    CollectAll(Lines(contents), ParseEntry)
  }

  /** A text with no line break in it. */
  predicate SingleLine(s: string)
  {
    forall i :: 0 <= i < |s| ==> NotLineBreak(s[i])
  }

  /** Digits are not line breaks. */
  lemma DigitsSingleLine(n: nat, radix: nat)
    requires radix == 10 || radix == 16
    ensures SingleLine(DigitString(n, radix))
  {
    DigitStringValue(n, radix);
  }

  lemma InodeSingleLine(l: MapsLine)
    requires PrintableLine(l)
    ensures SingleLine(InodeOnwards(l))
  {
    DigitsSingleLine(l.inode, 10);
  }

  lemma DevSingleLine(l: MapsLine)
    requires PrintableLine(l)
    ensures SingleLine(DevOnwards(l))
  {
    InodeSingleLine(l);
  }

  lemma OffsetSingleLine(l: MapsLine)
    requires PrintableLine(l)
    ensures SingleLine(OffsetOnwards(l))
  {
    DevSingleLine(l);
    DigitsSingleLine(l.offset, 16);
  }

  lemma PermsSingleLine(l: MapsLine)
    requires PrintableLine(l)
    ensures SingleLine(PermsOnwards(l))
  {
    OffsetSingleLine(l);
  }

  /** A printed line holds no line break, so it is one line of the file. */
  lemma FormattedLineIsSingle(l: MapsLine)
    requires PrintableLine(l)
    ensures SingleLine(FormatMapsLine(l))
    ensures '\n' !in FormatMapsLine(l) && StripCR(FormatMapsLine(l)) == FormatMapsLine(l)
  {
    PermsSingleLine(l);
    DigitsSingleLine(l.end, 16);
    DigitsSingleLine(l.start, 16);
    assert SingleLine(EndOnwards(l));
    var s := FormatMapsLine(l);
    assert SingleLine(s);
    assert |s| > 0 && s[|s| - 1] != '\r';
  }

  /** The lines of a maps file printed from `ls`. */
  function FormattedLines(ls: seq<MapsLine>): (r: seq<string>)
    ensures |r| == |ls|
  {
    if |ls| == 0 then [] else [FormatMapsLine(ls[0])] + FormattedLines(ls[1..])
  }

  /** The maps file printed from `ls`, one line each. */
  function FormatProcMaps(ls: seq<MapsLine>): string
  {
    Unlines(FormattedLines(ls))
  }

  /** The entries the lines `ls` describe. */
  function Entries(ls: seq<MapsLine>): (r: seq<ProcMapsEntry>)
    ensures |r| == |ls|
  {
    if |ls| == 0 then [] else [EntryOf(ls[0])] + Entries(ls[1..])
  }

  /** Every printed line parses to the entry it was printed from. */
  lemma {:induction false} CollectFormattedLines(ls: seq<MapsLine>)
    requires forall i :: 0 <= i < |ls| ==> PrintableLine(ls[i])
    ensures CollectAll(FormattedLines(ls), ParseEntry) == Ok(Entries(ls))
  {
    if |ls| > 0 {
      ParseFormattedLine(ls[0]);
      CollectFormattedLines(ls[1..]);
      assert FormattedLines(ls)[1..] == FormattedLines(ls[1..]);
    }
  }

  /** The printed lines are exactly the lines the file splits into. */
  lemma {:induction false} LinesOfFormatted(ls: seq<MapsLine>)
    requires forall i :: 0 <= i < |ls| ==> PrintableLine(ls[i])
    ensures Lines(FormatProcMaps(ls)) == FormattedLines(ls)
  {
    var fs := FormattedLines(ls);
    forall i | 0 <= i < |fs|
      ensures '\n' !in fs[i] && StripCR(fs[i]) == fs[i]
    {
      FormattedLineAt(ls, i);
    }
    LinesOfUnlines(fs);
  }

  lemma FormattedLineAt(ls: seq<MapsLine>, i: nat)
    requires forall j :: 0 <= j < |ls| ==> PrintableLine(ls[j])
    requires i < |ls|
    ensures '\n' !in FormattedLines(ls)[i] && StripCR(FormattedLines(ls)[i]) == FormattedLines(ls)[i]
  {
    FormattedLineIndex(ls, i);
    FormattedLineIsSingle(ls[i]);
  }

  lemma {:induction false} FormattedLineIndex(ls: seq<MapsLine>, i: nat)
    requires i < |ls|
    ensures FormattedLines(ls)[i] == FormatMapsLine(ls[i])
    decreases i
  {
    if i > 0 {
      FormattedLineIndex(ls[1..], i - 1);
    }
  }

  /** Decoding a maps file printed from well-formed lines gives back one
      entry per line, in order, each the entry the line describes. */
  lemma DecodeFormattedMaps(ls: seq<MapsLine>)
    requires forall i :: 0 <= i < |ls| ==> PrintableLine(ls[i])
    ensures DecodeProcMaps(FormatProcMaps(ls)) == Ok(Entries(ls))
  {
    LinesOfFormatted(ls);
    CollectFormattedLines(ls);
  }

  // ---------------------------------------------------------------------
  // Task state.

  /** The kernel's task states (3.13 and later), as `LinuxTaskState`. */
  datatype LinuxTaskState =
    | Running
    | SleepInterruptible
    | SleepUninterruptible
    | Zombie
    | Stopped
    | Ptraced
    | Dead

  /** `str::split_whitespace`: the maximal runs of non-whitespace. */
  function Tokens(s: string): (ts: seq<string>)
    ensures forall i :: 0 <= i < |ts| ==> |ts[i]| > 0
    decreases |s|
  {
    var t := SkipSpaces(s);
    if |t| == 0 then []
    else
      var n := RunLength(t, NotWhitespace);
      [t[..n]] + Tokens(t[n..])
  }

  /** A word followed by whitespace (or nothing) is the first token. */
  lemma TokensCons(w: string, rest: string)
    requires |w| > 0 && forall i :: 0 <= i < |w| ==> !IsWhitespace(w[i])
    requires |rest| == 0 || IsWhitespace(rest[0])
    ensures Tokens(w + rest) == [w] + Tokens(rest)
  {
    SkipSpacesBefore("", w + rest);
    assert "" + (w + rest) == w + rest;
    RunLengthOfConcat(w, rest, NotWhitespace);
    assert (w + rest)[..|w|] == w && (w + rest)[|w|..] == rest;
  }

  /** The status letter of each state. */
  function StateLetter(st: LinuxTaskState): string
  {
    match st
    case Running => "R"
    case SleepInterruptible => "S"
    case SleepUninterruptible => "D"
    case Stopped => "T"
    case Ptraced => "t"
    case Dead => "X"
    case Zombie => "Z"
  }

  /** The match on the second token of the state line. */
  function StateOfToken(tok: string): (r: Option<LinuxTaskState>)
    ensures r.Some? ==> StateLetter(r.value) == tok
  {
    if tok == "R" then Some(Running)
    else if tok == "S" then Some(SleepInterruptible)
    else if tok == "D" then Some(SleepUninterruptible)
    else if tok == "T" then Some(Stopped)
    else if tok == "t" then Some(Ptraced)
    else if tok == "X" then Some(Dead)
    else if tok == "Z" then Some(Zombie)
    else None
  }

  /** The seven letters and the seven states correspond one to one. */
  lemma StateLettersBijective(st: LinuxTaskState, tok: string)
    ensures StateOfToken(StateLetter(st)) == Some(st)
    ensures StateOfToken(tok).Some? <==> tok in {"R", "S", "D", "T", "t", "X", "Z"}
  {
  }

  /** `proc_get_task_state` on the contents of the status file: the second
      whitespace-separated token of the third line. */
  function ProcTaskState(contents: string): (r: Option<LinuxTaskState>)
    ensures r.Some? ==>
      var ls := Lines(contents);
      |ls| >= 3 && |Tokens(ls[2])| >= 2 && Tokens(ls[2])[1] == StateLetter(r.value)
  {
    var ls := Lines(contents);
    if |ls| < 3 then None
    else
      var toks := Tokens(ls[2]);
      if |toks| < 2 then None else StateOfToken(toks[1])
  }

  /** The third line of `l0 \n l1 \n line \n more` is `line`. */
  lemma StatusLines(l0: string, l1: string, line: string, more: string)
    requires '\n' !in l0 && '\n' !in l1 && '\n' !in line && StripCR(line) == line
    ensures var ls := Lines(l0 + "\n" + l1 + "\n" + line + "\n" + more);
      |ls| >= 3 && ls[2] == line
  {
    var contents := l0 + "\n" + l1 + "\n" + line + "\n" + more;
    assert contents == l0 + "\n" + (l1 + "\n" + line + "\n" + more);
    assert l1 + "\n" + line + "\n" + more == l1 + "\n" + (line + "\n" + more);
    LinesCons(l0, l1 + "\n" + line + "\n" + more);
    LinesCons(l1, line + "\n" + more);
    LinesCons(line, more);
  }

  /** Leading whitespace before a word does not change the tokens. */
  lemma TokensAfterSpaces(ws: string, t: string)
    requires forall i :: 0 <= i < |ws| ==> IsWhitespace(ws[i])
    requires |t| == 0 || !IsWhitespace(t[0])
    ensures Tokens(ws + t) == Tokens(t)
  {
    SkipSpacesBefore(ws, t);
    SkipSpacesBefore("", t);
    assert "" + t == t;
  }

  /** A state letter is one character, not a space. */
  lemma LetterIsWord(st: LinuxTaskState)
    ensures |StateLetter(st)| == 1 && !IsWhitespace(StateLetter(st)[0])
  {
  }

  /** `State:` holds no whitespace. */
  lemma LabelIsWord()
    ensures |"State:"| > 0 && forall i :: 0 <= i < |"State:"| ==> !IsWhitespace("State:"[i])
  {
  }

  /** The tokens of `State:<TAB><letter><detail>` are `State:`, the letter,
      and whatever follows. */
  lemma StateLineTokens(st: LinuxTaskState, detail: string)
    requires |detail| == 0 || IsWhitespace(detail[0])
    ensures var toks := Tokens("State:\t" + StateLetter(st) + detail);
      |toks| >= 2 && toks[1] == StateLetter(st)
  {
    LetterIsWord(st);
    LabelledWord(StateLetter(st), detail);
  }

  /** The second token of `State:<TAB><w><detail>` is the word `w`. */
  lemma LabelledWord(w: string, detail: string)
    requires |w| > 0 && forall i :: 0 <= i < |w| ==> !IsWhitespace(w[i])
    requires |detail| == 0 || IsWhitespace(detail[0])
    ensures var toks := Tokens("State:\t" + w + detail);
      |toks| >= 2 && toks[1] == w
  {
    LabelIsWord();
    TabSplits();
    SecondToken("State:", "\t", w, detail);
  }

  /** The label and the tab that follows it. */
  lemma TabSplits()
    ensures "State:\t" == "State:" + "\t"
    ensures |"\t"| == 1 && IsWhitespace("\t"[0])
  {
  }

  /** After a word and a run of whitespace, the next word is the second
      token. */
  lemma SecondToken(head: string, sep: string, w: string, detail: string)
    requires |head| > 0 && forall i :: 0 <= i < |head| ==> !IsWhitespace(head[i])
    requires |sep| > 0 && forall i :: 0 <= i < |sep| ==> IsWhitespace(sep[i])
    requires |w| > 0 && forall i :: 0 <= i < |w| ==> !IsWhitespace(w[i])
    requires |detail| == 0 || IsWhitespace(detail[0])
    ensures var toks := Tokens(head + sep + w + detail);
      |toks| >= 2 && toks[0] == head && toks[1] == w
  {
    var t := w + detail;
    Regroup(head, sep, w, detail);
    WordThenSpaces(head, sep, t);
    TokensCons(w, detail);
  }

  lemma Regroup(a: string, b: string, c: string, d: string)
    ensures a + b + c + d == a + (b + (c + d))
  {
  }

  /** A word followed by whitespace is the first token, and the tokens
      after it are those of what follows the whitespace. */
  lemma WordThenSpaces(head: string, sep: string, t: string)
    requires |head| > 0 && forall i :: 0 <= i < |head| ==> !IsWhitespace(head[i])
    requires |sep| > 0 && forall i :: 0 <= i < |sep| ==> IsWhitespace(sep[i])
    requires |t| == 0 || !IsWhitespace(t[0])
    ensures Tokens(head + (sep + t)) == [head] + Tokens(t)
  {
    var st := sep + t;
    assert st[0] == sep[0];
    TokensCons(head, st);
    TokensAfterSpaces(sep, t);
  }

  /** A status file whose third line reads `State:<TAB><letter> ...`
      decodes to the state of that letter. */
  lemma ReadsStateLine(l0: string, l1: string, st: LinuxTaskState, detail: string, more: string)
    requires '\n' !in l0 && '\n' !in l1
    requires |detail| == 0 || IsWhitespace(detail[0])
    requires '\n' !in detail && '\r' !in detail
    ensures ProcTaskState(l0 + "\n" + l1 + "\n" + "State:\t" + StateLetter(st) + detail + "\n" + more) == Some(st)
  {
    var line := "State:\t" + StateLetter(st) + detail;
    assert '\n' !in line;
    assert StripCR(line) == line by {
      assert |line| > 0 && line[|line| - 1] != '\r';
    }
    assert l0 + "\n" + l1 + "\n" + "State:\t" + StateLetter(st) + detail + "\n" + more
        == l0 + "\n" + l1 + "\n" + line + "\n" + more;
    StatusLines(l0, l1, line, more);
    StateLineTokens(st, detail);
    StateLettersBijective(st, "");
  }

  /** A status file of fewer than three lines has no state line. */
  lemma ShortStatusReadsNothing(l0: string, l1: string)
    requires '\n' !in l0 && '\n' !in l1
    ensures ProcTaskState(l0) == None
    ensures ProcTaskState(l0 + "\n" + l1) == None
  {
    LinesCons(l0, l1);
    if |l1| == 0 {
      assert Lines(l1) == [];
    } else {
      assert RunLength(l1, NotNewline) == |l1| by {
        RunLengthOfConcat(l1, "", NotNewline);
        assert l1 + "" == l1;
      }
    }
    if |l0| == 0 {
      assert Lines(l0) == [];
    } else {
      assert RunLength(l0, NotNewline) == |l0| by {
        RunLengthOfConcat(l0, "", NotNewline);
        assert l0 + "" == l0;
      }
    }
  }
}
