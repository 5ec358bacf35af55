/**
 * Hexadecimal formatting (kernel/src/lib/cast.c): a 32-bit value becomes
 * eight uppercase hex digits, most significant first, and a NUL.
 */
module Cast {
  import opened Kernel

  const NUL: u8 := 0
  /** "0123456789ABCDEF". */
  const HEX_CHARS: seq<u8> := [0x30, 0x31, 0x32, 0x33, 0x34, 0x35, 0x36, 0x37,
                               0x38, 0x39, 0x41, 0x42, 0x43, 0x44, 0x45, 0x46]
  const HEX_LENGTH: nat := 9

  /** `v >> 4i`: `v` with its `i` lowest nibbles shifted out. */
  function Shift(v: nat, i: nat): nat {
    if i == 0 then v else Shift(v, i - 1) / 16
  }

  /** 16^i, the place value of hex digit `i`: positive and above `i`. */
  function Pow16(i: nat): (r: nat)
    ensures 0 < r && i < r
  {
    if i == 0 then 1 else 16 * Pow16(i - 1)
  }

  /** Shifting out `i` nibbles divides by 16^i. */
  lemma {:induction false} ShiftDivides(v: nat, i: nat)
    ensures Shift(v, i) == v / Pow16(i)
  {
    if i > 0 {
      ShiftDivides(v, i - 1);
      DivDiv(v, Pow16(i - 1), 16);
      assert Pow16(i - 1) * 16 == Pow16(i);
    }
  }

  /** All eight nibbles shifted out of a 32-bit value leave 0. */
  lemma ShiftAll(v: u32)
    ensures Shift(v as nat, 8) == 0
  {
    ShiftDivides(v as nat, 8);
    assert Pow16(8) == 0x1_0000_0000;
  }

  /** The characters uint32_to_hex_string writes: digit `k` is nibble 7 - k, then NUL. */
  function HexString(v: u32): seq<u8> {
    seq(8, k requires 0 <= k < 8 => HEX_CHARS[Shift(v as nat, 7 - k) % 16]) + [NUL]
  }

  predicate IsHexDigit(c: u8) {
    0x30 <= c <= 0x39 || 0x41 <= c <= 0x46
  }

  /** The value of an uppercase hex digit. */
  function DigitValue(c: u8): nat {
    if 0x30 <= c <= 0x39 then (c - 0x30) as nat
    else if 0x41 <= c <= 0x46 then (c - 0x41) as nat + 10
    else 0
  }

  /** Digits read in base 16, most significant first. */
  function ParseHex(s: seq<u8>): nat {
    if |s| == 0 then 0 else ParseHex(s[..|s| - 1]) * 16 + DigitValue(s[|s| - 1])
  }

  /** Nine characters: eight uppercase hex digits and a terminating NUL. */
  lemma HexStringShape(v: u32)
    ensures |HexString(v)| == HEX_LENGTH && HexString(v)[8] == NUL
    ensures forall k :: 0 <= k < 8 ==> IsHexDigit(HexString(v)[k])
  { }

  /** Each digit character stands for its nibble. */
  lemma DigitValueOfNibble(d: nat)
    requires d < 16
    ensures DigitValue(HEX_CHARS[d]) == d
  {
    if d < 10 {
      assert HEX_CHARS[d] as int == 0x30 + d;
    } else {
      assert HEX_CHARS[d] as int == 0x41 + d - 10;
    }
  }

  /** The first `m` digits read back give the value without its last 8 - m nibbles. */
  lemma {:induction false} PrefixValue(v: u32, m: nat)
    requires m <= 8
    ensures ParseHex(HexString(v)[..m]) == Shift(v as nat, 8 - m)
  {
    if m == 0 {
      ShiftAll(v);
    } else {
      PrefixValue(v, m - 1);
      var s := HexString(v)[..m];
      assert s[..m - 1] == HexString(v)[..m - 1];
      var x := Shift(v as nat, 8 - m);
      assert s[m - 1] == HEX_CHARS[x % 16];
      DigitValueOfNibble(x % 16);
      assert Shift(v as nat, 9 - m) == x / 16;
      assert ParseHex(s) == ParseHex(s[..m - 1]) * 16 + DigitValue(s[m - 1]);
      assert (x / 16) * 16 + x % 16 == x;
    }
  }

  /** Reading the eight digits in base 16 gives back the value. */
  lemma HexRoundTrip(v: u32)
    ensures ParseHex(HexString(v)[..8]) == v as nat
  {
    PrefixValue(v, 8);
  }

  /** Every string of hex digits reads back below 16^length. */
  lemma {:induction false} ParseHexBound(s: seq<u8>)
    requires forall k :: 0 <= k < |s| ==> IsHexDigit(s[k])
    ensures ParseHex(s) < Pow16(|s|)
  {
    if |s| > 0 {
      ParseHexBound(s[..|s| - 1]);
      assert DigitValue(s[|s| - 1]) < 16;
    }
  }

  /** Reading a string in base 16 is reading its first `m` digits, scaled, plus the rest. */
  lemma {:induction false} ParseHexSplit(s: seq<u8>, m: nat)
    requires m <= |s|
    ensures ParseHex(s) == ParseHex(s[..m]) * Pow16(|s| - m) + ParseHex(s[m..])
  {
    if m == |s| {
      assert s[..m] == s && s[m..] == [];
    } else {
      var t := s[..|s| - 1];
      var d := DigitValue(s[|s| - 1]);
      ParseHexSplit(t, m);
      assert t[..m] == s[..m];
      var r := s[m..];
      assert r[..|r| - 1] == t[m..] && r[|r| - 1] == s[|s| - 1];
      ParseHexLast(r);
      ParseHexLast(s);
      Rescale(ParseHex(s[..m]), Pow16(|t| - m), ParseHex(t[m..]), d);
    }
  }

  /** One unfolding of ParseHex on a non-empty string. */
  lemma ParseHexLast(s: seq<u8>)
    requires |s| > 0
    ensures ParseHex(s) == ParseHex(s[..|s| - 1]) * 16 + DigitValue(s[|s| - 1])
  { }

  lemma Rescale(a: nat, p: nat, b: nat, d: nat)
    ensures (a * p + b) * 16 + d == a * (16 * p) + (b * 16 + d)
  { }

  /** The digit the string shows for each nibble is the hex digit it was read from. */
  lemma HexCharOfValue(c: u8)
    requires IsHexDigit(c)
    ensures DigitValue(c) < 16 && HEX_CHARS[DigitValue(c)] == c
  { }

  /**
   * Parsing eight hex digits and formatting the value gives the digits
   * back: with HexRoundTrip, HexString is a bijection between 32-bit
   * values and eight-digit uppercase hex strings.
   */
  lemma ParseThenFormat(s: seq<u8>)
    requires |s| == 8 && forall k :: 0 <= k < 8 ==> IsHexDigit(s[k])
    ensures ParseHex(s) < TWO_32 && HexString(ParseHex(s) as u32)[..8] == s
  {
    ParseHexBound(s);
    assert Pow16(8) == TWO_32;
    var v := ParseHex(s) as u32;
    forall k | 0 <= k < 8 ensures HexString(v)[k] == s[k] {
      FormattedDigit(s, v, k);
    }
  }

  /** Digit `k` of the formatted value is digit `k` of the string it was parsed from. */
  lemma FormattedDigit(s: seq<u8>, v: u32, k: nat)
    requires |s| == 8 && forall k :: 0 <= k < 8 ==> IsHexDigit(s[k])
    requires v as nat == ParseHex(s) && k < 8
    ensures HexString(v)[k] == s[k]
  {
    ShiftOfParsed(s, k);
    var pre := s[..k + 1];
    assert pre[..k] == s[..k] && pre[k] == s[k];
    ParseHexLast(pre);
    var d := DigitValue(s[k]);
    HexCharOfValue(s[k]);
    LastDigit(ParseHex(s[..k]), d);
    var x := Shift(v as nat, 7 - k);
    assert x % 16 == d;
    HexStringAt(v, k);
  }

  lemma HexStringAt(v: u32, k: nat)
    requires k < 8
    ensures HexString(v)[k] == HEX_CHARS[Shift(v as nat, 7 - k) % 16]
  { }

  /** Shifting out the last `7 - k` nibbles of a parsed value leaves its first `k + 1` digits' value. */
  lemma ShiftOfParsed(s: seq<u8>, k: nat)
    requires |s| == 8 && forall k :: 0 <= k < 8 ==> IsHexDigit(s[k])
    requires k < 8
    ensures Shift(ParseHex(s), 7 - k) == ParseHex(s[..k + 1])
  {
    ParseHexSplit(s, k + 1);
    ParseHexBound(s[k + 1..]);
    ShiftOfSum(ParseHex(s), ParseHex(s[..k + 1]), ParseHex(s[k + 1..]), 7 - k);
  }

  /** Shifting `a * 16^n + b` with `b < 16^n` by `n` nibbles leaves `a`. */
  lemma ShiftOfSum(x: nat, a: nat, b: nat, n: nat)
    requires x == a * Pow16(n) + b && b < Pow16(n)
    ensures Shift(x, n) == a
  {
    DivUnique(x, Pow16(n), a, b);
    ShiftDivides(x, n);
  }

  lemma LastDigit(x: nat, d: nat)
    requires d < 16
    ensures (x * 16 + d) % 16 == d
  { }

  /**
   * uint32_to_hex_string: writes the nine characters of HexString(value)
   * at `at`, one digit per loop step from nibble 7 down to nibble 0.
   */
  method Uint32ToHexString(value: u32, out: array<u8>, at: nat)
    requires at + HEX_LENGTH <= out.Length
    modifies out
    ensures out[..] == old(out[..])[..at] + HexString(value) + old(out[..])[at + HEX_LENGTH..]
  {
    var p := at;
    var i := 7;
    while i >= 0
      invariant -1 <= i <= 7 && p == at + 7 - i
      invariant forall j :: 0 <= j < out.Length && !(at <= j < p) ==> out[j] == old(out[j])
      invariant forall j :: at <= j < p ==> out[j] == HexString(value)[j - at]
    {
      var nibble := Shift(value as nat, i) % 16;
      out[p] := HEX_CHARS[nibble];
      p := p + 1;
      i := i - 1;
    }
    out[p] := NUL;
    assert out[..] == old(out[..])[..at] + HexString(value) + old(out[..])[at + HEX_LENGTH..];
  }
}
