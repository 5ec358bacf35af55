/**
 * Decimal formatting and the error-name table (kernel/src/lib/ascii.c).
 *
 * int_to_ascii writes the digits least significant first and never
 * reverses them: 123 becomes "321", -45 becomes "54-".
 */
module Ascii {
  import opened Kernel

  const NUL: u8 := 0
  const CHAR_0: u8 := 0x30
  const CHAR_MINUS: u8 := 0x2D
  const INT_MIN: int := -0x8000_0000
  const INT_MAX: int := 0x7FFF_FFFF

  /** The digit characters the do-while loop writes for `m`: at least one. */
  function Digits(m: nat): (r: seq<u8>)
    ensures |r| >= 1
  {
    [(CHAR_0 as int + m % 10) as u8] + (if m / 10 > 0 then Digits(m / 10) else [])
  }

  /** The characters int_to_ascii writes for `n`, its NUL included. */
  function AsciiOf(n: int): seq<u8> {
    Digits(if n < 0 then -n else n) + (if n < 0 then [CHAR_MINUS] else []) + [NUL]
  }

  /** 10^i, the place value of decimal digit `i`: positive and above `i`. */
  function Pow10(i: nat): (r: nat)
    ensures 0 < r && i < r
  {
    if i == 0 then 1 else 10 * Pow10(i - 1)
  }

  /** Character `i` is '0' + (m / 10^i) % 10. */
  lemma {:induction false} DigitsAt(m: nat, i: nat)
    requires i < |Digits(m)|
    ensures Digits(m)[i] as int == CHAR_0 as int + (m / Pow10(i)) % 10
  {
    if i > 0 {
      DigitsAt(m / 10, i - 1);
      DivDiv(m, 10, Pow10(i - 1));
    }
  }

  /** The number of digits is the least `d >= 1` with m < 10^d. */
  lemma {:induction false} DigitsLength(m: nat)
    ensures m < Pow10(|Digits(m)|)
    ensures |Digits(m)| == 1 || m >= Pow10(|Digits(m)| - 1)
  {
    if m / 10 > 0 {
      DigitsLength(m / 10);
    }
  }

  /** A number below 10^d, for d >= 1, has at most d digits. */
  lemma {:induction false} DigitsBound(m: nat, d: nat)
    requires 1 <= d && m < Pow10(d)
    ensures |Digits(m)| <= d
  {
    if m / 10 > 0 {
      DigitsBound(m / 10, d - 1);
    }
  }

  /** 10^i is below 10^j only when i is below j. */
  lemma {:induction false} Pow10Below(i: nat, j: nat)
    requires Pow10(i) < Pow10(j)
    ensures i < j
  {
    if i > 0 && j > 0 {
      Pow10Below(i - 1, j - 1);
    }
  }

  /** The digit count of `m` is the `d >= 1` with 10^(d-1) <= m < 10^d, and no other. */
  lemma DigitsLengthUnique(m: nat, d: nat)
    requires d >= 1 && m < Pow10(d) && (d == 1 || Pow10(d - 1) <= m)
    ensures |Digits(m)| == d
  {
    DigitsBound(m, d);
    DigitsLength(m);
    if d > 1 {
      Pow10Below(d - 1, |Digits(m)|);
    }
  }

  /** A magnitude up to 2^31 has at most ten digits. */
  lemma DigitsOfInt32(m: nat)
    requires m <= -INT_MIN
    ensures |Digits(m)| <= 10
  {
    assert Pow10(10) == 10_000_000_000;
    DigitsBound(m, 10);
  }

  /** int_to_ascii writes at most 12 bytes: ten digits, a sign and the NUL. */
  lemma AsciiOfInt32(n: int)
    requires INT_MIN <= n <= INT_MAX
    ensures |AsciiOf(n)| <= 12
  {
    AsciiOfShape(n);
    DigitsOfInt32(if n < 0 then -n else n);
  }

  /** The value of digits stored least significant first. */
  function ValueLsdFirst(s: seq<u8>): int {
    if |s| == 0 then 0 else (s[0] as int - CHAR_0 as int) + 10 * ValueLsdFirst(s[1..])
  }

  /** Read least significant first, the digits give back the number. */
  lemma {:induction false} DigitsRoundTrip(m: nat)
    ensures ValueLsdFirst(Digits(m)) == m
  {
    var r := Digits(m);
    assert r[1..] == (if m / 10 > 0 then Digits(m / 10) else []);
    if m / 10 > 0 {
      DigitsRoundTrip(m / 10);
    }
  }

  /**
   * 0 becomes "0"; for other `n` the output is the digits of |n|, a '-'
   * after them when `n` is negative, and the NUL right after that.
   */
  lemma AsciiOfShape(n: int)
    ensures AsciiOf(0) == [CHAR_0, NUL]
    ensures |AsciiOf(n)| == |Digits(if n < 0 then -n else n)| + (if n < 0 then 1 else 0) + 1
    ensures AsciiOf(n)[|AsciiOf(n)| - 1] == NUL
    ensures n < 0 ==> AsciiOf(n)[|AsciiOf(n)| - 2] == CHAR_MINUS
    ensures forall i :: 0 <= i < |AsciiOf(n)| - 1 ==> AsciiOf(n)[i] != NUL
  {
    var m := if n < 0 then -n else n;
    DigitsAreDigits(m);
  }

  lemma {:induction false} DigitsAreDigits(m: nat)
    ensures forall i :: 0 <= i < |Digits(m)| ==> CHAR_0 <= Digits(m)[i] <= CHAR_0 + 9
  {
    if m / 10 > 0 {
      DigitsAreDigits(m / 10);
    }
  }

  /** `out` holds `w` at `at` and agrees with `s0` everywhere else. */
  ghost predicate WrittenAt(out: seq<u8>, s0: seq<u8>, at: nat, w: seq<u8>) {
    |out| == |s0| && at + |w| <= |out|
    && (forall j :: 0 <= j < |w| ==> out[at + j] == w[j])
    && (forall j :: 0 <= j < |out| && !(at <= j < at + |w|) ==> out[j] == s0[j])
  }

  /** Where the digits of `k` are what is left of those of `m`, the next one is the last digit of `k`. */
  lemma DigitsStep(m: nat, k: nat, i: nat)
    requires i <= |Digits(m)| && Digits(m)[i..] == Digits(k)
    ensures i < |Digits(m)| && Digits(m)[i] == (CHAR_0 as int + k % 10) as u8
    ensures k / 10 > 0 ==> Digits(m)[i + 1..] == Digits(k / 10)
    ensures k / 10 == 0 ==> i + 1 == |Digits(m)|
  {
    assert Digits(m)[i] == Digits(k)[0];
    assert Digits(m)[i + 1..] == Digits(k)[1..];
  }

  /** The do-while loop of int_to_ascii: the digits of `m`, least significant first. */
  method WriteDigits(str: array<u8>, at: nat, m: nat) returns (i: nat)
    requires at + |Digits(m)| <= str.Length
    modifies str
    ensures i == |Digits(m)| && WrittenAt(str[..], old(str[..]), at, Digits(m))
  {
    ghost var s0 := str[..];
    var k := m;
    i := 0;
    while true
      invariant i <= |Digits(m)| && Digits(m)[i..] == Digits(k)
      invariant forall j :: at <= j < at + i ==> str[j] == Digits(m)[j - at]
      invariant forall j :: 0 <= j < str.Length && !(at <= j < at + i) ==> str[j] == s0[j]
      decreases k
    {
      DigitsStep(m, k, i);
      str[at + i] := (CHAR_0 as int + k % 10) as u8;
      i := i + 1;
      k := k / 10;
      if k == 0 {
        break;
      }
    }
  }

  /**
   * int_to_ascii: `n > INT_MIN`, since `-n` overflows for INT_MIN.  The
   * digits are followed by the sign, if any, and the NUL.
   */
  method IntToAscii(n: int, str: array<u8>, at: nat)
    requires INT_MIN < n <= INT_MAX
    requires at + |AsciiOf(n)| <= str.Length
    modifies str
    ensures WrittenAt(str[..], old(str[..]), at, AsciiOf(n))
  {
    var sign := n;
    var m := if n < 0 then -n else n;
    var i := WriteDigits(str, at, m);
    ghost var w := Digits(m);
    if sign < 0 {
      str[at + i] := CHAR_MINUS;
      i := i + 1;
      w := w + [CHAR_MINUS];
    }
    str[at + i] := NUL;
    w := w + [NUL];
    assert w == AsciiOf(n);
  }

  /** ErrorString: the names of status codes 0 to 9, indexed by code. */
  const ERROR_STRINGS: seq<string> := ["EOK", "EIO", "EINVARG", "ENOMEM", "EBADPATH",
                                       "EFSNOTUS", "ERDONLY", "EUNIMP", "EISTKN", "EINFORMAT"]

  /**
   * string_error: the name of a status code.  The table stops at EINFORMAT,
   * so the code must be below 10; EHRDWRE (10) would index past it.
   */
  function StringError(e: u32): (r: string)
    requires (e as int) < |ERROR_STRINGS|
    ensures |r| >= 3 && r[0] == 'E'
  {
    ERROR_STRINGS[e]
  }

  /** Distinct codes have distinct names, and EHRDWRE is the first code without one. */
  lemma StringErrorNames(a: u32, b: u32)
    requires (a as int) < |ERROR_STRINGS| && (b as int) < |ERROR_STRINGS|
    ensures StringError(a) == StringError(b) <==> a == b
    ensures StringError(EOK) == "EOK" && StringError(EINFORMAT) == "EINFORMAT"
    ensures EHRDWRE as int == |ERROR_STRINGS|
  { }
}
