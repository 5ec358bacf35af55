/**
 * Definitions shared by the whole kernel model: the fixed-width integer
 * types of the i686 target, the kernel's status codes, the page size and
 * the outcome of an operation that may end in a kernel panic.
 */
module Kernel {

  newtype u8 = x: int | 0 <= x < 0x100
  newtype u16 = x: int | 0 <= x < 0x1_0000
  newtype u32 = x: int | 0 <= x < 0x1_0000_0000
  newtype u64 = x: int | 0 <= x < 0x1_0000_0000_0000_0000

  const TWO_32: int := 0x1_0000_0000
  const PAGE_SIZE: int := 4096

  // Status codes returned by kernel functions (kernel/include/kernel/types.h).
  const EOK: u32 := 0
  const EIO: u32 := 1
  const EINVARG: u32 := 2
  const ENOMEM: u32 := 3
  const EBADPATH: u32 := 4
  const EFSNOTUS: u32 := 5
  const ERDONLY: u32 := 6
  const EUNIMP: u32 := 7
  const EISTKN: u32 := 8
  const EINFORMAT: u32 := 9
  const EHRDWRE: u32 := 10

  /** Reduction of an integer to an unsigned 32-bit value, as C's uint32_t arithmetic does. */
  function Wrap32(x: int): (r: u32)
    ensures r as int == x % TWO_32
  {
    (x % TWO_32) as u32
  }

  /** A value that fits in 32 bits is its own reduction. */
  lemma Wrap32Small(x: int)
    requires 0 <= x < TWO_32
    ensures Wrap32(x) as int == x
  {
  }

  /** Reduction of an integer to an unsigned 16-bit value. */
  function Wrap16(x: int): (r: u16)
    ensures r as int == x % 0x1_0000
  {
    (x % 0x1_0000) as u16
  }

  /** Reduction of an integer to an unsigned 8-bit value (a cast to uint8_t or char). */
  function Wrap8(x: int): (r: u8)
    ensures r as int == x % 0x100
  {
    (x % 0x100) as u8
  }

  /** `-code` as the uint32_t that functions such as paging_map return. */
  function Negate(code: u32): (r: u32)
    ensures code != 0 ==> r as int == TWO_32 - code as int
  {
    Wrap32(-(code as int))
  }

  /** A little-endian uint32_t at byte `o`. */
  function LE32(s: seq<u8>, o: nat): u32
    requires o + 4 <= |s|
  {
    (s[o] as int + 0x100 * s[o + 1] as int + 0x1_0000 * s[o + 2] as int + 0x100_0000 * s[o + 3] as int) as u32
  }

  /** Equal bytes read the same uint32_t. */
  lemma LE32Same(s: seq<u8>, o: nat, t: seq<u8>, p: nat)
    requires o + 4 <= |s| && p + 4 <= |t|
    requires s[o] == t[p] && s[o + 1] == t[p + 1] && s[o + 2] == t[p + 2] && s[o + 3] == t[p + 3]
    ensures LE32(s, o) == LE32(t, p)
  {
  }

  /** The four little-endian bytes of `x`. */
  function Bytes32(x: u32): (r: seq<u8>)
    ensures |r| == 4
  {
    [(x % 0x100) as u8, (x / 0x100 % 0x100) as u8, (x / 0x1_0000 % 0x100) as u8, (x / 0x100_0000) as u8]
  }

  lemma {:induction false} LE32OfBytes(x: u32)
    ensures LE32(Bytes32(x), 0) == x
  {
    var q1 := x as int / 0x100;
    var q2 := q1 / 0x100;
    var q3 := q2 / 0x100;
    assert x as int == x as int % 0x100 + 0x100 * q1;
    assert q1 == q1 % 0x100 + 0x100 * q2;
    assert q2 == q2 % 0x100 + 0x100 * q3;
    assert q2 == x as int / 0x1_0000 && q3 == x as int / 0x100_0000;
  }

  /** A little-endian uint16_t at byte `o`. */
  function LE16(s: seq<u8>, o: nat): u16
    requires o + 2 <= |s|
  {
    (s[o] as int + 0x100 * s[o + 1] as int) as u16
  }

  /** The two little-endian bytes of `x`. */
  function Bytes16(x: u16): (r: seq<u8>)
    ensures |r| == 2
  {
    [(x % 0x100) as u8, (x / 0x100) as u8]
  }

  lemma LE16OfBytes(x: u16)
    ensures LE16(Bytes16(x), 0) == x
  {
    assert x as int == x as int % 0x100 + 0x100 * (x as int / 0x100);
  }

  /** A product with a positive factor of at least one is at least the other factor. */
  lemma MulAtLeast(p: int, k: int)
    requires p > 0 && k >= 1
    ensures p * k >= p
  { }

  /** Division is determined by a quotient and remainder in range. */
  lemma DivUnique(x: int, p: int, q: int, s: int)
    requires p > 0 && x == p * q + s && 0 <= s < p
    ensures x / p == q
  {
    var d, m := x / p, x % p;
    assert p * (q - d) == m - s;
    if q > d {
      MulAtLeast(p, q - d);
    } else if q < d {
      MulAtLeast(p, d - q);
    }
  }

  /** Dividing twice is dividing by the product. */
  lemma DivDiv(a: nat, b: nat, p: nat)
    requires b > 0 && p > 0
    ensures b * p > 0 && a / b / p == a / (b * p)
  {
    MulAtLeast(b, p);
    var q := a / (b * p);
    var r := a % (b * p);
    assert a == b * (p * q) + r;
    assert r == b * (r / b) + r % b;
    assert a == b * (p * q + r / b) + r % b;
    DivUnique(a, b, p * q + r / b, r % b);
    assert r / b < p by {
      if r / b >= p {
        MulAtLeast(b, r / b - p + 1);
      }
    }
    DivUnique(a / b, p, q, r / b);
  }

  /**
   * The result of an operation that either returns normally or ends in a
   * kernel panic (PANIC_PRINT prints a message and spins forever).
   */
  datatype Outcome<T> = Halt | Done(value: T)

  datatype Option<T> = None | Some(value: T)
}
