/**
 * The scancode cache both keyboard drivers keep
 * (kernel/src/dev/input/keyboard_ps2/keyboard.c and
 * kernel/src/dev/input/keyboard/keyboard.c hold identical copies of it):
 * a 256-byte buffer `keycache` and the fill count `key_loc`, filled by the
 * interrupt handler from port 0x60 and emptied from the front.
 *
 * The port read is the `scancode` parameter.  The shift loop reads
 * keycache[256], the byte just past the buffer; what is there is the
 * `past` parameter.  The handler and the readers run one after another;
 * their interleaving is not modelled.
 */
module KeyCache {
  import opened Kernel

  const CACHE_SIZE: nat := 256
  /** The fill count at which further scancodes are dropped. */
  const CACHE_LIMIT: nat := 255
  /** The interrupt vector the handler is registered on (IRQ 1). */
  const KEYBOARD_VECTOR: nat := 33

  class KeyCache {
    var keycache: array<u8>
    var keyLoc: u16

    /** A 256-byte buffer and at most 255 scancodes waiting. */
    ghost predicate Valid()
      reads this
    {
      keycache.Length == CACHE_SIZE && keyLoc as nat <= CACHE_LIMIT
    }

    /** The scancodes waiting, oldest first. */
    ghost function Contents(): (r: seq<u8>)
      requires Valid()
      reads this, keycache
      ensures |r| == keyLoc as nat
    {
      keycache[..keyLoc]
    }

    /** The driver's init: kmalloc(256) zeroed by memset; key_loc keeps its value. */
    constructor ()
      ensures Valid() && keyLoc == 0 && fresh(keycache)
      ensures keycache[..] == seq(CACHE_SIZE, _ => 0)
    {
      keycache := new u8[CACHE_SIZE](_ => 0);
      keyLoc := 0;
    }

    /**
     * keyboard_irq: with 255 or more scancodes waiting the new one is
     * dropped; otherwise it is stored at key_loc, which then grows by one.
     */
    method Irq(scancode: u8)
      requires Valid()
      modifies this, keycache
      ensures Valid() && keycache == old(keycache)
      ensures old(keyLoc) as nat >= CACHE_LIMIT ==> keyLoc == old(keyLoc) && keycache[..] == old(keycache[..])
      ensures old(keyLoc) as nat < CACHE_LIMIT ==>
                keyLoc == old(keyLoc) + 1 && keycache[..] == old(keycache[..])[old(keyLoc) := scancode]
                && Contents() == old(Contents()) + [scancode]
    {
      if keyLoc as nat >= CACHE_LIMIT {
        return;
      }
      keycache[keyLoc] := scancode;
      keyLoc := keyLoc + 1;
    }

    /**
     * The read side shared by keyboard_ps2_get_event and keyboard_get_key
     * when a scancode is waiting: the front byte is taken, key_loc drops by
     * one and every byte moves down one place, the last one taking the
     * byte past the buffer.
     */
    method TakeFront(past: u8) returns (front: u8)
      requires Valid() && keyLoc > 0
      modifies this, keycache
      ensures Valid() && keycache == old(keycache)
      ensures front == old(keycache[0]) && keyLoc == old(keyLoc) - 1
      ensures keycache[..] == old(keycache[1..]) + [past]
      ensures [front] + Contents() == old(Contents())
    {
      front := keycache[0];
      keyLoc := keyLoc - 1;
      var i := 0;
      while i < CACHE_SIZE
        invariant 0 <= i <= CACHE_SIZE && keycache == old(keycache) && keyLoc == old(keyLoc) - 1
        invariant forall k :: 0 <= k < i ==> keycache[k] == (if k + 1 < CACHE_SIZE then old(keycache[k + 1]) else past)
        invariant forall k :: i <= k < CACHE_SIZE ==> keycache[k] == old(keycache[k])
      {
        keycache[i] := if i + 1 < CACHE_SIZE then keycache[i + 1] else past;
        i := i + 1;
      }
      ShiftedDown(old(keycache[..]), keycache[..], past, keyLoc as nat);
    }
  }

  /** Bytes moved down one place, the last taking `past`: the old ones but the first, then `past`; the first `n` waiting ones lose their head. */
  lemma ShiftedDown(before: seq<u8>, after: seq<u8>, past: u8, n: nat)
    requires |before| == |after| == CACHE_SIZE && n < CACHE_SIZE
    requires forall k :: 0 <= k < CACHE_SIZE ==> after[k] == (if k + 1 < CACHE_SIZE then before[k + 1] else past)
    ensures after == before[1..] + [past]
    ensures before[..n + 1] == [before[0]] + after[..n]
  {
    assert after == before[1..] + [past];
  }

  /** The signed value of a `char`, which is signed on i686. */
  function CharValue(c: u8): int {
    if c < 0x80 then c as int else c as int - 0x100
  }

  /**
   * A `char` widened to an unsigned type of `bits` bits: the low byte is
   * the character and, read as a signed number, the value is the char's,
   * so bytes of 0x80 and up are sign-extended.
   */
  function Widen(c: u8, bits: nat): (r: nat)
    requires bits == 32 || bits == 64
    ensures var full := if bits == 32 then TWO_32 else TWO_32 * TWO_32;
            r < full && r % 0x100 == c as int
            && (if r >= full / 2 then r - full else r) == CharValue(c)
  {
    var full := if bits == 32 then TWO_32 else TWO_32 * TWO_32;
    (CharValue(c) + full) % full
  }
}
