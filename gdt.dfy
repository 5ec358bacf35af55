/**
 * The global descriptor table (kernel/src/arch/i686/gdt.c): five segment
 * descriptors in the layout of section 3.4.5 of the Intel 64 and IA-32
 * Architectures Software Developer's Manual, Volume 3A, and the
 * limit/base pair loaded into GDTR.
 *
 * The fields are bit-vectors, so the source's masks and shifts are
 * written as they are.  The address of the table is a parameter;
 * gdt_flush, which loads GDTR, is outside the model.
 */
module Gdt {
  import opened Kernel

  const GDT_ENTRIES: nat := 5
  /** sizeof(gdt_entry_t): the descriptor is packed into eight bytes. */
  const ENTRY_SIZE: nat := 8

  /** gdt_entry_t, fields in memory order. */
  datatype Entry = Entry(limitLow: bv16, baseLow: bv16, baseMiddle: bv8, access: bv8, granularity: bv8, baseHigh: bv8)

  const NULL_ENTRY := Entry(0, 0, 0, 0, 0, 0)

  /** The 32-bit segment base a descriptor holds, as the processor assembles it. */
  function Base(e: Entry): bv32 {
    ((e.baseHigh as bv32) << 24) | ((e.baseMiddle as bv32) << 16) | (e.baseLow as bv32)
  }

  /** The 20-bit segment limit: limit_low, then the low nibble of the granularity byte. */
  function Limit(e: Entry): bv32 {
    (((e.granularity & 0x0F) as bv32) << 16) | (e.limitLow as bv32)
  }

  /** The G, D/B, L and AVL flags: the high nibble of the granularity byte. */
  function Flags(e: Entry): bv8 {
    e.granularity & 0xF0
  }

  /**
   * The descriptor gdt_set_gate stores: base and limit split over their
   * fields so that they read back as given (the limit cut to its 20
   * bits), the flags taken from the high nibble of `gran`, and `access`
   * kept as it is.
   */
  function Gate(base: bv32, limit: bv32, access: bv8, gran: bv8): (e: Entry)
    ensures Base(e) == base
    ensures Limit(e) == limit & 0xF_FFFF
    ensures Flags(e) == gran & 0xF0 && e.access == access
  {
    Entry((limit & 0xFFFF) as bv16, (base & 0xFFFF) as bv16, ((base >> 16) & 0xFF) as bv8, access,
          (((limit >> 16) & 0x0F) as bv8) | (gran & 0xF0), ((base >> 24) & 0xFF) as bv8)
  }

  /** A descriptor is fixed by its base, limit, flags and access byte. */
  lemma GateDecodes(e: Entry)
    ensures Gate(Base(e), Limit(e), e.access, e.granularity) == e
  {
  }

  /** The eight bytes of a descriptor in memory, little-endian within each 16-bit field. */
  function Bytes(e: Entry): (r: seq<bv8>)
    ensures |r| == ENTRY_SIZE
  {
    [(e.limitLow & 0xFF) as bv8, (e.limitLow >> 8) as bv8, (e.baseLow & 0xFF) as bv8, (e.baseLow >> 8) as bv8,
     e.baseMiddle, e.access, e.granularity, e.baseHigh]
  }

  /** The descriptor stored in eight bytes. */
  function FromBytes(b: seq<bv8>): Entry
    requires |b| == ENTRY_SIZE
  {
    Entry(((b[1] as bv16) << 8) | (b[0] as bv16), ((b[3] as bv16) << 8) | (b[2] as bv16), b[4], b[5], b[6], b[7])
  }

  /** A 16-bit field stored low byte first reads back as itself. */
  lemma Split16(w: bv16)
    ensures ((((w >> 8) as bv8) as bv16) << 8) | (((w & 0xFF) as bv8) as bv16) == w
  {
  }

  /** Two bytes joined into a 16-bit field split back into the same bytes. */
  lemma Join16(lo: bv8, hi: bv8)
    ensures var w := ((hi as bv16) << 8) | (lo as bv16);
            (w & 0xFF) as bv8 == lo && (w >> 8) as bv8 == hi
  {
  }

  /** Reading a descriptor's bytes back gives the descriptor. */
  lemma BytesRoundTrip(e: Entry)
    ensures FromBytes(Bytes(e)) == e
  {
    Split16(e.limitLow);
    Split16(e.baseLow);
  }

  /** Eight bytes read as a descriptor and written back are the same bytes. */
  lemma FromBytesRoundTrip(b: seq<bv8>)
    requires |b| == ENTRY_SIZE
    ensures Bytes(FromBytes(b)) == b
  {
    Join16(b[0], b[1]);
    Join16(b[2], b[3]);
  }

  /** The gdt_ptr_t loaded into GDTR. */
  datatype Pointer = Pointer(limit: u16, base: u32)

  /** What segmentation_init asks for: the null descriptor, then ring 0 code and data, then ring 3 code and data. */
  const ACCESS: seq<bv8> := [0x00, 0x9A, 0x92, 0xFA, 0xF2]

  class Table {
    const entries: array<Entry>
    var ptr: Pointer

    /** The static table starts out zeroed. */
    constructor ()
      ensures entries.Length == GDT_ENTRIES && fresh(entries) && ptr == Pointer(0, 0)
      ensures forall i :: 0 <= i < GDT_ENTRIES ==> entries[i] == NULL_ENTRY
    {
      entries := new Entry[GDT_ENTRIES](_ => NULL_ENTRY);
      ptr := Pointer(0, 0);
    }

    /** gdt_set_gate: descriptor `num` becomes Gate(base, limit, access, gran), field by field; no other one changes. */
    method SetGate(num: int, base: bv32, limit: bv32, access: bv8, gran: bv8)
      requires entries.Length == GDT_ENTRIES && 0 <= num < GDT_ENTRIES
      modifies entries
      ensures entries[..] == old(entries[..])[num := Gate(base, limit, access, gran)]
    {
      entries[num] := entries[num].(baseLow := (base & 0xFFFF) as bv16);
      entries[num] := entries[num].(baseMiddle := ((base >> 16) & 0xFF) as bv8);
      entries[num] := entries[num].(baseHigh := ((base >> 24) & 0xFF) as bv8);
      entries[num] := entries[num].(limitLow := (limit & 0xFFFF) as bv16);
      entries[num] := entries[num].(granularity := ((limit >> 16) & 0x0F) as bv8);
      entries[num] := entries[num].(granularity := entries[num].granularity | (gran & 0xF0));
      entries[num] := entries[num].(access := access);
    }

    /**
     * segmentation_init: GDTR gets the table's address and a limit of
     * five descriptors less one byte, and the five descriptors are set.
     * It always returns EOK.
     */
    method SegmentationInit(tableAddress: u32) returns (res: u32)
      requires entries.Length == GDT_ENTRIES
      modifies this, entries
      ensures res == EOK && ptr == Pointer((ENTRY_SIZE * GDT_ENTRIES - 1) as u16, tableAddress)
      ensures entries[..] == InitialTable()
    {
      ptr := ptr.(limit := (ENTRY_SIZE * GDT_ENTRIES - 1) as u16);
      ptr := ptr.(base := tableAddress);
      SetGate(0, 0, 0, 0, 0);
      SetGate(1, 0, 0xFFFF_FFFF, 0x9A, 0xCF);
      SetGate(2, 0, 0xFFFF_FFFF, 0x92, 0xCF);
      SetGate(3, 0, 0xFFFF_FFFF, 0xFA, 0xCF);
      SetGate(4, 0, 0xFFFF_FFFF, 0xF2, 0xCF);
      return EOK;
    }
  }

  /** The table segmentation_init builds. */
  function InitialTable(): seq<Entry> {
    [Gate(0, 0, 0, 0)] + seq(4, i requires 0 <= i < 4 => Gate(0, 0xFFFF_FFFF, ACCESS[i + 1], 0xCF))
  }

  /**
   * The initial table is the flat model: a null descriptor of zero bytes,
   * then four segments over the whole 4 GiB (base 0, limit 0xFFFFF in 4 KiB
   * units, 32-bit) that differ only in their access byte, and GDTR's
   * limit is 39.
   */
  lemma FlatSegments()
    ensures Bytes(InitialTable()[0]) == seq(ENTRY_SIZE, _ => 0 as bv8)
    ensures forall i :: 1 <= i < GDT_ENTRIES ==>
              var e := InitialTable()[i];
              Base(e) == 0 && Limit(e) == 0xF_FFFF && Flags(e) == 0xC0 && e.access == ACCESS[i]
              && Bytes(e) == [0xFF, 0xFF, 0x00, 0x00, 0x00, ACCESS[i], 0xCF, 0x00]
    ensures ENTRY_SIZE * GDT_ENTRIES - 1 == 39
  {
    assert Bytes(InitialTable()[0]) == seq(ENTRY_SIZE, _ => 0 as bv8);
  }
}
