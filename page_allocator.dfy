/**
 * The physical frame allocator: one bit per 4 KiB frame, packed into 32-bit
 * words, with a next-fit cursor. The bitmap is sized and placed from the
 * firmware memory map (the memory-map tag of section 3.6.8 of the
 * Multiboot2 specification).
 */
module PageAllocator {
  import opened Kernel

  // Region types of a Multiboot2 memory-map entry.
  const MULTIBOOT_MEMORY_AVAILABLE: u32 := 1
  const MULTIBOOT_MEMORY_RESERVED: u32 := 2
  const MULTIBOOT_MEMORY_ACPI_RECLAIMABLE: u32 := 3
  const MULTIBOOT_MEMORY_NVS: u32 := 4
  const MULTIBOOT_MEMORY_BADRAM: u32 := 5

  /** Number of frames a 32-bit physical address space holds. */
  const MAX_PAGES: int := TWO_32 / PAGE_SIZE

  /** One entry of the memory map: 64-bit base address and length, and a region type. */
  datatype MmapEntry = MmapEntry(addr: u64, len: u64, typ: u32)

  // ---------------------------------------------------------------------
  // The bitmap, one flag per frame: true means used. The source packs the
  // flags into 32-bit words (frame i is bit i % 32 of word i / 32); that
  // addressing is a bijection between frame indices and (word, bit) pairs
  // (WordBitAddressing), so the model keeps the flags directly.

  /** (i / 32, i % 32) determines i: distinct frames have distinct bits. */
  lemma WordBitAddressing(i: nat, j: nat)
    ensures (i / 32 == j / 32 && i % 32 == j % 32) <==> i == j
  {
    assert i == 32 * (i / 32) + i % 32;
    assert j == 32 * (j / 32) + j % 32;
  }

  /** bit_get: is frame i marked used? */
  function Bit(bits: seq<bool>, i: nat): bool
    requires i < |bits|
  {
    bits[i]
  }

  /** The bitmap after bit_set(i). */
  function SetBit(bits: seq<bool>, i: nat): (r: seq<bool>)
    requires i < |bits|
    ensures |r| == |bits| && Bit(r, i)
    ensures forall j :: 0 <= j < |bits| && j != i ==> Bit(r, j) == Bit(bits, j)
  {
    bits[i := true]
  }

  /** The bitmap after bit_clear(i). */
  function ClearBit(bits: seq<bool>, i: nat): (r: seq<bool>)
    requires i < |bits|
    ensures |r| == |bits| && !Bit(r, i)
    ensures forall j :: 0 <= j < |bits| && j != i ==> Bit(r, j) == Bit(bits, j)
  {
    bits[i := false]
  }

  // ---------------------------------------------------------------------
  // The next-fit search of page_alloc.

  /** The smallest frame index in [from, to) whose bit is clear, if any. */
  function FirstFree(words: seq<bool>, from: nat, to: nat): (r: Option<nat>)
    requires to <= |words|
    ensures r.Some? ==> from <= r.value < to
    decreases if from <= to then to - from else 0
  {
    if from >= to then None
    else if !Bit(words, from) then Some(from)
    else FirstFree(words, from + 1, to)
  }

  /**
   * FirstFree finds exactly the least clear bit at or after the cursor and
   * below num_pages; it never looks below the cursor (there is no wrap-around).
   */
  lemma {:induction false} FirstFreeSpec(words: seq<bool>, from: nat, to: nat)
    requires to <= |words|
    ensures FirstFree(words, from, to).Some? ==>
              var i := FirstFree(words, from, to).value;
              from <= i < to && !Bit(words, i) &&
              forall k :: from <= k < i ==> Bit(words, k)
    ensures FirstFree(words, from, to).None? <==>
              (forall k :: from <= k < to ==> Bit(words, k))
    decreases if from <= to then to - from else 0
  {
    if from < to && Bit(words, from) {
      FirstFreeSpec(words, from + 1, to);
    }
  }

  /**
   * Two allocations with no free in between return distinct frames: the
   * second search starts at the first result, whose bit is now set.
   */
  lemma AllocTwiceDistinct(words: seq<bool>, last: nat, n: nat)
    requires n <= |words|
    requires FirstFree(words, last, n).Some?
    ensures var i := FirstFree(words, last, n).value;
            var second := FirstFree(SetBit(words, i), i, n);
            second.Some? ==> second.value > i
  {
    var i := FirstFree(words, last, n).value;
    FirstFreeSpec(words, last, n);
    var w' := SetBit(words, i);
    FirstFreeSpec(w', i, n);
  }

  /** After page_free(a), the next page_alloc returns a again. */
  lemma FreeThenAlloc(words: seq<bool>, k: nat, n: nat)
    requires n <= |words| && k < n
    ensures FirstFree(ClearBit(words, k), k, n) == Some(k)
  {
  }

  /**
   * A reserved frame is never returned: it is set, stays set under further
   * allocations, and page_alloc only returns frames whose bit is clear.
   */
  lemma ReservedNeverAllocated(words: seq<bool>, r: nat, last: nat, n: nat)
    requires n <= |words| && r < |words|
    ensures var w := SetBit(words, r);
            var f := FirstFree(w, last, n);
            f.Some? ==> f.value != r && Bit(SetBit(w, f.value), r)
  {
    var w := SetBit(words, r);
    FirstFreeSpec(w, last, n);
    var f := FirstFree(w, last, n);
  }

  // ---------------------------------------------------------------------
  // Several page_alloc calls in a row, with no free in between.

  /** The bitmap with the bit of every index in `s` set. */
  function SetAll(bits: seq<bool>, s: seq<nat>): (r: seq<bool>)
    requires forall k :: 0 <= k < |s| ==> s[k] < |bits|
    ensures |r| == |bits|
    ensures forall j {:trigger Bit(r, j)} :: 0 <= j < |bits| ==> Bit(r, j) == (Bit(bits, j) || j in s)
    decreases |s|
  {
    if s == [] then bits
    else
      var init := s[..|s| - 1];
      assert s == init + [s[|s| - 1]];
      SetBit(SetAll(bits, init), s[|s| - 1])
  }

  /**
   * The frame indices that `count` page_alloc calls in a row return,
   * starting from the bitmap `bits` and the cursor `cursor`: each call
   * searches from the frame the previous one returned.  None when one of
   * them finds no clear bit, which panics.
   */
  function Allocs(bits: seq<bool>, cursor: nat, n: nat, count: nat): (r: Option<seq<nat>>)
    requires n <= |bits|
    ensures r.Some? ==> |r.value| == count && forall k :: 0 <= k < count ==> r.value[k] < n
    decreases count
  {
    if count == 0 then Some([])
    else
      match Allocs(bits, cursor, n, count - 1)
      case None => None
      case Some(s) =>
        var from := if s == [] then cursor else s[|s| - 1];
        match FirstFree(SetAll(bits, s), from, n)
        case None => None
        case Some(i) => Some(s + [i])
  }

  /**
   * Allocations in a row return frames at or after the cursor, each free
   * before the first call, in strictly increasing order: each search starts
   * at the frame just taken, whose bit is now set.
   */
  lemma {:induction false} AllocsSpec(bits: seq<bool>, cursor: nat, n: nat, count: nat)
    requires n <= |bits| && Allocs(bits, cursor, n, count).Some?
    ensures var s := Allocs(bits, cursor, n, count).value;
            (forall k :: 0 <= k < count ==> cursor <= s[k] && !Bit(bits, s[k]))
            && (forall k, l :: 0 <= k < l < count ==> s[k] < s[l])
    decreases count
  {
    if count > 0 {
      AllocsSpec(bits, cursor, n, count - 1);
      var s := Allocs(bits, cursor, n, count - 1).value;
      var from := if s == [] then cursor else s[|s| - 1];
      FirstFreeSpec(SetAll(bits, s), from, n);
      var i := FirstFree(SetAll(bits, s), from, n).value;
      assert Allocs(bits, cursor, n, count).value == s + [i];
      assert !Bit(SetAll(bits, s), i);
      if s != [] {
        assert Bit(SetAll(bits, s), from) by {
          assert from in s;
        }
      }
      AppendFresh(bits, cursor, s, i);
    }
  }

  /** Appending a free frame above the last one keeps a run free and increasing. */
  lemma AppendFresh(bits: seq<bool>, cursor: nat, s: seq<nat>, i: nat)
    requires forall k :: 0 <= k < |s| ==> s[k] < |bits| && cursor <= s[k] && !Bit(bits, s[k])
    requires forall k, l :: 0 <= k < l < |s| ==> s[k] < s[l]
    requires i < |bits| && cursor <= i && !Bit(bits, i) && (s != [] ==> s[|s| - 1] < i)
    ensures var r := s + [i];
            (forall k :: 0 <= k < |r| ==> cursor <= r[k] && !Bit(bits, r[k]))
            && (forall k, l :: 0 <= k < l < |r| ==> r[k] < r[l])
  {
    var r := s + [i];
    forall k, l | 0 <= k < l < |r|
      ensures r[k] < r[l]
    {
      if l == |s| && k < |s| - 1 {
        assert s[k] < s[|s| - 1];
      }
    }
  }

  /** The first k of several allocations in a row are the allocations of a shorter run. */
  lemma {:induction false} AllocsPrefix(bits: seq<bool>, cursor: nat, n: nat, count: nat, k: nat)
    requires n <= |bits| && k <= count && Allocs(bits, cursor, n, count).Some?
    ensures Allocs(bits, cursor, n, k) == Some(Allocs(bits, cursor, n, count).value[..k])
    decreases count
  {
    if k < count {
      AllocsPrefix(bits, cursor, n, count - 1, k);
      var s := Allocs(bits, cursor, n, count - 1).value;
      var all := Allocs(bits, cursor, n, count).value;
      assert all[..count - 1] == s;
      assert all[..k] == s[..k];
    } else {
      assert Allocs(bits, cursor, n, count).value[..k] == Allocs(bits, cursor, n, count).value;
    }
  }

  /** One more allocation in a row: the search starts at the frame the last one returned. */
  lemma AllocsNext(bits: seq<bool>, cursor: nat, n: nat, s: seq<nat>)
    requires n <= |bits| && Allocs(bits, cursor, n, |s|) == Some(s)
    ensures var from := if s == [] then cursor else s[|s| - 1];
            Allocs(bits, cursor, n, |s| + 1) ==
              match FirstFree(SetAll(bits, s), from, n)
              case None => None
              case Some(i) => Some(s + [i])
  {
  }

  /** Once one allocation in a row panics, a longer run panics too. */
  lemma {:induction false} AllocsStop(bits: seq<bool>, cursor: nat, n: nat, k: nat, count: nat)
    requires n <= |bits| && k <= count && Allocs(bits, cursor, n, k).None?
    ensures Allocs(bits, cursor, n, count).None?
    decreases count
  {
    if k < count {
      AllocsStop(bits, cursor, n, k, count - 1);
    }
  }

  // ---------------------------------------------------------------------
  // page_alloc_init as functions of the memory map.

  predicate KnownType(t: u32) {
    t == MULTIBOOT_MEMORY_AVAILABLE || t == MULTIBOOT_MEMORY_RESERVED ||
    t == MULTIBOOT_MEMORY_ACPI_RECLAIMABLE || t == MULTIBOOT_MEMORY_NVS ||
    t == MULTIBOOT_MEMORY_BADRAM
  }

  predicate AllKnown(mmap: seq<MmapEntry>) {
    forall k :: 0 <= k < |mmap| ==> KnownType(mmap[k].typ)
  }

  /** entry->addr + entry->len, computed in 64 bits and stored into a uint32_t. */
  function EndAddr(e: MmapEntry): u32 {
    Wrap32(e.addr as int + e.len as int)
  }

  /** The running maximum of the first loop over the first n entries. */
  function MaxAvailableEnd(mmap: seq<MmapEntry>, n: nat): u32
    requires n <= |mmap|
  {
    if n == 0 then 0
    else
      var m := MaxAvailableEnd(mmap, n - 1);
      var e := mmap[n - 1];
      if EndAddr(e) > m && e.typ == MULTIBOOT_MEMORY_AVAILABLE then EndAddr(e) else m
  }

  /** The maximum is at least every available region's end, and is 0 or one of them. */
  lemma {:induction false} MaxAvailableEndSpec(mmap: seq<MmapEntry>, n: nat)
    requires n <= |mmap|
    ensures forall k :: 0 <= k < n && mmap[k].typ == MULTIBOOT_MEMORY_AVAILABLE ==>
              EndAddr(mmap[k]) <= MaxAvailableEnd(mmap, n)
    ensures MaxAvailableEnd(mmap, n) == 0 ||
            exists k :: 0 <= k < n && mmap[k].typ == MULTIBOOT_MEMORY_AVAILABLE &&
                        EndAddr(mmap[k]) == MaxAvailableEnd(mmap, n)
  {
    if n > 0 {
      MaxAvailableEndSpec(mmap, n - 1);
    }
  }

  /** Bitmap size in bytes: one bit per page, rounded up. */
  function BitmapSize(numPages: u32): u32
    requires numPages as int < MAX_PAGES
  {
    (numPages + 7) / 8
  }

  /** The index of the first available region at least `size` bytes long. */
  function FirstFit(mmap: seq<MmapEntry>, size: u32, from: nat): (r: Option<nat>)
    requires from <= |mmap|
    ensures r.Some? ==> from <= r.value < |mmap| && mmap[r.value].typ == MULTIBOOT_MEMORY_AVAILABLE &&
                        mmap[r.value].len as int >= size as int
    decreases |mmap| - from
  {
    if from == |mmap| then None
    else if mmap[from].typ == MULTIBOOT_MEMORY_AVAILABLE && mmap[from].len as int >= size as int then Some(from)
    else FirstFit(mmap, size, from + 1)
  }

  lemma {:induction false} FirstFitSpec(mmap: seq<MmapEntry>, size: u32, from: nat)
    requires from <= |mmap|
    ensures var r := FirstFit(mmap, size, from);
            (r.Some? ==> mmap[r.value].typ == MULTIBOOT_MEMORY_AVAILABLE && mmap[r.value].len as int >= size as int) &&
            forall k :: from <= k < (if r.Some? then r.value else |mmap|) ==>
              !(mmap[k].typ == MULTIBOOT_MEMORY_AVAILABLE && mmap[k].len as int >= size as int)
    decreases |mmap| - from
  {
    if from < |mmap| && !(mmap[from].typ == MULTIBOOT_MEMORY_AVAILABLE && mmap[from].len as int >= size as int) {
      FirstFitSpec(mmap, size, from + 1);
    }
  }

  /** The region that hosts the bitmap, shrunk from below by the bitmap size. */
  function Shrink(e: MmapEntry, size: u32): MmapEntry
    requires e.len as int >= size as int
  {
    MmapEntry(((e.addr as int + size as int) % 0x1_0000_0000_0000_0000) as u64, e.len - size as u64, e.typ)
  }

  /** The first page index that the third loop clears for an entry: ceil(addr / 4096), stored in 32 bits. */
  function StartPage(e: MmapEntry): u32 {
    Wrap32(((e.addr as int + PAGE_SIZE - 1) % 0x1_0000_0000_0000_0000) / PAGE_SIZE)
  }

  /** Does the third loop clear page i for entry e? It clears (start + j) mod 2^32 for j < len / 4096. */
  predicate Frees(e: MmapEntry, i: nat) {
    e.typ == MULTIBOOT_MEMORY_AVAILABLE &&
    (i - StartPage(e) as int) % TWO_32 < e.len as int / PAGE_SIZE
  }

  /** Does one of the first n entries free page i? */
  predicate FreedBy(mmap: seq<MmapEntry>, n: nat, i: nat)
    requires n <= |mmap|
  {
    n > 0 && (FreedBy(mmap, n - 1, i) || Frees(mmap[n - 1], i))
  }

  /** Would the third loop spin forever on some available entry (uint32_t j never reaches len / 4096)? */
  predicate Spins(mmap: seq<MmapEntry>) {
    exists k :: 0 <= k < |mmap| && mmap[k].typ == MULTIBOOT_MEMORY_AVAILABLE &&
                mmap[k].len as int / PAGE_SIZE >= TWO_32
  }

  /** Number of frame flags in a bitmap of BitmapSize(numPages) bytes. */
  function Flags(numPages: u32): nat
    requires numPages as int < MAX_PAGES
  {
    8 * BitmapSize(numPages) as nat
  }

  /**
   * The status page_alloc_init returns once every type is known and the
   * third loop terminates: ENOMEM when no available region can host the
   * bitmap, or when the hosting region's address, truncated to a pointer,
   * happens to equal max_addr (the sentinel the code compares against).
   */
  function InitStatus(mmap: seq<MmapEntry>): u32 {
    var maxAddr := MaxAvailableEnd(mmap, |mmap|);
    var size := BitmapSize(maxAddr / 4096);
    var fit := FirstFit(mmap, size, 0);
    if fit.None? || Wrap32(mmap[fit.value].addr as int) == maxAddr then ENOMEM else EOK
  }

  /** The memory map after page_alloc_init: the hosting region shrunk, if one was found. */
  function InitMap(mmap: seq<MmapEntry>): (r: seq<MmapEntry>)
    ensures |r| == |mmap|
  {
    var maxAddr := MaxAvailableEnd(mmap, |mmap|);
    var size := BitmapSize(maxAddr / 4096);
    var fit := FirstFit(mmap, size, 0);
    if fit.None? then mmap else (FirstFitSpec(mmap, size, 0); mmap[fit.value := Shrink(mmap[fit.value], size)])
  }

  /** get_largest_memory_hole over the first n entries: the running (address, size) pair. */
  function LargestHole(mmap: seq<MmapEntry>, n: nat): (u32, u32)
    requires n <= |mmap|
  {
    if n == 0 then (0, 0)
    else
      var (p, s) := LargestHole(mmap, n - 1);
      var e := mmap[n - 1];
      if e.typ == MULTIBOOT_MEMORY_RESERVED && e.len as int > s as int then (Wrap32(e.addr as int), Wrap32(e.len as int))
      else (p, s)
  }

  /**
   * get_largest_memory_hole: when lengths fit in 32 bits, the size is the
   * longest RESERVED length and the address is that of the first region of
   * that length; with no non-empty RESERVED region the result is (NULL, 0).
   */
  lemma {:induction false} LargestHoleSpec(mmap: seq<MmapEntry>, n: nat)
    requires n <= |mmap|
    requires forall k :: 0 <= k < |mmap| ==> mmap[k].len as int < TWO_32
    ensures var (p, s) := LargestHole(mmap, n);
            (forall k :: 0 <= k < n && mmap[k].typ == MULTIBOOT_MEMORY_RESERVED ==> mmap[k].len as int <= s as int) &&
            (s == 0 ==> p == 0) &&
            (s != 0 ==> exists k :: 0 <= k < n && mmap[k].typ == MULTIBOOT_MEMORY_RESERVED &&
                           mmap[k].len as int == s as int && p == Wrap32(mmap[k].addr as int) &&
                           forall j :: 0 <= j < k && mmap[j].typ == MULTIBOOT_MEMORY_RESERVED ==> mmap[j].len as int < s as int)
  {
    if n > 0 {
      LargestHoleSpec(mmap, n - 1);
      var (p, s) := LargestHole(mmap, n - 1);
      var e := mmap[n - 1];
      if e.typ == MULTIBOOT_MEMORY_RESERVED && e.len as int > s as int {
        var k := n - 1;
        assert mmap[k].len as int == Wrap32(e.len as int) as int;
        assert forall j :: 0 <= j < k && mmap[j].typ == MULTIBOOT_MEMORY_RESERVED ==> mmap[j].len as int < Wrap32(e.len as int) as int;
      }
    }
  }

  /** The allocator's state: the global page_allocator structure. */
  class PageAllocator {
    var bitmap: array<bool>
    var numPages: u32
    var lastIndex: u32

    /** Every page below num_pages has a bit, and num_pages fits a 32-bit address space. */
    ghost predicate Valid()
      reads this
    {
      numPages as int <= bitmap.Length && numPages as int < MAX_PAGES
    }

    /** The zero-initialised global before page_alloc_init (a NULL bitmap). */
    constructor ()
      ensures Valid() && numPages == 0 && lastIndex == 0 && bitmap.Length == 0
    {
      bitmap := new bool[0];
      numPages := 0;
      lastIndex := 0;
    }

    /** get_num_pages: every page it counts has a bit in the bitmap. */
    function GetNumPages(): (n: u32)
      reads this
      requires Valid()
      ensures n as int <= bitmap.Length && n as int < MAX_PAGES
    {
      numPages
    }

    /** bit_get on the frame bitmap. */
    function Used(i: nat): bool
      reads this, bitmap
      requires i < bitmap.Length
    {
      Bit(bitmap[..], i)
    }

    /** bit_set(bitmap, index). */
    static method BitSet(bitmap: array<bool>, index: nat)
      requires index < bitmap.Length
      modifies bitmap
      ensures bitmap[..] == SetBit(old(bitmap[..]), index)
    {
      bitmap[index] := true;
    }

    /** bit_clear(bitmap, index). */
    static method BitClear(bitmap: array<bool>, index: nat)
      requires index < bitmap.Length
      modifies bitmap
      ensures bitmap[..] == ClearBit(old(bitmap[..]), index)
    {
      bitmap[index] := false;
    }

    /**
     * page_alloc: the first clear bit from last_index up to num_pages is
     * set, becomes the cursor, and its frame address is returned; with none
     * the kernel panics.
     */
    method Alloc() returns (r: Outcome<u32>)
      requires Valid()
      modifies this, bitmap
      ensures Valid() && bitmap == old(bitmap) && numPages == old(numPages)
      ensures var f := FirstFree(old(bitmap[..]), old(lastIndex) as nat, numPages as nat);
              match f
              case None => r == Halt && bitmap[..] == old(bitmap[..]) && lastIndex == old(lastIndex)
              case Some(i) => i * PAGE_SIZE < TWO_32 && r == Done((i * PAGE_SIZE) as u32) &&
                              bitmap[..] == SetBit(old(bitmap[..]), i) && lastIndex as nat == i
    {
      var i := lastIndex as nat;
      while i < numPages as nat
        invariant lastIndex == old(lastIndex) && lastIndex as nat <= i
        invariant FirstFree(bitmap[..], lastIndex as nat, numPages as nat) == FirstFree(bitmap[..], i, numPages as nat)
        decreases numPages as nat - i
      {
        if Bit(bitmap[..], i) {
          i := i + 1;
          continue;
        }
        BitSet(bitmap, i);
        lastIndex := i as u32;
        return Done((i * PAGE_SIZE) as u32);
      }
      return Halt;
    }

    /**
     * page_alloc as the next of several in a row: when the bitmap and the
     * cursor are what the allocations `got` left, the call is the next
     * allocation of the run, and panics exactly when that one does.
     */
    method AllocNext(ghost bits: seq<bool>, ghost cursor: nat, ghost got: seq<nat>) returns (r: Outcome<u32>, ghost got': seq<nat>)
      requires Valid() && numPages as int <= |bits| && Allocs(bits, cursor, numPages as nat, |got|) == Some(got)
      requires bitmap[..] == SetAll(bits, got) && lastIndex as nat == (if got == [] then cursor else got[|got| - 1])
      modifies this, bitmap
      ensures Valid() && bitmap == old(bitmap) && numPages == old(numPages)
      ensures r == Halt <==> Allocs(bits, cursor, numPages as nat, |got| + 1).None?
      ensures r.Done? ==>
                Allocs(bits, cursor, numPages as nat, |got| + 1) == Some(got') && |got'| == |got| + 1
                && got'[..|got|] == got && got'[|got|] * PAGE_SIZE < TWO_32 && r.value as nat == got'[|got|] * PAGE_SIZE
                && bitmap[..] == SetAll(bits, got') && lastIndex as nat == got'[|got|]
    {
      AllocsNext(bits, cursor, numPages as nat, got);
      ghost var next := FirstFree(bitmap[..], lastIndex as nat, numPages as nat);
      r := Alloc();
      got' := got;
      if r.Done? {
        got' := got + [next.value];
        assert got'[..|got|] == got && got'[..|got'| - 1] == got;
      }
    }

    /** page_free(ptr): clears the frame's bit and moves the cursor to it. */
    method Free(ptr: u32)
      requires Valid()
      requires ptr as int / PAGE_SIZE < bitmap.Length
      modifies this, bitmap
      ensures Valid() && bitmap == old(bitmap) && numPages == old(numPages)
      ensures bitmap[..] == ClearBit(old(bitmap[..]), ptr as nat / PAGE_SIZE)
      ensures lastIndex == ptr / 4096
    {
      var index := ptr / 4096;
      BitClear(bitmap, index as nat);
      lastIndex := index;
    }

    /** page_reserve(ptr): sets the frame's bit and moves the cursor to it. */
    method Reserve(ptr: u32)
      requires Valid()
      requires ptr as int / PAGE_SIZE < bitmap.Length
      modifies this, bitmap
      ensures Valid() && bitmap == old(bitmap) && numPages == old(numPages)
      ensures bitmap[..] == SetBit(old(bitmap[..]), ptr as nat / PAGE_SIZE)
      ensures lastIndex == ptr / 4096
    {
      var index := ptr / 4096;
      BitSet(bitmap, index as nat);
      lastIndex := index;
    }

    /**
     * page_alloc_init: halts on an unknown region type; otherwise sets
     * num_pages from the highest available end, places the bitmap in the
     * first available region that can hold it (shrinking that region), and
     * marks every page used except the whole pages the third loop assigns
     * to each available region. Returns the status and the updated map.
     */
    method Init(mmap: seq<MmapEntry>) returns (r: Outcome<u32>, mmap': seq<MmapEntry>)
      modifies this
      ensures !AllKnown(mmap) ==> r == Halt
      ensures AllKnown(mmap) ==> numPages == MaxAvailableEnd(mmap, |mmap|) / 4096 && mmap' == InitMap(mmap)
      ensures AllKnown(mmap) && InitStatus(mmap) == ENOMEM ==> r == Done(ENOMEM)
      ensures AllKnown(mmap) && InitStatus(mmap) == EOK ==>
                (Spins(mmap') ==> r == Halt) &&
                (!Spins(mmap') ==>
                  r == Done(EOK) && Valid() && lastIndex == 0 && fresh(bitmap) &&
                  bitmap.Length == Flags(numPages) &&
                  forall i :: 0 <= i < bitmap.Length ==>
                    (Bit(bitmap[..], i) <==> !FreedBy(mmap', |mmap'|, i)))
    {
      mmap' := mmap;
      var maxEnd := ScanTypes(mmap);
      if maxEnd.Halt? {
        return Halt, mmap';
      }
      var maxAddr := maxEnd.value;
      numPages := maxAddr / 4096;
      lastIndex := 0;
      bitmap := new bool[0];
      var size := BitmapSize(numPages);
      var bitmapAddr;
      bitmapAddr, mmap' := PlaceBitmap(mmap, size, maxAddr);
      if bitmapAddr == maxAddr {
        return Done(ENOMEM), mmap';
      }

      // memset(bitmap, 0xFF, bitmap_size): every page starts out used.
      var flags := Flags(numPages);
      var b := new bool[flags];
      var w := 0;
      while w < flags
        modifies b
        invariant 0 <= w <= flags
        invariant forall m :: 0 <= m < w ==> b[m]
      {
        b[w] := true;
        w := w + 1;
      }
      bitmap := b;
      r := ClearRegions(b, mmap');
    }

    /** The first loop of page_alloc_init: halts on an unknown type, else returns the highest available end. */
    static method ScanTypes(mmap: seq<MmapEntry>) returns (r: Outcome<u32>)
      ensures !AllKnown(mmap) <==> r == Halt
      ensures r.Done? ==> r.value == MaxAvailableEnd(mmap, |mmap|)
    {
      var maxAddr: u32 := 0;
      var k := 0;
      while k < |mmap|
        invariant 0 <= k <= |mmap|
        invariant maxAddr == MaxAvailableEnd(mmap, k)
        invariant forall m :: 0 <= m < k ==> KnownType(mmap[m].typ)
      {
        var e := mmap[k];
        if !KnownType(e.typ) {
          return Halt;
        }
        var endAddr := EndAddr(e);
        if endAddr > maxAddr && e.typ == MULTIBOOT_MEMORY_AVAILABLE {
          maxAddr := endAddr;
        }
        k := k + 1;
      }
      return Done(maxAddr);
    }

    /**
     * The second loop of page_alloc_init: the bitmap goes at the first
     * available region of at least `size` bytes, which shrinks by that much;
     * with none the returned address stays max_addr.
     */
    static method PlaceBitmap(mmap: seq<MmapEntry>, size: u32, maxAddr: u32) returns (addr: u32, mmap': seq<MmapEntry>)
      ensures var fit := FirstFit(mmap, size, 0);
              (fit.None? ==> addr == maxAddr && mmap' == mmap) &&
              (fit.Some? ==> addr == Wrap32(mmap[fit.value].addr as int) &&
                             mmap' == mmap[fit.value := Shrink(mmap[fit.value], size)])
    {
      addr, mmap' := maxAddr, mmap;
      var k := 0;
      while k < |mmap|
        invariant 0 <= k <= |mmap|
        invariant FirstFit(mmap, size, 0) == FirstFit(mmap, size, k)
      {
        var e := mmap[k];
        if e.typ == MULTIBOOT_MEMORY_AVAILABLE && e.len as int >= size as int {
          return Wrap32(e.addr as int), mmap[k := Shrink(e, size)];
        }
        k := k + 1;
      }
    }

    /**
     * The third loop of page_alloc_init: for each available region, clears
     * the flags of its whole pages; spins forever (Halt) on a region of 2^32
     * or more pages.
     */
    static method ClearRegions(b: array<bool>, mmap: seq<MmapEntry>) returns (r: Outcome<u32>)
      requires b.Length <= TWO_32
      requires forall i :: 0 <= i < b.Length ==> b[i]
      modifies b
      ensures Spins(mmap) <==> r == Halt
      ensures r.Done? ==> (r.value == EOK &&
                forall i :: 0 <= i < b.Length ==> (Bit(b[..], i) <==> !FreedBy(mmap, |mmap|, i)))
    {
      var k := 0;
      while k < |mmap|
        invariant 0 <= k <= |mmap|
        invariant forall i :: 0 <= i < b.Length ==> (Bit(b[..], i) <==> !FreedBy(mmap, k, i))
        invariant forall m :: 0 <= m < k && mmap[m].typ == MULTIBOOT_MEMORY_AVAILABLE ==>
                    mmap[m].len as int / PAGE_SIZE < TWO_32
      {
        var e := mmap[k];
        if e.typ == MULTIBOOT_MEMORY_AVAILABLE {
          var count := e.len as int / PAGE_SIZE;
          if count >= TWO_32 {
            // The uint32_t counter j wraps before reaching len / 4096.
            return Halt;
          }
          ClearRun(b, StartPage(e), count, mmap, k);
        } else {
          forall i | 0 <= i < b.Length
            ensures !Frees(e, i)
          {
          }
        }
        k := k + 1;
      }
      return Done(EOK);
    }

    /**
     * The inner loop of the third pass: clears (start + j) mod 2^32 for each
     * j < count, skipping indices the model's bitmap does not hold.
     */
    static method ClearRun(b: array<bool>, start: u32, count: nat, mmap: seq<MmapEntry>, k: nat)
      requires k < |mmap| && mmap[k].typ == MULTIBOOT_MEMORY_AVAILABLE
      requires start == StartPage(mmap[k]) && count == mmap[k].len as int / PAGE_SIZE && count < TWO_32
      requires b.Length <= TWO_32
      requires forall i :: 0 <= i < b.Length ==> (Bit(b[..], i) <==> !FreedBy(mmap, k, i))
      modifies b
      ensures forall i :: 0 <= i < b.Length ==> (Bit(b[..], i) <==> !FreedBy(mmap, k + 1, i))
    {
      var j := 0;
      while j < count
        invariant 0 <= j <= count
        invariant forall i :: 0 <= i < b.Length ==> (Bit(b[..], i) <==> !(FreedBy(mmap, k, i) || InRun(i, start, j)))
      {
        var index := Wrap32(start as int + j);
        ghost var before := b[..];
        if (index as int) < b.Length {
          BitClear(b, index as nat);
        }
        RunExtends(before, b[..], mmap, k, start, j);
        j := j + 1;
      }
    }
  }

  /** Has the run of `j` pages from `start` (modulo 2^32) reached page i? */
  predicate InRun(i: nat, start: u32, j: nat) {
    (i - start as int) % TWO_32 < j
  }

  /** One step of the third loop's inner run: page (start + j) mod 2^32 is cleared, when the bitmap holds it. */
  lemma RunExtends(before: seq<bool>, after: seq<bool>, mmap: seq<MmapEntry>, k: nat, start: u32, j: nat)
    requires k < |mmap| && j < TWO_32 && |before| <= TWO_32
    requires var index := Wrap32(start as int + j) as nat;
             if index < |before| then after == ClearBit(before, index) else after == before
    requires forall i :: 0 <= i < |before| ==> (Bit(before, i) <==> !(FreedBy(mmap, k, i) || InRun(i, start, j)))
    ensures forall i :: 0 <= i < |after| ==> (Bit(after, i) <==> !(FreedBy(mmap, k, i) || InRun(i, start, j + 1)))
  {
    var index := Wrap32(start as int + j) as nat;
    forall i | 0 <= i < |after|
      ensures Bit(after, i) <==> !(FreedBy(mmap, k, i) || InRun(i, start, j + 1))
    {
      RunStep(i, start, j);
    }
  }

  /** Page i is reached at step j of a run from start exactly when (start + j) mod 2^32 == i. */
  lemma RunStep(i: nat, start: u32, j: nat)
    requires i < TWO_32 && j < TWO_32
    ensures InRun(i, start, j + 1) <==> (InRun(i, start, j) || Wrap32(start as int + j) as int == i)
  {
    var d := (i - start as int) % TWO_32;
    assert (start as int + d) % TWO_32 == i;
    if (start as int + j) % TWO_32 == i {
      assert d == j;
    }
  }
}
