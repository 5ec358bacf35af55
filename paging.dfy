/**
 * Two-level i686 paging (section 4.3 of the Intel 64 and IA-32 Architectures
 * Software Developer's Manual, Volume 3A): a page directory of 1024 entries,
 * each pointing to a page table of 1024 entries, each mapping one 4 KiB page.
 *
 * Physical memory is a flat array of 32-bit words; the kernel reaches its
 * directories and tables through their physical addresses, so the word at
 * address a is mem[a / 4].
 */
module Paging {
  import opened Kernel
  import PageAllocator

  const PAGING_IS_PRESENT: u8 := 1
  const PAGING_IS_WRITEABLE: u8 := 2
  const PAGING_ACCESS_FROM_ALL: u8 := 4
  const PAGING_TOTAL_ENTRIES_PER_TABLE: int := 1024

  /** Bytes mapped by one directory entry: 1024 pages of 4 KiB. */
  const TABLE_SPAN: int := PAGING_TOTAL_ENTRIES_PER_TABLE * PAGE_SIZE

  /** Number of 32-bit words in the 4 GiB physical address space. */
  const MEM_WORDS: int := TWO_32 / 4

  /** paging_is_aligned: is the address a multiple of the page size? */
  predicate IsAligned(addr: u32) {
    addr as int % PAGE_SIZE == 0
  }

  /**
   * paging_get_indices: the status and the (directory, table) indices of a
   * virtual address; on an unaligned address the status is EINVARG and the
   * caller's index variables keep the values d0 and t0.
   */
  function GetIndices(virt: u32, d0: u32, t0: u32): (u32, u32, u32) {
    if !IsAligned(virt) then (EINVARG, d0, t0)
    else (EOK, virt / TABLE_SPAN as u32, (virt % TABLE_SPAN as u32) / PAGE_SIZE as u32)
  }

  /** The address that a (directory, table) index pair stands for. */
  function Compose(d: u32, t: u32): int {
    d as int * TABLE_SPAN + t as int * PAGE_SIZE
  }

  /**
   * For an aligned address, the indices are below 1024 and compose back to
   * the address; an unaligned one is refused with the outputs untouched.
   */
  lemma GetIndicesSpec(virt: u32, d0: u32, t0: u32)
    ensures var (res, d, t) := GetIndices(virt, d0, t0);
            (res == EOK <==> IsAligned(virt)) &&
            (res == EOK ==> d < 1024 && t < 1024 && Compose(d, t) == virt as int) &&
            (res != EOK ==> res == EINVARG && d == d0 && t == t0)
  {
    var (res, d, t) := GetIndices(virt, d0, t0);
    if res == EOK {
      var v := virt as int;
      var r := v % TABLE_SPAN;
      assert d as int == v / TABLE_SPAN && t as int == r / PAGE_SIZE;
      assert v == d as int * TABLE_SPAN + r && 0 <= r < TABLE_SPAN;
      assert r == t as int * PAGE_SIZE + r % PAGE_SIZE;
      assert v == (d as int * 1024 + t as int) * PAGE_SIZE + r % PAGE_SIZE;
      assert r % PAGE_SIZE == v % PAGE_SIZE == 0;
    }
  }

  /** Every index pair within a directory is reached by exactly one aligned address. */
  lemma {:induction false} GetIndicesOfCompose(d: u32, t: u32)
    requires d < 1024 && t < 1024
    ensures Compose(d, t) < TWO_32
    ensures IsAligned(Compose(d, t) as u32)
    ensures GetIndices(Compose(d, t) as u32, 0, 0) == (EOK, d, t)
  {
    var v := Compose(d, t);
    var low := t as int * PAGE_SIZE;
    DivUnique(v, TABLE_SPAN, d as int, low);
    assert v % TABLE_SPAN == low;
    DivUnique(low, PAGE_SIZE, t as int, 0);
    DivUnique(v, PAGE_SIZE, d as int * 1024 + t as int, 0);
  }

  /** `entry & 0xFFFFF000`: the frame address held in a directory or table entry. */
  function FrameOf(entry: u32): (r: u32)
    ensures IsAligned(r) && r <= entry && entry as int - r as int < PAGE_SIZE
  {
    entry - entry % PAGE_SIZE as u32
  }

  /**
   * `addr | low` for a page-aligned address and a low part below 4096: the
   * two share no bit, so the or is a sum.
   */
  function WithFlags(addr: u32, low: u8): (r: u32)
    requires IsAligned(addr)
    ensures FrameOf(r) == addr && r as int % PAGE_SIZE == low as int
  {
    addr + low as u32
  }

  /** `flags | PAGING_IS_WRITEABLE` on a uint8_t. */
  function Writeable(flags: u8): (r: u8)
    ensures r as int % 4 / 2 == 1
    ensures r as int % 2 == flags as int % 2 && r as int / 4 == flags as int / 4
  {
    if flags as int % 4 / 2 == 1 then flags else flags + 2
  }

  /** Index in mem of directory entry d of the directory at dir. */
  function DirSlot(dir: u32, d: u32): (r: nat)
    requires IsAligned(dir) && d < 1024
    ensures r < MEM_WORDS
  {
    dir as nat / 4 + d as nat
  }

  /** Index in mem of entry t of the table whose address a directory entry holds. */
  function TableSlot(entry: u32, t: u32): (r: nat)
    requires t < 1024
    ensures r < MEM_WORDS
  {
    FrameOf(entry) as nat / 4 + t as nat
  }

  /** Every directory entry of an aligned directory lies inside memory. */
  lemma DirSlotInMemory(dir: u32, d: u32)
    requires IsAligned(dir) && d < 1024
    ensures DirSlot(dir, d) < MEM_WORDS
  {
  }

  /** Every table slot lies inside memory. */
  lemma SlotsInMemory(entry: u32, t: u32)
    requires t < 1024
    ensures TableSlot(entry, t) < MEM_WORDS
  {
  }

  /** The page-table entry that maps an aligned virtual address under directory dir. */
  function Translate(mem: seq<u32>, dir: u32, virt: u32): u32
    requires |mem| == MEM_WORDS && IsAligned(dir) && IsAligned(virt)
  {
    GetIndicesSpec(virt, 0, 0);
    var (_, d, t) := GetIndices(virt, 0, 0);
    mem[TableSlot(mem[DirSlot(dir, d)], t)]
  }

  /** A page-aligned address leaves room for a whole frame below 4 GiB. */
  lemma AlignedBound(a: u32)
    requires IsAligned(a)
    ensures a as int <= TWO_32 - PAGE_SIZE
  {
  }

  /** Distinct page-aligned frames occupy disjoint runs of 1024 words. */
  lemma FramesDisjoint(a: u32, b: u32, x: nat, y: nat)
    requires IsAligned(a) && IsAligned(b) && x < 1024 && y < 1024
    ensures (a as nat / 4 + x == b as nat / 4 + y) <==> (a == b && x == y)
  {
    assert a as nat / 4 == (a as nat / PAGE_SIZE) * 1024;
    assert b as nat / 4 == (b as nat / PAGE_SIZE) * 1024;
  }

  /** The table entry page_directory_create writes for page j of table i: an identity mapping. */
  function IdentityEntry(i: nat, j: nat, flags: u8): u32
    requires i < 1024 && j < 1024
  {
    GetIndicesOfCompose(i as u32, j as u32);
    WithFlags(Compose(i as u32, j as u32) as u32, flags)
  }

  /** Frames page_directory_create takes from page_alloc are aligned and pairwise distinct. */
  predicate GoodFrames(frames: seq<u32>) {
    |frames| == 1025 &&
    (forall k :: 0 <= k < |frames| ==> IsAligned(frames[k])) &&
    (forall k, l :: 0 <= k < l < |frames| ==> frames[k] != frames[l])
  }

  /** Index in mem of directory entry i of the directory that create builds. */
  function DirWord(frames: seq<u32>, i: nat): (r: nat)
    requires GoodFrames(frames)
    ensures i < 1024 ==> r < MEM_WORDS
  {
    AlignedBound(frames[0]);
    frames[0] as nat / 4 + i
  }

  /** Index in mem of entry j of table i that create builds. */
  function TableWord(frames: seq<u32>, i: nat, j: nat): (r: nat)
    requires GoodFrames(frames) && i < 1024
    ensures j < 1024 ==> r < MEM_WORDS
  {
    AlignedBound(frames[i + 1]);
    frames[i + 1] as nat / 4 + j
  }

  /** Is word w inside table i? */
  predicate InTable(frames: seq<u32>, i: nat, w: nat)
    requires GoodFrames(frames) && i < 1024
  {
    TableWord(frames, i, 0) <= w < TableWord(frames, i, 1024)
  }

  /** Is word w inside the first n tables or the first m directory entries that create writes? */
  predicate Written(frames: seq<u32>, n: nat, m: nat, w: nat)
    requires GoodFrames(frames) && n <= 1024 && m <= 1024
  {
    (DirWord(frames, 0) <= w < DirWord(frames, m)) ||
    exists i :: 0 <= i < n && InTable(frames, i, w)
  }

  /** The memory contents page_directory_create promises, for the directory in frames[0]. */
  ghost predicate Created(mem: seq<u32>, frames: seq<u32>, flags: u8)
    requires |mem| == MEM_WORDS && GoodFrames(frames)
  {
    (forall i :: 0 <= i < 1024 ==> mem[DirWord(frames, i)] == WithFlags(frames[i + 1], Writeable(flags))) &&
    (forall i, j :: 0 <= i < 1024 && 0 <= j < 1024 ==> mem[TableWord(frames, i, j)] == IdentityEntry(i, j, flags))
  }

  /**
   * page_directory_create maps the whole 4 GiB address space one-to-one:
   * every aligned virtual address translates to itself, with the flags.
   */
  lemma CreatedIsIdentity(mem: seq<u32>, frames: seq<u32>, flags: u8, virt: u32)
    requires |mem| == MEM_WORDS && GoodFrames(frames) && Created(mem, frames, flags) && IsAligned(virt)
    ensures Translate(mem, frames[0], virt) == WithFlags(virt, flags)
  {
    GetIndicesSpec(virt, 0, 0);
    var (_, d, t) := GetIndices(virt, 0, 0);
    assert mem[DirWord(frames, d as nat)] == WithFlags(frames[d + 1], Writeable(flags));
    assert mem[TableWord(frames, d as nat, t as nat)] == IdentityEntry(d as nat, t as nat, flags);
  }

  /** A directory entry of create never lies in one of its tables. */
  lemma DirNotInTable(frames: seq<u32>, i: nat, k: nat)
    requires GoodFrames(frames) && i < 1024 && k < 1024
    ensures !InTable(frames, k, DirWord(frames, i))
  {
    FramesDisjoint(frames[0], frames[k + 1], i, 0);
    if InTable(frames, k, DirWord(frames, i)) {
      FramesDisjoint(frames[0], frames[k + 1], i, DirWord(frames, i) - TableWord(frames, k, 0));
    }
  }

  /** Two tables of create do not overlap. */
  lemma TablesApart(frames: seq<u32>, i: nat, k: nat, j: nat)
    requires GoodFrames(frames) && i < 1024 && k < 1024 && j < 1024 && i != k
    ensures !InTable(frames, k, TableWord(frames, i, j))
  {
    if InTable(frames, k, TableWord(frames, i, j)) {
      FramesDisjoint(frames[i + 1], frames[k + 1], j, TableWord(frames, i, j) - TableWord(frames, k, 0));
    }
  }

  /** The address of frame k, as page_alloc returns it, is page-aligned and below 4 GiB. */
  lemma FrameAddress(k: nat)
    requires k < PageAllocator.MAX_PAGES
    ensures k * PAGE_SIZE < TWO_32 && IsAligned((k * PAGE_SIZE) as u32)
  {
  }

  /** The page-aligned addresses of the frames with the given indices. */
  function Frames(s: seq<nat>): (r: seq<u32>)
    requires forall k :: 0 <= k < |s| ==> s[k] < PageAllocator.MAX_PAGES
    ensures |r| == |s|
    ensures forall k :: 0 <= k < |s| ==> r[k] as nat == s[k] * PAGE_SIZE && r[k] as nat / PAGE_SIZE == s[k] && IsAligned(r[k])
  {
    seq(|s|, k requires 0 <= k < |s| => FrameAddress(s[k]); (s[k] * PAGE_SIZE) as u32)
  }

  /** The 1025 frames page_alloc hands out in a row are aligned and pairwise distinct. */
  lemma AllocatedFramesGood(bits: seq<bool>, cursor: nat, n: nat)
    requires n <= |bits| && n < PageAllocator.MAX_PAGES
    requires PageAllocator.Allocs(bits, cursor, n, 1025).Some?
    ensures GoodFrames(Frames(PageAllocator.Allocs(bits, cursor, n, 1025).value))
  {
    var s := PageAllocator.Allocs(bits, cursor, n, 1025).value;
    PageAllocator.AllocsSpec(bits, cursor, n, 1025);
    var frames := Frames(s);
    forall k, l | 0 <= k < l < 1025
      ensures frames[k] != frames[l]
    {
      assert s[k] < s[l];
    }
  }

  /**
   * page_directory_create: the directory goes in the frame the first
   * page_alloc returns and table i in the one the (i + 1)-th returns; table
   * i maps page j to physical address i * 4 MiB + j * 4 KiB with the given
   * flags, and the directory entry adds PAGING_IS_WRITEABLE.  No other word
   * changes, and the allocator ends with those 1025 bits set and its cursor
   * on the last.  When a page_alloc finds no free frame the kernel panics.
   */
  method DirectoryCreate(mem: array<u32>, pa: PageAllocator.PageAllocator, flags: u8) returns (r: Outcome<u32>)
    requires mem.Length == MEM_WORDS && pa.Valid()
    modifies mem, pa, pa.bitmap
    ensures pa.Valid() && pa.bitmap == old(pa.bitmap) && pa.numPages == old(pa.numPages)
    ensures var plan := PageAllocator.Allocs(old(pa.bitmap[..]), old(pa.lastIndex) as nat, pa.numPages as nat, 1025);
            (r == Halt <==> plan.None?)
            && (r.Done? ==>
                  var frames := Frames(plan.value);
                  GoodFrames(frames) && r.value == frames[0] && Created(mem[..], frames, flags)
                  && (forall w :: 0 <= w < MEM_WORDS && !Written(frames, 1024, 1024, w) ==> mem[w] == old(mem[w]))
                  && pa.bitmap[..] == PageAllocator.SetAll(old(pa.bitmap[..]), plan.value)
                  && pa.lastIndex as nat == plan.value[1024])
  {
    ghost var bits, cursor, n := pa.bitmap[..], pa.lastIndex as nat, pa.numPages as nat;
    ghost var plan := PageAllocator.Allocs(bits, cursor, n, 1025);
    ghost var frames: seq<u32> := [];
    if plan.Some? {
      AllocatedFramesGood(bits, cursor, n);
      frames := Frames(plan.value);
    }
    var d, got := CreateDirectory(mem, pa, flags, bits, cursor, plan, frames);
    if d == Halt {
      return Halt;
    }
    var dir := d.value;
    ghost var orig := mem[..];
    r, got := CreateTables(mem, pa, dir, flags, bits, cursor, got, plan, frames, orig);
    if r.Done? {
      CreateFinish(mem, orig, dir, bits, cursor, n, got, plan, frames, flags);
    }
  }

  /** The first page_alloc of page_directory_create, for the directory itself. */
  method CreateDirectory(mem: array<u32>, pa: PageAllocator.PageAllocator, flags: u8,
                         ghost bits: seq<bool>, ghost cursor: nat, ghost plan: Option<seq<nat>>, ghost frames: seq<u32>)
    returns (d: Outcome<u32>, ghost got: seq<nat>)
    requires mem.Length == MEM_WORDS && pa.Valid()
    requires bits == pa.bitmap[..] && cursor == pa.lastIndex as nat
    requires plan == PageAllocator.Allocs(bits, cursor, pa.numPages as nat, 1025)
    requires plan.Some? ==> GoodFrames(frames) && frames == Frames(plan.value)
    modifies pa, pa.bitmap
    ensures pa.Valid() && pa.bitmap == old(pa.bitmap) && pa.numPages == old(pa.numPages)
    ensures d == Halt ==> plan.None?
    ensures d.Done? ==>
              AllocProgress(pa.bitmap[..], pa.lastIndex as nat, bits, cursor, pa.numPages as nat, got, 0)
              && MemProgress(mem[..], mem[..], d.value, bits, cursor, pa.numPages as nat, got, plan, frames, flags, 0)
  {
    ghost var n := pa.numPages as nat;
    assert PageAllocator.Allocs(bits, cursor, n, 0) == Some([]) && PageAllocator.SetAll(bits, []) == bits;
    d, got := pa.AllocNext(bits, cursor, []);
    if d == Halt {
      PageAllocator.AllocsStop(bits, cursor, n, 1, 1025);
      return;
    }
    CreateStart(mem[..], d.value, bits, cursor, n, got, plan, frames, flags);
  }

  /**
   * The outer loop of page_directory_create, once the directory is
   * allocated: tables 0 to 1023 in turn.  It halts exactly when the run of
   * 1025 allocations fails; otherwise it returns the directory with the run
   * complete.
   */
  method CreateTables(mem: array<u32>, pa: PageAllocator.PageAllocator, dir: u32, flags: u8,
                      ghost bits: seq<bool>, ghost cursor: nat, ghost got: seq<nat>, ghost plan: Option<seq<nat>>,
                      ghost frames: seq<u32>, ghost orig: seq<u32>)
    returns (r: Outcome<u32>, ghost got': seq<nat>)
    requires mem.Length == MEM_WORDS && pa.Valid()
    requires AllocProgress(pa.bitmap[..], pa.lastIndex as nat, bits, cursor, pa.numPages as nat, got, 0)
    requires MemProgress(mem[..], orig, dir, bits, cursor, pa.numPages as nat, got, plan, frames, flags, 0)
    modifies mem, pa, pa.bitmap
    ensures pa.Valid() && pa.bitmap == old(pa.bitmap) && pa.numPages == old(pa.numPages)
    ensures r == Halt <==> plan.None?
    ensures r.Done? ==>
              r.value == dir
              && AllocProgress(pa.bitmap[..], pa.lastIndex as nat, bits, cursor, pa.numPages as nat, got', 1024)
              && MemProgress(mem[..], orig, dir, bits, cursor, pa.numPages as nat, got', plan, frames, flags, 1024)
  {
    ghost var n := pa.numPages as nat;
    got' := got;
    var i := 0;
    while i < 1024
      invariant 0 <= i <= 1024
      invariant pa.Valid() && pa.bitmap == old(pa.bitmap) && pa.numPages as nat == n
      invariant AllocProgress(pa.bitmap[..], pa.lastIndex as nat, bits, cursor, n, got', i)
      invariant MemProgress(mem[..], orig, dir, bits, cursor, n, got', plan, frames, flags, i)
    {
      var t;
      t, got' := CreateTable(mem, pa, dir, flags, i, bits, cursor, got', plan, frames, orig);
      if t == Halt {
        return Halt, got';
      }
      i := i + 1;
    }
    return Done(dir), got';
  }

  /**
   * The allocator after the first i iterations of page_directory_create's
   * outer loop: it has made the first i + 1 allocations of the run from
   * (bits, cursor), with their bits set and its cursor on the last.
   */
  ghost predicate AllocProgress(bitmap: seq<bool>, last: nat, bits: seq<bool>, cursor: nat, n: nat, got: seq<nat>, i: nat)
  {
    n <= |bits| && |got| == i + 1
    && PageAllocator.Allocs(bits, cursor, n, i + 1) == Some(got)
    && bitmap == PageAllocator.SetAll(bits, got) && last == got[i]
  }

  /**
   * The memory after the first i iterations of page_directory_create's outer
   * loop: when the whole run of 1025 allocations succeeds (plan), its first
   * i + 1 frames are the ones taken so far and the memory is CreatedUpTo i.
   */
  ghost predicate MemProgress(mem: seq<u32>, orig: seq<u32>, dir: u32, bits: seq<bool>, cursor: nat, n: nat,
                              got: seq<nat>, plan: Option<seq<nat>>, frames: seq<u32>, flags: u8, i: nat)
  {
    i <= 1024 && n <= |bits| && n < PageAllocator.MAX_PAGES && IsAligned(dir) && |got| == i + 1
    && plan == PageAllocator.Allocs(bits, cursor, n, 1025)
    && (plan.Some? ==> GoodFrames(frames) && frames == Frames(plan.value) && got == plan.value[..i + 1]
                       && dir == frames[0] && CreatedUpTo(mem, orig, frames, flags, i))
  }

  /** Once page_alloc has returned the directory, the outer loop can start. */
  lemma CreateStart(mem: seq<u32>, dir: u32, bits: seq<bool>, cursor: nat, n: nat,
                    got: seq<nat>, plan: Option<seq<nat>>, frames: seq<u32>, flags: u8)
    requires |mem| == MEM_WORDS && n <= |bits| && n < PageAllocator.MAX_PAGES
    requires PageAllocator.Allocs(bits, cursor, n, 1) == Some(got) && |got| == 1
    requires dir as nat == got[0] * PAGE_SIZE
    requires plan == PageAllocator.Allocs(bits, cursor, n, 1025)
    requires plan.Some? ==> GoodFrames(frames) && frames == Frames(plan.value)
    ensures MemProgress(mem, mem, dir, bits, cursor, n, got, plan, frames, flags, 0)
  {
    FrameAddress(got[0]);
    if plan.Some? {
      PageAllocator.AllocsPrefix(bits, cursor, n, 1025, 1);
      assert dir == frames[0];
    }
  }

  /** After the last iteration the whole run has succeeded and memory holds what create promises. */
  lemma CreateFinish(mem: array<u32>, orig: seq<u32>, dir: u32, bits: seq<bool>, cursor: nat, n: nat,
                     got: seq<nat>, plan: Option<seq<nat>>, frames: seq<u32>, flags: u8)
    requires MemProgress(mem[..], orig, dir, bits, cursor, n, got, plan, frames, flags, 1024)
    requires PageAllocator.Allocs(bits, cursor, n, 1025) == Some(got)
    ensures plan == Some(got) && frames == Frames(got) && GoodFrames(frames) && dir == frames[0]
    ensures Created(mem[..], frames, flags)
    ensures forall w :: 0 <= w < MEM_WORDS && !Written(frames, 1024, 1024, w) ==> mem[w] == orig[w]
  {
    forall w | 0 <= w < MEM_WORDS && !Written(frames, 1024, 1024, w)
      ensures mem[w] == orig[w]
    {
      assert mem[..][w] == orig[w];
    }
  }

  /**
   * One iteration of page_directory_create's outer loop: page_alloc a
   * table (halting exactly when that allocation of the run panics), fill
   * it, and write directory entry i.
   */
  method CreateTable(mem: array<u32>, pa: PageAllocator.PageAllocator, dir: u32, flags: u8, i: nat,
                     ghost bits: seq<bool>, ghost cursor: nat, ghost got: seq<nat>, ghost plan: Option<seq<nat>>,
                     ghost frames: seq<u32>, ghost orig: seq<u32>)
    returns (t: Outcome<u32>, ghost got': seq<nat>)
    requires mem.Length == MEM_WORDS && pa.Valid() && i < 1024
    requires AllocProgress(pa.bitmap[..], pa.lastIndex as nat, bits, cursor, pa.numPages as nat, got, i)
    requires MemProgress(mem[..], orig, dir, bits, cursor, pa.numPages as nat, got, plan, frames, flags, i)
    modifies mem, pa, pa.bitmap
    ensures pa.Valid() && pa.bitmap == old(pa.bitmap) && pa.numPages == old(pa.numPages)
    ensures t == Halt ==> plan.None?
    ensures t.Done? ==>
              AllocProgress(pa.bitmap[..], pa.lastIndex as nat, bits, cursor, pa.numPages as nat, got', i + 1)
              && MemProgress(mem[..], orig, dir, bits, cursor, pa.numPages as nat, got', plan, frames, flags, i + 1)
  {
    ghost var n, before := pa.numPages as nat, mem[..];
    t, got' := pa.AllocNext(bits, cursor, got);
    if t == Halt {
      PageAllocator.AllocsStop(bits, cursor, n, i + 2, 1025);
      return;
    }
    var table := t.value;
    FrameAddress(got'[i + 1]);
    if plan.Some? {
      PageAllocator.AllocsPrefix(bits, cursor, n, 1025, i + 2);
    }
    ghost var filled := WriteTable(mem, dir, table, i, flags);
    MemAdvance(before, filled, mem[..], orig, dir, table, bits, cursor, n, got, got', plan, frames, flags, i);
  }

  /** The writes of one iteration keep MemProgress. */
  lemma MemAdvance(before: seq<u32>, filled: seq<u32>, after: seq<u32>, orig: seq<u32>, dir: u32, table: u32,
                   bits: seq<bool>, cursor: nat, n: nat, got: seq<nat>, got': seq<nat>,
                   plan: Option<seq<nat>>, frames: seq<u32>, flags: u8, i: nat)
    requires i < 1024 && n <= |bits| && IsAligned(dir) && IsAligned(table)
    requires table as nat / 4 + 1024 <= MEM_WORDS && dir as nat / 4 + 1024 <= MEM_WORDS
    requires |before| == MEM_WORDS && |filled| == MEM_WORDS
    requires forall j :: 0 <= j < 1024 ==> filled[table as nat / 4 + j] == IdentityEntry(i, j, flags)
    requires forall w :: 0 <= w < MEM_WORDS && !(table as nat / 4 <= w < table as nat / 4 + 1024) ==>
               filled[w] == before[w]
    requires after == filled[dir as nat / 4 + i := WithFlags(table, Writeable(flags))]
    requires |got'| == i + 2 && got'[..i + 1] == got && table as nat == got'[i + 1] * PAGE_SIZE
    requires plan.Some? && |plan.value| == 1025 ==> got' == plan.value[..i + 2]
    requires MemProgress(before, orig, dir, bits, cursor, n, got, plan, frames, flags, i)
    ensures MemProgress(after, orig, dir, bits, cursor, n, got', plan, frames, flags, i + 1)
  {
    if plan.Some? {
      SameFrame(plan.value, got', i + 1, table);
      CreateStep(before, filled, after, orig, frames, dir, table, flags, i);
    }
  }

  /** The frame a run of allocations returned is the one a longer run of it plans. */
  lemma SameFrame(plan: seq<nat>, got: seq<nat>, k: nat, table: u32)
    requires k < |got| <= |plan| && got == plan[..|got|]
    requires forall m :: 0 <= m < |plan| ==> plan[m] < PageAllocator.MAX_PAGES
    requires table as nat == got[k] * PAGE_SIZE
    ensures table == Frames(plan)[k]
  {
  }

  /**
   * One iteration of page_directory_create's outer loop on memory: table i
   * gets its identity entries (`filled`), then directory entry i points to
   * the table, writeable.
   */
  method WriteTable(mem: array<u32>, dir: u32, table: u32, i: nat, flags: u8) returns (ghost filled: seq<u32>)
    requires mem.Length == MEM_WORDS && IsAligned(dir) && IsAligned(table) && i < 1024
    modifies mem
    ensures table as nat / 4 + 1024 <= MEM_WORDS && dir as nat / 4 + 1024 <= MEM_WORDS && |filled| == MEM_WORDS
    ensures forall j :: 0 <= j < 1024 ==> filled[table as nat / 4 + j] == IdentityEntry(i, j, flags)
    ensures forall w :: 0 <= w < MEM_WORDS && !(table as nat / 4 <= w < table as nat / 4 + 1024) ==>
              filled[w] == old(mem[w])
    ensures mem[..] == filled[dir as nat / 4 + i := WithFlags(table, Writeable(flags))]
  {
    AlignedBound(dir);
    AlignedBound(table);
    FillTable(mem, table, i, flags);
    filled := mem[..];
    DirSlotInMemory(dir, i as u32);
    mem[dir as nat / 4 + i] := WithFlags(table, Writeable(flags));
  }

  /** The state after the first n iterations of page_directory_create's outer loop. */
  ghost predicate CreatedUpTo(mem: seq<u32>, orig: seq<u32>, frames: seq<u32>, flags: u8, n: nat)
    requires GoodFrames(frames) && n <= 1024
  {
    |mem| == MEM_WORDS && |orig| == MEM_WORDS &&
    (forall k :: 0 <= k < n ==> mem[DirWord(frames, k)] == WithFlags(frames[k + 1], Writeable(flags))) &&
    (forall k, j :: 0 <= k < n && 0 <= j < 1024 ==> mem[TableWord(frames, k, j)] == IdentityEntry(k, j, flags)) &&
    (forall w :: 0 <= w < MEM_WORDS && !Written(frames, n, n, w) ==> mem[w] == orig[w])
  }

  /** One iteration of page_directory_create's outer loop: fill table i, then write directory entry i. */
  lemma CreateStep(before: seq<u32>, filled: seq<u32>, after: seq<u32>, orig: seq<u32>, frames: seq<u32>,
                   dir: u32, table: u32, flags: u8, i: nat)
    requires GoodFrames(frames) && i < 1024 && dir == frames[0] && table == frames[i + 1]
    requires table as nat / 4 + 1024 <= MEM_WORDS && dir as nat / 4 + 1024 <= MEM_WORDS
    requires |before| == MEM_WORDS && |filled| == MEM_WORDS
    requires forall j :: 0 <= j < 1024 ==> filled[table as nat / 4 + j] == IdentityEntry(i, j, flags)
    requires forall w :: 0 <= w < MEM_WORDS && !(table as nat / 4 <= w < table as nat / 4 + 1024) ==>
               filled[w] == before[w]
    requires after == filled[dir as nat / 4 + i := WithFlags(table, Writeable(flags))]
    requires CreatedUpTo(before, orig, frames, flags, i)
    ensures CreatedUpTo(after, orig, frames, flags, i + 1)
  {
    StepWrites(before, filled, after, frames, dir, table, flags, i);
    StepTables(before, filled, after, orig, frames, flags, i);
    StepDirectory(before, filled, after, orig, frames, flags, i);
    StepFrame(before, filled, after, orig, frames, flags, i);
  }

  /** What FillTable(i) and the write of directory entry i leave in memory. */
  ghost predicate StepDone(before: seq<u32>, filled: seq<u32>, after: seq<u32>, frames: seq<u32>, flags: u8, i: nat)
    requires GoodFrames(frames) && i < 1024
  {
    |before| == MEM_WORDS && |filled| == MEM_WORDS &&
    (forall j :: 0 <= j < 1024 ==> filled[TableWord(frames, i, j)] == IdentityEntry(i, j, flags)) &&
    (forall w :: 0 <= w < MEM_WORDS && !InTable(frames, i, w) ==> filled[w] == before[w]) &&
    after == filled[DirWord(frames, i) := WithFlags(frames[i + 1], Writeable(flags))]
  }

  /** FillTable's and the directory write's effects, restated in the words of StepDone. */
  lemma StepWrites(before: seq<u32>, filled: seq<u32>, after: seq<u32>, frames: seq<u32>, dir: u32, table: u32,
                   flags: u8, i: nat)
    requires GoodFrames(frames) && i < 1024 && dir == frames[0] && table == frames[i + 1]
    requires table as nat / 4 + 1024 <= MEM_WORDS && dir as nat / 4 + 1024 <= MEM_WORDS
    requires |before| == MEM_WORDS && |filled| == MEM_WORDS
    requires forall j :: 0 <= j < 1024 ==> filled[table as nat / 4 + j] == IdentityEntry(i, j, flags)
    requires forall w :: 0 <= w < MEM_WORDS && !(table as nat / 4 <= w < table as nat / 4 + 1024) ==>
               filled[w] == before[w]
    requires after == filled[dir as nat / 4 + i := WithFlags(table, Writeable(flags))]
    ensures StepDone(before, filled, after, frames, flags, i)
  {
    forall j | 0 <= j < 1024
      ensures filled[TableWord(frames, i, j)] == IdentityEntry(i, j, flags)
    {
      assert TableWord(frames, i, j) == table as nat / 4 + j;
    }
    assert after == filled[DirWord(frames, i) := WithFlags(frames[i + 1], Writeable(flags))];
  }

  lemma StepTables(before: seq<u32>, filled: seq<u32>, after: seq<u32>, orig: seq<u32>, frames: seq<u32>, flags: u8, i: nat)
    requires GoodFrames(frames) && i < 1024
    requires CreatedUpTo(before, orig, frames, flags, i) && StepDone(before, filled, after, frames, flags, i)
    ensures forall k, j :: 0 <= k < i + 1 && 0 <= j < 1024 ==> after[TableWord(frames, k, j)] == IdentityEntry(k, j, flags)
  {
    forall k, j | 0 <= k < i + 1 && 0 <= j < 1024
      ensures after[TableWord(frames, k, j)] == IdentityEntry(k, j, flags)
    {
      DirNotInTable(frames, i, k);
      if k < i {
        TablesApart(frames, k, i, j);
      }
    }
  }

  lemma StepDirectory(before: seq<u32>, filled: seq<u32>, after: seq<u32>, orig: seq<u32>, frames: seq<u32>, flags: u8, i: nat)
    requires GoodFrames(frames) && i < 1024
    requires CreatedUpTo(before, orig, frames, flags, i) && StepDone(before, filled, after, frames, flags, i)
    ensures forall k :: 0 <= k < i + 1 ==> after[DirWord(frames, k)] == WithFlags(frames[k + 1], Writeable(flags))
  {
    forall k | 0 <= k < i
      ensures after[DirWord(frames, k)] == WithFlags(frames[k + 1], Writeable(flags))
    {
      DirNotInTable(frames, k, i);
    }
  }

  lemma StepFrame(before: seq<u32>, filled: seq<u32>, after: seq<u32>, orig: seq<u32>, frames: seq<u32>, flags: u8, i: nat)
    requires GoodFrames(frames) && i < 1024
    requires CreatedUpTo(before, orig, frames, flags, i) && StepDone(before, filled, after, frames, flags, i)
    ensures forall w :: 0 <= w < MEM_WORDS && !Written(frames, i + 1, i + 1, w) ==> after[w] == orig[w]
  {
    forall w | 0 <= w < MEM_WORDS && !Written(frames, i + 1, i + 1, w)
      ensures after[w] == orig[w]
    {
      assert !Written(frames, i, i, w) && !InTable(frames, i, w) && w != DirWord(frames, i);
    }
  }

  /** The inner loop of page_directory_create: fills table i, at address `table`. */
  method FillTable(mem: array<u32>, table: u32, i: nat, flags: u8)
    requires mem.Length == MEM_WORDS && IsAligned(table) && i < 1024
    modifies mem
    ensures table as nat / 4 + 1024 <= MEM_WORDS
    ensures forall j :: 0 <= j < 1024 ==> mem[table as nat / 4 + j] == IdentityEntry(i, j, flags)
    ensures forall w :: 0 <= w < MEM_WORDS && !(table as nat / 4 <= w < table as nat / 4 + 1024) ==> mem[w] == old(mem[w])
  {
    AlignedBound(table);
    var base := table as nat / 4;
    var j := 0;
    while j < 1024
      invariant 0 <= j <= 1024
      invariant forall x :: 0 <= x < j ==> mem[base + x] == IdentityEntry(i, x, flags)
      invariant forall w :: 0 <= w < MEM_WORDS && !(base <= w < base + j) ==> mem[w] == old(mem[w])
    {
      mem[base + j] := IdentityEntry(i, j, flags);
      j := j + 1;
    }
  }

  /** The frames page_directory_free hands to page_free, in order: each entry's table, then the directory. */
  function FreedFrames(mem: seq<u32>, dir: u32): (r: seq<u32>)
    requires |mem| == MEM_WORDS && IsAligned(dir)
    ensures |r| == 1025 && r[1024] == dir
    ensures forall i :: 0 <= i < 1024 ==> r[i] == FrameOf(mem[DirSlot(dir, i as u32)])
  {
    seq(1024, i requires 0 <= i < 1024 => FrameOf(mem[DirSlot(dir, i as u32)])) + [dir]
  }

  /** Freeing a directory that page_directory_create built returns exactly its frames. */
  lemma FreeAfterCreate(mem: seq<u32>, frames: seq<u32>, flags: u8)
    requires |mem| == MEM_WORDS && GoodFrames(frames) && Created(mem, frames, flags)
    ensures FreedFrames(mem, frames[0]) == frames[1..] + [frames[0]]
  {
    var r := FreedFrames(mem, frames[0]);
    forall i | 0 <= i < 1024
      ensures r[i] == frames[i + 1]
    {
      assert DirSlot(frames[0], i as u32) == DirWord(frames, i);
    }
  }

  /** The bitmap after page_free on each of the addresses in turn. */
  function ClearFrames(bits: seq<bool>, addrs: seq<u32>): (r: seq<bool>)
    requires forall k :: 0 <= k < |addrs| ==> addrs[k] as nat / PAGE_SIZE < |bits|
    ensures |r| == |bits|
    decreases |addrs|
  {
    if addrs == [] then bits
    else ClearFrames(PageAllocator.ClearBit(bits, addrs[0] as nat / PAGE_SIZE), addrs[1..])
  }

  /** After freeing a list of frames, each of them is free and every other flag is as before. */
  lemma {:induction false} ClearFramesSpec(bits: seq<bool>, addrs: seq<u32>, i: nat)
    requires forall k :: 0 <= k < |addrs| ==> addrs[k] as nat / PAGE_SIZE < |bits|
    requires i < |bits|
    ensures ClearFrames(bits, addrs)[i] ==
            (bits[i] && forall k :: 0 <= k < |addrs| ==> addrs[k] as nat / PAGE_SIZE != i)
    decreases |addrs|
  {
    if addrs != [] {
      ClearFramesSpec(PageAllocator.ClearBit(bits, addrs[0] as nat / PAGE_SIZE), addrs[1..], i);
      assert forall k :: 1 <= k < |addrs| ==> addrs[k] == addrs[1..][k - 1];
    }
  }

  /**
   * page_directory_free: page_free on the table of each of the 1024
   * directory entries, then on the directory itself.
   */
  method DirectoryFree(mem: array<u32>, pa: PageAllocator.PageAllocator, dir: u32)
    requires mem.Length == MEM_WORDS && IsAligned(dir) && pa.Valid()
    requires forall k :: 0 <= k < 1025 ==> FreedFrames(mem[..], dir)[k] as nat / PAGE_SIZE < pa.bitmap.Length
    modifies pa, pa.bitmap
    ensures pa.Valid() && pa.bitmap == old(pa.bitmap) && pa.numPages == old(pa.numPages)
    ensures pa.bitmap[..] == ClearFrames(old(pa.bitmap[..]), FreedFrames(mem[..], dir))
    ensures pa.lastIndex as nat == dir as nat / PAGE_SIZE
  {
    ghost var freed := FreedFrames(mem[..], dir);
    var i := 0;
    while i < 1024
      invariant 0 <= i <= 1024
      invariant pa.Valid() && pa.bitmap == old(pa.bitmap) && pa.numPages == old(pa.numPages)
      invariant ClearFrames(old(pa.bitmap[..]), freed) == ClearFrames(pa.bitmap[..], freed[i..])
    {
      DirSlotInMemory(dir, i as u32);
      var entry := mem[dir as nat / 4 + i];
      var table := FrameOf(entry);
      assert freed[i..][0] == table && freed[i..][1..] == freed[i + 1..];
      pa.Free(table);
      i := i + 1;
    }
    assert freed[1024..] == [dir] && [dir][1..] == [];
    pa.Free(dir);
  }

  /**
   * page_directory_free undoes page_directory_create on the allocator: the
   * 1025 frames create took were free before, and freeing the directory it
   * built clears exactly those frames, so the bitmap is the one before create.
   */
  lemma CreateThenFree(bits: seq<bool>, cursor: nat, n: nat, mem: seq<u32>, flags: u8)
    requires n <= |bits| && n < PageAllocator.MAX_PAGES && PageAllocator.Allocs(bits, cursor, n, 1025).Some?
    requires var frames := Frames(PageAllocator.Allocs(bits, cursor, n, 1025).value);
             |mem| == MEM_WORDS && GoodFrames(frames) && Created(mem, frames, flags)
    ensures var frames := Frames(PageAllocator.Allocs(bits, cursor, n, 1025).value);
            FreedFrames(mem, frames[0]) == frames[1..] + [frames[0]]
            && forall k :: 0 <= k < 1025 ==> FreedFrames(mem, frames[0])[k] as nat / PAGE_SIZE < n
    ensures var s := PageAllocator.Allocs(bits, cursor, n, 1025).value;
            var frames := Frames(s);
            ClearFrames(PageAllocator.SetAll(bits, s), FreedFrames(mem, frames[0])) == bits
  {
    var s := PageAllocator.Allocs(bits, cursor, n, 1025).value;
    var frames := Frames(s);
    FreeAfterCreate(mem, frames, flags);
    PageAllocator.AllocsSpec(bits, cursor, n, 1025);
    var freed := frames[1..] + [frames[0]];
    forall k | 0 <= k < 1025
      ensures freed[k] as nat / PAGE_SIZE < n
    {
      if k < 1024 {
        assert freed[k] == frames[k + 1];
      }
    }
    ClearAllocated(bits, s, freed);
  }

  /**
   * Clearing, in any order, the frames that SetAll set, when each was clear
   * before, gives back the original bitmap.  Here the frames are cleared
   * rotated by one: the tables first, then the directory.
   */
  lemma ClearAllocated(bits: seq<bool>, s: seq<nat>, freed: seq<u32>)
    requires |s| == 1025 && |freed| == 1025
    requires forall k :: 0 <= k < 1025 ==> s[k] < |bits| && !bits[s[k]]
    requires forall k :: 0 <= k < 1024 ==> freed[k] as nat / PAGE_SIZE == s[k + 1]
    requires freed[1024] as nat / PAGE_SIZE == s[0]
    ensures ClearFrames(PageAllocator.SetAll(bits, s), freed) == bits
  {
    var r := ClearFrames(PageAllocator.SetAll(bits, s), freed);
    forall j | 0 <= j < |bits|
      ensures r[j] == bits[j]
    {
      assert PageAllocator.Bit(PageAllocator.SetAll(bits, s), j) == (bits[j] || j in s);
      ClearAllocatedAt(PageAllocator.SetAll(bits, s), bits, s, freed, j);
    }
  }

  /** ClearAllocated, for the bit of frame j, which `marked` has set exactly when it was set or allocated. */
  lemma ClearAllocatedAt(marked: seq<bool>, bits: seq<bool>, s: seq<nat>, freed: seq<u32>, j: nat)
    requires |s| == 1025 && |freed| == 1025 && |marked| == |bits| && j < |bits|
    requires forall k :: 0 <= k < 1025 ==> s[k] < |bits| && !bits[s[k]]
    requires forall k :: 0 <= k < 1024 ==> freed[k] as nat / PAGE_SIZE == s[k + 1]
    requires freed[1024] as nat / PAGE_SIZE == s[0]
    requires marked[j] == (bits[j] || j in s)
    ensures ClearFrames(marked, freed)[j] == bits[j]
  {
    ClearFramesSpec(marked, freed, j);
    if j in s {
      var m :| 0 <= m < 1025 && s[m] == j;
      var k := if m == 0 then 1024 else m - 1;
      assert freed[k] as nat / PAGE_SIZE == j;
    } else {
      forall k | 0 <= k < 1025
        ensures freed[k] as nat / PAGE_SIZE != j
      {
        if k < 1024 {
          assert s[k + 1] != j;
        } else {
          assert s[0] != j;
        }
      }
    }
  }

  /** The paging state of the kernel: the directory last loaded into CR3. */
  class PagingState {
    var currentDirectory: u32

    constructor ()
      ensures currentDirectory == 0
    {
      currentDirectory := 0;
    }

    /** paging_switch_directory: loads the directory and records it as current. */
    method SwitchDirectory(directory: u32)
      modifies this
      ensures currentDirectory == directory
    {
      currentDirectory := directory;
    }
  }

  /**
   * paging_set: for an aligned virtual address, stores val into the
   * page-table entry the directory selects; an unaligned address returns
   * -EINVARG and changes nothing.
   */
  method Set(mem: array<u32>, dir: u32, virt: u32, val: u32) returns (res: u32)
    requires mem.Length == MEM_WORDS && IsAligned(dir)
    modifies mem
    ensures !IsAligned(virt) ==> res == Negate(EINVARG) && mem[..] == old(mem[..])
    ensures IsAligned(virt) ==>
              var (_, d, t) := GetIndices(virt, 0, 0);
              res == EOK && d < 1024 && t < 1024 &&
              mem[..] == old(mem[..])[TableSlot(old(mem[DirSlot(dir, d)]), t) := val]
  {
    if !IsAligned(virt) {
      return Negate(EINVARG);
    }
    GetIndicesSpec(virt, 0, 0);
    // paging_get_indices repeats the alignment test, so its status is EOK here.
    var (_, d, t) := GetIndices(virt, 0, 0);
    var entry := mem[dir as nat / 4 + d as nat];
    var slot := FrameOf(entry) as nat / 4 + t as nat;
    mem[slot] := val;
    return EOK;
  }

  /**
   * paging_map: both addresses must be aligned (else -EINVARG and nothing
   * changes); then virt's page-table entry becomes phys | flags.
   */
  method Map(mem: array<u32>, dir: u32, virt: u32, phys: u32, flags: u8) returns (res: u32)
    requires mem.Length == MEM_WORDS && IsAligned(dir)
    modifies mem
    ensures !(IsAligned(virt) && IsAligned(phys)) ==> res == Negate(EINVARG) && mem[..] == old(mem[..])
    ensures IsAligned(virt) && IsAligned(phys) ==>
              var (_, d, t) := GetIndices(virt, 0, 0);
              res == EOK && d < 1024 && t < 1024 &&
              mem[..] == old(mem[..])[TableSlot(old(mem[DirSlot(dir, d)]), t) := WithFlags(phys, flags)]
    ensures mem[..] == MapEffect(old(mem[..]), dir, virt, phys, flags)
  {
    if !IsAligned(virt) || !IsAligned(phys) {
      return Negate(EINVARG);
    }
    var _ := Set(mem, dir, virt, WithFlags(phys, flags));
    return EOK;
  }

  /** The memory after paging_map of an aligned virtual and physical address. */
  function MapSpec(mem: seq<u32>, dir: u32, virt: u32, phys: u32, flags: u8): (r: seq<u32>)
    requires |mem| == MEM_WORDS && IsAligned(dir) && IsAligned(virt) && IsAligned(phys)
    ensures |r| == MEM_WORDS
  {
    GetIndicesSpec(virt, 0, 0);
    var (_, d, t) := GetIndices(virt, 0, 0);
    SlotsInMemory(mem[DirSlot(dir, d)], t);
    mem[TableSlot(mem[DirSlot(dir, d)], t) := WithFlags(phys, flags)]
  }

  /** paging_map's effect on memory: the entry for two aligned addresses, otherwise nothing. */
  function MapEffect(mem: seq<u32>, dir: u32, virt: u32, phys: u32, flags: u8): (r: seq<u32>)
    requires |mem| == MEM_WORDS && IsAligned(dir)
    ensures |r| == MEM_WORDS
  {
    if IsAligned(virt) && IsAligned(phys) then MapSpec(mem, dir, virt, phys, flags) else mem
  }

  /**
   * After paging_map, virt translates to phys with the flags, as long as
   * the page-table entry written is not itself the directory entry that
   * selects it.
   */
  lemma MapThenTranslate(mem: seq<u32>, dir: u32, virt: u32, phys: u32, flags: u8)
    requires |mem| == MEM_WORDS && IsAligned(dir) && IsAligned(virt) && IsAligned(phys)
    requires var (_, d, t) := GetIndices(virt, 0, 0);
             d < 1024 && t < 1024 && TableSlot(mem[DirSlot(dir, d)], t) != DirSlot(dir, d)
    ensures FrameOf(Translate(MapSpec(mem, dir, virt, phys, flags), dir, virt)) == phys
  {
    GetIndicesSpec(virt, 0, 0);
    var (_, d, t) := GetIndices(virt, 0, 0);
    var slot := TableSlot(mem[DirSlot(dir, d)], t);
    var m' := MapSpec(mem, dir, virt, phys, flags);
    assert m' == mem[slot := WithFlags(phys, flags)];
    assert m'[DirSlot(dir, d)] == mem[DirSlot(dir, d)];
    assert Translate(m', dir, virt) == m'[slot];
  }

  /**
   * After paging_map of virt, every other aligned address whose directory
   * entry and page-table entry are not the word written translates as
   * before.
   */
  lemma MapKeepsOthers(mem: seq<u32>, dir: u32, virt: u32, phys: u32, flags: u8, other: u32)
    requires |mem| == MEM_WORDS && IsAligned(dir) && IsAligned(virt) && IsAligned(phys) && IsAligned(other)
    ensures var (_, d, t) := GetIndices(virt, 0, 0);
            var (_, d', t') := GetIndices(other, 0, 0);
            d < 1024 && t < 1024 && d' < 1024 && t' < 1024 &&
            var slot := TableSlot(mem[DirSlot(dir, d)], t);
            slot != DirSlot(dir, d') && slot != TableSlot(mem[DirSlot(dir, d')], t') ==>
              Translate(MapSpec(mem, dir, virt, phys, flags), dir, other) == Translate(mem, dir, other)
  {
    GetIndicesSpec(virt, 0, 0);
    GetIndicesSpec(other, 0, 0);
    var (_, d, t) := GetIndices(virt, 0, 0);
    var slot := TableSlot(mem[DirSlot(dir, d)], t);
    SlotsInMemory(mem[DirSlot(dir, d)], t);
    assert MapSpec(mem, dir, virt, phys, flags) == mem[slot := WithFlags(phys, flags)];
  }
}
