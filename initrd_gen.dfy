/**
 * The host tool that builds initrd.img (tools/initrd_gen/initrd_gen.c).
 *
 * The image is a 512-byte header followed by each file's bytes padded with
 * zeros to whole 128-byte blocks.  The host's file system is a parameter: a
 * map from host path to contents, a path being absent when fopen fails;
 * whether initrd.img can be created is a parameter too.  An image is the
 * sequence of bytes initrd.img holds when the tool returns.
 */
module InitrdGen {
  import opened Kernel

  const BLOCK_SIZE: nat := 128
  const HEADER_SIZE: nat := 512
  const SIGNATURE: u32 := 0xAFA0010D
  const MAX_FILES: nat := 28
  const FILENAME_SIZE: nat := 10
  /** sizeof(struct file_entry), packed. */
  const ENTRY_SIZE: nat := 18
  /** The largest file whose block count fits num_blocks' uint16_t. */
  const MAX_FILE_SIZE: nat := 0xFFFF * 128

  /** struct file_entry. */
  datatype FileEntry = FileEntry(filename: seq<u8>, numBlocks: u16, realSize: u32, startBlock: u16)

  /** struct fs_header; `table` has 28 entries. */
  datatype FsHeader = FsHeader(size: u32, signature: u32, table: seq<FileEntry>)

  function Zeros(n: nat): (r: seq<u8>)
    ensures |r| == n && forall i :: 0 <= i < n ==> r[i] == 0
  {
    seq(n, i => 0)
  }

  /** A zero-initialised entry (`struct file_entry file_entry = {}`). */
  const EMPTY_ENTRY: FileEntry := FileEntry(Zeros(FILENAME_SIZE), 0, 0, 0)

  predicate WellFormedEntry(e: FileEntry) {
    |e.filename| == FILENAME_SIZE
  }

  predicate WellFormedHeader(h: FsHeader) {
    |h.table| == MAX_FILES && forall k :: 0 <= k < MAX_FILES ==> WellFormedEntry(h.table[k])
  }

  // ------------------------------------------------------------ layout

  /** The 18 packed bytes of an entry: filename, num_blocks, real_size, start_block. */
  function EncodeEntry(e: FileEntry): (r: seq<u8>)
    requires WellFormedEntry(e)
    ensures |r| == ENTRY_SIZE
  {
    e.filename + Bytes16(e.numBlocks) + Bytes32(e.realSize) + Bytes16(e.startBlock)
  }

  function DecodeEntry(s: seq<u8>, o: nat): (e: FileEntry)
    requires o + ENTRY_SIZE <= |s|
    ensures WellFormedEntry(e)
  {
    FileEntry(s[o..o + 10], LE16(s, o + 10), LE32(s, o + 12), LE16(s, o + 16))
  }

  lemma DecodeOfEncodeEntry(e: FileEntry)
    requires WellFormedEntry(e)
    ensures DecodeEntry(EncodeEntry(e), 0) == e
  {
    var s := EncodeEntry(e);
    LE16OfBytes(e.numBlocks);
    LE32OfBytes(e.realSize);
    LE16OfBytes(e.startBlock);
    assert s[10..12] == Bytes16(e.numBlocks);
    assert s[12..16] == Bytes32(e.realSize);
    assert s[16..18] == Bytes16(e.startBlock);
    LE32Same(s, 12, Bytes32(e.realSize), 0);
  }

  /** The entries of a table, one after another. */
  function EncodeTable(t: seq<FileEntry>): (r: seq<u8>)
    requires forall k :: 0 <= k < |t| ==> WellFormedEntry(t[k])
    ensures |r| == ENTRY_SIZE * |t|
  {
    if |t| == 0 then [] else EncodeTable(t[..|t| - 1]) + EncodeEntry(t[|t| - 1])
  }

  /** Entry `k` of a table occupies bytes 18k to 18k + 18. */
  lemma {:induction false} EncodeTableAt(t: seq<FileEntry>, k: nat)
    requires forall i :: 0 <= i < |t| ==> WellFormedEntry(t[i])
    requires k < |t|
    ensures EncodeTable(t)[ENTRY_SIZE * k..ENTRY_SIZE * k + ENTRY_SIZE] == EncodeEntry(t[k])
  {
    var n := |t| - 1;
    var front := EncodeTable(t[..n]);
    assert EncodeTable(t) == front + EncodeEntry(t[n]);
    if k < n {
      EncodeTableAt(t[..n], k);
      assert t[..n][k] == t[k];
      assert ENTRY_SIZE * k + ENTRY_SIZE <= |front|;
      assert (front + EncodeEntry(t[n]))[ENTRY_SIZE * k..ENTRY_SIZE * k + ENTRY_SIZE]
          == front[ENTRY_SIZE * k..ENTRY_SIZE * k + ENTRY_SIZE];
    }
  }

  /** The 512 header bytes: size, signature, then the 28 entries. */
  function EncodeHeader(h: FsHeader): (r: seq<u8>)
    requires WellFormedHeader(h)
    ensures |r| == HEADER_SIZE
  {
    Bytes32(h.size) + Bytes32(h.signature) + EncodeTable(h.table)
  }

  function DecodeHeader(s: seq<u8>): (h: FsHeader)
    requires |s| == HEADER_SIZE
    ensures WellFormedHeader(h)
  {
    FsHeader(LE32(s, 0), LE32(s, 4), seq(MAX_FILES, k requires 0 <= k < MAX_FILES => DecodeEntry(s, 8 + ENTRY_SIZE * k)))
  }

  /** Reading the header back gives the header written. */
  lemma DecodeOfEncodeHeader(h: FsHeader)
    requires WellFormedHeader(h)
    ensures DecodeHeader(EncodeHeader(h)) == h
  {
    var s := EncodeHeader(h);
    LE32OfBytes(h.size);
    LE32OfBytes(h.signature);
    assert s[..4] == Bytes32(h.size);
    assert s[4..8] == Bytes32(h.signature);
    LE32Same(s, 0, Bytes32(h.size), 0);
    LE32Same(s, 4, Bytes32(h.signature), 0);
    var d := DecodeHeader(s);
    forall k | 0 <= k < MAX_FILES ensures d.table[k] == h.table[k] {
      EncodeTableAt(h.table, k);
      var o := 8 + ENTRY_SIZE * k;
      assert s[o..o + ENTRY_SIZE] == EncodeTable(h.table)[ENTRY_SIZE * k..ENTRY_SIZE * k + ENTRY_SIZE];
      DecodeOfEncodeEntry(h.table[k]);
      assert DecodeEntry(s, o) == DecodeEntry(s[o..o + ENTRY_SIZE], 0);
    }
  }

  // ------------------------------------------------------------ block arithmetic

  /** (file_size + 127) / 128: the blocks a file occupies. */
  function NumBlocks(size: nat): nat {
    (size + BLOCK_SIZE - 1) / BLOCK_SIZE
  }

  /** The block count is the ceiling of size / 128. */
  lemma NumBlocksCeil(size: nat)
    ensures NumBlocks(size) * BLOCK_SIZE >= size
    ensures NumBlocks(size) * BLOCK_SIZE < size + BLOCK_SIZE
    ensures size == 0 <==> NumBlocks(size) == 0
  { }

  /** strncpy(filename, guest, 10) for a guest name without NUL. */
  function Filename(guest: seq<u8>): (r: seq<u8>)
    ensures |r| == FILENAME_SIZE
    ensures |guest| >= FILENAME_SIZE ==> r == guest[..FILENAME_SIZE]
    ensures |guest| < FILENAME_SIZE ==>
              r[..|guest|] == guest && forall i :: |guest| <= i < FILENAME_SIZE ==> r[i] == 0
  {
    if |guest| >= FILENAME_SIZE then guest[..FILENAME_SIZE] else guest + Zeros(FILENAME_SIZE - |guest|)
  }

  /** A file's contents zero-padded to whole blocks. */
  function Padded(c: seq<u8>): (r: seq<u8>)
    ensures |r| == NumBlocks(|c|) * BLOCK_SIZE
  {
    NumBlocksCeil(|c|);
    c + Zeros(NumBlocks(|c|) * BLOCK_SIZE - |c|)
  }

  /** The blocks the files `cs` occupy together. */
  function Total(cs: seq<seq<u8>>): nat {
    if |cs| == 0 then 0 else Total(cs[..|cs| - 1]) + NumBlocks(|cs[|cs| - 1]|)
  }

  /** The file data after the header: each file padded, in argument order. */
  function Data(cs: seq<seq<u8>>): (r: seq<u8>)
    ensures |r| == Total(cs) * BLOCK_SIZE
  {
    if |cs| == 0 then [] else Data(cs[..|cs| - 1]) + Padded(cs[|cs| - 1])
  }

  /** Each file's block count fits num_blocks' uint16_t. */
  predicate Small(cs: seq<seq<u8>>) {
    forall i :: 0 <= i < |cs| ==> |cs[i]| <= MAX_FILE_SIZE
  }

  /** No file takes more than 0xFFFF blocks. */
  lemma {:induction false} TotalBound(cs: seq<seq<u8>>)
    requires Small(cs)
    ensures Total(cs) <= 0xFFFF * |cs|
  {
    if |cs| > 0 {
      var n := |cs| - 1;
      assert Small(cs[..n]) by {
        assert forall i :: 0 <= i < n ==> cs[..n][i] == cs[i];
      }
      TotalBound(cs[..n]);
    }
  }

  /** One more file: its blocks and its padded bytes are appended. */
  lemma Extend(cs: seq<seq<u8>>, n: nat)
    requires n < |cs|
    ensures Total(cs[..n + 1]) == Total(cs[..n]) + NumBlocks(|cs[n]|)
    ensures Data(cs[..n + 1]) == Data(cs[..n]) + Padded(cs[n])
  {
    assert cs[..n + 1][..n] == cs[..n];
  }

  /** The data of the first `n` files begins the data of all of them. */
  lemma {:induction false} DataPrefix(cs: seq<seq<u8>>, n: nat)
    requires n <= |cs|
    ensures Data(cs[..n]) <= Data(cs)
    decreases |cs| - n
  {
    if n < |cs| {
      Extend(cs, n);
      DataPrefix(cs, n + 1);
      assert cs[..|cs|] == cs;
    } else {
      assert cs[..n] == cs;
    }
  }

  /** The bytes of `d` from `at` on begin with `c`. */
  predicate Holds(d: seq<u8>, at: nat, c: seq<u8>) {
    at + |c| <= |d| && d[at..at + |c|] == c
  }

  /**
   * File `k`'s padded bytes start 128 x (the blocks before it) bytes into
   * the data.
   */
  lemma DataLayout(cs: seq<seq<u8>>, k: nat)
    requires k < |cs|
    ensures Holds(Data(cs), Total(cs[..k]) * BLOCK_SIZE, Padded(cs[k]))
  {
    Extend(cs, k);
    DataPrefix(cs, k + 1);
    var pre, p, d := Data(cs[..k]), Padded(cs[k]), Data(cs[..k + 1]);
    assert d == pre + p && |d| == |pre| + |p|;
    assert Data(cs)[..|d|] == d;
    assert Data(cs)[|pre|..|d|] == d[|pre|..] == p;
  }

  // ------------------------------------------------------------ main

  /** Prerequisites of a run on `args` with host files `fs`: C strings, files that fit. */
  predicate Inputs(args: seq<seq<u8>>, fs: map<seq<u8>, seq<u8>>) {
    (forall i :: 0 <= i < |args| ==> 0 !in args[i])
    && (forall h :: h in fs ==> |fs[h]| <= MAX_FILE_SIZE)
  }

  /** The number of host/guest pairs after argv[0]. */
  function Pairs(args: seq<seq<u8>>): nat {
    if |args| == 0 then 0 else (|args| - 1) / 2
  }

  function Host(args: seq<seq<u8>>, k: nat): seq<u8>
    requires k < Pairs(args)
  {
    args[1 + 2 * k]
  }

  function Guest(args: seq<seq<u8>>, k: nat): seq<u8>
    requires k < Pairs(args)
  {
    args[2 + 2 * k]
  }

  /** The first pair whose host file cannot be opened, if any. */
  function FirstMissing(args: seq<seq<u8>>, fs: map<seq<u8>, seq<u8>>): (r: Option<nat>)
    ensures r.None? <==> forall k :: 0 <= k < Pairs(args) ==> Host(args, k) in fs
    ensures r.Some? ==> r.value < Pairs(args) && Host(args, r.value) !in fs
                        && forall k :: 0 <= k < r.value ==> Host(args, k) in fs
  {
    FirstMissingFrom(args, fs, 0)
  }

  function FirstMissingFrom(args: seq<seq<u8>>, fs: map<seq<u8>, seq<u8>>, j: nat): (r: Option<nat>)
    requires j <= Pairs(args)
    ensures r.None? <==> forall k :: j <= k < Pairs(args) ==> Host(args, k) in fs
    ensures r.Some? ==> j <= r.value < Pairs(args) && Host(args, r.value) !in fs
                        && forall k :: j <= k < r.value ==> Host(args, k) in fs
    decreases Pairs(args) - j
  {
    if j == Pairs(args) then None
    else if Host(args, j) !in fs then Some(j)
    else FirstMissingFrom(args, fs, j + 1)
  }

  /** The contents of each pair's host file ([] where it cannot be opened). */
  function Contents(args: seq<seq<u8>>, fs: map<seq<u8>, seq<u8>>): (cs: seq<seq<u8>>)
    ensures |cs| == Pairs(args)
    ensures forall k :: 0 <= k < Pairs(args) && Host(args, k) in fs ==> cs[k] == fs[Host(args, k)]
  {
    seq(Pairs(args), k requires 0 <= k < Pairs(args) => if Host(args, k) in fs then fs[Host(args, k)] else [])
  }

  lemma ContentsSmall(args: seq<seq<u8>>, fs: map<seq<u8>, seq<u8>>)
    requires Inputs(args, fs)
    ensures Small(Contents(args, fs))
  { }

  /** The entry main fills in for file `k`. */
  function EntryFor(args: seq<seq<u8>>, cs: seq<seq<u8>>, k: nat): (e: FileEntry)
    requires k < |cs| == Pairs(args) && Small(cs)
    ensures WellFormedEntry(e)
  {
    FileEntry(Filename(Guest(args, k)), NumBlocks(|cs[k]|) as u16, |cs[k]| as u32, Wrap16(Total(cs[..k])))
  }

  /** The file table after `n` files: their entries, then zeroed entries. */
  function TableAfter(args: seq<seq<u8>>, cs: seq<seq<u8>>, n: nat): (t: seq<FileEntry>)
    requires n <= |cs| == Pairs(args) && n <= MAX_FILES && Small(cs)
    ensures |t| == MAX_FILES && forall k :: 0 <= k < MAX_FILES ==> WellFormedEntry(t[k])
    ensures forall k :: 0 <= k < n ==> t[k] == EntryFor(args, cs, k)
    ensures forall k :: n <= k < MAX_FILES ==> t[k] == EMPTY_ENTRY
  {
    assert WellFormedEntry(EMPTY_ENTRY);
    seq(MAX_FILES, k requires 0 <= k < MAX_FILES => if k < n then EntryFor(args, cs, k) else EMPTY_ENTRY)
  }

  /** The header main writes after all the files. */
  function FinalHeader(args: seq<seq<u8>>, cs: seq<seq<u8>>): (h: FsHeader)
    requires |cs| == Pairs(args) <= MAX_FILES && Small(cs)
    ensures WellFormedHeader(h)
  {
    TotalBound(cs);
    FsHeader((HEADER_SIZE + BLOCK_SIZE * Total(cs)) as u32, SIGNATURE, TableAfter(args, cs, |cs|))
  }

  /** header.size is the length of the whole image: 512 + 128 x total blocks. */
  lemma ImageSize(args: seq<seq<u8>>, cs: seq<seq<u8>>)
    requires |cs| == Pairs(args) <= MAX_FILES && Small(cs)
    ensures FinalHeader(args, cs).size as int == |EncodeHeader(FinalHeader(args, cs)) + Data(cs)|
  { }

  /**
   * Entry `k` of the final header describes file `k`: its truncated name,
   * its block count, its size, and as start block the sum of the earlier
   * files' blocks, which is where its bytes lie in the data.
   */
  lemma FinalEntry(args: seq<seq<u8>>, cs: seq<seq<u8>>, k: nat)
    requires |cs| == Pairs(args) <= MAX_FILES && Small(cs)
    requires k < |cs|
    ensures var e := FinalHeader(args, cs).table[k];
            e.filename == Filename(Guest(args, k))
            && e.numBlocks as int == NumBlocks(|cs[k]|) && e.realSize as int == |cs[k]|
            && e.startBlock as int == Total(cs[..k]) % 0x1_0000
            && Holds(Data(cs), Total(cs[..k]) * BLOCK_SIZE, cs[k])
  {
    DataLayout(cs, k);
    var s := Total(cs[..k]) * BLOCK_SIZE;
    assert Data(cs)[s..s + |cs[k]|] == Padded(cs[k])[..|cs[k]|];
  }

  /** The state of main's loop after `n` files: the table, the block counter and the data. */
  predicate LoopState(args: seq<seq<u8>>, cs: seq<seq<u8>>, n: nat, table: seq<FileEntry>,
                      currentBlock: u32, data: seq<u8>)
    requires n <= |cs| == Pairs(args) && n <= MAX_FILES && Small(cs)
  {
    table == TableAfter(args, cs, n) && currentBlock as int == Total(cs[..n]) && data == Data(cs[..n])
  }

  /** One iteration of the loop keeps LoopState. */
  lemma LoopStep(args: seq<seq<u8>>, cs: seq<seq<u8>>, n: nat, table: seq<FileEntry>,
                 currentBlock: u32, data: seq<u8>)
    requires n < |cs| == Pairs(args) <= MAX_FILES && Small(cs)
    requires LoopState(args, cs, n, table, currentBlock, data)
    ensures currentBlock as int + NumBlocks(|cs[n]|) < TWO_32
    ensures LoopState(args, cs, n + 1, table[n := EntryFor(args, cs, n)],
                      (currentBlock as int + NumBlocks(|cs[n]|)) as u32, data + Padded(cs[n]))
  {
    Extend(cs, n);
    assert Small(cs[..n + 1]) by {
      assert forall i :: 0 <= i < n + 1 ==> cs[..n + 1][i] == cs[i];
    }
    TotalBound(cs[..n + 1]);
    var t := table[n := EntryFor(args, cs, n)];
    assert forall k :: 0 <= k < MAX_FILES ==> t[k] == TableAfter(args, cs, n + 1)[k];
  }

  /**
   * One iteration of main's loop: the entry for file `n`, the block counter
   * moved past its blocks, and its padded blocks appended to the image.
   */
  method AddFile(ghost args: seq<seq<u8>>, ghost cs: seq<seq<u8>>, n: nat, table: seq<FileEntry>,
                 currentBlock: u32, data: seq<u8>, contents: seq<u8>, guest: seq<u8>)
    returns (table': seq<FileEntry>, currentBlock': u32, data': seq<u8>)
    requires n < |cs| == Pairs(args) <= MAX_FILES && Small(cs)
    requires contents == cs[n] && guest == Guest(args, n)
    requires LoopState(args, cs, n, table, currentBlock, data)
    ensures LoopState(args, cs, n + 1, table', currentBlock', data')
  {
    LoopStep(args, cs, n, table, currentBlock, data);
    var numBlocks := (|contents| + BLOCK_SIZE - 1) / BLOCK_SIZE;
    var entry := FileEntry(Filename(guest), numBlocks as u16, |contents| as u32, Wrap16(currentBlock as int));
    currentBlock' := (currentBlock as int + numBlocks) as u32;
    table' := table[n := entry];
    data' := data + Padded(contents);
  }

  /**
   * The bytes of initrd.img when main returns before writing the header.
   * The seek to byte 512 does not extend the file, so with no data written
   * the file is empty; otherwise the 512 skipped bytes read as zeros.
   */
  function EarlyImage(data: seq<u8>): (r: seq<u8>)
    ensures data == [] ==> r == []
    ensures data != [] ==> |r| == HEADER_SIZE + |data| && r[HEADER_SIZE..] == data
                           && forall i :: 0 <= i < HEADER_SIZE ==> r[i] == 0
  {
    if data == [] then [] else Zeros(HEADER_SIZE) + data
  }

  /**
   * main: an even argc returns 1 before anything is opened; so does a
   * failure to create initrd.img.  Then each pair's host file is read, its
   * entry recorded and its padded blocks appended after byte 512; a host
   * file that cannot be opened returns 1 with the image EarlyImage leaves.
   * Finally the header is
   * written at byte 0 and 0 is returned.  The file count is not checked
   * against the 28 table entries.
   */
  method Generate(args: seq<seq<u8>>, imgOpens: bool, fs: map<seq<u8>, seq<u8>>)
    returns (code: int, image: Option<seq<u8>>)
    requires Inputs(args, fs)
    requires |args| % 2 == 1 ==> Pairs(args) <= MAX_FILES
    ensures |args| % 2 != 1 || !imgOpens ==> code == 1 && image == None
    ensures |args| % 2 == 1 && imgOpens && FirstMissing(args, fs).Some? ==>
              code == 1 && image == Some(EarlyImage(Data(Contents(args, fs)[..FirstMissing(args, fs).value])))
    ensures |args| % 2 == 1 && imgOpens && FirstMissing(args, fs).None? ==>
              code == 0 && image == Some(EncodeHeader(FinalHeader(args, Contents(args, fs))) + Data(Contents(args, fs)))
  {
    if |args| % 2 != 1 {
      return 1, None;
    }
    if !imgOpens {
      return 1, None;
    }
    ghost var cs := Contents(args, fs);
    ContentsSmall(args, fs);
    var table := seq(MAX_FILES, k => EMPTY_ENTRY);
    var numFiles: nat := 0;
    var currentBlock: u32 := 0;
    var data: seq<u8> := [];
    var i := 1;
    assert cs[..0] == [];
    while i < |args|
      invariant 1 <= i <= |args| && i == 1 + 2 * numFiles && numFiles <= Pairs(args)
      invariant forall k :: 0 <= k < numFiles ==> Host(args, k) in fs
      invariant LoopState(args, cs, numFiles, table, currentBlock, data)
      decreases |args| - i
    {
      var host := args[i];
      var guest := args[i + 1];
      if host !in fs {
        assert FirstMissing(args, fs) == Some(numFiles) by {
          assert Host(args, numFiles) !in fs;
        }
        return 1, Some(EarlyImage(data));
      }
      table, currentBlock, data := AddFile(args, cs, numFiles, table, currentBlock, data, fs[host], guest);
      numFiles := numFiles + 1;
      i := i + 2;
    }
    assert cs[..numFiles] == cs;
    TotalBound(cs);
    var header := FsHeader((HEADER_SIZE + |data|) as u32, SIGNATURE, table);
    assert header == FinalHeader(args, cs);
    return 0, Some(EncodeHeader(header) + data);
  }
}
