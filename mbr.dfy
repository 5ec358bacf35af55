/**
 * The MBR partition scan: read sector 0 of every registered disk, decode
 * the four primary partition entries of the legacy MBR layout (section
 * 5.2.1 of the UEFI Specification 2.x) and register a logical device per
 * entry whose type byte is not zero.
 */
module Mbr {
  import opened Kernel
  import opened BlockDevice

  const MBR_SIZE: nat := 512
  /** bootloader[440], signature (4 bytes) and two unused bytes come first. */
  const PARTITION_TABLE: nat := 446
  const ENTRY_SIZE: nat := 16
  const MAGIC_OFFSET: nat := 510

  // Offsets inside a packed partition_table_entry.
  const BOOTABLE_AT: nat := 0
  const TYPE_AT: nat := 4
  const START_LBA_AT: nat := 8
  const LENGTH_AT: nat := 12

  /** The fields of a partition_table_entry that the scan reads. */
  datatype Entry = Entry(bootable: u8, typ: u8, startLba: u32, length: u32)

  /** Byte offset of primary partition `k` in the record. */
  function EntryAt(k: nat): (r: nat)
    ensures r == PARTITION_TABLE + ENTRY_SIZE * k
  {
    PARTITION_TABLE + ENTRY_SIZE * k
  }

  /** The four entries fill bytes 446 to 509, and the magic number takes the last two. */
  lemma RecordLayout()
    ensures EntryAt(3) + ENTRY_SIZE == MAGIC_OFFSET && MAGIC_OFFSET + 2 == MBR_SIZE
    ensures 440 + 4 + 2 == PARTITION_TABLE
  {
  }

  /** decode entry `k` of a 512-byte record. */
  function DecodeEntry(s: seq<u8>, k: nat): Entry
    requires |s| == MBR_SIZE && k < 4
  {
    var o := EntryAt(k);
    Entry(s[o + BOOTABLE_AT], s[o + TYPE_AT], LE32(s, o + START_LBA_AT), LE32(s, o + LENGTH_AT))
  }

  /** The 16 bytes of an entry whose CHS fields are zero. */
  function EncodeEntry(e: Entry): (r: seq<u8>)
    ensures |r| == ENTRY_SIZE
  {
    [e.bootable, 0, 0, 0, e.typ, 0, 0, 0] + Bytes32(e.startLba) + Bytes32(e.length)
  }

  /** A record holding `e` at slot `k` (other bytes from `s`) decodes back to `e`. */
  lemma DecodeOfEncode(s: seq<u8>, k: nat, e: Entry)
    requires |s| == MBR_SIZE && k < 4
    ensures var o := EntryAt(k);
            DecodeEntry(s[..o] + EncodeEntry(e) + s[o + ENTRY_SIZE..], k) == e
  {
    var o := EntryAt(k);
    var t := s[..o] + EncodeEntry(e) + s[o + ENTRY_SIZE..];
    LE32OfBytes(e.startLba);
    LE32OfBytes(e.length);
    assert t[o + START_LBA_AT..o + START_LBA_AT + 4] == Bytes32(e.startLba);
    assert t[o + LENGTH_AT..o + LENGTH_AT + 4] == Bytes32(e.length);
    LE32Same(t, o + START_LBA_AT, Bytes32(e.startLba), 0);
    LE32Same(t, o + LENGTH_AT, Bytes32(e.length), 0);
  }

  /**
   * What parse_block_device leaves in lbdevs[k] for disk `parent`: nothing
   * for a zero type byte; otherwise the entry's fields verbatim, flags set
   * to BOOTABLE only for a non-zero boot indicator.
   */
  function DecodeSlot(s: seq<u8>, parent: nat, k: nat): Option<Partition>
    requires |s| == MBR_SIZE && k < 4
  {
    var e := DecodeEntry(s, k);
    if e.typ == 0 then None
    else Some(Partition(parent, if e.bootable != 0 then Some(LOGICAL_BLOCK_DEVICE_FLAGS_BOOTABLE) else None,
                        e.startLba, e.length, e.typ, k as u8))
  }

  /** DecodeSlot in terms of the record's bytes: the type at +4, the boot flag at +0, LBA and length at +8 and +12. */
  lemma DecodeSlotSpec(s: seq<u8>, parent: nat, k: nat)
    requires |s| == MBR_SIZE && k < 4
    ensures var o := PARTITION_TABLE + ENTRY_SIZE * k;
            var d := DecodeSlot(s, parent, k);
            (d.None? <==> s[o + 4] == 0)
            && (d.Some? ==>
                  d.value.parent == parent && d.value.typ == s[o + 4] && d.value.localId as nat == k
                  && (d.value.flags.Some? <==> s[o] != 0)
                  && (d.value.flags.Some? ==> d.value.flags.value == LOGICAL_BLOCK_DEVICE_FLAGS_BOOTABLE)
                  && d.value.lbaOffset as int == s[o + 8] as int + 0x100 * s[o + 9] as int
                                                 + 0x1_0000 * s[o + 10] as int + 0x100_0000 * s[o + 11] as int
                  && d.value.numBlocks as int == s[o + 12] as int + 0x100 * s[o + 13] as int
                                                 + 0x1_0000 * s[o + 14] as int + 0x100_0000 * s[o + 15] as int)
  {
  }

  /** The scan reads nothing but the partition table: bytes outside 446..509, the magic number included, do not matter. */
  lemma MagicIgnored(s: seq<u8>, t: seq<u8>, parent: nat, k: nat)
    requires |s| == MBR_SIZE && |t| == MBR_SIZE && k < 4
    requires forall i :: PARTITION_TABLE <= i < MAGIC_OFFSET ==> s[i] == t[i]
    ensures DecodeSlot(s, parent, k) == DecodeSlot(t, parent, k)
  {
    var o := EntryAt(k);
    assert s[o] == t[o] && s[o + 4] == t[o + 4];
    assert s[o + 8] == t[o + 8] && s[o + 9] == t[o + 9] && s[o + 10] == t[o + 10] && s[o + 11] == t[o + 11];
    assert s[o + 12] == t[o + 12] && s[o + 13] == t[o + 13] && s[o + 14] == t[o + 14] && s[o + 15] == t[o + 15];
  }

  /** The four slots of disk `parent` whose sector 0 is `s`. */
  function Slots(s: seq<u8>, parent: nat): (r: seq<Option<Partition>>)
    requires |s| == MBR_SIZE
    ensures |r| == 4 && forall k :: 0 <= k < 4 ==> r[k] == DecodeSlot(s, parent, k)
  {
    seq(4, k requires 0 <= k < 4 => DecodeSlot(s, parent, k))
  }

  /**
   * parse_block_device: one single-block read of LBA 0 into the record at
   * `buffer` (`sector` is what the driver stores there, `status` what it
   * returns), then lbdevs[k] is filled from entry k for k = 0..3.
   */
  method ParseBlockDevice(lbdevs: array<Option<Partition>>, bdev: Device, parent: nat, buffer: u32,
                          sector: seq<u8>, status: u32)
    returns (calls: seq<BlockCall>, r: Outcome<()>)
    requires lbdevs.Length == 4 && |sector| == MBR_SIZE
    modifies lbdevs
    ensures calls == [BlockCall(false, 0, buffer)]
    ensures r.Halt? <==> status != EOK
    ensures r.Done? ==> lbdevs[..] == Slots(sector, parent)
  {
    var request := Request(0, 1, buffer, false);
    calls, r := SubmitReadRequest(bdev, request, [status]);
    if r.Halt? {
      return;
    }
    var i := 0;
    while i < 4
      invariant i <= 4
      invariant forall k :: 0 <= k < i ==> lbdevs[k] == DecodeSlot(sector, parent, k)
    {
      lbdevs[i] := None;
      var e := DecodeEntry(sector, i);
      if e.typ == 0 {
        i := i + 1;
        continue;
      }
      var flags := if e.bootable != 0 then Some(LOGICAL_BLOCK_DEVICE_FLAGS_BOOTABLE) else None;
      lbdevs[i] := Some(Partition(parent, flags, e.startLba, e.length, e.typ, i as u8));
      i := i + 1;
    }
  }

  // ---------------------------------------------------------------- scan

  /** The logical device registering `p` yields: the id is the count of disks, the name follows the disk's. */
  function Registered(count: u32, diskName: seq<u8>, p: Partition): (r: LogicalDevice)
    ensures r.part == p && r.deviceId == count && r.name == PartitionName(diskName, p.localId)
  {
    LogicalDevice(count, PartitionName(diskName, p.localId), p)
  }

  /** The devices registered for the first `k` slots of one disk, in slot order, skipping empty slots. */
  function SlotDevices(count: u32, diskName: seq<u8>, slots: seq<Option<Partition>>, k: nat): (r: seq<LogicalDevice>)
    requires k <= |slots|
    ensures |r| <= k
  {
    if k == 0 then []
    else SlotDevices(count, diskName, slots, k - 1) + (if slots[k - 1].Some? then [Registered(count, diskName, slots[k - 1].value)] else [])
  }

  /** The slots parse_block_device fills for each disk from its sector 0. */
  function Tables(sectors: seq<seq<u8>>): (r: seq<seq<Option<Partition>>>)
    requires forall i :: 0 <= i < |sectors| ==> |sectors[i]| == MBR_SIZE
    ensures |r| == |sectors| && forall i :: 0 <= i < |sectors| ==> r[i] == Slots(sectors[i], i)
  {
    seq(|sectors|, i requires 0 <= i < |sectors| => Slots(sectors[i], i))
  }

  /** The logical devices found on the first `n` disks, disk by disk, from their filled slots. */
  function ScanDevices(devices: seq<Device>, tables: seq<seq<Option<Partition>>>, n: nat): (r: seq<LogicalDevice>)
    requires n <= |tables| <= |devices| <= MAX_BLOCK_DEVICES
    ensures |r| <= 4 * n
  {
    if n == 0 then []
    else ScanDevices(devices, tables, n - 1)
         + SlotDevices(|devices| as u32, devices[n - 1].name, tables[n - 1], if |tables[n - 1]| < 4 then |tables[n - 1]| else 4)
  }

  /**
   * Every logical device the scan finds has as id the number of disks,
   * names a scanned disk as parent, carries that disk's entry at its slot
   * unchanged, and is named after that disk.
   */
  lemma {:induction false} ScanDevicesSpec(devices: seq<Device>, sectors: seq<seq<u8>>, n: nat, j: nat)
    requires n <= |sectors| <= |devices| <= MAX_BLOCK_DEVICES
    requires forall i :: 0 <= i < |sectors| ==> |sectors[i]| == MBR_SIZE
    requires j < |ScanDevices(devices, Tables(sectors), n)|
    ensures var d := ScanDevices(devices, Tables(sectors), n)[j];
            var p := d.part.parent;
            p < n && d.part.localId < 4 && d.deviceId as int == |devices|
            && Slots(sectors[p], p)[d.part.localId] == Some(d.part)
            && d.name == PartitionName(devices[p].name, d.part.localId)
  {
    var prev := ScanDevices(devices, Tables(sectors), n - 1);
    if j >= |prev| {
      SlotDevicesSpec(|devices| as u32, devices[n - 1].name, Tables(sectors)[n - 1], n - 1, 4, j - |prev|);
    } else {
      ScanDevicesSpec(devices, sectors, n - 1, j);
    }
  }

  lemma {:induction false} SlotDevicesSpec(count: u32, diskName: seq<u8>, slots: seq<Option<Partition>>, disk: nat, k: nat, j: nat)
    requires k <= |slots| <= 4
    requires forall i :: 0 <= i < |slots| && slots[i].Some? ==>
               slots[i].value.parent == disk && slots[i].value.localId as nat == i
    requires j < |SlotDevices(count, diskName, slots, k)|
    ensures var d := SlotDevices(count, diskName, slots, k)[j];
            d.part.localId as nat < k && slots[d.part.localId] == Some(d.part) && d.part.parent == disk
            && d.deviceId == count && d.name == PartitionName(diskName, d.part.localId)
  {
    var prev := SlotDevices(count, diskName, slots, k - 1);
    if j < |prev| {
      SlotDevicesSpec(count, diskName, slots, disk, k - 1, j);
    }
  }

  /** A disk with zero type bytes in all four entries contributes no logical device. */
  lemma EmptyTableNoDevices(count: u32, diskName: seq<u8>, s: seq<u8>, parent: nat)
    requires |s| == MBR_SIZE
    requires forall k :: 0 <= k < 4 ==> s[EntryAt(k) + TYPE_AT] == 0
    ensures SlotDevices(count, diskName, Slots(s, parent), 4) == []
  {
    var sl := Slots(s, parent);
    assert s[EntryAt(0) + TYPE_AT] == 0 && s[EntryAt(1) + TYPE_AT] == 0;
    assert s[EntryAt(2) + TYPE_AT] == 0 && s[EntryAt(3) + TYPE_AT] == 0;
    assert sl[0].None? && sl[1].None? && sl[2].None? && sl[3].None?;
    assert SlotDevices(count, diskName, sl, 1) == [];
    assert SlotDevices(count, diskName, sl, 2) == [];
    assert SlotDevices(count, diskName, sl, 3) == [];
  }

  /** One slot further: a filled slot has room and appends its device; an empty one appends nothing. */
  lemma SlotProgress(count: u32, diskName: seq<u8>, slots: seq<Option<Partition>>,
                     before: seq<LogicalDevice>, now: seq<LogicalDevice>, i: nat)
    requires i < |slots| == 4
    requires now == before + SlotDevices(count, diskName, slots, i)
    requires |before| + |SlotDevices(count, diskName, slots, 4)| <= MAX_LOGICAL_BLOCK_DEVICES
    ensures slots[i].None? ==> now == before + SlotDevices(count, diskName, slots, i + 1)
    ensures slots[i].Some? ==>
              |now| < MAX_LOGICAL_BLOCK_DEVICES
              && now + [Registered(count, diskName, slots[i].value)] == before + SlotDevices(count, diskName, slots, i + 1)
  {
    SlotDevicesGrow(count, diskName, slots, i + 1, 4);
  }

  /** The inner loop of the scan: register a heap copy of every filled slot of disk `disk`, in slot order. */
  method RegisterSlots(reg: Registry, lbdevs: array<Option<Partition>>, disk: nat)
    requires reg.Valid() && lbdevs.Length == 4 && disk < |reg.devices|
    requires forall k :: 0 <= k < 4 && lbdevs[k].Some? ==> lbdevs[k].value.parent == disk
    requires |reg.logical| + |SlotDevices(|reg.devices| as u32, reg.devices[disk].name, lbdevs[..], 4)| <= MAX_LOGICAL_BLOCK_DEVICES
    modifies reg
    ensures reg.Valid() && reg.devices == old(reg.devices)
    ensures reg.logical == old(reg.logical) + SlotDevices(|reg.devices| as u32, reg.devices[disk].name, lbdevs[..], 4)
  {
    ghost var slots := lbdevs[..];
    ghost var count := |reg.devices| as u32;
    ghost var name := reg.devices[disk].name;
    var i := 0;
    while i < 4
      invariant i <= 4 && reg.Valid() && reg.devices == old(reg.devices)
      invariant reg.logical == old(reg.logical) + SlotDevices(count, name, slots, i)
    {
      SlotProgress(count, name, slots, old(reg.logical), reg.logical, i);
      if lbdevs[i].None? {
        i := i + 1;
        continue;
      }
      var copy := lbdevs[i].value;
      var registered := reg.RegisterLogicalBlockDevice(copy);
      i := i + 1;
    }
  }

  lemma {:induction false} SlotDevicesGrow(count: u32, diskName: seq<u8>, slots: seq<Option<Partition>>, i: nat, k: nat)
    requires i <= k <= |slots|
    ensures |SlotDevices(count, diskName, slots, i)| <= |SlotDevices(count, diskName, slots, k)|
    decreases k - i
  {
    if i < k {
      SlotDevicesGrow(count, diskName, slots, i, k - 1);
    }
  }

  /**
   * scan_logical_block_devices_mbr: for each registered disk in order,
   * parse its record (`sectors[i]` and `statuses[i]` being what its
   * driver's read of LBA 0 stores and returns) and register its
   * partitions.  A failed read halts; otherwise the result is EOK.
   */
  method ScanLogicalBlockDevicesMbr(reg: Registry, buffer: u32, sectors: seq<seq<u8>>, statuses: seq<u32>)
    returns (r: Outcome<u32>)
    requires reg.Valid()
    requires |sectors| == |statuses| == |reg.devices|
    requires forall i :: 0 <= i < |sectors| ==> |sectors[i]| == MBR_SIZE
    requires |reg.logical| + |ScanDevices(reg.devices, Tables(sectors), |sectors|)| <= MAX_LOGICAL_BLOCK_DEVICES
    modifies reg
    ensures r.Halt? <==> FirstFailure(statuses, |statuses|).Some?
    ensures r.Done? ==> r.value == EOK && reg.Valid() && reg.devices == old(reg.devices)
                        && reg.logical == old(reg.logical) + ScanDevices(reg.devices, Tables(sectors), |sectors|)
  {
    var numBdevs := reg.NumBlockDevices();
    var bdevs := reg.BlockDevices();
    var i: u32 := 0;
    while i < numBdevs
      invariant i <= numBdevs && reg.Valid() && reg.devices == old(reg.devices) && bdevs == reg.devices
      invariant FirstFailure(statuses, i as nat).None?
      invariant reg.logical == old(reg.logical) + ScanDevices(reg.devices, Tables(sectors), i as nat)
    {
      var parsed := ScanNext(reg, i as nat, buffer, sectors, statuses, old(reg.logical));
      if parsed.Halt? {
        return Halt;
      }
      i := i + 1;
    }
    return Done(EOK);
  }

  /** Disk `i` of the scan, after the first `i`: the logical devices found so far are those of the first `i + 1`. */
  method ScanNext(reg: Registry, i: nat, buffer: u32, sectors: seq<seq<u8>>, statuses: seq<u32>, ghost before: seq<LogicalDevice>)
    returns (r: Outcome<()>)
    requires reg.Valid() && i < |sectors| == |statuses| == |reg.devices|
    requires forall j :: 0 <= j < |sectors| ==> |sectors[j]| == MBR_SIZE
    requires reg.logical == before + ScanDevices(reg.devices, Tables(sectors), i)
    requires |before| + |ScanDevices(reg.devices, Tables(sectors), |sectors|)| <= MAX_LOGICAL_BLOCK_DEVICES
    requires FirstFailure(statuses, i).None?
    modifies reg
    ensures r.Halt? <==> statuses[i] != EOK
    ensures r.Halt? ==> FirstFailure(statuses, |statuses|) == Some(i)
    ensures r.Done? ==> reg.Valid() && reg.devices == old(reg.devices) && FirstFailure(statuses, i + 1).None?
                        && reg.logical == before + ScanDevices(reg.devices, Tables(sectors), i + 1)
  {
    ghost var tables := Tables(sectors);
    ScanProgress(reg.devices, tables, before, reg.logical, i);
    r := ScanDisk(reg, i, buffer, sectors[i], statuses[i], tables[i]);
  }

  /**
   * One iteration of the scan: parse disk `disk` into a local lbdevs array
   * and register its filled slots.
   */
  method ScanDisk(reg: Registry, disk: nat, buffer: u32, sector: seq<u8>, status: u32, ghost slots: seq<Option<Partition>>)
    returns (r: Outcome<()>)
    requires reg.Valid() && disk < |reg.devices| && |sector| == MBR_SIZE && slots == Slots(sector, disk)
    requires |reg.logical| + |SlotDevices(|reg.devices| as u32, reg.devices[disk].name, slots, 4)|
             <= MAX_LOGICAL_BLOCK_DEVICES
    modifies reg
    ensures r.Halt? <==> status != EOK
    ensures r.Done? ==> reg.Valid() && reg.devices == old(reg.devices)
                        && reg.logical == old(reg.logical)
                           + SlotDevices(|reg.devices| as u32, reg.devices[disk].name, slots, 4)
  {
    var lbdevs := new Option<Partition>[4];
    var calls;
    calls, r := ParseBlockDevice(lbdevs, reg.devices[disk], disk, buffer, sector, status);
    if r.Halt? {
      return;
    }
    RegisterSlots(reg, lbdevs, disk);
  }

  /** One disk further: the capacity left suffices for its devices, and appending them extends the scan. */
  lemma ScanProgress(devices: seq<Device>, tables: seq<seq<Option<Partition>>>,
                     before: seq<LogicalDevice>, now: seq<LogicalDevice>, i: nat)
    requires i < |tables| <= |devices| <= MAX_BLOCK_DEVICES && |tables[i]| == 4
    requires now == before + ScanDevices(devices, tables, i)
    requires |before| + |ScanDevices(devices, tables, |tables|)| <= MAX_LOGICAL_BLOCK_DEVICES
    ensures |now| + |SlotDevices(|devices| as u32, devices[i].name, tables[i], 4)| <= MAX_LOGICAL_BLOCK_DEVICES
    ensures now + SlotDevices(|devices| as u32, devices[i].name, tables[i], 4) == before + ScanDevices(devices, tables, i + 1)
  {
    ScanDevicesStep(devices, tables, i);
    ScanDevicesGrow(devices, tables, i + 1, |tables|);
  }

  lemma ScanDevicesStep(devices: seq<Device>, tables: seq<seq<Option<Partition>>>, i: nat)
    requires i < |tables| <= |devices| <= MAX_BLOCK_DEVICES && |tables[i]| == 4
    ensures ScanDevices(devices, tables, i + 1)
            == ScanDevices(devices, tables, i) + SlotDevices(|devices| as u32, devices[i].name, tables[i], 4)
  {
  }

  lemma {:induction false} ScanDevicesGrow(devices: seq<Device>, tables: seq<seq<Option<Partition>>>, i: nat, n: nat)
    requires i <= n <= |tables| <= |devices| <= MAX_BLOCK_DEVICES
    ensures |ScanDevices(devices, tables, i)| <= |ScanDevices(devices, tables, n)|
    decreases n - i
  {
    if i < n {
      ScanDevicesGrow(devices, tables, i, n - 1);
    }
  }
}
