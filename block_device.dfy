/**
 * The block-device registry: physical devices ("sda", "sdb", ...) and the
 * logical devices (partitions, "sda1", ...) found on them, and the request
 * loop that turns a multi-block request into one driver call per block.
 *
 * Device structures are kept by value: a registered device is the value the
 * registry holds.  The driver's read_block/write_block are not modelled;
 * the status each call returns is a parameter.
 */
module BlockDevice {
  import opened Kernel

  const MAX_BLOCK_DEVICES: nat := 10
  const MAX_LOGICAL_BLOCK_DEVICES: nat := 50
  const LOGICAL_BLOCK_DEVICE_FLAGS_BOOTABLE: u8 := 1

  const CHAR_S: u8 := 0x73  // 's'
  const CHAR_D: u8 := 0x64  // 'd'
  const CHAR_A: u8 := 0x61  // 'a'
  const CHAR_1: u8 := 0x31  // '1'
  const NUL: u8 := 0

  /** A physical device; `name` is device_name up to and including its NUL. */
  datatype Device = Device(deviceId: u32, name: seq<u8>, blockSize: u32, totalBlocks: u32)

  /**
   * A partition as the MBR scan fills it in: `parent` indexes the physical
   * registry; `flags` is None where the scan never assigns the field.
   */
  datatype Partition = Partition(parent: nat, flags: Option<u8>, lbaOffset: u32,
                                 numBlocks: u32, typ: u8, localId: u8)

  /** A registered logical device: the partition plus the id and name registration gives it. */
  datatype LogicalDevice = LogicalDevice(deviceId: u32, name: seq<u8>, part: Partition)

  /** "sd" followed by the letter for physical device `n` and a NUL. */
  function DiskName(n: nat): (r: seq<u8>)
    requires n < MAX_BLOCK_DEVICES
    ensures |r| == 4 && r[..2] == [CHAR_S, CHAR_D] && r[3] == NUL
    ensures r[2] as int == CHAR_A as int + n
  {
    [CHAR_S, CHAR_D, (CHAR_A as int + n) as u8, NUL]
  }

  /** Distinct physical devices get distinct names. */
  lemma DiskNamesDistinct(m: nat, n: nat)
    requires m < MAX_BLOCK_DEVICES && n < MAX_BLOCK_DEVICES
    ensures DiskName(m) == DiskName(n) <==> m == n
  {
    if DiskName(m) == DiskName(n) {
      assert DiskName(m)[2] == DiskName(n)[2];
    }
  }

  /** device_name[2] of a device name: the disk's letter (registered names always have one). */
  function Letter(name: seq<u8>): u8 {
    if |name| > 2 then name[2] else NUL
  }

  /** "sd", the parent's letter, '1' + local_id (as a char) and a NUL. */
  function PartitionName(parentName: seq<u8>, localId: u8): (r: seq<u8>)
    ensures |r| == 5 && r[..3] == [CHAR_S, CHAR_D, Letter(parentName)] && r[4] == NUL
    ensures r[3] as int == (CHAR_1 as int + localId as int) % 0x100
  {
    [CHAR_S, CHAR_D, Letter(parentName), Wrap8(CHAR_1 as int + localId as int), NUL]
  }

  /** The four primary partitions of one disk get four distinct names. */
  lemma PartitionNamesDistinct(parentName: seq<u8>, a: u8, b: u8)
    requires a < 4 && b < 4
    ensures PartitionName(parentName, a) == PartitionName(parentName, b) <==> a == b
  {
    if PartitionName(parentName, a) == PartitionName(parentName, b) {
      assert PartitionName(parentName, a)[3] == PartitionName(parentName, b)[3];
    }
  }

  // ------------------------------------------------------------ requests

  /** One driver call: read or write the block at `lba` to or from `buffer`. */
  datatype BlockCall = BlockCall(write: bool, lba: u32, buffer: u32)

  /** A request: `numBlocks` consecutive blocks from `lba`, through `buffer`. */
  datatype Request = Request(lba: u32, numBlocks: u32, buffer: u32, isWrite: bool)

  /** Call `i` of a request: block `lba + i` at `buffer + i * block_size`, in 32-bit arithmetic. */
  function CallFor(write: bool, req: Request, blockSize: u32, i: nat): BlockCall {
    BlockCall(write, Wrap32(req.lba as int + i), Wrap32(req.buffer as int + i * blockSize as int))
  }

  /** The calls of the first `n` iterations of the loop. */
  function Calls(write: bool, req: Request, blockSize: u32, n: nat): (r: seq<BlockCall>)
    ensures |r| == n
    ensures forall i :: 0 <= i < n ==> r[i] == CallFor(write, req, blockSize, i)
  {
    if n == 0 then [] else Calls(write, req, blockSize, n - 1) + [CallFor(write, req, blockSize, n - 1)]
  }

  /** The index of the first call that does not return EOK, if any. */
  function FirstFailure(results: seq<u32>, n: nat): (r: Option<nat>)
    requires n <= |results|
    ensures r.None? <==> forall i :: 0 <= i < n ==> results[i] == EOK
    ensures r.Some? ==> r.value < n && results[r.value] != EOK &&
                        forall i :: 0 <= i < r.value ==> results[i] == EOK
  {
    if n == 0 then None
    else
      var f := FirstFailure(results, n - 1);
      if f.Some? then f else if results[n - 1] != EOK then Some(n - 1) else None
  }

  /**
   * The loop shared by submit_read_request and submit_write_request: one
   * call per block in increasing order, `results[i]` being what call `i`
   * returns; the first non-EOK result halts the kernel.  `calls` is the
   * calls made, the failing one included.
   */
  method RunRequest(write: bool, req: Request, blockSize: u32, results: seq<u32>)
    returns (calls: seq<BlockCall>, r: Outcome<()>)
    requires |results| == req.numBlocks as int
    ensures var f := FirstFailure(results, |results|);
            (r.Halt? <==> f.Some?) &&
            calls == Calls(write, req, blockSize, if f.Some? then f.value + 1 else |results|)
  {
    calls := [];
    var i: u32 := 0;
    while i < req.numBlocks
      invariant i <= req.numBlocks
      invariant FirstFailure(results, i as nat).None?
      invariant calls == Calls(write, req, blockSize, i as nat)
    {
      var result := results[i];
      calls := calls + [CallFor(write, req, blockSize, i as nat)];
      if result != EOK {
        assert FirstFailure(results, |results|).Some? by {
          assert results[i] != EOK;
        }
        return calls, Halt;
      }
      i := i + 1;
    }
    return calls, Done(());
  }

  // ------------------------------------------------------------ registry

  /** The two registries and their counters (the globals of block_device.c). */
  class Registry {
    var devices: seq<Device>
    var logical: seq<LogicalDevice>

    /**
     * Within capacity; physical device `i` has id `i` and name DiskName(i);
     * a logical device's parent is registered, its id is the number of
     * physical devices when it was registered, and its name follows the
     * parent's letter.
     */
    ghost predicate Valid()
      reads this
    {
      |devices| <= MAX_BLOCK_DEVICES && |logical| <= MAX_LOGICAL_BLOCK_DEVICES
      && (forall i :: 0 <= i < |devices| ==> devices[i].deviceId as int == i && devices[i].name == DiskName(i))
      && (forall j :: 0 <= j < |logical| ==>
            logical[j].part.parent < |devices| && logical[j].deviceId as int <= |devices|
            && logical[j].name == PartitionName(devices[logical[j].part.parent].name, logical[j].part.localId))
    }

    constructor ()
      ensures Valid() && devices == [] && logical == []
    {
      devices := [];
      logical := [];
    }

    /**
     * register_block_device: the device gets the current count as id and
     * the next letter as name, and is appended.  The source does not check
     * the capacity of its 10-slot array.
     */
    method RegisterBlockDevice(bdev: Device) returns (registered: Device)
      requires Valid() && |devices| < MAX_BLOCK_DEVICES
      modifies this
      ensures Valid()
      ensures registered == bdev.(deviceId := |old(devices)| as u32, name := DiskName(|old(devices)|))
      ensures devices == old(devices) + [registered] && logical == old(logical)
    {
      registered := bdev.(deviceId := |devices| as u32, name := DiskName(|devices|));
      devices := devices + [registered];
    }

    /**
     * register_logical_block_device: the id is the number of PHYSICAL
     * devices, the name is "sd", the parent's letter and '1' + local_id.
     */
    method RegisterLogicalBlockDevice(part: Partition) returns (registered: LogicalDevice)
      requires Valid() && |logical| < MAX_LOGICAL_BLOCK_DEVICES && part.parent < |devices|
      modifies this
      ensures devices == old(devices) && Valid()
      ensures registered == LogicalDevice(|devices| as u32, PartitionName(devices[part.parent].name, part.localId), part)
      ensures logical == old(logical) + [registered]
    {
      registered := LogicalDevice(|devices| as u32, PartitionName(devices[part.parent].name, part.localId), part);
      logical := logical + [registered];
    }

    /** get_num_block_devices: the number of registrations so far. */
    function NumBlockDevices(): (n: u32)
      reads this
      requires Valid()
      ensures n as int == |devices| && n as int <= MAX_BLOCK_DEVICES
      ensures forall i :: 0 <= i < n as int ==> devices[i].deviceId as int == i
    {
      |devices| as u32
    }

    /** get_num_logical_block_devices: the number of logical registrations so far. */
    function NumLogicalBlockDevices(): (n: u32)
      reads this
      requires Valid()
      ensures n as int == |logical| && n as int <= MAX_LOGICAL_BLOCK_DEVICES
    {
      |logical| as u32
    }

    /** get_block_devices: the registry, in registration order with distinct names. */
    function BlockDevices(): (r: seq<Device>)
      reads this
      requires Valid()
      ensures |r| == |devices| <= MAX_BLOCK_DEVICES
      ensures forall i, j :: 0 <= i < j < |r| ==> r[i].name != r[j].name
    {
      forall i, j | 0 <= i < j < |devices| ensures devices[i].name != devices[j].name {
        DiskNamesDistinct(i, j);
      }
      devices
    }

    /** get_logical_block_devices: the logical registry in registration order. */
    function LogicalBlockDevices(): (r: seq<LogicalDevice>)
      reads this
      requires Valid()
      ensures |r| == |logical| <= MAX_LOGICAL_BLOCK_DEVICES
      ensures forall j :: 0 <= j < |r| ==>
                r[j].part.parent < |devices| && r[j].deviceId as int <= |devices|
                && r[j].name == PartitionName(devices[r[j].part.parent].name, r[j].part.localId)
    {
      logical
    }
  }

  /** submit_read_request: read_block for each block of the request. */
  method SubmitReadRequest(bdev: Device, req: Request, results: seq<u32>) returns (calls: seq<BlockCall>, r: Outcome<()>)
    requires |results| == req.numBlocks as int
    ensures var f := FirstFailure(results, |results|);
            (r.Halt? <==> f.Some?) &&
            calls == Calls(false, req, bdev.blockSize, if f.Some? then f.value + 1 else |results|)
  {
    calls, r := RunRequest(false, req, bdev.blockSize, results);
  }

  /** submit_write_request: write_block for each block of the request. */
  method SubmitWriteRequest(bdev: Device, req: Request, results: seq<u32>) returns (calls: seq<BlockCall>, r: Outcome<()>)
    requires |results| == req.numBlocks as int
    ensures var f := FirstFailure(results, |results|);
            (r.Halt? <==> f.Some?) &&
            calls == Calls(true, req, bdev.blockSize, if f.Some? then f.value + 1 else |results|)
  {
    calls, r := RunRequest(true, req, bdev.blockSize, results);
  }
}
