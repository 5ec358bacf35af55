/**
 * PCI configuration access and bus enumeration (kernel/src/dev/pci.c), by
 * configuration mechanism #1 of section 3.2.2.3.2 of the PCI Local Bus
 * Specification 3.0: an address written to port 0xCF8 selects a dword of
 * a function's configuration space, which port 0xCFC then reads or
 * writes.
 *
 * The port pair is one parameter, `config`: the dword port 0xCFC yields
 * after a given address was written to port 0xCF8.  Bit operations are on
 * bit-vectors, written as the source writes them.
 */
module Pci {
  import opened Kernel

  const PCI_DATA_PORT: u16 := 0xCFC
  const PCI_COMMAND_PORT: u16 := 0xCF8

  const PCI_BUSES: nat := 8
  const PCI_DEVICES: nat := 32
  const PCI_BARS: nat := 6

  /**
   * The configuration address of register `offset` of function `func` of
   * `device` on `bus`: the enable bit, then the fields cut to their widths;
   * the two low bits of the offset are dropped.
   */
  function ConfigAddress(bus: bv16, device: bv16, func: bv16, offset: bv32): (r: bv32)
    ensures r >> 31 == 1 && (r >> 24) & 0x7F == 0
    ensures (r >> 16) & 0xFF == (bus as bv32) & 0xFF
    ensures (r >> 11) & 0x1F == (device as bv32) & 0x1F
    ensures (r >> 8) & 0x07 == (func as bv32) & 0x07
    ensures r & 0xFF == offset & 0xFC
  {
    (1 << 31) | (((bus as bv32) & 0xFF) << 16) | (((device as bv32) & 0x1F) << 11)
    | (((func as bv32) & 0x07) << 8) | (offset & 0xFC)
  }

  /** Two configuration addresses are the same exactly when their fields, cut to width, are. */
  lemma ConfigAddressInjective(bus: bv16, device: bv16, func: bv16, offset: bv32,
                               bus': bv16, device': bv16, func': bv16, offset': bv32)
    ensures ConfigAddress(bus, device, func, offset) == ConfigAddress(bus', device', func', offset') <==>
              SameFields(bus, device, func, offset, bus', device', func', offset')
  {
    if ConfigAddress(bus, device, func, offset) == ConfigAddress(bus', device', func', offset') {
      SameAddressSameFields(bus, device, func, offset, bus', device', func', offset');
    }
    if SameFields(bus, device, func, offset, bus', device', func', offset') {
      SameFieldsSameAddress(bus, device, func, offset, bus', device', func', offset');
    }
  }

  /** The fields two configuration addresses are made of agree, cut to width. */
  predicate SameFields(bus: bv16, device: bv16, func: bv16, offset: bv32, bus': bv16, device': bv16, func': bv16, offset': bv32) {
    (bus as bv32) & 0xFF == (bus' as bv32) & 0xFF && (device as bv32) & 0x1F == (device' as bv32) & 0x1F
    && (func as bv32) & 0x07 == (func' as bv32) & 0x07 && offset & 0xFC == offset' & 0xFC
  }

  lemma SameAddressSameFields(bus: bv16, device: bv16, func: bv16, offset: bv32,
                              bus': bv16, device': bv16, func': bv16, offset': bv32)
    requires ConfigAddress(bus, device, func, offset) == ConfigAddress(bus', device', func', offset')
    ensures SameFields(bus, device, func, offset, bus', device', func', offset')
  {
  }

  lemma SameFieldsSameAddress(bus: bv16, device: bv16, func: bv16, offset: bv32,
                              bus': bv16, device': bv16, func': bv16, offset': bv32)
    requires SameFields(bus, device, func, offset, bus', device', func', offset')
    ensures ConfigAddress(bus, device, func, offset) == ConfigAddress(bus', device', func', offset')
  {
  }

  /** The whole dword of configuration space holding register `offset`. */
  function Dword(config: bv32 -> bv32, bus: bv16, device: bv16, func: bv16, offset: bv32): bv32 {
    config(ConfigAddress(bus, device, func, offset))
  }

  /**
   * pci_read: the dword holding the register, shifted right so that the
   * register's byte within the dword comes first.
   */
  function PciRead(config: bv32 -> bv32, bus: bv16, device: bv16, func: bv16, offset: bv32): bv32 {
    Dword(config, bus, device, func, offset) >> (8 * (offset % 4))
  }

  /**
   * The low byte of pci_read is the register's own byte: byte offset % 4
   * of the dword, counted from the least significant end.
   */
  lemma PciReadByte(config: bv32 -> bv32, bus: bv16, device: bv16, func: bv16, offset: bv32)
    ensures var w := Dword(config, bus, device, func, offset);
            PciRead(config, bus, device, func, offset) & 0xFF ==
              (if offset % 4 == 0 then w & 0xFF
               else if offset % 4 == 1 then (w >> 8) & 0xFF
               else if offset % 4 == 2 then (w >> 16) & 0xFF
               else w >> 24)
  {
  }

  /** One port write. */
  datatype PortOut = PortOut(port: u16, value: bv32)

  /** pci_write: the configuration address to port 0xCF8, then the value to port 0xCFC. */
  function PciWrite(bus: bv16, device: bv16, func: bv16, offset: bv32, value: bv32): (r: seq<PortOut>)
    ensures |r| == 2 && r[0].port == PCI_COMMAND_PORT && r[1] == PortOut(PCI_DATA_PORT, value)
    ensures r[0].value & 0x03 == 0
    ensures forall c: bv32 -> bv32 :: c(r[0].value) == Dword(c, bus, device, func, offset)
  {
    [PortOut(PCI_COMMAND_PORT, ConfigAddress(bus, device, func, offset)), PortOut(PCI_DATA_PORT, value)]
  }

  /**
   * device_has_functions: bit 7 of the register at 0x0E, the header type,
   * which is byte 2 of the dword at 0x0C.
   */
  function HasFunctions(config: bv32 -> bv32, bus: bv16, device: bv16): (r: bool)
    ensures r <==> (Dword(config, bus, device, 0, 0x0C) >> 23) & 1 == 1
  {
    assert ConfigAddress(bus, device, 0, 0x0E) == ConfigAddress(bus, device, 0, 0x0C);
    PciRead(config, bus, device, 0, 0x0E) & (1 << 7) != 0
  }

  /** pci_device_descriptor; `portBase` is None while the field has not been written. */
  datatype Descriptor = Descriptor(portBase: Option<bv32>, interrupt: bv32, bus: u16, device: u16, func: u16,
                                   vendorId: bv16, deviceId: bv16, classId: bv8, subclassId: bv8,
                                   interfaceId: bv8, revision: bv8)

  /**
   * populate_pci_device_descriptor: the identity fields, each pci_read cut
   * to the field's width, and the whole dword at 0x3C as the interrupt.
   * The fields reassemble the header's first dword (vendor and device
   * IDs) and its third (revision, interface, subclass and class).
   */
  function Describe(config: bv32 -> bv32, bus: u16, device: u16, func: u16): (d: Descriptor)
    ensures d.bus == bus && d.device == device && d.func == func && d.portBase == None
    ensures ((d.deviceId as bv32) << 16) | (d.vendorId as bv32) == Dword(config, bus as bv16, device as bv16, func as bv16, 0x00)
    ensures ((d.classId as bv32) << 24) | ((d.subclassId as bv32) << 16) | ((d.interfaceId as bv32) << 8)
            | (d.revision as bv32) == Dword(config, bus as bv16, device as bv16, func as bv16, 0x08)
    ensures d.interrupt == Dword(config, bus as bv16, device as bv16, func as bv16, 0x3C)
  {
    var d := Descriptor(None, PciRead(config, bus as bv16, device as bv16, func as bv16, 0x3c), bus, device, func,
                        (PciRead(config, bus as bv16, device as bv16, func as bv16, 0x00) & 0xFFFF) as bv16,
                        (PciRead(config, bus as bv16, device as bv16, func as bv16, 0x02) & 0xFFFF) as bv16,
                        (PciRead(config, bus as bv16, device as bv16, func as bv16, 0x0b) & 0xFF) as bv8,
                        (PciRead(config, bus as bv16, device as bv16, func as bv16, 0x0a) & 0xFF) as bv8,
                        (PciRead(config, bus as bv16, device as bv16, func as bv16, 0x09) & 0xFF) as bv8,
                        (PciRead(config, bus as bv16, device as bv16, func as bv16, 0x08) & 0xFF) as bv8);
    IdentityDwords(config, bus as bv16, device as bv16, func as bv16);
    Halves(Dword(config, bus as bv16, device as bv16, func as bv16, 0x00));
    Quarters(Dword(config, bus as bv16, device as bv16, func as bv16, 0x08));
    d
  }

  /** The registers Describe reads share the dwords at 0x00 and 0x08. */
  lemma IdentityDwords(config: bv32 -> bv32, bus: bv16, device: bv16, func: bv16)
    ensures Dword(config, bus, device, func, 0x02) == Dword(config, bus, device, func, 0x00)
    ensures Dword(config, bus, device, func, 0x09) == Dword(config, bus, device, func, 0x08)
    ensures Dword(config, bus, device, func, 0x0a) == Dword(config, bus, device, func, 0x08)
    ensures Dword(config, bus, device, func, 0x0b) == Dword(config, bus, device, func, 0x08)
  {
    assert ConfigAddress(bus, device, func, 0x02) == ConfigAddress(bus, device, func, 0x00);
    assert ConfigAddress(bus, device, func, 0x09) == ConfigAddress(bus, device, func, 0x08);
    assert ConfigAddress(bus, device, func, 0x0a) == ConfigAddress(bus, device, func, 0x08);
    assert ConfigAddress(bus, device, func, 0x0b) == ConfigAddress(bus, device, func, 0x08);
  }

  lemma Halves(w: bv32)
    ensures (((((w >> 16) & 0xFFFF) as bv16) as bv32) << 16) | (((w & 0xFFFF) as bv16) as bv32) == w
  {
  }

  lemma Quarters(w: bv32)
    ensures (((((w >> 24) & 0xFF) as bv8) as bv32) << 24) | (((((w >> 16) & 0xFF) as bv8) as bv32) << 16)
            | (((((w >> 8) & 0xFF) as bv8) as bv32) << 8) | (((w & 0xFF) as bv8) as bv32) == w
  {
  }

  datatype BarType = MemoryMapping | InputOutput

  /** base_address_register; `address` is the pointer value. */
  datatype Bar = Bar(prefetchable: bool, address: bv32, size: bv32, kind: BarType)

  /** A base_address_register after the memset: all fields zero. */
  const ZERO_BAR := Bar(false, 0, 0, MemoryMapping)

  /** max_bars for a header type: 6 - 4 * type, computed in 32 bits and kept to 16. */
  function MaxBars(headerType: bv32): bv16 {
    ((6 - 4 * headerType) & 0xFFFF) as bv16
  }

  /**
   * Type 0 headers have six BARs and type 1 (PCI-to-PCI bridge) headers
   * two; for any higher type the subtraction wraps, the bound is above
   * 65000 and all six BARs are read.
   */
  lemma MaxBarsByHeader(headerType: bv32)
    requires headerType <= 0x7F
    ensures headerType == 0 ==> MaxBars(headerType) == 6
    ensures headerType == 1 ==> MaxBars(headerType) == 2
    ensures headerType >= 2 ==> MaxBars(headerType) >= 0xFE00
  {
  }

  /**
   * populate_base_address_register: all zero when `barNum` is not below
   * max_bars of the header type (bits 0-6 of the register at 0x0E);
   * otherwise the BAR register at 0x10 + 4 * barNum decides.  Bit 0 set
   * is an I/O BAR, whose address is the register with its two low bits
   * cleared, never prefetchable; bit 0 clear is a memory BAR, prefetchable
   * when bit 3 is set, whose address is left 0.  The size is never set.
   */
  function PopulateBar(config: bv32 -> bv32, bus: u16, device: u16, func: u16, barNum: bv16): (bar: Bar)
    ensures bar.size == 0
    ensures var headerType := PciRead(config, bus as bv16, device as bv16, func as bv16, 0x0e) & 0x7f;
            (barNum >= MaxBars(headerType) ==> bar == ZERO_BAR)
            && (barNum < MaxBars(headerType) ==>
                  var value := PciRead(config, bus as bv16, device as bv16, func as bv16, 0x10 + 4 * (barNum as bv32));
                  (bar.kind == InputOutput <==> value & 1 == 1)
                  && (bar.kind == InputOutput ==> !bar.prefetchable && bar.address & 3 == 0
                                                  && bar.address | (value & 3) == value)
                  && (bar.kind == MemoryMapping ==> bar.address == 0 && (bar.prefetchable <==> value & 8 != 0)))
  {
    var bar := ZERO_BAR;
    var headerType := PciRead(config, bus as bv16, device as bv16, func as bv16, 0x0e) & 0x7f;
    var maxBars := MaxBars(headerType);
    if barNum >= maxBars then bar
    else
      var value := PciRead(config, bus as bv16, device as bv16, func as bv16, 0x10 + 4 * (barNum as bv32));
      var bar := bar.(kind := if value & 0x01 != 0 then InputOutput else MemoryMapping);
      if bar.kind == MemoryMapping then
        bar.(prefetchable := (value >> 3) & 0x01 == 0x01)
      else
        bar.(address := value & !0x03, prefetchable := false)
  }

  /** The port base left in a descriptor after BARs 0..k-1: the last non-NULL I/O BAR's address, if any. */
  function PortBaseAfter(config: bv32 -> bv32, bus: u16, device: u16, func: u16, k: nat): Option<bv32>
    requires k <= PCI_BARS
  {
    if k == 0 then None
    else
      var bar := PopulateBar(config, bus, device, func, (k - 1) as bv16);
      if bar.address != 0 && bar.kind == InputOutput then Some(bar.address) else PortBaseAfter(config, bus, device, func, k - 1)
  }

  /** The descriptor the enumeration ends with for one function. */
  function Completed(config: bv32 -> bv32, bus: u16, device: u16, func: u16): Descriptor {
    Describe(config, bus, device, func).(portBase := PortBaseAfter(config, bus, device, func, PCI_BARS))
  }

  /** A vendor ID of 0x0000 or 0xFFFF means no function answers. */
  predicate Absent(vendorId: bv16) {
    vendorId == 0x0000 || vendorId == 0xFFFF
  }

  /** How many functions the enumeration visits on a device. */
  function NumFunctions(config: bv32 -> bv32, bus: u16, device: u16): nat {
    if HasFunctions(config, bus as bv16, device as bv16) then 8 else 1
  }

  /** What one function adds to the enumeration. */
  function Listed(config: bv32 -> bv32, bus: u16, device: u16, func: u16): seq<Descriptor> {
    if Absent(Describe(config, bus, device, func).vendorId) then [] else [Completed(config, bus, device, func)]
  }

  /** The functions below `f` of a device, in order. */
  function FunctionsBefore(config: bv32 -> bv32, bus: u16, device: u16, f: nat): seq<Descriptor>
    requires f <= 8
  {
    if f == 0 then [] else FunctionsBefore(config, bus, device, f - 1) + Listed(config, bus, device, (f - 1) as u16)
  }

  /** The devices below `d` on a bus, in order. */
  function DevicesBefore(config: bv32 -> bv32, bus: u16, d: nat): seq<Descriptor>
    requires d <= PCI_DEVICES
  {
    if d == 0 then []
    else DevicesBefore(config, bus, d - 1)
         + FunctionsBefore(config, bus, (d - 1) as u16, NumFunctions(config, bus, (d - 1) as u16))
  }

  /** The buses below `b`, in order. */
  function BusesBefore(config: bv32 -> bv32, b: nat): seq<Descriptor>
    requires b <= PCI_BUSES
  {
    if b == 0 then [] else BusesBefore(config, b - 1) + DevicesBefore(config, (b - 1) as u16, PCI_DEVICES)
  }

  /** The whole enumeration. */
  function Scan(config: bv32 -> bv32): seq<Descriptor> {
    BusesBefore(config, PCI_BUSES)
  }

  /**
   * pci_instantiate_drivers: buses 0-7, devices 0-31, eight functions on a
   * multi-function device and one otherwise; a function with an absent
   * vendor is skipped, and for the others the six BARs are read and each
   * non-NULL I/O BAR becomes the port base.  The source builds each
   * descriptor and drops it; here the descriptors are returned.
   */
  method InstantiateDrivers(config: bv32 -> bv32) returns (found: seq<Descriptor>)
    ensures found == Scan(config)
  {
    found := [];
    var bus: u16 := 0;
    while bus < 8
      invariant bus as nat <= PCI_BUSES && found == BusesBefore(config, bus as nat)
    {
      var device: u16 := 0;
      ghost var busStart := found;
      assert busStart + [] == busStart;
      while device < 32
        invariant device as nat <= PCI_DEVICES
        invariant found == busStart + DevicesBefore(config, bus, device as nat)
      {
        var functions := ScanDevice(config, bus, device);
        DeviceStep(config, bus, device as nat, busStart, found, found + functions);
        found := found + functions;
        device := device + 1;
      }
      BusStep(config, bus as nat, busStart, found);
      bus := bus + 1;
    }
  }

  /**
   * The function loop of pci_instantiate_drivers for one device: eight
   * functions on a multi-function device and one otherwise, skipping those
   * with an absent vendor.
   */
  method ScanDevice(config: bv32 -> bv32, bus: u16, device: u16) returns (found: seq<Descriptor>)
    ensures found == FunctionsBefore(config, bus, device, NumFunctions(config, bus, device))
  {
    found := [];
    var numFunctions: u16 := if HasFunctions(config, bus as bv16, device as bv16) then 8 else 1;
    var func: u16 := 0;
    while func < numFunctions
      invariant func <= numFunctions && numFunctions as nat == NumFunctions(config, bus, device)
      invariant found == FunctionsBefore(config, bus, device, func as nat)
    {
      var desc := Describe(config, bus, device, func as u16);
      if Absent(desc.vendorId) {
        FunctionStep(config, bus, device, func as nat, [], found, []);
        func := func + 1;
        continue;
      }
      desc := ReadBars(config, desc);
      FunctionStep(config, bus, device, func as nat, [], found, [desc]);
      found := found + [desc];
      func := func + 1;
    }
  }

  /**
   * The BAR loop of pci_instantiate_drivers: the six BARs of the
   * descriptor's function are read in turn, and each non-NULL I/O BAR
   * overwrites the port base.
   */
  method ReadBars(config: bv32 -> bv32, desc: Descriptor) returns (r: Descriptor)
    requires desc.portBase == None
    ensures r == desc.(portBase := PortBaseAfter(config, desc.bus, desc.device, desc.func, PCI_BARS))
  {
    r := desc;
    var barNum: u16 := 0;
    while barNum < 6
      invariant barNum as nat <= PCI_BARS
      invariant r == desc.(portBase := PortBaseAfter(config, desc.bus, desc.device, desc.func, barNum as nat))
    {
      var bar := PopulateBar(config, desc.bus, desc.device, desc.func, barNum as bv16);
      BarStep(config, desc.bus, desc.device, desc.func, barNum as nat);
      if bar.address != 0 && bar.kind == InputOutput {
        r := r.(portBase := Some(bar.address));
      }
      barNum := barNum + 1;
    }
  }

  /** BAR k decides the port base after BARs 0..k when it is a non-NULL I/O BAR. */
  lemma BarStep(config: bv32 -> bv32, bus: u16, device: u16, func: u16, k: nat)
    requires k < PCI_BARS
    ensures var bar := PopulateBar(config, bus, device, func, k as bv16);
            PortBaseAfter(config, bus, device, func, k + 1) ==
              if bar.address != 0 && bar.kind == InputOutput then Some(bar.address)
              else PortBaseAfter(config, bus, device, func, k)
  {
  }

  /** One more function of a device joins what the enumeration has found. */
  lemma FunctionStep(config: bv32 -> bv32, bus: u16, device: u16, f: nat,
                     start: seq<Descriptor>, found: seq<Descriptor>, added: seq<Descriptor>)
    requires f < 8 && found == start + FunctionsBefore(config, bus, device, f)
    requires added == Listed(config, bus, device, f as u16)
    ensures found + added == start + FunctionsBefore(config, bus, device, f + 1)
  {
    assert FunctionsBefore(config, bus, device, f + 1) == FunctionsBefore(config, bus, device, f) + added;
    Append(start, FunctionsBefore(config, bus, device, f), added);
  }

  /** One more device of a bus, all its functions visited, joins what the enumeration has found. */
  lemma DeviceStep(config: bv32 -> bv32, bus: u16, d: nat, start: seq<Descriptor>, deviceStart: seq<Descriptor>,
                   found: seq<Descriptor>)
    requires d < PCI_DEVICES && deviceStart == start + DevicesBefore(config, bus, d)
    requires found == deviceStart + FunctionsBefore(config, bus, d as u16, NumFunctions(config, bus, d as u16))
    ensures found == start + DevicesBefore(config, bus, d + 1)
  {
    Append(start, DevicesBefore(config, bus, d), FunctionsBefore(config, bus, d as u16, NumFunctions(config, bus, d as u16)));
  }

  /** One more bus, all its devices visited, joins what the enumeration has found. */
  lemma BusStep(config: bv32 -> bv32, b: nat, start: seq<Descriptor>, found: seq<Descriptor>)
    requires b < PCI_BUSES && start == BusesBefore(config, b)
    requires found == start + DevicesBefore(config, b as u16, PCI_DEVICES)
    ensures found == BusesBefore(config, b + 1)
  {
  }

  /** A descriptor the enumeration can end with: a present function, its BARs read. */
  predicate IsCompleted(config: bv32 -> bv32, x: Descriptor) {
    x == Completed(config, x.bus, x.device, x.func) && !Absent(x.vendorId)
  }

  /** The functions below `f` of a device found are exactly its present functions below `f`. */
  lemma {:induction false} FunctionsMembers(config: bv32 -> bv32, bus: u16, device: u16, f: nat, x: Descriptor)
    requires f <= 8
    ensures x in FunctionsBefore(config, bus, device, f) <==>
              x.bus == bus && x.device == device && x.func as nat < f && IsCompleted(config, x)
  {
    if f > 0 {
      FunctionsMembers(config, bus, device, f - 1, x);
      ListedMembers(config, bus, device, (f - 1) as u16, x);
      assert FunctionsBefore(config, bus, device, f) ==
             FunctionsBefore(config, bus, device, f - 1) + Listed(config, bus, device, (f - 1) as u16);
    }
  }

  /** What one function adds is that function's descriptor, if it is present. */
  lemma ListedMembers(config: bv32 -> bv32, bus: u16, device: u16, g: u16, x: Descriptor)
    ensures x in Listed(config, bus, device, g) <==> x.bus == bus && x.device == device && x.func == g && IsCompleted(config, x)
  {
    var c := Completed(config, bus, device, g);
    assert c.bus == bus && c.device == device && c.func == g && c.vendorId == Describe(config, bus, device, g).vendorId;
  }

  /** The devices below `d` of a bus found are exactly the present functions of its devices below `d`. */
  lemma {:induction false} DevicesMembers(config: bv32 -> bv32, bus: u16, d: nat, x: Descriptor)
    requires d <= PCI_DEVICES
    ensures x in DevicesBefore(config, bus, d) <==>
              x.bus == bus && x.device as nat < d && x.func as nat < NumFunctions(config, bus, x.device)
              && IsCompleted(config, x)
  {
    if d > 0 {
      DevicesMembers(config, bus, d - 1, x);
      var e := (d - 1) as u16;
      FunctionsMembers(config, bus, e, NumFunctions(config, bus, e), x);
    }
  }

  /** The buses below `b` found are exactly the present functions on them. */
  lemma {:induction false} BusesMembers(config: bv32 -> bv32, b: nat, x: Descriptor)
    requires b <= PCI_BUSES
    ensures x in BusesBefore(config, b) <==>
              x.bus as nat < b && x.device as nat < PCI_DEVICES && x.func as nat < NumFunctions(config, x.bus, x.device)
              && IsCompleted(config, x)
  {
    if b > 0 {
      BusesMembers(config, b - 1, x);
      DevicesMembers(config, (b - 1) as u16, PCI_DEVICES, x);
    }
  }

  /**
   * pci_instantiate_drivers visits exactly the present functions of buses
   * 0-7 and devices 0-31 (functions 0-7 of a multi-function device,
   * function 0 of any other), each with the port base its BARs give.
   */
  lemma ScanFindsPresentFunctions(config: bv32 -> bv32, x: Descriptor)
    ensures x in Scan(config) <==>
              x.bus as nat < PCI_BUSES && x.device as nat < PCI_DEVICES
              && x.func as nat < NumFunctions(config, x.bus, x.device) && IsCompleted(config, x)
  {
    BusesMembers(config, PCI_BUSES, x);
  }

  lemma Append(a: seq<Descriptor>, b: seq<Descriptor>, c: seq<Descriptor>)
    ensures (a + b) + c == a + (b + c)
  {
  }
}
