/** The machine under test as the server's back ends see it: the hardware state
    behind each access path, and the kernel's decisions as fields that never
    change.  A `Machine` is a value; class `Hardware` holds the current one. */
module Machines {
  import opened Bytes

  type u32 = x: nat | x < MAX32
  type u64 = x: nat | x < MAX64

  /** log2 of the page size; sysconf() returns it as a positive signed 64-bit
      number, so the size is at most 2^62. */
  type PageBits = k: nat | k <= 62

  /** /dev/mem. `ram` holds the physical addresses that are backed; others read
      FFh and drop writes. `mappable(base, len)` and `moved(isWrite, addr, len)`
      are the kernel's answers to mmap() and to pread()/pwrite(), the latter as
      the result of the call: the bytes transferred, negative for an error; it
      counts as at most `len`. A positioned
      transfer reads zeros from, and skips, addresses that are not `exposed`. */
  datatype MemDevice = MemDevice(
    open: bool,
    pageBits: PageBits,
    mappable: (nat, nat) -> bool,
    moved: (bool, nat, nat) -> int,
    exposed: nat -> bool,
    ram: map<nat, byte>)

  /** One port cycle, in the order the hardware saw it. */
  datatype PortCycle =
    | In8(port: nat, value: byte)
    | Out8(port: nat, value: byte)
    | Out32(port: nat, wide: u32)

  /** The 256 CMOS bytes: two banks of 128. */
  type Cmos = s: Bytes | |s| == 256 witness seq(256, _ => 0)

  /** I/O ports. `devPort` says whether /dev/port opens, `faulty(port, isWrite)`
      which of its transfers fail, `ioperm(port, len)` what the kernel grants. */
  datatype IoDevice = IoDevice(
    devPort: bool,
    faulty: (nat, bool) -> bool,
    ioperm: (nat, nat) -> bool,
    index: byte,          // last byte written to port 70h
    extIndex: byte,       // last byte written to port 72h
    cmos: Cmos,
    configAddress: u32,   // the CF8h latch
    plain: map<nat, byte>, // every other port reads back what was written
    trace: seq<PortCycle>)

  /** Configuration space of one function; conventional PCI has 256 bytes. */
  type ConfigSpace = s: Bytes | 256 <= |s| <= 4096 witness seq(256, _ => 0)

  /** An entry of /sys/bus/pci/devices, in directory order. */
  datatype SysfsEntry =
    | Junk
    | Named(seg: nat, bus: nat, dev: nat, fun: nat, readable: bool)

  /** PCI. `space` is keyed by segment, bus, device and function packed as in
      bits 30:8 of a configuration address. */
  datatype PciDevice = PciDevice(
    sysfs: bool,
    sysfsWritable: bool,
    entries: seq<SysfsEntry>,
    space: map<nat, ConfigSpace>)

  datatype DiskDevice =
    | NoDisk
    | Disk(readable: bool, writable: bool, synced: bool, content: Bytes)

  /** An entry of /sys/firmware/memmap, in directory order. */
  datatype E820Entry = E820Entry(readable: bool, start: u64, end: u64, kind: u32)

  datatype Machine = Machine(
    mem: MemDevice,
    io: IoDevice,
    pci: PciDevice,
    disk: DiskDevice,
    firmware: seq<E820Entry>)

  const CMOS_ADDR := 0x70
  const CMOS_DATA := 0x71
  const CMOS_EXT_ADDR := 0x72
  const CMOS_EXT_DATA := 0x73
  const CMOS_BANK_SIZE := 0x80
  const CMOS_SIZE := 0x100
  const CONFIG_ADDRESS := 0xCF8
  const CONFIG_DATA := 0xCFC
  const CONFIG_ENABLE := 0x8000_0000

  /** A byte of configuration space; FFh where no function answers. */
  function ConfigByte(space: map<nat, ConfigSpace>, fn: nat, reg: nat): byte {
    if fn in space && reg < |space[fn]| then space[fn][reg] else 255
  }

  function SetConfigByte(space: map<nat, ConfigSpace>, fn: nat, reg: nat, v: byte): map<nat, ConfigSpace> {
    if fn in space && reg < |space[fn]| then space[fn := space[fn][reg := v]] else space
  }

  /** Whether a byte cycle at `port` is a configuration cycle. */
  predicate IsConfigCycle(io: IoDevice, port: nat) {
    CONFIG_DATA <= port < CONFIG_DATA + 4 && io.configAddress >= CONFIG_ENABLE
  }

  /** The function and register that the latch and the byte lane select. */
  function LatchedFunction(latch: u32): nat { latch / 256 % 65536 }
  function LatchedRegister(latch: u32, port: nat): nat
    requires CONFIG_DATA <= port
  {
    latch % 256 / 4 * 4 + (port - CONFIG_DATA)
  }

  /** The value a byte read of `port` returns. */
  function PortValue(m: Machine, port: nat): byte {
    if port == CMOS_ADDR then m.io.index
    else if port == CMOS_DATA then m.io.cmos[m.io.index % CMOS_BANK_SIZE]
    else if port == CMOS_EXT_ADDR then m.io.extIndex
    else if port == CMOS_EXT_DATA then m.io.cmos[CMOS_BANK_SIZE + m.io.extIndex % CMOS_BANK_SIZE]
    else if IsConfigCycle(m.io, port) then
      ConfigByte(m.pci.space, LatchedFunction(m.io.configAddress), LatchedRegister(m.io.configAddress, port))
    else if port in m.io.plain then m.io.plain[port]
    else 255
  }

  function AfterIn8(m: Machine, port: nat): Machine {
    m.(io := m.io.(trace := m.io.trace + [In8(port, PortValue(m, port))]))
  }

  function AfterOut8(m: Machine, port: nat, v: byte): Machine {
    var io := m.io.(trace := m.io.trace + [Out8(port, v)]);
    if port == CMOS_ADDR then m.(io := io.(index := v))
    else if port == CMOS_DATA then
      m.(io := io.(cmos := io.cmos[io.index % CMOS_BANK_SIZE := v]))
    else if port == CMOS_EXT_ADDR then m.(io := io.(extIndex := v))
    else if port == CMOS_EXT_DATA then
      m.(io := io.(cmos := io.cmos[CMOS_BANK_SIZE + io.extIndex % CMOS_BANK_SIZE := v]))
    else if IsConfigCycle(io, port) then
      m.(io := io, pci := m.pci.(space := SetConfigByte(m.pci.space,
        LatchedFunction(io.configAddress), LatchedRegister(io.configAddress, port), v)))
    else m.(io := io.(plain := io.plain[port := v]))
  }

  /** Only a full 32-bit write to CF8h loads the configuration latch (section
      3.2.2.3.2 of the PCI Local Bus Specification Revision 3.0). */
  function AfterOut32(m: Machine, port: nat, v: u32): Machine {
    var io := m.io.(trace := m.io.trace + [Out32(port, v)]);
    if port == CONFIG_ADDRESS then m.(io := io.(configAddress := v)) else m.(io := io)
  }

  /** The one machine that all the server's back ends act on. */
  class Hardware {
    var m: Machine

    constructor (initial: Machine)
      ensures m == initial
    {
      m := initial;
    }

    method Inb(port: nat) returns (v: byte)
      modifies this
      ensures v == PortValue(old(m), port) && m == AfterIn8(old(m), port)
    {
      v := PortValue(m, port);
      m := AfterIn8(m, port);
    }

    method Outb(v: byte, port: nat)
      modifies this
      ensures m == AfterOut8(old(m), port, v)
    {
      m := AfterOut8(m, port, v);
    }

    method Outl(v: u32, port: nat)
      modifies this
      ensures m == AfterOut32(old(m), port, v)
    {
      m := AfterOut32(m, port, v);
    }
  }
}
