/** libpci.c: configuration access and device listing, through sysfs or through
    the legacy CF8h/CFCh mechanism. */
module LibPci {
  import opened Bits
  import opened Bytes
  import opened Listing
  import opened Machines
  import opened LibPort
  import opened PciAddress

  const LEGACY_NPORTS := 8
  const FUNCTIONS := 0x1_0000  // bus, device and function together

  // ---------------------------------------------------------- legacy access

  /** One configuration byte: load the latch, then use its data lane. */
  function LegacyByte(m: Machine, reg: u32, v: byte, isWrite: bool): Transfer {
    var latched := AfterOut32(m, CONFIG_ADDRESS, LatchWord(reg));
    if isWrite then Transfer(AfterOut8(latched, LanePort(reg), v), true, v)
    else Transfer(AfterIn8(latched, LanePort(reg)), true, PortValue(latched, LanePort(reg)))
  }

  function LegacyFrom(m: Machine, addr: u32, data: Bytes, i: nat, isWrite: bool): (p: Progress)
    requires i <= |data|
    ensures |p.data| == |data|
    decreases |data| - i
  {
    if i < |data| && PciReg(addr) + i <= 0xFF then
      var x := LegacyByte(m, addr + i, data[i], isWrite);
      LegacyFrom(x.m, addr, data[i := x.value], i + 1, isWrite)
    else Progress(m, i == |data|, data)
  }

  predicate LegacyGranted(m: Machine) { m.io.ioperm(CONFIG_ADDRESS, LEGACY_NPORTS) }

  function LegacyAccess(m: Machine, addr: u32, data: Bytes, isWrite: bool): (p: Progress)
    ensures |p.data| == |data|
  {
    if PciSeg(addr) != 0 || !LegacyGranted(m) then Progress(m, false, data)
    else LegacyFrom(m, addr, data, 0, isWrite)
  }

  // ----------------------------------------------------------- sysfs access

  function FnKey(seg: nat, bus: nat, dev: nat, fun: nat): nat {
    seg * 0x1_0000 + bus * 0x100 + dev * 8 + fun
  }

  /** The function whose config file the address names. */
  function SysfsKey(addr: u32): nat {
    FnKey(PciSeg(addr), PciBus(addr), PciDev(addr), PciFunc(addr))
  }

  function SysfsAccess(m: Machine, addr: u32, data: Bytes, isWrite: bool): (p: Progress)
    ensures |p.data| == |data|
  {
    var fn, reg := SysfsKey(addr), PciReg(addr);
    if fn !in m.pci.space || (isWrite && !m.pci.sysfsWritable) then Progress(m, false, data)
    else
      var file := m.pci.space[fn];
      var n := if reg + |data| <= |file| then |data| else |file| - reg;
      if isWrite then
        Progress(m.(pci := m.pci.(space := m.pci.space[fn := Splice(file, reg, data[..n])])), n == |data|, data)
      else Progress(m, n == |data|, file[reg..reg + n] + data[n..])
  }

  function PciAccess(m: Machine, addr: u32, data: Bytes, isWrite: bool): (p: Progress)
    ensures |p.data| == |data|
  {
    if m.pci.sysfs then SysfsAccess(m, addr, data, isWrite) else LegacyAccess(m, addr, data, isWrite)
  }

  function PciRead(m: Machine, addr: u32, len: nat): (p: Progress)
    ensures |p.data| == len
  {
    PciAccess(m, addr, Ones(len), false)
  }

  // ----------------------------------------------------------------- listing

  /** The record of one sysfs entry, if it parses, is in range and can be read. */
  function SysfsRecord(pci: PciDevice, e: SysfsEntry): Option<PciFn> {
    if e.Named? && e.seg <= 0x7F && e.bus <= 0xFF && e.dev <= 0x1F && e.fun <= 7
       && e.readable && FnKey(e.seg, e.bus, e.dev, e.fun) in pci.space then
      var ids := pci.space[FnKey(e.seg, e.bus, e.dev, e.fun)][..4];
      Some(PciFn(e.seg * 0x100 + e.bus, e.dev, e.fun, Id(ids, 0), Id(ids, 2)))
    else None
  }

  /** The 16-bit identifier at `off`. */
  function Id(ids: Bytes, off: nat): u16
    requires off + 2 <= |ids|
  {
    FromLeBounded(ids[off..off + 2]);
    Spans();
    Field(ids, off, 2)
  }

  function SysfsView(pci: PciDevice): SysfsEntry -> Option<PciFn> {
    e => SysfsRecord(pci, e)
  }

  function KeyOf(): PciFn -> int { p => PciKey(p) }

  function SysfsList(m: Machine, max: nat): seq<PciFn> {
    SortBy(KeyOf(), Take(Keep(SysfsView(m.pci), m.pci.entries), max))
  }

  /** The address the scan builds for a function of segment 0. */
  function ScanAddress(bus: nat, dev: nat, fun: nat): (a: u32)
    requires bus < 0x100 && dev < 0x20 && fun < 8
    ensures a == 0x8000_0000 + (bus * 0x100 + dev * 8 + fun) * 0x100
  {
    PackedAddress(PciFn(bus, dev, fun, 0, 0));
    hide CalculatePciAddress;
    CalculatePciAddress(bus, dev, fun)
  }

  /** The record the scan makes of function number `k` from its first 4 bytes. */
  function ScanRecord(k: nat, ids: Bytes): PciFn
    requires k < FUNCTIONS && |ids| == 4
  {
    PciFn(k / 0x100, k / 8 % 0x20, k % 8, Id(ids, 0), Id(ids, 2))
  }

  datatype Scan = Scan(m: Machine, list: seq<PciFn>)

  /** The scan step at function number `k` when the listing has room. */
  function ScanStep(m: Machine, k: nat, list: seq<PciFn>): (r: (bool, Scan))
    requires k < FUNCTIONS
  {
    var p := LegacyAccess(m, 0x8000_0000 + k * 0x100, [0, 0, 0, 0], false);
    (p.ok, Scan(p.m, if !p.ok || Id(p.data, 0) == 0xFFFF then list else list + [ScanRecord(k, p.data)]))
  }

  /** The rest of the scan from function number `k`. */
  function ScanFrom(m: Machine, k: nat, list: seq<PciFn>, max: nat): Scan
    requires k <= FUNCTIONS
    decreases FUNCTIONS - k
  {
    if k == FUNCTIONS || |list| >= max then Scan(m, list)
    else
      var (ok, s) := ScanStep(m, k, list);
      if ok then ScanFrom(s.m, k + 1, s.list, max) else s
  }

  function PciList(m: Machine, max: nat): Scan {
    if m.pci.sysfs then Scan(m, SysfsList(m, max)) else ScanFrom(m, 0, [], max)
  }

  // ----------------------------------------------------------------- methods

  /** The body of the loop: load the latch, then move one byte through its lane. */
  method LegacyCycle(hw: Hardware, reg: u32, v: byte, isWrite: bool) returns (value: byte)
    modifies hw
    ensures var x := LegacyByte(old(hw.m), reg, v, isWrite);
      hw.m == x.m && value == x.value
  {
    hide LatchWord, LanePort, AfterOut8, AfterOut32, AfterIn8, PortValue;
    value := v;
    hw.Outl(LatchWord(reg), CONFIG_ADDRESS);
    if isWrite {
      hw.Outb(v, LanePort(reg));
    } else {
      value := hw.Inb(LanePort(reg));
    }
  }

  method LegacyAccessLoop(hw: Hardware, addr: u32, len: nat, buf: array<byte>, off: nat, isWrite: bool)
    returns (ok: bool)
    requires off + len <= buf.Length
    modifies hw, buf
    ensures var p := LegacyAccess(old(hw.m), addr, old(buf[off..off + len]), isWrite);
      hw.m == p.m && ok == p.ok && buf[..] == Splice(old(buf[..]), off, p.data)
  {
    hide LegacyByte, PciReg, PciSeg;
    ghost var was := buf[..];
    assert was[off..off + len] == buf[off..off + len];
    assert buf[..] == Splice(was, off, was[off..off + len]);
    if PciSeg(addr) != 0 || !hw.m.io.ioperm(CONFIG_ADDRESS, LEGACY_NPORTS) {
      return false;
    }
    ghost var goal := LegacyAccess(hw.m, addr, buf[off..off + len], isWrite);
    var i := 0;
    while i < len && PciReg(addr) + i <= 0xFF
      invariant i <= len
      invariant buf[..off] == was[..off] && buf[off + len..] == was[off + len..]
      invariant goal == LegacyFrom(hw.m, addr, buf[off..off + len], i, isWrite)
    {
      ghost var data := buf[off..off + len];
      var v := LegacyCycle(hw, addr + i, buf[off + i], isWrite);
      buf[off + i] := v;
      assert buf[off..off + len] == data[i := v];
      i := i + 1;
    }
    ok := i == len;
    assert buf[..] == Splice(was, off, buf[off..off + len]);
  }

  method SysfsAccessCall(hw: Hardware, addr: u32, len: nat, buf: array<byte>, off: nat, isWrite: bool)
    returns (ok: bool)
    requires off + len <= buf.Length
    modifies hw, buf
    ensures var p := SysfsAccess(old(hw.m), addr, old(buf[off..off + len]), isWrite);
      hw.m == p.m && ok == p.ok && buf[..] == Splice(old(buf[..]), off, p.data)
  {
    var p := SysfsAccess(hw.m, addr, buf[off..off + len], isWrite);
    Copy(buf, off, p.data);
    hw.m := p.m;
    ok := p.ok;
  }

  method PciAccessCall(hw: Hardware, addr: u32, len: nat, buf: array<byte>, off: nat, isWrite: bool)
    returns (ok: bool)
    requires off + len <= buf.Length
    modifies hw, buf
    ensures var p := PciAccess(old(hw.m), addr, old(buf[off..off + len]), isWrite);
      hw.m == p.m && ok == p.ok && buf[..] == Splice(old(buf[..]), off, p.data)
  {
    if hw.m.pci.sysfs {
      ok := SysfsAccessCall(hw, addr, len, buf, off, isWrite);
    } else {
      ok := LegacyAccessLoop(hw, addr, len, buf, off, isWrite);
    }
  }

  method PciReadConfig(hw: Hardware, addr: u32, len: nat, buf: array<byte>, off: nat) returns (ok: bool)
    requires off + len <= buf.Length
    modifies hw, buf
    ensures var p := PciRead(old(hw.m), addr, len);
      hw.m == p.m && ok == p.ok && buf[..] == Splice(old(buf[..]), off, p.data)
  {
    Fill(buf, off, len);
    assert buf[off..off + len] == Ones(len);
    ok := PciAccessCall(hw, addr, len, buf, off, false);
    assert buf[..] == Splice(old(buf[..]), off, PciRead(old(hw.m), addr, len).data);
  }

  method PciWriteConfig(hw: Hardware, addr: u32, len: nat, buf: array<byte>, off: nat) returns (ok: bool)
    requires off + len <= buf.Length
    modifies hw, buf
    ensures var p := PciAccess(old(hw.m), addr, old(buf[off..off + len]), true);
      hw.m == p.m && ok == p.ok && buf[..] == old(buf[..])
  {
    WriteKeepsBuffer(hw.m, addr, buf[off..off + len]);
    ok := PciAccessCall(hw, addr, len, buf, off, true);
    assert buf[..] == old(buf[..]);
  }

  lemma {:induction false} LegacyWriteKeepsData(m: Machine, addr: u32, data: Bytes, i: nat)
    requires i <= |data|
    ensures LegacyFrom(m, addr, data, i, true).data == data
    decreases |data| - i
  {
    hide PciReg;
    if i < |data| && PciReg(addr) + i <= 0xFF {
      var x := LegacyByte(m, addr + i, data[i], true);
      assert data[i := x.value] == data;
      LegacyWriteKeepsData(x.m, addr, data, i + 1);
    }
  }

  lemma WriteKeepsBuffer(m: Machine, addr: u32, data: Bytes)
    ensures PciAccess(m, addr, data, true).data == data
  {
    LegacyWriteKeepsData(m, addr, data, 0);
  }

  method PciListSysfs(hw: Hardware, max: nat) returns (list: seq<PciFn>)
    ensures list == SysfsList(hw.m, max)
  {
    list := Collect(SysfsView(hw.m.pci), hw.m.pci.entries, max);
    list := SortBy(KeyOf(), list);
  }

  method ReadIds(hw: Hardware, addr: u32) returns (ok: bool, ids: Bytes)
    modifies hw
    ensures Progress(hw.m, ok, ids) == LegacyAccess(old(hw.m), addr, [0, 0, 0, 0], false)
  {
    hide LegacyAccess;
    var buf := new byte[4](_ => 0);
    assert buf[0..4] == [0, 0, 0, 0];
    ok := LegacyAccessLoop(hw, addr, 4, buf, 0, false);
    ids := buf[0..4];
  }

  lemma ScanNumber(bus: nat, dev: nat, fun: nat)
    requires bus < 0x100 && dev < 0x20 && fun < 8
    ensures var k := bus * 0x100 + dev * 8 + fun;
      k / 0x100 == bus && k / 8 % 0x20 == dev && k % 8 == fun
  {
    var k := bus * 0x100 + dev * 8 + fun;
    DivModUnique(k, 0x100, bus, dev * 8 + fun);
    DivModUnique(k, 8, bus * 0x20 + dev, fun);
    DivModUnique(bus * 0x20 + dev, 0x20, bus, dev);
  }

  /** The body of the scan. */
  method ScanOne(hw: Hardware, bus: nat, dev: nat, fun: nat, list: seq<PciFn>)
    returns (ok: bool, longer: seq<PciFn>)
    requires bus < 0x100 && dev < 0x20 && fun < 8
    modifies hw
    ensures (ok, Scan(hw.m, longer)) == ScanStep(old(hw.m), bus * 0x100 + dev * 8 + fun, list)
  {
    hide LegacyAccess, ScanAddress, Id;
    ghost var k := bus * 0x100 + dev * 8 + fun;
    ScanNumber(bus, dev, fun);
    var ids;
    ok, ids := ReadIds(hw, ScanAddress(bus, dev, fun));
    longer := list;
    if ok && Id(ids, 0) != 0xFFFF {
      longer := list + [PciFn(bus, dev, fun, Id(ids, 0), Id(ids, 2))];
    }
  }

  method PciListLegacy(hw: Hardware, max: nat) returns (list: seq<PciFn>)
    modifies hw
    ensures Scan(hw.m, list) == ScanFrom(old(hw.m), 0, [], max)
  {
    hide ScanStep;
    ghost var goal := ScanFrom(hw.m, 0, [], max);
    list := [];
    for bus := 0 to 0x100
      invariant goal == ScanFrom(hw.m, bus * 0x100, list, max)
    {
      for dev := 0 to 0x20
        invariant goal == ScanFrom(hw.m, bus * 0x100 + dev * 8, list, max)
      {
        var fun := 0;
        while fun <= 7 && |list| < max
          invariant fun <= 8
          invariant goal == ScanFrom(hw.m, bus * 0x100 + dev * 8 + fun, list, max)
        {
          var ok;
          ok, list := ScanOne(hw, bus, dev, fun, list);
          if !ok {
            return;
          }
          fun := fun + 1;
        }
      }
    }
  }

  method PciListDevices(hw: Hardware, max: nat) returns (list: seq<PciFn>)
    modifies hw
    ensures Scan(hw.m, list) == PciList(old(hw.m), max)
  {
    if hw.m.pci.sysfs {
      list := PciListSysfs(hw, max);
    } else {
      list := PciListLegacy(hw, max);
    }
  }
}
