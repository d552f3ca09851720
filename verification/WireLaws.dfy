/** What the server answers and does to each request, written out in the bytes of
    the packet and the fields of the machine. */
module WireLaws {
  import opened Bytes
  import opened Listing
  import opened Machines
  import opened LibPort
  import opened LibMem
  import opened PciAddress
  import opened LibPci
  import opened LibStorage
  import opened Packet
  import opened Handler
  import opened Client
  import CmosLaws
  import PortLaws
  import PciLaws

  function U16(f: Bytes, off: nat): (x: nat)
    requires off + 2 <= |f|
    ensures x < 0x1_0000
  {
    FromLeBounded(f[off..off + 2]);
    Spans();
    Field(f, off, 2)
  }

  function U32(f: Bytes, off: nat): u32
    requires off + 4 <= |f|
  {
    FromLeBounded(f[off..off + 4]);
    Spans();
    Field(f, off, 4)
  }

  function U64(f: Bytes, off: nat): u64
    requires off + 8 <= |f|
  {
    FromLeBounded(f[off..off + 8]);
    Spans();
    Field(f, off, 8)
  }

  /** The packet starts with this opcode. */
  predicate Is(f: Bytes, op: byte) {
    |f| >= 8 && f[0] == op && f[1] == 0
  }

  /** A reply: opcode, error flag, its own length, then the first `off` - 8 bytes
      after the request's header, echoed, and data. */
  function Answer(f: Bytes, op: byte, ok: bool, off: nat, data: Bytes): (r: Bytes)
    requires 8 <= off <= |f|
    ensures |r| == off + |data| && r[off..] == data
  {
    var h: Bytes := [op, 0, if ok then 0 else 1, 0] + Le(4, off + |data|);
    h + f[8..off] + data
  }

  lemma LePair(x: byte)
    ensures Le(2, x) == [x, 0]
  {
    assert Le(1, x / 256) == [0] by { assert x / 256 == 0; }
  }

  lemma OpcodeIs(f: Bytes, op: byte)
    requires |f| >= 8
    ensures Is(f, op) <==> Opcode(f) == op
  {
    assert f[0..2] == [f[0], f[1]];
    assert [f[0], f[1]][1..] == [f[1]] && [f[1]][1..] == [];
    assert FromLe([f[1]]) == f[1] + 256 * FromLe([]);
  }

  lemma HeaderBytes(op: byte, error: byte, len: nat)
    ensures Header(op, error, len) == [op, 0, error, 0] + Le(4, len)
  {
    hide Le;
    LePair(op);
    LePair(error);
  }

  /** The wire layout: header 8, then packed address and size, then payload. */
  lemma RequestFields(f: Bytes)
    ensures |f| >= 20 ==> RawAddr(f, Mem) == U64(f, 8) && RawSize(f, Mem) == U32(f, 16)
    ensures |f| >= 20 ==> RawAddr(f, Ide) == U64(f, 8) && RawSize(f, Ide) == U32(f, 16)
    ensures |f| >= 14 ==> RawAddr(f, Io) == U16(f, 8) && RawSize(f, Io) == U32(f, 10)
    ensures |f| >= 14 ==> RawAddr(f, Pci) == U32(f, 8) && RawSize(f, Pci) == U16(f, 12)
    ensures |f| >= 10 ==> RawAddr(f, Cmos) == f[8] && RawSize(f, Cmos) == f[9]
  {
    if |f| >= 10 {
      hide FromLe;
      assert f[8..9] == [f[8]] && f[9..10] == [f[9]];
      OneByte(f[8]);
      OneByte(f[9]);
    }
  }

  lemma OneByte(b: byte)
    ensures FromLe([b]) == b
  {
    assert [b][1..] == [];
  }

  // --------------------------------------------------------- any one space

  lemma ReadAnswer(m: Machine, f: Bytes, sp: Space)
    requires |f| >= PayloadOff(sp) && Is(f, ReadOp(sp))
    requires RequestSize(sp, RawSize(f, sp)) <= MaxPayload(sp)
    ensures var p := ReadSpace(m, sp, RawAddr(f, sp), RequestSize(sp, RawSize(f, sp)));
      Handle(m, f) == Handled(p.m, Answer(f, ReadOp(sp) + 1, p.ok, PayloadOff(sp), p.data), false)
  {
    hide ReadSpace, Header, Le, RawAddr, RawSize, PayloadOff, Opcode;
    OpcodeIs(f, ReadOp(sp));
    SpaceOps(ReadOp(sp), sp);
    var a, n := RawAddr(f, sp), RequestSize(sp, RawSize(f, sp));
    var p := ReadSpace(m, sp, a, n);
    ReplyToRead(m, f, sp, a, n);
    HeaderBytes(ReadOp(sp) + 1, if p.ok then 0 else 1, PayloadOff(sp) + n);
  }

  lemma WriteAnswer(m: Machine, f: Bytes, sp: Space)
    requires |f| >= PayloadOff(sp) && Is(f, WriteOp(sp))
    requires RequestSize(sp, RawSize(f, sp)) <= MaxPayload(sp)
    requires |f| >= PayloadOff(sp) + RequestSize(sp, RawSize(f, sp))
    ensures var off, n := PayloadOff(sp), RequestSize(sp, RawSize(f, sp));
      var p := WriteSpace(m, sp, RawAddr(f, sp), f[off..off + n]);
      Handle(m, f) == Handled(p.m, Answer(f, WriteOp(sp) + 1, p.ok, off, []), false)
  {
    hide WriteSpace, Header, Le, RawAddr, RawSize, PayloadOff, Opcode, Decode, RequestSize, AddrWidth;
    var off, n := PayloadOff(sp), RequestSize(sp, RawSize(f, sp));
    WriteDecodes(f, sp);
    var p := WriteSpace(m, sp, RawAddr(f, sp), f[off..off + n]);
    HeaderBytes(WriteOp(sp) + 1, if p.ok then 0 else 1, off);
    var r := Header(WriteOp(sp) + 1, if p.ok then 0 else 1, off) + f[8..off];
    assert r + [] == r;
  }

  lemma WriteDecodes(f: Bytes, sp: Space)
    requires |f| >= PayloadOff(sp) && Is(f, WriteOp(sp))
    requires RequestSize(sp, RawSize(f, sp)) <= MaxPayload(sp)
    requires |f| >= PayloadOff(sp) + RequestSize(sp, RawSize(f, sp))
    ensures var off, n := PayloadOff(sp), RequestSize(sp, RawSize(f, sp));
      Decode(f) == Some(Write(sp, RawAddr(f, sp), f[off..off + n]))
  {
    hide RawAddr, RawSize, PayloadOff, Opcode, RequestSize, AddrWidth;
    OpcodeIs(f, WriteOp(sp));
    SpaceOps(WriteOp(sp), sp);
  }

  // ---------------------------------------------------------------- memory

  /** FDK_REQ_MEM_READ. */
  lemma MemoryRead(m: Machine, f: Bytes)
    requires Is(f, 5) && |f| >= 20 && U32(f, 16) <= 8172
    ensures var addr, n := U64(f, 8), U32(f, 16);
      var h, ok := Handle(m, f), Completes(m.mem, false, addr, n);
      && h.m == m && !h.close
      && |h.reply| == 20 + n && h.reply == Answer(f, 6, ok, 20, h.reply[20..])
      && forall k :: 0 <= k < n ==>
           var a := (addr + k) % 0x1_0000_0000_0000_0000;
           h.reply[20..][k] ==
             if !ok then 255 else if Reaches(m.mem, addr, n, a) then RamByte(m.mem.ram, a) else 0
  {
    hide Handle, MemRead, Completes, Reaches, RamByte, Le, RawAddr, RawSize, U32, U64, Is;
    RequestFields(f);
    ReadAnswer(m, f, Mem);
    ReadThroughWindow(m, U64(f, 8), U32(f, 16));
  }

  /** FDK_REQ_MEM_WRITE. */
  lemma MemoryWrite(m: Machine, f: Bytes)
    requires Is(f, 7) && |f| >= 20 && U32(f, 16) <= 8172 && |f| >= 20 + U32(f, 16)
    ensures var addr, n := U64(f, 8), U32(f, 16);
      var h := Handle(m, f);
      && h.reply == Answer(f, 8, Completes(m.mem, true, addr, n), 20, []) && !h.close
      && h.m == m.(mem := m.mem.(ram := h.m.mem.ram)) && h.m.mem.ram.Keys == m.mem.ram.Keys
      && forall a: u64 ::
           var k := (a - addr) % 0x1_0000_0000_0000_0000;
           RamByte(h.m.mem.ram, a) ==
             if a in m.mem.ram && Reaches(m.mem, addr, n, a) && k < Stored(m.mem, addr, n) then f[20 + k]
             else RamByte(m.mem.ram, a)
  {
    hide Handle, Completes, Reaches, RamByte, Le, Stored, MemWrite, RawAddr, RawSize, U32, U64, Is, Answer;
    RequestFields(f);
    WriteAnswer(m, f, Mem);
    var addr, n := U64(f, 8), U32(f, 16);
    var data := f[20..20 + n];
    WriteThroughWindow(m, addr, data);
    MemWriteKeys(m, addr, data);
    forall a: u64
      ensures RamByte(MemWrite(m, addr, data).m.mem.ram, a) ==
        if a in m.mem.ram && Reaches(m.mem, addr, n, a) && OffsetOf(a, addr) < Stored(m.mem, addr, n)
        then f[20 + OffsetOf(a, addr)] else RamByte(m.mem.ram, a)
    {
      WriteBytes(m, addr, data, a);
    }
  }

  lemma MemWriteKeys(m: Machine, addr: u64, data: Bytes)
    requires |data| < MAX32
    ensures MemWrite(m, addr, data).m.mem.ram.Keys == m.mem.ram.Keys
  {
    hide MapRange;
  }

  // ----------------------------------------------------------------- ports

  /** FDK_REQ_IO_READ; `c` is how many ports were read. */
  lemma PortsRead(m: Machine, f: Bytes) returns (c: nat)
    requires Is(f, 9) && |f| >= 14 && U32(f, 10) <= 8178
    ensures var port, n := U16(f, 8), U32(f, 10);
      var h := Handle(m, f);
      var ok := PortLaws.Granted(m.io, port, n) && PortLaws.PortsAnswer(m.io, port, n, 0, false);
      && c <= n && (ok ==> c == n) && (!PortLaws.Granted(m.io, port, n) ==> c == 0)
      && h.m == PortLaws.Traced(m, PortLaws.InCycles(m, port, 0, c)) && !h.close
      && |h.reply| == 14 + n && h.reply == Answer(f, 10, ok, 14, h.reply[14..])
      && forall k :: 0 <= k < n ==>
           h.reply[14..][k] == if ok then PortValue(m, (port + k) % 0x1_0000) else 255
  {
    hide Handle, PortAccess, ReadBack, PortLaws.Granted, PortLaws.PortsAnswer, PortValue, Le, PortLaws.InCycles;
    RequestFields(f);
    ReadAnswer(m, f, Io);
    c := PortLaws.ReadLaw(m, U16(f, 8), Ones(U32(f, 10)));
  }

  /** FDK_REQ_IO_WRITE; `c` is how many ports were written. */
  lemma PortsWrite(m: Machine, f: Bytes) returns (c: nat)
    requires Is(f, 11) && |f| >= 14 && U32(f, 10) <= 8178 && |f| >= 14 + U32(f, 10)
    ensures var port, n := U16(f, 8), U32(f, 10);
      var h := Handle(m, f);
      var ok := PortLaws.Granted(m.io, port, n) && PortLaws.PortsAnswer(m.io, port, n, 0, true);
      && c <= n && (ok ==> c == n) && (!PortLaws.Granted(m.io, port, n) ==> c == 0)
      && h.reply == Answer(f, 12, ok, 14, []) && !h.close
      && PortLaws.SameButPorts(m, h.m)
      && h.m.io.trace == m.io.trace + PortLaws.OutCycles(port, f[14..14 + n], 0, c)
      && forall q :: 0 <= q < 0x1_0000 && PortLaws.Plain(m.io, q) ==>
           var k := (q - port) % 0x1_0000;
           PortValue(h.m, q) == if k < c then f[14 + k] else PortValue(m, q)
  {
    hide Handle, PortAccess, PortLaws.Granted, PortLaws.PortsAnswer, PortValue, Le, PortLaws.OutRun, PortLaws.Plain;
    hide PortLaws.OutCycles, PortLaws.SameButPorts;
    RequestFields(f);
    WriteAnswer(m, f, Io);
    var port, data := U16(f, 8), f[14..14 + U32(f, 10)];
    c := PortLaws.WriteLaw(m, port, data);
    PortLaws.OutRunLaw(m, port, data, 0, c);
  }

  // ------------------------------------------------------------------- PCI

  /** Whether the legacy mechanism is available for the segment in `addr`. */
  predicate LegacyUsable(m: Machine, addr: u32) {
    addr / 0x100_0000 % 0x80 == 0 && m.io.ioperm(0xCF8, 8)
  }

  /** The function an address names: with its segment through sysfs. */
  function FunctionOf(m: Machine, addr: u32): nat {
    if m.pci.sysfs then addr / 0x100 % 0x80_0000 else addr / 0x100 % 0x1_0000
  }

  predicate PciSucceeds(m: Machine, addr: u32, n: nat) {
    if m.pci.sysfs then
      FunctionOf(m, addr) in m.pci.space && addr % 0x100 + n <= |m.pci.space[FunctionOf(m, addr)]|
    else LegacyUsable(m, addr) && addr % 0x100 + n <= 0x100
  }

  /** Whether register `r` of the addressed function is within the access path. */
  predicate RegisterOpen(m: Machine, addr: u32, r: nat) {
    m.pci.sysfs || (LegacyUsable(m, addr) && r <= 0xFF)
  }

  /** What a PCI read changes: nothing, or the latch and the trace. */
  ghost predicate PciReadKeeps(m: Machine, m': Machine) {
    && (m.pci.sysfs ==> m' == m)
    && m' == m.(io := m.io.(configAddress := m'.io.configAddress, trace := m'.io.trace))
  }

  lemma PciReadBytes(m: Machine, addr: u32, n: nat)
    ensures var p := PciRead(m, addr, n);
      && (p.ok <==> PciSucceeds(m, addr, n)) && PciReadKeeps(m, p.m)
      && forall k :: 0 <= k < n ==>
           p.data[k] == if RegisterOpen(m, addr, addr % 0x100 + k)
                        then ConfigByte(m.pci.space, FunctionOf(m, addr), addr % 0x100 + k) else 255
  {
    hide PciRead, PciSeg, PciReg, ConfigByte;
    if m.pci.sysfs {
      PciLaws.SysfsReadIsSlice(m, addr, n);
      SysfsBytes(m, addr, n);
    } else {
      PciLaws.LegacyReadIsSlice(m, addr, n);
    }
  }

  lemma SysfsBytes(m: Machine, addr: u32, n: nat)
    requires m.pci.sysfs
    ensures forall k :: 0 <= k < n ==>
      PciRead(m, addr, n).data[k] == ConfigByte(m.pci.space, FunctionOf(m, addr), addr % 0x100 + k)
  {
    hide PciRead;
    PciLaws.SysfsReadIsSlice(m, addr, n);
  }

  /** FDK_REQ_PCI_READ. */
  lemma PciConfigRead(m: Machine, f: Bytes)
    requires Is(f, 13) && |f| >= 14 && U16(f, 12) <= 8178
    ensures var addr, n := U32(f, 8), U16(f, 12);
      var h := Handle(m, f);
      && PciReadKeeps(m, h.m) && !h.close
      && |h.reply| == 14 + n && h.reply == Answer(f, 14, PciSucceeds(m, addr, n), 14, h.reply[14..])
      && forall k :: 0 <= k < n ==>
           h.reply[14..][k] == if RegisterOpen(m, addr, addr % 0x100 + k)
                              then ConfigByte(m.pci.space, FunctionOf(m, addr), addr % 0x100 + k) else 255
  {
    hide Handle, PciRead, ConfigByte, PciSucceeds, RegisterOpen, FunctionOf, PciReadKeeps, Le;
    RequestFields(f);
    ReadAnswer(m, f, Pci);
    PciReadBytes(m, U32(f, 8), U16(f, 12));
  }

  /** What a PCI write leaves of what is not configuration space. */
  ghost predicate PciWriteKeeps(m: Machine, m': Machine) {
    && PciLaws.SameShape(m.pci.space, m'.pci.space)
    && m' == m.(io := m.io.(configAddress := m'.io.configAddress, trace := m'.io.trace),
                pci := m.pci.(space := m'.pci.space))
  }

  /** Whether a write at `addr` can change its function at all. */
  predicate PciWritable(m: Machine, addr: u32) {
    if m.pci.sysfs then m.pci.sysfsWritable else LegacyUsable(m, addr)
  }

  lemma PciWriteBytes(m: Machine, addr: u32, data: Bytes)
    ensures var p := PciAccess(m, addr, data, true);
      && (p.ok <==> PciSucceeds(m, addr, |data|) && PciWritable(m, addr)) && PciWriteKeeps(m, p.m)
      && forall g, r: nat ::
           ConfigByte(p.m.pci.space, g, r) ==
             if && g == FunctionOf(m, addr) && g in m.pci.space && r < |m.pci.space[g]|
                && PciWritable(m, addr) && RegisterOpen(m, addr, r) && addr % 0x100 <= r < addr % 0x100 + |data|
             then data[r - addr % 0x100] else ConfigByte(m.pci.space, g, r)
  {
    hide PciAccess, PciSeg, PciReg;
    if m.pci.sysfs {
      hide ConfigByte;
      PciLaws.SysfsWriteIsSplice(m, addr, data);
    } else {
      hide Splice, ConfigByte;
      PciLaws.LegacyWriteIsSplice(m, addr, data);
      PciLaws.LegacyWriteBytes(m, addr, data);
      LongEnough(m.pci.space);
    }
  }

  lemma LongEnough(space: map<nat, ConfigSpace>)
    ensures forall g :: g in space ==> |space[g]| > 0xFF
  {
  }

  /** FDK_REQ_PCI_WRITE. */
  lemma PciConfigWrite(m: Machine, f: Bytes)
    requires Is(f, 15) && |f| >= 14 && U16(f, 12) <= 8178 && |f| >= 14 + U16(f, 12)
    ensures var addr, n := U32(f, 8), U16(f, 12);
      var h := Handle(m, f);
      && h.reply == Answer(f, 16, PciSucceeds(m, addr, n) && PciWritable(m, addr), 14, []) && !h.close
      && PciWriteKeeps(m, h.m)
      && forall g, r: nat ::
           ConfigByte(h.m.pci.space, g, r) ==
             if && g == FunctionOf(m, addr) && g in m.pci.space && r < |m.pci.space[g]|
                && PciWritable(m, addr) && RegisterOpen(m, addr, r) && addr % 0x100 <= r < addr % 0x100 + n
             then f[14 + r - addr % 0x100] else ConfigByte(m.pci.space, g, r)
  {
    hide Handle, PciAccess, ConfigByte, PciSucceeds, RegisterOpen, FunctionOf, PciWritable, PciWriteKeeps, Le;
    RequestFields(f);
    WriteAnswer(m, f, Pci);
    PciWriteBytes(m, U32(f, 8), f[14..14 + U16(f, 12)]);
  }

  // ------------------------------------------------------------------ disk

  /** FDK_REQ_IDE_READ. */
  lemma DiskRequestRead(m: Machine, f: Bytes)
    requires Is(f, 17) && |f| >= 20 && U32(f, 16) <= 8172
    ensures var addr, n := U64(f, 8), U32(f, 16);
      var h := Handle(m, f);
      var open := m.disk.Disk? && m.disk.readable && n > 0;
      && h.m == m && !h.close
      && |h.reply| == 20 + n
      && h.reply == Answer(f, 18, open && addr + n <= |m.disk.content|, 20, h.reply[20..])
      && forall k :: 0 <= k < n ==>
           h.reply[20..][k] == if open && addr + k < |m.disk.content| then m.disk.content[addr + k] else 255
  {
    hide Handle, DiskRead, Le;
    RequestFields(f);
    ReadAnswer(m, f, Ide);
    DiskReadLaw(m, U64(f, 8), U32(f, 16));
  }

  /** A disk after `data` was written at `addr`: nothing but the bytes that lie on
      it changes. */
  ghost predicate DiskHolds(d: DiskDevice, d': DiskDevice, addr: nat, data: Bytes)
    requires d.Disk?
  {
    && d'.Disk? && d' == d.(content := d'.content) && |d'.content| == |d.content|
    && forall a :: 0 <= a < |d.content| ==>
         d'.content[a] == if d.writable && addr <= a < addr + |data| then data[a - addr] else d.content[a]
  }

  lemma DiskWritten(m: Machine, addr: u64, data: Bytes)
    ensures var p, d := DiskWrite(m, addr, data), m.disk;
      && (p.ok <==> d.Disk? && d.writable && d.synced && data != [] && addr + |data| <= |d.content|)
      && p.m == m.(disk := p.m.disk)
      && (if d.NoDisk? then p.m == m else DiskHolds(d, p.m.disk, addr, data))
  {
    hide DiskWrite;
    DiskWriteLaw(m, addr, data);
    NoDiskNoWrite(m, addr, data);
  }

  /** FDK_REQ_IDE_WRITE. */
  lemma DiskRequestWrite(m: Machine, f: Bytes)
    requires Is(f, 19) && |f| >= 20 && U32(f, 16) <= 8172 && |f| >= 20 + U32(f, 16)
    ensures var addr, n := U64(f, 8), U32(f, 16);
      var h, d := Handle(m, f), m.disk;
      var ok := d.Disk? && d.writable && d.synced && n > 0 && addr + n <= |d.content|;
      && h.reply == Answer(f, 20, ok, 20, []) && !h.close
      && h.m == m.(disk := h.m.disk)
      && (if d.NoDisk? then h.m == m else DiskHolds(d, h.m.disk, addr, f[20..20 + n]))
  {
    hide Handle, Le, DiskWrite, RawAddr, RawSize, DiskHolds, U32, U64, Answer, Is;
    RequestFields(f);
    WriteAnswer(m, f, Ide);
    DiskWritten(m, U64(f, 8), f[20..20 + U32(f, 16)]);
  }

  lemma NoDiskNoWrite(m: Machine, addr: u64, data: Bytes)
    ensures m.disk.NoDisk? ==> DiskWrite(m, addr, data).m == m
  {
  }

  // ------------------------------------------------------------------ CMOS

  /** A size byte of 0 means 256. */
  function CmosSize(f: Bytes): nat
    requires |f| >= 10
  {
    if f[9] == 0 then 256 else f[9]
  }

  lemma CmosReadBytes(m: Machine, addr: byte, n: nat)
    requires n <= 256
    ensures var p, ok := ReadBack(CmosAccess(m, addr, Ones(n), false)), CmosLaws.Accepted(m.io, addr, n, false);
      && (p.ok <==> ok) && (ok ==> addr + n <= 256)
      && CmosLaws.Contained(m, p.m) && p.m.io.cmos == m.io.cmos
      && (ok ==> p.data == m.io.cmos[addr..addr + n]) && (!ok ==> p.data == Ones(n))
  {
    hide CmosAccess, ReadBack, CmosLaws.RangeAnswers, CmosLaws.Contained, PortOpen, CmosLaws.Cell, CmosOff;
    CmosLaws.ReadIsSlice(m, addr, Ones(n));
  }

  /** FDK_REQ_CMOS_READ. */
  lemma CmosRequestRead(m: Machine, f: Bytes)
    requires Is(f, 21) && |f| >= 10
    ensures var addr, n := f[8], CmosSize(f);
      var h, ok := Handle(m, f), CmosLaws.Accepted(m.io, addr, n, false);
      && CmosLaws.Contained(m, h.m) && h.m.io.cmos == m.io.cmos && !h.close
      && (ok ==> addr + n <= 256)
      && h.reply == Answer(f, 22, ok, 10, if ok then m.io.cmos[addr..addr + n] else Ones(n))
  {
    hide Handle, CmosAccess, ReadBack, CmosLaws.Accepted, CmosLaws.Contained, Le, RawAddr, RawSize, Is, Ones;
    CmosReadBytes(m, f[8], CmosSize(f));
    RequestFields(f);
    ReadAnswer(m, f, Cmos);
  }

  lemma CmosWritten(m: Machine, addr: byte, data: Bytes) returns (c: nat)
    requires |data| <= 256
    ensures var p := CmosAccess(m, addr, data, true);
      && c <= |data| && (p.ok <==> CmosLaws.Accepted(m.io, addr, |data|, true)) && (p.ok ==> c == |data|)
      && CmosLaws.Contained(m, p.m) && (addr + |data| > 256 ==> p.m == m)
      && (addr + |data| <= 256 ==> forall a :: 0 <= a < 256 ==>
           p.m.io.cmos[a] == if addr <= a < addr + c then data[a - addr] else m.io.cmos[a])
  {
    hide CmosAccess, CmosLaws.Accepted, CmosLaws.Contained, CmosLaws.Written;
    c := CmosLaws.WriteIsSplice(m, addr, data);
  }

  /** FDK_REQ_CMOS_WRITE; a failed one wrote the first `c` bytes. */
  lemma CmosRequestWrite(m: Machine, f: Bytes) returns (c: nat)
    requires Is(f, 23) && |f| >= 10 && |f| >= 10 + CmosSize(f)
    ensures var addr, n := f[8], CmosSize(f);
      var h, ok := Handle(m, f), CmosLaws.Accepted(m.io, addr, n, true);
      && c <= n && (ok ==> c == n) && (addr + n > 256 ==> h.m == m)
      && h.reply == Answer(f, 24, ok, 10, []) && !h.close
      && CmosLaws.Contained(m, h.m)
      && (addr + n <= 256 ==> forall a :: 0 <= a < 256 ==>
           h.m.io.cmos[a] == if addr <= a < addr + c then f[10 + a - addr] else m.io.cmos[a])
  {
    hide Handle, CmosAccess, CmosLaws.Accepted, CmosLaws.Contained, Le, RawAddr, RawSize, Answer, Is;
    RequestFields(f);
    WriteAnswer(m, f, Cmos);
    var data := f[10..10 + CmosSize(f)];
    c := CmosWritten(m, f[8], data);
    assert forall k :: 0 <= k < |data| ==> data[k] == f[10 + k];
  }

  // ------------------------------------------------- lists and the session

  /** FDK_REQ_PCI_LIST: the count, then 8 bytes a record. */
  lemma PciListRequest(m: Machine, f: Bytes)
    requires Is(f, 25)
    ensures var h, s := Handle(m, f), PciList(m, 1022);
      && h.m == s.m && !h.close && |s.list| <= 1022
      && |h.reply| == 12 + 8 * |s.list|
      && h.reply[..12] == [26, 0, 0, 0] + Le(4, 12 + 8 * |s.list|) + Le(4, |s.list|)
      && forall i :: 0 <= i < |s.list| ==>
           var p := s.list[i];
           h.reply[12 + 8 * i..20 + 8 * i] == Le(2, p.bus) + [p.dev, p.fun] + Le(2, p.vendorId) + Le(2, p.deviceId)
  {
    hide PciList, Le, Handle, PackFns;
    ListReply(m, f);
    PciListFits(m);
    var h, list := Handle(m, f), PciList(m, 1022).list;
    forall i | 0 <= i < |list|
      ensures h.reply[12 + 8 * i..20 + 8 * i] ==
        Le(2, list[i].bus) + [list[i].dev, list[i].fun] + Le(2, list[i].vendorId) + Le(2, list[i].deviceId)
    {
      PackedFn(list, i);
      assert h.reply[12 + 8 * i..20 + 8 * i] == h.reply[12..][8 * i..8 * i + 8];
    }
  }

  lemma ListReply(m: Machine, f: Bytes)
    requires Is(f, 25)
    ensures var h, s := Handle(m, f), PciList(m, 1022);
      && h.m == s.m && !h.close && |h.reply| == 12 + 8 * |s.list|
      && h.reply[..12] == [26, 0, 0, 0] + Le(4, 12 + 8 * |s.list|) + Le(4, |s.list|)
      && h.reply[12..] == PackFns(s.list)
  {
    hide PciList, Header, Le, Opcode, PackFns;
    OpcodeIs(f, 25);
    PciListFits(m);
    HeaderBytes(26, 0, 12 + 8 * |PciList(m, 1022).list|);
  }

  lemma {:induction false} PackedFn(list: seq<PciFn>, i: nat)
    requires i < |list|
    ensures var p := list[i];
      PackFns(list)[8 * i..8 * i + 8] == Le(2, p.bus) + [p.dev, p.fun] + Le(2, p.vendorId) + Le(2, p.deviceId)
  {
    hide Le;
    if i > 0 {
      PackedFn(list[1..], i - 1);
      assert PackFns(list)[8..][8 * (i - 1)..8 * (i - 1) + 8] == PackFns(list)[8 * i..8 * i + 8];
    }
  }

  /** FDK_REQ_E820_LIST: the count, then 24 bytes a record. */
  lemma E820ListRequest(m: Machine, f: Bytes)
    requires Is(f, 27)
    ensures var h, list := Handle(m, f), E820Map(m, 340);
      && h.m == m && !h.close && |list| <= 340
      && |h.reply| == 12 + 24 * |list|
      && h.reply[..12] == [28, 0, 0, 0] + Le(4, 12 + 24 * |list|) + Le(4, |list|)
      && forall i :: 0 <= i < |list| ==>
           h.reply[12 + 24 * i..36 + 24 * i] ==
             Le(8, list[i].base) + Le(8, list[i].length) + Le(4, list[i].kind) + Le(4, 0)
  {
    hide E820Map, Le, Handle, PackRecs;
    MapReply(m, f);
    E820Fits(m);
    var h, list := Handle(m, f), E820Map(m, 340);
    forall i | 0 <= i < |list|
      ensures h.reply[12 + 24 * i..36 + 24 * i] ==
        Le(8, list[i].base) + Le(8, list[i].length) + Le(4, list[i].kind) + Le(4, 0)
    {
      PackedRec(list, i);
      assert h.reply[12 + 24 * i..36 + 24 * i] == h.reply[12..][24 * i..24 * i + 24];
    }
  }

  lemma MapReply(m: Machine, f: Bytes)
    requires Is(f, 27)
    ensures var h, list := Handle(m, f), E820Map(m, 340);
      && h.m == m && !h.close && |h.reply| == 12 + 24 * |list|
      && h.reply[..12] == [28, 0, 0, 0] + Le(4, 12 + 24 * |list|) + Le(4, |list|)
      && h.reply[12..] == PackRecs(list)
  {
    hide E820Map, Header, Le, Opcode, PackRecs;
    OpcodeIs(f, 27);
    HeaderBytes(28, 0, 12 + 24 * |E820Map(m, 340)|);
  }

  lemma {:induction false} PackedRec(list: seq<E820Rec>, i: nat)
    requires i < |list|
    ensures PackRecs(list)[24 * i..24 * i + 24] ==
      Le(8, list[i].base) + Le(8, list[i].length) + Le(4, list[i].kind) + Le(4, 0)
  {
    hide Le;
    if i > 0 {
      PackedRec(list[1..], i - 1);
      assert PackRecs(list)[24..][24 * (i - 1)..24 * (i - 1) + 24] == PackRecs(list)[24 * i..24 * i + 24];
    }
  }

  /** FDK_REQ_CONNECT and FDK_REQ_DISCONNECT do nothing; the latter closes. */
  lemma SessionRequests(m: Machine, f: Bytes)
    ensures Is(f, 1) ==> Handle(m, f) == Handled(m, [2, 0, 0, 0, 8, 0, 0, 0], false)
    ensures Is(f, 3) ==> Handle(m, f) == Handled(m, [4, 0, 0, 0, 8, 0, 0, 0], true)
  {
    hide Header, Opcode;
    if |f| >= 8 {
      OpcodeIs(f, 1);
      OpcodeIs(f, 3);
      HeaderBytes(2, 0, 8);
      HeaderBytes(4, 0, 8);
      EightBytes();
    }
  }

  lemma EightBytes()
    ensures Le(4, 8) == [8, 0, 0, 0]
  {
  }

  /** The requests the server understands. */
  predicate Understood(f: Bytes) {
    || Is(f, 1) || Is(f, 3) || Is(f, 25) || Is(f, 27)
    || ((Is(f, 5) || Is(f, 17)) && |f| >= 20 && U32(f, 16) <= 8172)
    || ((Is(f, 7) || Is(f, 19)) && |f| >= 20 && U32(f, 16) <= 8172 && |f| >= 20 + U32(f, 16))
    || (Is(f, 9) && |f| >= 14 && U32(f, 10) <= 8178)
    || (Is(f, 11) && |f| >= 14 && U32(f, 10) <= 8178 && |f| >= 14 + U32(f, 10))
    || (Is(f, 13) && |f| >= 14 && U16(f, 12) <= 8178)
    || (Is(f, 15) && |f| >= 14 && U16(f, 12) <= 8178 && |f| >= 14 + U16(f, 12))
    || (Is(f, 21) && |f| >= 10)
    || (Is(f, 23) && |f| >= 10 && |f| >= 10 + CmosSize(f))
  }

  lemma ReadUnderstood(f: Bytes, sp: Space)
    ensures DecodeRead(f, sp).Some? <==> |f| >= PayloadOff(sp) && RequestSize(sp, RawSize(f, sp)) <= MaxPayload(sp)
  {
    hide RawAddr, RawSize, PayloadOff, RequestSize;
  }

  lemma WriteUnderstood(f: Bytes, sp: Space)
    ensures DecodeWrite(f, sp).Some? <==>
      && |f| >= PayloadOff(sp) && RequestSize(sp, RawSize(f, sp)) <= MaxPayload(sp)
      && |f| >= PayloadOff(sp) + RequestSize(sp, RawSize(f, sp))
  {
    hide RawAddr, RawSize, PayloadOff, RequestSize;
  }

  /** Which frames are understood, without the opcode. */
  lemma SpaceUnderstood(f: Bytes)
    ensures DecodeRead(f, Mem).Some? <==> |f| >= 20 && U32(f, 16) <= 8172
    ensures DecodeRead(f, Ide).Some? <==> |f| >= 20 && U32(f, 16) <= 8172
    ensures DecodeRead(f, Io).Some? <==> |f| >= 14 && U32(f, 10) <= 8178
    ensures DecodeRead(f, Pci).Some? <==> |f| >= 14 && U16(f, 12) <= 8178
    ensures DecodeRead(f, Cmos).Some? <==> |f| >= 10
    ensures DecodeWrite(f, Mem).Some? <==> |f| >= 20 && U32(f, 16) <= 8172 && |f| >= 20 + U32(f, 16)
    ensures DecodeWrite(f, Ide).Some? <==> |f| >= 20 && U32(f, 16) <= 8172 && |f| >= 20 + U32(f, 16)
    ensures DecodeWrite(f, Io).Some? <==> |f| >= 14 && U32(f, 10) <= 8178 && |f| >= 14 + U32(f, 10)
    ensures DecodeWrite(f, Pci).Some? <==> |f| >= 14 && U16(f, 12) <= 8178 && |f| >= 14 + U16(f, 12)
    ensures DecodeWrite(f, Cmos).Some? <==> |f| >= 10 && |f| >= 10 + CmosSize(f)
  {
    hide RawAddr, RawSize, DecodeRead, DecodeWrite, U16, U32;
    RequestFields(f);
    ReadUnderstood(f, Mem);
    ReadUnderstood(f, Io);
    ReadUnderstood(f, Pci);
    ReadUnderstood(f, Ide);
    ReadUnderstood(f, Cmos);
    WriteUnderstood(f, Mem);
    WriteUnderstood(f, Io);
    WriteUnderstood(f, Pci);
    WriteUnderstood(f, Ide);
    WriteUnderstood(f, Cmos);
  }

  lemma UnderstoodIff(f: Bytes)
    requires |f| >= 8
    ensures Decode(f).Some? <==> Understood(f)
  {
    hide Opcode, DecodeRead, DecodeWrite, U16, U32, CmosSize;
    SpaceUnderstood(f);
    forall op: byte ensures Is(f, op) <==> Opcode(f) == op { OpcodeIs(f, op); }
    hide Is;
  }

  /** Every other frame gets a NACK and does nothing. */
  lemma NackOtherwise(m: Machine, f: Bytes)
    requires |f| >= 8
    ensures Decode(f).Some? <==> Understood(f)
    ensures !Understood(f) ==> Handle(m, f) == Handled(m, [30, 0, 1, 0, 8, 0, 0, 0], false)
  {
    hide Header, Decode, Understood;
    UnderstoodIff(f);
    HeaderBytes(30, 1, 8);
    EightBytes();
  }

  // ------------------------------------------------------------ client side

  /** The client takes a reply for an answer to `op` exactly when `op` is a request
      and the reply's opcode is the next one. */
  lemma VerifiedIff(op: nat, rsp: nat)
    ensures Verified(op, rsp) <==>
      op in {1, 3, 5, 7, 9, 11, 13, 15, 17, 19, 21, 23, 25, 27} && rsp == op + 1
  {
  }

  /** The widths of the address and size fields of each request. */
  predicate Fields(op: nat, a: nat, s: nat) {
    || (op in {5, 7, 17, 19} && a == 8 && s == 4) || (op in {9, 11} && a == 2 && s == 4)
    || (op in {13, 15} && a == 4 && s == 2) || (op in {21, 23} && a == 1 && s == 1)
  }

  /** What the client sends, byte by byte. */
  lemma RequestLayout(q: Request, a: nat, s: nat)
    requires Sound(q) && Fields(q.op, a, s)
    ensures var fields := Le(a, q.addr % Span(a)) + Le(s, q.size % Span(s));
      && (q.op in {5, 9, 13, 17, 21} ==> Encode(q) == Some([q.op, 0, 0, 0] + Le(4, 8 + a + s) + fields))
      && (q.op in {7, 11, 15, 19, 23} ==>
           if q.payload.None? || q.size == 0 || q.size > 8192 - (8 + a + s) then Encode(q) == None
           else Encode(q) == Some([q.op, 0, 0, 0] + Le(4, 8 + a + s + q.size) + fields + q.payload.value[..q.size]))
  {
    hide Le, Encode, Prologue;
    if q.op in {5, 9, 13, 17, 21} {
      ReadLayout(q, SpaceRead(q.op).value);
    } else {
      WriteLayout(q, SpaceWritten(q.op).value);
    }
  }

  lemma ReadLayout(q: Request, sp: Space)
    requires Sound(q) && q.op == ReadOp(sp)
    ensures var a, s := AddrWidth(sp), SizeWidth(sp);
      Encode(q) == Some([q.op, 0, 0, 0] + Le(4, 8 + a + s) + (Le(a, q.addr % Span(a)) + Le(s, q.size % Span(s))))
  {
    hide Header, Le, Span;
    SpaceOps(q.op, sp);
    HeaderBytes(q.op, 0, PayloadOff(sp));
    var h, x, y := Header(q.op, 0, PayloadOff(sp)), Le(AddrWidth(sp), q.addr % Span(AddrWidth(sp))),
                   Le(SizeWidth(sp), q.size % Span(SizeWidth(sp)));
    assert (h + x) + y == h + (x + y);
  }

  lemma WriteLayout(q: Request, sp: Space)
    requires Sound(q) && q.op == WriteOp(sp)
    ensures var a, s := AddrWidth(sp), SizeWidth(sp);
      var fields := Le(a, q.addr % Span(a)) + Le(s, q.size % Span(s));
      if q.payload.None? || q.size == 0 || q.size > 8192 - (8 + a + s) then Encode(q) == None
      else Encode(q) == Some([q.op, 0, 0, 0] + Le(4, 8 + a + s + q.size) + fields + q.payload.value[..q.size])
  {
    hide Header, Le, Span;
    SpaceOps(q.op, sp);
    HeaderBytes(q.op, 0, PayloadOff(sp) + q.size);
    var h, x, y := Header(q.op, 0, PayloadOff(sp) + q.size), Le(AddrWidth(sp), q.addr % Span(AddrWidth(sp))),
                   Le(SizeWidth(sp), q.size % Span(SizeWidth(sp)));
    assert (h + x) + y == h + (x + y);
  }

  lemma PlainLayout(q: Request)
    requires Sound(q) && q.op in {1, 3, 25, 27}
    ensures Encode(q) == Some([q.op, 0, 0, 0, 8, 0, 0, 0])
  {
    hide Header, Le;
    HeaderBytes(q.op, 0, 8);
    EightBytes();
    var b: byte := q.op;
    assert [b, 0, 0, 0] + [8, 0, 0, 0] == [b, 0, 0, 0, 8, 0, 0, 0];
  }
}
