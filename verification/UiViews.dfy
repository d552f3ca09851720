/** What each view of the full-screen client asks for and shows, and what each key
    does, written out. */
module UiViews {
  import opened Bits
  import opened Bytes
  import opened Listing
  import opened Machines
  import opened LibPort
  import opened LibPci
  import opened LibStorage
  import opened PciAddress
  import opened Packet
  import opened Client
  import opened Ui
  import opened UiLaws
  import opened UiRuns
  import PortLaws
  import WireLaws

  // -------------------------------------------------------------- requests

  /** The address of register 0 of the device shown in the PCI view. */
  function DeviceAddress(d: PciFn): nat {
    0x8000_0000 + d.bus % 0x8000 * 0x1_0000 + d.dev % 0x20 * 0x800 + d.fun % 8 * 0x100
  }

  /** A screen is 256 bytes of the view's own space: memory (also on the first
      screen), ports, disk and CMOS from the base, and the registers of the device
      the base counts to. */
  lemma ScreenRequests(s: State, devs: seq<PciFn>)
    ensures s.func in {KhfInit, KhfMem} ==> ScreenRead(s, devs) == [Request(5, s.base, 256, None)]
    ensures s.func == KhfIo ==> ScreenRead(s, devs) == [Request(9, s.base, 256, None)]
    ensures s.func == KhfIde ==> ScreenRead(s, devs) == [Request(17, s.base, 256, None)]
    ensures s.func == KhfCmos ==> ScreenRead(s, devs) == [Request(21, s.base, 256, None)]
    ensures s.func == KhfPci && s.base < |devs| ==>
      ScreenRead(s, devs) == [Request(13, DeviceAddress(devs[s.base]), 256, None)]
    ensures s.func == KhfPci && s.base >= |devs| ==> ScreenRead(s, devs) == []
  {
  }

  /** A commit is one byte, at the cursor, of the same space. */
  lemma CommitRequests(s: State, devs: seq<PciFn>)
    requires Inv(s, |devs|) && GoodList(devs)
    ensures s.func in {KhfInit, KhfPciList} ==> ByteWrite(s, devs) == []
    ensures s.func !in {KhfInit, KhfPciList, KhfPci} ==> s.base + s.offset < MAX64
    ensures s.func == KhfMem ==> ByteWrite(s, devs) == [Request(7, s.base + s.offset, 1, Some([s.editBuf]))]
    ensures s.func == KhfIo ==> ByteWrite(s, devs) == [Request(11, s.base + s.offset, 1, Some([s.editBuf]))]
    ensures s.func == KhfIde ==> ByteWrite(s, devs) == [Request(19, s.base + s.offset, 1, Some([s.editBuf]))]
    ensures s.func == KhfCmos ==> ByteWrite(s, devs) == [Request(23, s.base + s.offset, 1, Some([s.editBuf]))]
    ensures s.func == KhfPci && s.base < |devs| ==>
      ByteWrite(s, devs) == [Request(15, DeviceAddress(devs[s.base]) + s.offset, 1, Some([s.editBuf]))]
    ensures s.func == KhfPci && s.base >= |devs| ==> ByteWrite(s, devs) == []
  {
    hide CalculatePciAddress, GoodList;
    if s.func !in {KhfInit, KhfPciList} && BaseAddress(s, devs).Some? { WriteTarget(s, devs); }
  }

  // ------------------------------------------------ what a commit then shows

  /** Disk: the byte is written iff it lies on a writable device, and the screen
      shows the device with it, FFh past its end. */
  lemma DiskCommitShows(m: Machine, s: State, devs: seq<PciFn>)
    requires Inv(s, |devs|) && GoodList(devs) && s.func == KhfIde
    ensures |ByteWrite(s, devs)| == 1 == |ScreenRead(s, devs)|
    ensures Sound(ByteWrite(s, devs)[0]) && Sound(ScreenRead(s, devs)[0])
    ensures var w := Direct(m, ByteWrite(s, devs)[0]);
      var r := Direct(w.m, ScreenRead(s, devs)[0]).outcome;
      var d, at := m.disk, s.base + s.offset;
      && w.outcome == Got(d.Disk? && d.writable && d.synced && at < |d.content|, [])
      && (if d.NoDisk? then w.m == m else WireLaws.DiskHolds(d, w.m.disk, at, [s.editBuf]))
      && r.Got? && |r.data| == 256
      && (r.ok <==> d.Disk? && d.readable && s.base + 256 <= |d.content|)
      && forall k :: 0 <= k < 256 ==>
           r.data[k] ==
             if !(d.Disk? && d.readable && s.base + k < |d.content|) then 255
             else if k == s.offset && d.writable then s.editBuf else d.content[s.base + k]
  {
    hide Direct, Encode, DiskRead, DiskWrite;
    WriteTarget(s, devs);
    Spans();
    var at := s.base + s.offset;
    DirectByteWrite(m, Ide, at, s.editBuf);
    WireLaws.DiskWritten(m, at, [s.editBuf]);
    var w := DiskWrite(m, at, [s.editBuf]).m;
    DirectScreenRead(w, Ide, s.base);
    DiskReadLaw(w, s.base, 256);
  }

  /** Ports: the byte is written iff the port is granted and answers, and the screen
      shows the 256 ports as that write left them; ports that only hold what is
      written show it at the cursor and are otherwise as before. */
  lemma PortCommitShows(m: Machine, s: State, devs: seq<PciFn>)
    requires Inv(s, |devs|) && GoodList(devs) && s.func == KhfIo
    ensures |ByteWrite(s, devs)| == 1 == |ScreenRead(s, devs)|
    ensures Sound(ByteWrite(s, devs)[0]) && Sound(ScreenRead(s, devs)[0])
    ensures var w := Direct(m, ByteWrite(s, devs)[0]);
      var r := Direct(w.m, ScreenRead(s, devs)[0]).outcome;
      var at := s.base + s.offset;
      && w.outcome == Got(PortLaws.Granted(m.io, at, 1) && PortLaws.PortsAnswer(m.io, at, 1, 0, true), [])
      && (w.outcome.ok ==> w.m == AfterOut8(m, at, s.editBuf))
      && r.Got? && |r.data| == 256
      && (r.ok <==> PortLaws.Granted(m.io, s.base, 256) && PortLaws.PortsAnswer(m.io, s.base, 256, 0, false))
      && (r.ok ==> forall k :: 0 <= k < 256 ==> r.data[k] == PortValue(w.m, s.base + k))
      && (w.outcome.ok && r.ok ==> forall k :: 0 <= k < 256 && PortLaws.Plain(m.io, s.base + k) ==>
           r.data[k] == if k == s.offset then s.editBuf else PortValue(m, s.base + k))
  {
    hide Direct, Encode, PortAccess, ReadBack, PortValue, AfterOut8;
    hide PortLaws.Granted, PortLaws.PortsAnswer, PortLaws.Plain;
    WriteTarget(s, devs);
    Spans();
    var at := s.base + s.offset;
    DirectByteWrite(m, Io, at, s.editBuf);
    OneOutput(m, at, s.editBuf);
    var w := PortAccess(m, at, [s.editBuf], true).m;
    DirectScreenRead(w, Io, s.base);
    ScreenOfPorts(w, s.base);
    SameGrants(m, w, s.base);
    forall q: nat | PortLaws.Plain(m.io, q)
      ensures PortValue(AfterOut8(m, at, s.editBuf), q) == if q == at then s.editBuf else PortValue(m, q)
    {
      PortLaws.OutputPlain(m, at, s.editBuf, q);
    }
  }

  lemma OneOutput(m: Machine, port: nat, v: byte)
    requires port < 0x1_0000
    ensures var p := PortAccess(m, port, [v], true);
      && p.ok == (PortLaws.Granted(m.io, port, 1) && PortLaws.PortsAnswer(m.io, port, 1, 0, true))
      && (p.ok ==> p.m == AfterOut8(m, port, v)) && PortLaws.SameButPorts(m, p.m)
  {
    hide PortAccess, PortLaws.Granted, PortLaws.PortsAnswer, AfterOut8, PortLaws.SameButPorts;
    var n := PortLaws.WriteLaw(m, port, [v]);
    PortLaws.OutRunLaw(m, port, [v], 0, n);
    assert PortLaws.PortOf(port, 0) == port;
  }

  lemma ScreenOfPorts(m: Machine, base: nat)
    requires base + 256 <= 0x1_0000
    ensures var p := ReadBack(PortAccess(m, base, Ones(256), false));
      && (p.ok <==> PortLaws.Granted(m.io, base, 256) && PortLaws.PortsAnswer(m.io, base, 256, 0, false))
      && (p.ok ==> forall k :: 0 <= k < 256 ==> p.data[k] == PortValue(m, base + k))
  {
    hide PortAccess, ReadBack, PortLaws.Granted, PortLaws.PortsAnswer, PortValue, PortLaws.InCycles;
    var n := PortLaws.ReadLaw(m, base, Ones(256));
    forall k | 0 <= k < 256 ensures PortLaws.PortOf(base, k) == base + k { }
  }

  lemma SameGrants(m: Machine, m': Machine, port: nat)
    requires PortLaws.SameButPorts(m, m')
    ensures PortLaws.Granted(m'.io, port, 256) == PortLaws.Granted(m.io, port, 256)
    ensures PortLaws.PortsAnswer(m'.io, port, 256, 0, false) == PortLaws.PortsAnswer(m.io, port, 256, 0, false)
  {
  }

  /** PCI: the register at the cursor of the device shown is written iff the access
      path allows it, and the screen shows that device's registers with it. */
  lemma PciCommitShows(m: Machine, s: State, devs: seq<PciFn>)
    requires Inv(s, |devs|) && GoodList(devs) && s.func == KhfPci && s.base < |devs|
    ensures |ByteWrite(s, devs)| == 1 == |ScreenRead(s, devs)|
    ensures Sound(ByteWrite(s, devs)[0]) && Sound(ScreenRead(s, devs)[0])
    ensures DeviceAddress(devs[s.base]) + 255 < MAX32
    ensures var w := Direct(m, ByteWrite(s, devs)[0]);
      var r := Direct(w.m, ScreenRead(s, devs)[0]).outcome;
      var a: u32 := DeviceAddress(devs[s.base]);
      var fn := WireLaws.FunctionOf(m, a);
      && w.outcome == Got(WireLaws.PciSucceeds(m, a + s.offset, 1) && WireLaws.PciWritable(m, a), [])
      && r.Got? && |r.data| == 256 && (r.ok <==> WireLaws.PciSucceeds(m, a, 256))
      && forall k :: 0 <= k < 256 ==>
           r.data[k] ==
             if !WireLaws.RegisterOpen(m, a, k) then 255
             else if k == s.offset && fn in m.pci.space && WireLaws.PciWritable(m, a) then s.editBuf
             else ConfigByte(m.pci.space, fn, k)
  {
    hide Direct, Encode, PciAccess, PciRead, ConfigByte, CalculatePciAddress;
    PackedAddress(devs[s.base]);
    WriteTarget(s, devs);
    CommitRequests(s, devs);
    ScreenRequests(s, devs);
    Spans();
    var a: u32, off: nat := DeviceAddress(devs[s.base]), s.offset;
    AlignedAddress(devs[s.base]);
    DirectByteWrite(m, Pci, a + off, s.editBuf);
    var w := PciAccess(m, a + off, [s.editBuf], true).m;
    DirectScreenRead(w, Pci, a);
    OneRegister(m, a, off, s.editBuf);
  }

  lemma AlignedAddress(d: PciFn)
    ensures DeviceAddress(d) < MAX32 && DeviceAddress(d) % 0x100 == 0
  {
    var n := 0x80_0000 + d.bus % 0x8000 * 0x100 + d.dev % 0x20 * 8 + d.fun % 8;
    DivModUnique(DeviceAddress(d), 0x100, n, 0);
  }

  /** Registers `off` of a function written, then all 256 read. */
  lemma OneRegister(m: Machine, a: u32, off: nat, v: byte)
    requires a % 0x100 == 0 && off < 0x100
    ensures a + 255 < MAX32
    ensures var w := PciAccess(m, a + off, [v], true);
      var r := PciRead(w.m, a, 256);
      var fn := WireLaws.FunctionOf(m, a);
      && w.ok == (WireLaws.PciSucceeds(m, a + off, 1) && WireLaws.PciWritable(m, a))
      && (r.ok <==> WireLaws.PciSucceeds(m, a, 256))
      && forall k :: 0 <= k < 256 ==>
           r.data[k] ==
             if !WireLaws.RegisterOpen(m, a, k) then 255
             else if k == off && fn in m.pci.space && WireLaws.PciWritable(m, a) then v
             else ConfigByte(m.pci.space, fn, k)
  {
    hide PciAccess, PciRead, ConfigByte;
    Within(a, off);
    WireLaws.PciWriteBytes(m, a + off, [v]);
    var w := PciAccess(m, a + off, [v], true).m;
    WireLaws.PciReadBytes(w, a, 256);
    SamePci(m, w, a);
    SameSlot(m, a, off);
    WireLaws.LongEnough(m.pci.space);
    hide WireLaws.PciSucceeds, WireLaws.PciWritable, WireLaws.RegisterOpen, WireLaws.FunctionOf;
  }

  lemma Within(a: u32, off: nat)
    requires a % 0x100 == 0 && off < 0x100
    ensures a + 255 < MAX32 && (a + off) % 0x100 == off && (a + off) / 0x100 == a / 0x100
  {
    var q := a / 0x100;
    DivModUnique(a + off, 0x100, q, off);
  }

  lemma SameSlot(m: Machine, a: u32, off: nat)
    requires a % 0x100 == 0 && off < 0x100 && a + off < MAX32
    ensures WireLaws.FunctionOf(m, a + off) == WireLaws.FunctionOf(m, a)
    ensures WireLaws.PciWritable(m, a + off) == WireLaws.PciWritable(m, a)
    ensures forall r: nat :: WireLaws.RegisterOpen(m, a + off, r) == WireLaws.RegisterOpen(m, a, r)
  {
    Within(a, off);
    var q := a / 0x100_0000;
    DivModUnique(a + off, 0x100_0000, q, a % 0x100_0000 + off) by { SegmentKept(a, off); }
  }

  lemma SegmentKept(a: u32, off: nat)
    requires a % 0x100 == 0 && off < 0x100
    ensures a % 0x100_0000 + off < 0x100_0000
  {
    assert a % 0x100_0000 % 0x100 == a % 0x100;
  }

  lemma SamePci(m: Machine, m': Machine, a: u32)
    requires WireLaws.PciWriteKeeps(m, m')
    ensures WireLaws.FunctionOf(m', a) == WireLaws.FunctionOf(m, a)
    ensures WireLaws.PciSucceeds(m', a, 256) == WireLaws.PciSucceeds(m, a, 256)
    ensures forall r: nat :: WireLaws.RegisterOpen(m', a, r) == WireLaws.RegisterOpen(m, a, r)
  {
  }
}
