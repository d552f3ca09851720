/** libport.c: byte-wise port access and the banked CMOS on top of it. */
module LibPort {
  import opened Bytes
  import opened Machines

  const PORT_SPACE := 0x10000

  datatype PortHandle = NoAccess | DevPort | Instructions

  function PortOpen(io: IoDevice, port: nat, len: nat): PortHandle {
    if (port + len) % MAX32 > PORT_SPACE then NoAccess
    else if io.devPort then DevPort
    else if io.ioperm(port, len) then Instructions
    else NoAccess
  }

  /** The machine, the success flag and the caller's bytes after some cycles. */
  datatype Progress = Progress(m: Machine, ok: bool, data: Bytes)

  datatype Transfer = Transfer(m: Machine, ok: bool, value: byte)

  function Xfer(m: Machine, h: PortHandle, port: nat, v: byte, isWrite: bool): Transfer {
    if h == DevPort && m.io.faulty(port, isWrite) then Transfer(m, false, v)
    else if isWrite then Transfer(AfterOut8(m, port, v), true, v)
    else Transfer(AfterIn8(m, port), true, PortValue(m, port))
  }

  /** The cycles left to do from byte `i` of a plain port range. */
  function PortFrom(m: Machine, h: PortHandle, port: nat, data: Bytes, i: nat, isWrite: bool): (p: Progress)
    requires i <= |data|
    ensures |p.data| == |data|
    decreases |data| - i
  {
    if i == |data| then Progress(m, true, data)
    else
      var x := Xfer(m, h, (port + i) % PORT_SPACE, data[i], isWrite);
      var data' := data[i := x.value];
      if x.ok then PortFrom(x.m, h, port, data', i + 1, isWrite) else Progress(x.m, false, data')
  }

  function PortAccess(m: Machine, port: nat, data: Bytes, isWrite: bool): (p: Progress)
    ensures |p.data| == |data|
  {
    var h := PortOpen(m.io, port, |data|);
    if h == NoAccess then Progress(m, false, data) else PortFrom(m, h, port, data, 0, isWrite)
  }

  /** What a read leaves in the caller's buffer: the data, or FFh on failure. */
  function ReadBack(p: Progress): (r: Progress)
    ensures |r.data| == |p.data| && r.m == p.m && r.ok == p.ok
  {
    if p.ok then p else p.(data := Ones(|p.data|))
  }

  function IndexPort(off: nat): nat {
    if off < CMOS_BANK_SIZE then CMOS_ADDR else CMOS_EXT_ADDR
  }

  /** One CMOS byte: the index cycle, then the data cycle of the same bank. */
  function CmosXfer(m: Machine, h: PortHandle, off: nat, v: byte, isWrite: bool): Transfer {
    var sel := Xfer(m, h, IndexPort(off), off % CMOS_BANK_SIZE, true);
    if sel.ok then Xfer(sel.m, h, IndexPort(off) + 1, v, isWrite) else Transfer(sel.m, false, v)
  }

  /** The CMOS offset of byte `i` of a range, a 32-bit sum. */
  function CmosOff(addr: nat, i: nat): nat { (addr + i) % MAX32 }

  /** The cycles left to do from byte `i` of a CMOS range starting at `addr`. */
  function CmosFrom(m: Machine, h: PortHandle, addr: nat, data: Bytes, i: nat, isWrite: bool): (p: Progress)
    requires i <= |data|
    ensures |p.data| == |data|
    decreases |data| - i
  {
    if i == |data| then Progress(m, true, data)
    else
      var x := CmosXfer(m, h, CmosOff(addr, i), data[i], isWrite);
      var data' := data[i := x.value];
      if x.ok then CmosFrom(x.m, h, addr, data', i + 1, isWrite) else Progress(x.m, false, data')
  }

  function CmosAccess(m: Machine, addr: nat, data: Bytes, isWrite: bool): (p: Progress)
    ensures |p.data| == |data|
  {
    var h := PortOpen(m.io, CMOS_ADDR, CMOS_EXT_DATA - CMOS_ADDR + 1);
    if (addr + |data|) % MAX32 > CMOS_SIZE || h == NoAccess then Progress(m, false, data)
    else CmosFrom(m, h, addr, data, 0, isWrite)
  }

  // ---------------------------------------------------------------- methods

  method PortXfer(hw: Hardware, h: PortHandle, port: nat, v: byte, isWrite: bool) returns (ok: bool, value: byte)
    modifies hw
    ensures Transfer(hw.m, ok, value) == Xfer(old(hw.m), h, port, v, isWrite)
  {
    if h == DevPort && hw.m.io.faulty(port, isWrite) {
      return false, v;
    }
    ok, value := true, v;
    if isWrite {
      hw.Outb(v, port);
    } else {
      value := hw.Inb(port);
    }
  }

  /** `buf[off..off+len]` is the caller's buffer. */
  method PortAccessLoop(hw: Hardware, port: nat, len: nat, buf: array<byte>, off: nat, isWrite: bool)
    returns (ok: bool)
    requires off + len <= buf.Length
    modifies hw, buf
    ensures var p := PortAccess(old(hw.m), port, old(buf[off..off + len]), isWrite);
      hw.m == p.m && ok == p.ok && buf[..] == Splice(old(buf[..]), off, p.data)
  {
    hide Xfer, PortOpen;
    var h := PortOpen(hw.m.io, port, len);
    ghost var was := buf[..];
    assert was[off..off + len] == buf[off..off + len];
    if h == NoAccess {
      assert buf[..] == Splice(was, off, was[off..off + len]);
      return false;
    }
    ghost var goal := PortAccess(hw.m, port, buf[off..off + len], isWrite);
    ok := true;
    var i := 0;
    while i < len && ok
      invariant i <= len
      invariant buf[..off] == was[..off] && buf[off + len..] == was[off + len..]
      invariant goal == if ok then PortFrom(hw.m, h, port, buf[off..off + len], i, isWrite)
                        else Progress(hw.m, false, buf[off..off + len])
    {
      ghost var data := buf[off..off + len];
      var v;
      ok, v := PortXfer(hw, h, (port + i) % PORT_SPACE, buf[off + i], isWrite);
      buf[off + i] := v;
      assert buf[off..off + len] == data[i := v];
      i := i + 1;
    }
    assert buf[..] == Splice(was, off, buf[off..off + len]);
  }

  /** The body of the CMOS loop. */
  method CmosByte(hw: Hardware, h: PortHandle, cell: nat, v: byte, isWrite: bool) returns (ok: bool, value: byte)
    modifies hw
    ensures Transfer(hw.m, ok, value) == CmosXfer(old(hw.m), h, cell, v, isWrite)
  {
    var idxPort := if cell < CMOS_BANK_SIZE then CMOS_ADDR else CMOS_EXT_ADDR;
    value := v;
    var idx;
    ok, idx := PortXfer(hw, h, idxPort, cell % CMOS_BANK_SIZE, true);
    if ok {
      ok, value := PortXfer(hw, h, idxPort + 1, v, isWrite);
    }
  }

  method CmosAccessLoop(hw: Hardware, addr: nat, len: nat, buf: array<byte>, off: nat, isWrite: bool)
    returns (ok: bool)
    requires off + len <= buf.Length
    modifies hw, buf
    ensures var p := CmosAccess(old(hw.m), addr, old(buf[off..off + len]), isWrite);
      hw.m == p.m && ok == p.ok && buf[..] == Splice(old(buf[..]), off, p.data)
  {
    hide CmosXfer, PortOpen;
    ghost var was := buf[..];
    assert was[off..off + len] == buf[off..off + len];
    assert buf[..] == Splice(was, off, was[off..off + len]);
    if (addr + len) % MAX32 > CMOS_SIZE {
      return false;
    }
    var h := PortOpen(hw.m.io, CMOS_ADDR, CMOS_EXT_DATA - CMOS_ADDR + 1);
    if h == NoAccess {
      return false;
    }
    ghost var goal := CmosAccess(hw.m, addr, buf[off..off + len], isWrite);
    ok := true;
    var i := 0;
    while i < len && ok
      invariant i <= len
      invariant buf[..off] == was[..off] && buf[off + len..] == was[off + len..]
      invariant goal == if ok then CmosFrom(hw.m, h, addr, buf[off..off + len], i, isWrite)
                        else Progress(hw.m, false, buf[off..off + len])
    {
      ghost var data := buf[off..off + len];
      var v;
      ok, v := CmosByte(hw, h, CmosOff(addr, i), buf[off + i], isWrite);
      buf[off + i] := v;
      assert buf[off..off + len] == data[i := v];
      i := i + 1;
    }
    assert buf[..] == Splice(was, off, buf[off..off + len]);
  }

  /** Copies bytes into a range, also for what a system call stores there. */
  method Copy(buf: array<byte>, off: nat, data: Bytes)
    requires off + |data| <= buf.Length
    modifies buf
    ensures buf[..] == Splice(old(buf[..]), off, data)
  {
    forall i | 0 <= i < |data| { buf[off + i] := data[i]; }
    assert buf[off..off + |data|] == data;
    assert buf[..] == Splice(old(buf[..]), off, data);
  }

  /** Fills a range with FFh. */
  method Fill(buf: array<byte>, off: nat, len: nat)
    requires off + len <= buf.Length
    modifies buf
    ensures buf[..] == Splice(old(buf[..]), off, Ones(len))
  {
    forall i | off <= i < off + len { buf[i] := 255; }
    assert buf[off..off + len] == Ones(len);
    assert buf[..] == Splice(old(buf[..]), off, Ones(len));
  }

  method PortRead(hw: Hardware, port: nat, len: nat, buf: array<byte>, off: nat) returns (ok: bool)
    requires off + len <= buf.Length
    modifies hw, buf
    ensures var p := ReadBack(PortAccess(old(hw.m), port, old(buf[off..off + len]), false));
      hw.m == p.m && ok == p.ok && buf[..] == Splice(old(buf[..]), off, p.data)
  {
    ok := PortAccessLoop(hw, port, len, buf, off, false);
    if !ok { Fill(buf, off, len); }
  }

  method PortWrite(hw: Hardware, port: nat, len: nat, buf: array<byte>, off: nat) returns (ok: bool)
    requires off + len <= buf.Length
    modifies hw, buf
    ensures var p := PortAccess(old(hw.m), port, old(buf[off..off + len]), true);
      hw.m == p.m && ok == p.ok && buf[..] == old(buf[..])
  {
    WriteKeepsData(hw.m, PortOpen(hw.m.io, port, len), port, buf[off..off + len], 0);
    ok := PortAccessLoop(hw, port, len, buf, off, true);
    assert buf[..] == old(buf[..]);
  }

  method CmosRead(hw: Hardware, addr: nat, len: nat, buf: array<byte>, off: nat) returns (ok: bool)
    requires off + len <= buf.Length
    modifies hw, buf
    ensures var p := ReadBack(CmosAccess(old(hw.m), addr, old(buf[off..off + len]), false));
      hw.m == p.m && ok == p.ok && buf[..] == Splice(old(buf[..]), off, p.data)
  {
    ok := CmosAccessLoop(hw, addr, len, buf, off, false);
    if !ok { Fill(buf, off, len); }
  }

  method CmosWrite(hw: Hardware, addr: nat, len: nat, buf: array<byte>, off: nat) returns (ok: bool)
    requires off + len <= buf.Length
    modifies hw, buf
    ensures var p := CmosAccess(old(hw.m), addr, old(buf[off..off + len]), true);
      hw.m == p.m && ok == p.ok && buf[..] == old(buf[..])
  {
    CmosWriteKeepsData(hw.m, PortOpen(hw.m.io, CMOS_ADDR, 4), addr, buf[off..off + len], 0);
    ok := CmosAccessLoop(hw, addr, len, buf, off, true);
    assert buf[..] == old(buf[..]);
  }

  // ----------------------------------------------------------------- lemmas

  lemma {:induction false} WriteKeepsData(m: Machine, h: PortHandle, port: nat, data: Bytes, i: nat)
    requires i <= |data|
    ensures PortFrom(m, h, port, data, i, true).data == data
    decreases |data| - i
  {
    if i < |data| {
      var x := Xfer(m, h, (port + i) % PORT_SPACE, data[i], true);
      assert data[i := x.value] == data;
      if x.ok { WriteKeepsData(x.m, h, port, data, i + 1); }
    }
  }

  lemma {:induction false} CmosWriteKeepsData(m: Machine, h: PortHandle, addr: nat, data: Bytes, i: nat)
    requires i <= |data|
    ensures CmosFrom(m, h, addr, data, i, true).data == data
    decreases |data| - i
  {
    if i < |data| {
      var x := CmosXfer(m, h, CmosOff(addr, i), data[i], true);
      assert data[i := x.value] == data;
      if x.ok { CmosWriteKeepsData(x.m, h, addr, data, i + 1); }
    }
  }
}
