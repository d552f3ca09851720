/** handler.c: the request handler.  `Perform` is what each command does to the
    machine, called directly; `Handle` is what a frame should produce; the
    methods rewrite the packet buffer in place, as the server does. */
module Handler {
  import opened Bytes
  import opened Machines
  import opened LibPort
  import opened LibMem
  import opened PciAddress
  import opened LibPci
  import opened LibStorage
  import opened Packet

  const MAX_FNS := (MAX_PKT - LIST_OFF) / 8
  const MAX_RECS := (MAX_PKT - LIST_OFF) / 24

  // -------------------------------------------------- the back ends, directly

  function ReadSpace(m: Machine, sp: Space, addr: u64, size: nat): (p: Progress)
    requires addr < Span(AddrWidth(sp)) && size <= MaxPayload(sp)
    ensures |p.data| == size
  {
    Spans();
    match sp
    case Mem => MemRead(m, addr, size)
    case Io => ReadBack(PortAccess(m, addr, Ones(size), false))
    case Pci => PciRead(m, addr, size)
    case Ide => DiskRead(m, addr, size)
    case Cmos => ReadBack(CmosAccess(m, addr, Ones(size), false))
  }

  function WriteSpace(m: Machine, sp: Space, addr: u64, data: Bytes): Progress
    requires addr < Span(AddrWidth(sp)) && |data| <= MaxPayload(sp)
  {
    Spans();
    match sp
    case Mem => MemWrite(m, addr, data)
    case Io => PortAccess(m, addr, data, true)
    case Pci => PciAccess(m, addr, data, true)
    case Ide => DiskWrite(m, addr, data)
    case Cmos => CmosAccess(m, addr, data, true)
  }

  /** The effect and the result data of a command. */
  function Perform(m: Machine, c: Command): (p: Progress)
    requires InRange(c)
    ensures c.Read? ==> |p.data| == c.size
    ensures c.Read? || |p.data| <= MAX_PKT - LIST_OFF
  {
    match c
    case Connect => Progress(m, true, [])
    case Disconnect => Progress(m, true, [])
    case Read(sp, addr, size) => ReadSpace(m, sp, addr, size)
    case Write(sp, addr, data) => WriteSpace(m, sp, addr, data).(data := [])
    case ListPci =>
      var s := PciList(m, MAX_FNS);
      PciListFits(m);
      Progress(s.m, true, PackFns(s.list))
    case ListE820 => Progress(m, true, PackRecs(E820Map(m, MAX_RECS)))
  }

  lemma {:induction false} ScanFits(m: Machine, k: nat, list: seq<PciFn>, max: nat)
    requires k <= FUNCTIONS && |list| <= max
    ensures |ScanFrom(m, k, list, max).list| <= max
    decreases FUNCTIONS - k
  {
    hide ScanStep;
    if k < FUNCTIONS && |list| < max {
      var (ok, s) := ScanStep(m, k, list);
      ScanStepGrows(m, k, list);
      ScanFits(s.m, k + 1, s.list, max);
    }
  }

  lemma ScanStepGrows(m: Machine, k: nat, list: seq<PciFn>)
    requires k < FUNCTIONS
    ensures |ScanStep(m, k, list).1.list| <= |list| + 1
  {
    hide LegacyAccess, ScanRecord, Id;
  }

  lemma PciListFits(m: Machine)
    ensures |PciList(m, MAX_FNS).list| <= MAX_FNS
  {
    ScanFits(m, 0, [], MAX_FNS);
  }

  // ----------------------------------------------------------- frame to reply

  /** The reply to a command: the request's own address and size fields are
      echoed, then whatever was read. */
  function Reply(f: Bytes, c: Command, ok: bool, data: Bytes): (r: Bytes)
    requires c.Read? || c.Write? ==> |f| >= PayloadOff(c.space)
    ensures |r| >= HEADER
  {
    var error := if ok then 0 else 1;
    match c
    case Connect => Header(REQ_CONNECT + 1, 0, HEADER)
    case Disconnect => Header(REQ_DISCONNECT + 1, 0, HEADER)
    case Read(sp, _, _) =>
      Header(ReadOp(sp) + 1, error, PayloadOff(sp) + |data|) + f[8..PayloadOff(sp)] + data
    case Write(sp, _, _) => Header(WriteOp(sp) + 1, error, PayloadOff(sp)) + f[8..PayloadOff(sp)]
    case ListPci => Header(REQ_PCI_LIST + 1, 0, LIST_OFF + |data|) + Le(4, |data| / 8) + data
    case ListE820 => Header(REQ_E820_LIST + 1, 0, LIST_OFF + |data|) + Le(4, |data| / 24) + data
  }

  const NACK: Bytes := Header(RSP_NACK, 1, HEADER)

  datatype Handled = Handled(m: Machine, reply: Bytes, close: bool)

  /** What the server does with one frame. It is a function of the frame and the
      machine only: no byte left over from earlier packets can matter. */
  function Handle(m: Machine, f: Bytes): (h: Handled)
    requires |f| >= HEADER
  {
    match Decode(f)
    case None => Handled(m, NACK, false)
    case Some(c) =>
      var p := Perform(m, c);
      Handled(p.m, Reply(f, c, p.ok, p.data), c.Disconnect?)
  }

  /** Every reply fits the buffer and carries its own length. */
  lemma ReplyFramed(m: Machine, f: Bytes)
    requires |f| >= HEADER
    ensures var r := Handle(m, f).reply;
      HEADER <= |r| <= MAX_PKT && PktLen(r) == |r|
  {
    hide Perform, Header;
    if Decode(f).None? {
      HeaderFields(RSP_NACK, 1, HEADER, []);
      assert NACK + [] == NACK;
    } else {
      var c := Decode(f).value;
      var p := Perform(m, c);
      ReplyLength(f, c, p.ok, p.data);
    }
  }

  lemma ReplyLength(f: Bytes, c: Command, ok: bool, data: Bytes)
    requires c.Read? || c.Write? ==> |f| >= PayloadOff(c.space)
    requires c.Read? ==> |data| <= MaxPayload(c.space)
    requires c.Read? || |data| <= MAX_PKT - LIST_OFF
    ensures var r := Reply(f, c, ok, data);
      HEADER <= |r| <= MAX_PKT && PktLen(r) == |r|
  {
    hide Header, Le, PayloadOff, ReadOp;
    var error := if ok then 0 else 1;
    match c
    case Connect => Framed(REQ_CONNECT + 1, 0, [], []);
    case Disconnect => Framed(REQ_DISCONNECT + 1, 0, [], []);
    case Read(sp, _, _) => SmallOp(sp); Framed(ReadOp(sp) + 1, error, f[8..PayloadOff(sp)], data);
    case Write(sp, _, _) => SmallOp(sp); Framed(WriteOp(sp) + 1, error, f[8..PayloadOff(sp)], []);
    case ListPci => Framed(REQ_PCI_LIST + 1, 0, Le(4, |data| / 8), data);
    case ListE820 => Framed(REQ_E820_LIST + 1, 0, Le(4, |data| / 24), data);
  }

  lemma ReplyOpcode(f: Bytes, c: Command, ok: bool, data: Bytes)
    requires c.Read? || c.Write? ==> |f| >= PayloadOff(c.space)
    requires |data| <= MAX_PKT && (c.Read? ==> |data| <= MaxPayload(c.space))
    ensures Opcode(Reply(f, c, ok, data)) < RSP_NACK
  {
    hide Header, Le, PayloadOff, ReadOp, Opcode;
    var error := if ok then 0 else 1;
    match c
    case Connect => HeaderFields(REQ_CONNECT + 1, 0, HEADER, []); NothingAfter(REQ_CONNECT + 1, 0, HEADER);
    case Disconnect => HeaderFields(REQ_DISCONNECT + 1, 0, HEADER, []); NothingAfter(REQ_DISCONNECT + 1, 0, HEADER);
    case Read(sp, _, _) =>
      SmallOp(sp);
      StartsWithHeader(ReadOp(sp) + 1, error, PayloadOff(sp) + |data|, f[8..PayloadOff(sp)], data);
    case Write(sp, _, _) =>
      SmallOp(sp);
      HeaderFields(WriteOp(sp) + 1, error, PayloadOff(sp), f[8..PayloadOff(sp)]);
    case ListPci => StartsWithHeader(REQ_PCI_LIST + 1, 0, LIST_OFF + |data|, Le(4, |data| / 8), data);
    case ListE820 => StartsWithHeader(REQ_E820_LIST + 1, 0, LIST_OFF + |data|, Le(4, |data| / 24), data);
  }

  lemma NothingAfter(op: nat, error: nat, len: nat)
    ensures Header(op, error, len) + [] == Header(op, error, len)
  {
  }

  lemma StartsWithHeader(op: nat, error: nat, len: nat, fields: Bytes, data: Bytes)
    requires op < MAX16 && error < MAX16 && len < MAX32
    ensures Opcode(Header(op, error, len) + fields + data) == op
  {
    hide Header, Opcode;
    HeaderFields(op, error, len, fields + data);
    assert Header(op, error, len) + (fields + data) == Header(op, error, len) + fields + data;
  }

  /** A frame is answered by a NACK exactly when it does not decode: an unknown
      opcode, a packet too short for its fields or its payload, or a size that
      exceeds a reply. */
  lemma NackIffMalformed(m: Machine, f: Bytes)
    requires |f| >= HEADER
    ensures Opcode(Handle(m, f).reply) == RSP_NACK <==> Decode(f).None?
  {
    hide Perform, Header, Opcode, Reply;
    if Decode(f).None? {
      HeaderFields(RSP_NACK, 1, HEADER, []);
      NothingAfter(RSP_NACK, 1, HEADER);
    } else {
      var c := Decode(f).value;
      var p := Perform(m, c);
      ReplyOpcode(f, c, p.ok, p.data);
    }
  }

  lemma SmallOp(sp: Space)
    ensures ReadOp(sp) <= 21
  {
  }

  lemma Framed(op: nat, error: nat, fields: Bytes, data: Bytes)
    requires op < MAX16 && error < MAX16 && |fields| + |data| <= MAX_PKT - HEADER
    ensures var len := HEADER + |fields| + |data|;
      var r := Header(op, error, len) + fields + data;
      && |r| == len && PktLen(r) == len
      && (data == [] ==> r == Header(op, error, len) + fields)
      && (data == fields == [] ==> r == Header(op, error, len))
  {
    hide Header, PktLen;
    var len := HEADER + |fields| + |data|;
    HeaderFields(op, error, len, fields + data);
    assert Header(op, error, len) + (fields + data) == Header(op, error, len) + fields + data;
  }

  // -------------------------------------------------- stale-byte independence

  /** A port read never depends on what the buffer held before. */
  lemma {:induction false} PortIgnoresBuffer(m: Machine, h: PortHandle, port: nat, a: Bytes, b: Bytes, i: nat)
    requires i <= |a| == |b| && a[..i] == b[..i]
    ensures var p, q := PortFrom(m, h, port, a, i, false), PortFrom(m, h, port, b, i, false);
      p.m == q.m && p.ok == q.ok && (p.ok ==> p.data == q.data)
    decreases |a| - i
  {
    hide PortValue, AfterIn8;
    if i == |a| {
      assert a == a[..i] && b == b[..i];
    } else {
      var x := Xfer(m, h, (port + i) % PORT_SPACE, a[i], false);
      var y := Xfer(m, h, (port + i) % PORT_SPACE, b[i], false);
      if x.ok {
        assert a[i := x.value][..i + 1] == a[..i] + [x.value];
        assert b[i := x.value][..i + 1] == b[..i] + [x.value];
        PortIgnoresBuffer(x.m, h, port, a[i := x.value], b[i := x.value], i + 1);
      }
    }
  }

  lemma {:induction false} CmosIgnoresBuffer(m: Machine, h: PortHandle, addr: nat, a: Bytes, b: Bytes, i: nat)
    requires i <= |a| == |b| && a[..i] == b[..i]
    ensures var p, q := CmosFrom(m, h, addr, a, i, false), CmosFrom(m, h, addr, b, i, false);
      p.m == q.m && p.ok == q.ok && (p.ok ==> p.data == q.data)
    decreases |a| - i
  {
    hide CmosXfer;
    if i == |a| {
      assert a == a[..i] && b == b[..i];
    } else {
      var x := CmosXfer(m, h, CmosOff(addr, i), a[i], false);
      CmosXferIgnoresByte(m, h, CmosOff(addr, i), a[i], b[i]);
      if x.ok {
        assert a[i := x.value][..i + 1] == a[..i] + [x.value];
        assert b[i := x.value][..i + 1] == b[..i] + [x.value];
        CmosIgnoresBuffer(x.m, h, addr, a[i := x.value], b[i := x.value], i + 1);
      }
    }
  }

  lemma CmosXferIgnoresByte(m: Machine, h: PortHandle, off: nat, v: byte, w: byte)
    ensures var x, y := CmosXfer(m, h, off, v, false), CmosXfer(m, h, off, w, false);
      x.m == y.m && x.ok == y.ok && (x.ok ==> x.value == y.value)
  {
    hide PortValue, AfterIn8, AfterOut8;
  }

  lemma ReadsIgnoreBuffer(m: Machine, addr: nat, buf: Bytes)
    ensures ReadBack(PortAccess(m, addr, buf, false)) == ReadBack(PortAccess(m, addr, Ones(|buf|), false))
    ensures ReadBack(CmosAccess(m, addr, buf, false)) == ReadBack(CmosAccess(m, addr, Ones(|buf|), false))
  {
    hide PortFrom, CmosFrom, PortOpen;
    PortIgnoresBuffer(m, PortOpen(m.io, addr, |buf|), addr, buf, Ones(|buf|), 0);
    CmosIgnoresBuffer(m, PortOpen(m.io, CMOS_ADDR, 4), addr, buf, Ones(|buf|), 0);
  }

  // ----------------------------------------------------------------- methods

  method ReadBackEnd(hw: Hardware, sp: Space, addr: u64, size: nat, buf: array<byte>) returns (ok: bool)
    requires addr < Span(AddrWidth(sp)) && size <= MaxPayload(sp) && buf.Length == MAX_PKT
    modifies hw, buf
    ensures var p := ReadSpace(old(hw.m), sp, addr, size);
      hw.m == p.m && ok == p.ok && buf[..] == Splice(old(buf[..]), PayloadOff(sp), p.data)
  {
    hide PortAccess, CmosAccess, PciRead, MemRead, DiskRead, ReadBack;
    Spans();
    ReadsIgnoreBuffer(hw.m, addr, buf[PayloadOff(sp)..PayloadOff(sp) + size]);
    match sp {
      case Mem => ok := MemReadBuffer(hw, addr, size, buf, PayloadOff(sp));
      case Io => ok := PortRead(hw, addr, size, buf, PayloadOff(sp));
      case Pci => ok := PciReadConfig(hw, addr, size, buf, PayloadOff(sp));
      case Ide => ok := DiskReadCall(hw, addr, size, buf, PayloadOff(sp));
      case Cmos => ok := CmosRead(hw, addr, size, buf, PayloadOff(sp));
    }
  }

  method WriteBackEnd(hw: Hardware, sp: Space, addr: u64, size: nat, buf: array<byte>) returns (ok: bool)
    requires addr < Span(AddrWidth(sp)) && size <= MaxPayload(sp) && buf.Length == MAX_PKT
    modifies hw, buf
    ensures var p := WriteSpace(old(hw.m), sp, addr, old(buf[PayloadOff(sp)..PayloadOff(sp) + size]));
      hw.m == p.m && ok == p.ok && buf[..] == old(buf[..])
  {
    hide PortAccess, CmosAccess, PciAccess, MemWrite, DiskWrite;
    Spans();
    match sp {
      case Mem => ok := MemWriteBuffer(hw, addr, size, buf, PayloadOff(sp));
      case Io => ok := PortWrite(hw, addr, size, buf, PayloadOff(sp));
      case Pci => ok := PciWriteConfig(hw, addr, size, buf, PayloadOff(sp));
      case Ide => ok := DiskWriteCall(hw, addr, size, buf, PayloadOff(sp));
      case Cmos => ok := CmosWrite(hw, addr, size, buf, PayloadOff(sp));
    }
  }

  /** Rewrites the header of the packet in place. */
  method SetResponse(packet: array<byte>, op: nat, len: nat, success: bool)
    requires packet.Length == MAX_PKT
    modifies packet
    ensures packet[..] == Splice(old(packet[..]), 0, Header(op, if success then 0 else 1, len))
    ensures packet[..HEADER] == Header(op, if success then 0 else 1, len)
  {
    hide Header;
    Copy(packet, 0, Header(op, if success then 0 else 1, len));
    assert packet[..HEADER] == packet[..][0..HEADER];
  }

  /** The packet now begins with the reply. */
  ghost predicate Holds(packet: array<byte>, reply: Bytes)
    reads packet
  {
    |reply| <= packet.Length && packet[..|reply|] == reply
  }

  lemma SameFields(buf: Bytes, n: nat, sp: Space)
    requires HEADER <= n <= |buf|
    ensures Opcode(buf[..n]) == Opcode(buf)
    ensures PayloadOff(sp) <= n ==> RawAddr(buf[..n], sp) == RawAddr(buf, sp)
    ensures PayloadOff(sp) <= n ==> RawSize(buf[..n], sp) == RawSize(buf, sp)
  {
    assert buf[..n][0..2] == buf[0..2];
    if PayloadOff(sp) <= n {
      var a, s := AddrWidth(sp), SizeWidth(sp);
      assert buf[..n][8..8 + a] == buf[8..8 + a];
      assert buf[..n][8 + a..8 + a + s] == buf[8 + a..8 + a + s];
    }
  }

  lemma SpliceHeader(now: Bytes, header: Bytes, n: nat)
    requires |header| == HEADER <= n <= |now|
    ensures Splice(now, 0, header)[..n] == header + now[HEADER..n]
  {
  }

  lemma ReplyToRead(m: Machine, f: Bytes, sp: Space, addr: u64, size: nat)
    requires |f| >= PayloadOff(sp) && InRange(Read(sp, addr, size))
    ensures Perform(m, Read(sp, addr, size)) == ReadSpace(m, sp, addr, size)
    ensures var p := ReadSpace(m, sp, addr, size);
      Reply(f, Read(sp, addr, size), p.ok, p.data) ==
        Header(ReadOp(sp) + 1, if p.ok then 0 else 1, PayloadOff(sp) + size) + f[HEADER..PayloadOff(sp)] + p.data
  {
    hide ReadSpace, Header, PayloadOff;
  }

  /** The header goes in last, over a buffer whose payload is already in place. */
  method Respond(packet: array<byte>, ghost rByte: nat, ghost was: Bytes, op: nat, success: bool, off: nat, len: nat)
    requires packet.Length == MAX_PKT == |was|
    requires HEADER <= off <= rByte <= MAX_PKT && off + len <= MAX_PKT
    requires packet[..off] == was[..off]
    modifies packet
    ensures var header := Header(op, if success then 0 else 1, off + len);
      Holds(packet, header + was[..rByte][HEADER..off] + old(packet[off..off + len]))
  {
    hide Header;
    ghost var now := packet[..];
    ghost var header := Header(op, if success then 0 else 1, off + len);
    SetResponse(packet, op, off + len, success);
    EchoedFields(now, was, rByte, off, header, len);
    assert packet[..off + len] == packet[..][..off + len];
    assert now[off..off + len] == old(packet[off..off + len]);
  }

  lemma EchoedFields(now: Bytes, was: Bytes, rByte: nat, off: nat, header: Bytes, len: nat)
    requires |header| == HEADER <= off <= rByte <= |was| == |now| && off + len <= |now| && now[..off] == was[..off]
    ensures Splice(now, 0, header)[..off + len] == header + was[..rByte][HEADER..off] + now[off..off + len]
  {
    SubSlice(was, rByte, HEADER, off);
    SubSlice(was, off, HEADER, off);
    SubSlice(now, off, HEADER, off);
    SpliceHeader(now, header, off + len);
    assert now[HEADER..off + len] == now[HEADER..off] + now[off..off + len];
  }

  /** A read request: bounds, back end, header. */
  method ReadCase(packet: array<byte>, hw: Hardware, sp: Space, rByte: nat) returns (accepted: bool)
    requires packet.Length == MAX_PKT && HEADER <= rByte <= MAX_PKT
    modifies packet, hw
    ensures var f := old(packet[..rByte]);
      match DecodeRead(f, sp)
      case None => !accepted && hw.m == old(hw.m) && packet[..] == old(packet[..])
      case Some(c) =>
        var p := Perform(old(hw.m), c);
        accepted && hw.m == p.m && Holds(packet, Reply(f, c, p.ok, p.data))
  {
    hide ReadSpace, Perform, Reply, RawAddr, RawSize, Header, PayloadOff, AddrWidth, Opcode, Splice;
    ghost var was := packet[..];
    assert packet[..rByte] == was[..rByte];
    SameFields(was, rByte, sp);
    var addr, sz := RawAddr(packet[..], sp), RequestSize(sp, RawSize(packet[..], sp));
    if rByte < PayloadOff(sp) || sz > MaxPayload(sp) {
      return false;
    }
    ReplyToRead(hw.m, was[..rByte], sp, addr, sz);
    var ok := ReadBackEnd(hw, sp, addr, sz, packet);
    assert packet[..PayloadOff(sp)] == packet[..][..PayloadOff(sp)] == was[..PayloadOff(sp)];
    assert packet[PayloadOff(sp)..PayloadOff(sp) + sz] == packet[..][PayloadOff(sp)..PayloadOff(sp) + sz];
    Respond(packet, rByte, was, ReadOp(sp) + 1, ok, PayloadOff(sp), sz);
    accepted := true;
  }

  method WriteCase(packet: array<byte>, hw: Hardware, sp: Space, rByte: nat) returns (accepted: bool)
    requires packet.Length == MAX_PKT && HEADER <= rByte <= MAX_PKT
    modifies packet, hw
    ensures var f := old(packet[..rByte]);
      match DecodeWrite(f, sp)
      case None => !accepted && hw.m == old(hw.m) && packet[..] == old(packet[..])
      case Some(c) =>
        var p := Perform(old(hw.m), c);
        accepted && hw.m == p.m && Holds(packet, Reply(f, c, p.ok, p.data))
  {
    hide WriteSpace, RawAddr, RawSize, Header, PayloadOff, AddrWidth, Opcode;
    ghost var was := packet[..];
    assert packet[..rByte] == was[..rByte];
    SameFields(was, rByte, sp);
    var addr, sz := RawAddr(packet[..], sp), RequestSize(sp, RawSize(packet[..], sp));
    if sz > MaxPayload(sp) || rByte < PayloadOff(sp) + sz {
      return false;
    }
    ghost var payload := packet[PayloadOff(sp)..PayloadOff(sp) + sz];
    SubSlice(was, rByte, PayloadOff(sp), PayloadOff(sp) + sz);
    assert payload == was[PayloadOff(sp)..PayloadOff(sp) + sz];
    var ok := WriteBackEnd(hw, sp, addr, sz, packet);
    assert packet[..PayloadOff(sp)] == packet[..][..PayloadOff(sp)];
    assert packet[PayloadOff(sp)..PayloadOff(sp)] == [];
    Respond(packet, rByte, was, WriteOp(sp) + 1, ok, PayloadOff(sp), 0);
    accepted := true;
  }

  /** Replaces the request in the packet by its reply; `close` tells the loop to
      stop after sending it. */
  method HandleRequestPacket(packet: array<byte>, hw: Hardware, rByte: nat) returns (close: bool)
    requires packet.Length == MAX_PKT && HEADER <= rByte <= MAX_PKT
    modifies packet, hw
    ensures var h := Handle(old(hw.m), old(packet[..rByte]));
      hw.m == h.m && close == h.close && Holds(packet, h.reply)
  {
    hide Header, Perform, DecodeRead, DecodeWrite;
    PerformNothing(hw.m);
    ghost var f := packet[..rByte];
    SameFields(packet[..], rByte, Mem);
    assert packet[..][..rByte] == f;
    var op := Opcode(packet[..]);
    close := false;
    var accepted := false;
    if op == REQ_CONNECT {
      SetResponse(packet, REQ_CONNECT + 1, HEADER, true);
      accepted := true;
    } else if op == REQ_DISCONNECT {
      SetResponse(packet, REQ_DISCONNECT + 1, HEADER, true);
      accepted, close := true, true;
    } else if op == REQ_PCI_LIST {
      ListPciCase(packet, hw);
      accepted := true;
    } else if op == REQ_E820_LIST {
      ListE820Case(packet, hw);
      accepted := true;
    } else if SpaceRead(op).Some? {
      accepted := ReadCase(packet, hw, SpaceRead(op).value, rByte);
    } else if SpaceWritten(op).Some? {
      accepted := WriteCase(packet, hw, SpaceWritten(op).value, rByte);
    }
    if !accepted {
      SetResponse(packet, RSP_NACK, HEADER, false);
    }
  }

  lemma PerformNothing(m: Machine)
    ensures Perform(m, Connect) == Perform(m, Disconnect) == Progress(m, true, [])
    ensures Perform(m, ListPci).ok && Perform(m, ListE820).ok
  {
    hide ReadSpace, WriteSpace, PciList, E820Map, PackFns, PackRecs;
  }

  method ListPciCase(packet: array<byte>, hw: Hardware)
    requires packet.Length == MAX_PKT
    modifies packet, hw
    ensures var p := Perform(old(hw.m), ListPci);
      hw.m == p.m && Holds(packet, Reply([], ListPci, true, p.data))
  {
    hide Header, PciList, Le;
    PciListFits(hw.m);
    var list := PciListDevices(hw, MAX_FNS);
    PutList(packet, REQ_PCI_LIST + 1, |list|, PackFns(list));
  }

  /** A listing reply: the records, their count, then the header. */
  method PutList(packet: array<byte>, op: nat, count: nat, records: Bytes)
    requires packet.Length == MAX_PKT && LIST_OFF + |records| <= MAX_PKT
    modifies packet
    ensures Holds(packet, Header(op, 0, LIST_OFF + |records|) + Le(4, count) + records)
  {
    hide Header, Le;
    var end := LIST_OFF + |records|;
    ghost var header := Header(op, 0, end);
    Copy(packet, LIST_OFF, records);
    ghost var placed := packet[..];
    assert placed[LIST_OFF..end] == records;
    Copy(packet, HEADER, Le(4, count));
    ghost var counted := packet[..];
    assert counted[HEADER..LIST_OFF] == Le(4, count);
    assert counted[LIST_OFF..end] == counted[LIST_OFF..][..|records|] == placed[LIST_OFF..][..|records|] == records;
    assert counted[HEADER..end] == counted[HEADER..LIST_OFF] + counted[LIST_OFF..end];
    SetResponse(packet, op, end, true);
    SpliceHeader(counted, header, end);
    assert packet[..end] == packet[..][..end] == header + (Le(4, count) + records);
    assert header + (Le(4, count) + records) == header + Le(4, count) + records;
  }

  method ListE820Case(packet: array<byte>, hw: Hardware)
    requires packet.Length == MAX_PKT
    modifies packet
    ensures var p := Perform(hw.m, ListE820);
      hw.m == p.m && Holds(packet, Reply([], ListE820, true, p.data))
  {
    hide Header, E820Map, Le;
    var list := E820ReadMap(hw, MAX_RECS);
    assert |list| <= MAX_RECS by { E820Fits(hw.m); }
    PutList(packet, REQ_E820_LIST + 1, |list|, PackRecs(list));
  }

  lemma E820Fits(m: Machine)
    ensures |E820Map(m, MAX_RECS)| <= MAX_RECS
  {
  }
}
