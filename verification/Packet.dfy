/** packet.h: the wire layouts, and what the server understands by a frame. */
module Packet {
  import opened Bytes
  import opened Listing
  import opened Machines

  const MAX_PKT := 8192
  const HEADER := 8

  const REQ_CONNECT := 1
  const REQ_DISCONNECT := 3
  const REQ_PCI_LIST := 25
  const REQ_E820_LIST := 27
  const RSP_CPU_EXCEPTION := 29
  const RSP_NACK := 30
  const LIST_OFF := 12

  /** The five address spaces, each with a read and a write request. */
  datatype Space = Mem | Io | Pci | Ide | Cmos

  function ReadOp(sp: Space): nat {
    match sp case Mem => 5 case Io => 9 case Pci => 13 case Ide => 17 case Cmos => 21
  }

  function WriteOp(sp: Space): nat { ReadOp(sp) + 2 }

  /** Widths of the packed address and size fields that follow the header. */
  function AddrWidth(sp: Space): nat {
    match sp case Mem => 8 case Io => 2 case Pci => 4 case Ide => 8 case Cmos => 1
  }

  function SizeWidth(sp: Space): nat {
    match sp case Mem => 4 case Io => 4 case Pci => 2 case Ide => 4 case Cmos => 1
  }

  /** Where the payload starts on the wire. */
  function PayloadOff(sp: Space): (off: nat)
    ensures off == match sp case Mem => 20 case Io => 14 case Pci => 14 case Ide => 20 case Cmos => 10
  {
    HEADER + AddrWidth(sp) + SizeWidth(sp)
  }

  function MaxPayload(sp: Space): nat { MAX_PKT - PayloadOff(sp) }

  function SpaceRead(op: nat): Option<Space> {
    if op == 5 then Some(Mem) else if op == 9 then Some(Io) else if op == 13 then Some(Pci)
    else if op == 17 then Some(Ide) else if op == 21 then Some(Cmos) else None
  }

  function SpaceWritten(op: nat): Option<Space> {
    if op < 2 then None else SpaceRead(op - 2)
  }

  /** A CMOS size of 0 stands for all 256 bytes. */
  function RequestSize(sp: Space, raw: nat): nat {
    if sp == Cmos && raw == 0 then CMOS_SIZE else raw
  }

  /** What a well-formed request asks for. */
  datatype Command =
    | Connect
    | Disconnect
    | Read(space: Space, addr: u64, size: nat)
    | Write(space: Space, addr: u64, data: Bytes)
    | ListPci
    | ListE820

  /** The bounds the wire format puts on a command. */
  predicate InRange(c: Command) {
    match c
    case Read(sp, addr, size) => addr < Span(AddrWidth(sp)) && size <= MaxPayload(sp)
    case Write(sp, addr, data) => addr < Span(AddrWidth(sp)) && |data| <= MaxPayload(sp)
    case _ => true
  }

  function RawAddr(f: Bytes, sp: Space): (a: u64)
    requires |f| >= PayloadOff(sp)
    ensures a < Span(AddrWidth(sp))
  {
    FromLeBounded(f[8..8 + AddrWidth(sp)]);
    Spans();
    Field(f, 8, AddrWidth(sp))
  }

  function RawSize(f: Bytes, sp: Space): nat
    requires |f| >= PayloadOff(sp)
  {
    Field(f, 8 + AddrWidth(sp), SizeWidth(sp))
  }

  function Opcode(f: Bytes): nat
    requires |f| >= HEADER
  {
    Field(f, 0, 2)
  }

  function PktLen(f: Bytes): nat
    requires |f| >= HEADER
  {
    Field(f, 4, 4)
  }

  function ErrorCode(f: Bytes): nat
    requires |f| >= HEADER
  {
    Field(f, 2, 2)
  }

  /** The command in a frame, or None when it is unknown or malformed. */
  function Decode(f: Bytes): (c: Option<Command>)
    requires |f| >= HEADER
    ensures c.Some? ==> InRange(c.value)
  {
    var op := Opcode(f);
    if op == REQ_CONNECT then Some(Connect)
    else if op == REQ_DISCONNECT then Some(Disconnect)
    else if op == REQ_PCI_LIST then Some(ListPci)
    else if op == REQ_E820_LIST then Some(ListE820)
    else if SpaceRead(op).Some? then DecodeRead(f, SpaceRead(op).value)
    else if SpaceWritten(op).Some? then DecodeWrite(f, SpaceWritten(op).value)
    else None
  }

  function DecodeRead(f: Bytes, sp: Space): (c: Option<Command>)
    ensures c.Some? ==> InRange(c.value) && c.value.Read? && c.value.space == sp
  {
    if |f| < PayloadOff(sp) then None
    else
      var size := RequestSize(sp, RawSize(f, sp));
      if size > MaxPayload(sp) then None else Some(Read(sp, RawAddr(f, sp), size))
  }

  function DecodeWrite(f: Bytes, sp: Space): (c: Option<Command>)
    ensures c.Some? ==> InRange(c.value) && c.value.Write? && c.value.space == sp
  {
    if |f| < PayloadOff(sp) then None
    else
      var off, size := PayloadOff(sp), RequestSize(sp, RawSize(f, sp));
      if size > MaxPayload(sp) || |f| < off + size then None
      else Some(Write(sp, RawAddr(f, sp), f[off..off + size]))
  }

  function Header(op: nat, error: nat, len: nat): (h: Bytes)
    ensures |h| == HEADER
  {
    Le(2, op) + Le(2, error) + Le(4, len)
  }

  lemma HeaderFields(op: nat, error: nat, len: nat, rest: Bytes)
    requires op < MAX16 && error < MAX16 && len < MAX32
    ensures var f := Header(op, error, len) + rest;
      Opcode(f) == op && ErrorCode(f) == error && PktLen(f) == len
  {
    hide Le;
    var f := Header(op, error, len) + rest;
    Spans();
    FieldExact(2, op);
    FieldExact(2, error);
    FieldExact(4, len);
    assert f[0..2] == Le(2, op) && f[2..4] == Le(2, error) && f[4..8] == Le(4, len);
  }

  /** The header, address and size with which a request of a space begins. */
  function Prologue(sp: Space, op: nat, addr: nat, size: nat, len: nat): (s: Bytes)
    ensures |s| == PayloadOff(sp)
  {
    Header(op, 0, len) + Le(AddrWidth(sp), addr) + Le(SizeWidth(sp), size)
  }

  lemma PrologueFields(sp: Space, op: nat, addr: nat, size: nat, len: nat, rest: Bytes)
    requires op < MAX16 && len < MAX32
    requires addr < Span(AddrWidth(sp)) && size < Span(SizeWidth(sp))
    ensures var f := Prologue(sp, op, addr, size, len) + rest;
      && Opcode(f) == op && PktLen(f) == len
      && RawAddr(f, sp) == addr && RawSize(f, sp) == size
      && f[PayloadOff(sp)..] == rest
  {
    hide Le;
    var f := Prologue(sp, op, addr, size, len) + rest;
    var a, s := AddrWidth(sp), SizeWidth(sp);
    var tail := Le(a, addr) + Le(s, size) + rest;
    assert f == Header(op, 0, len) + tail;
    HeaderFields(op, 0, len, tail);
    FieldExact(a, addr);
    FieldExact(s, size);
    assert f == (Header(op, 0, len) + Le(a, addr)) + (Le(s, size) + rest);
    assert f[8..8 + a] == Le(a, addr) && f[8 + a..8 + a + s] == Le(s, size);
  }
}
