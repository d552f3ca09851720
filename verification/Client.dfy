/** packet.c, client side: building a request, sending it and checking the
    reply; and what the whole exchange amounts to. */
module Client {
  import opened Bytes
  import opened Listing
  import opened Machines
  import opened LibPort
  import opened PciAddress
  import opened LibPci
  import opened LibStorage
  import opened Packet
  import opened Transfer
  import opened Handler

  /** The arguments of executeFunction. A payload has at least `size` bytes. */
  datatype Request = Request(op: nat, addr: u64, size: u32, payload: Option<Bytes>)

  predicate Sound(q: Request) {
    q.payload.Some? ==> |q.payload.value| >= q.size
  }

  predicate HeaderOnly(op: nat) {
    op in {REQ_CONNECT, REQ_DISCONNECT, REQ_PCI_LIST, REQ_E820_LIST}
  }

  /** The packet executeFunction sends, or None when it refuses locally. */
  function Encode(q: Request): (f: Option<Bytes>)
    requires Sound(q)
    ensures f.Some? ==> HEADER <= |f.value| <= MAX_PKT
  {
    if HeaderOnly(q.op) then Some(Header(q.op, 0, HEADER))
    else if SpaceRead(q.op).Some? then
      var sp := SpaceRead(q.op).value;
      Some(Prologue(sp, q.op, q.addr % Span(AddrWidth(sp)), q.size % Span(SizeWidth(sp)), PayloadOff(sp)))
    else if SpaceWritten(q.op).Some? then
      var sp := SpaceWritten(q.op).value;
      if q.payload.None? || q.size == 0 || q.size > MaxPayload(sp) then None
      else Some(Prologue(sp, q.op, q.addr % Span(AddrWidth(sp)), q.size % Span(SizeWidth(sp)), PayloadOff(sp) + q.size)
                + q.payload.value[..q.size])
    else None
  }

  /** verifyResponsePacket: the response opcode is the request opcode plus one. */
  predicate Verified(op: nat, rsp: nat) {
    rsp != RSP_NACK && rsp != RSP_CPU_EXCEPTION &&
    REQ_CONNECT <= op <= REQ_E820_LIST && op % 2 == 1 && rsp == op + 1
  }

  // --------------------------------------------------------- the direct view

  /** What a request asks for: nothing (refused by the client), more than a reply
      can carry (rejected by the server), or a command. Addresses and sizes are
      narrowed to their fields, and a CMOS size counts modulo 256. */
  datatype Intent = Refused | Rejected | Do(c: Command)

  function Intended(q: Request): (i: Intent)
    requires Sound(q)
    ensures i.Do? ==> InRange(i.c)
  {
    Spans();
    if q.op == REQ_CONNECT then Do(Connect)
    else if q.op == REQ_DISCONNECT then Do(Disconnect)
    else if q.op == REQ_PCI_LIST then Do(ListPci)
    else if q.op == REQ_E820_LIST then Do(ListE820)
    else if SpaceRead(q.op).Some? then
      var sp := SpaceRead(q.op).value;
      var size := RequestSize(sp, q.size % Span(SizeWidth(sp)));
      if size > MaxPayload(sp) then Rejected else Do(Read(sp, q.addr % Span(AddrWidth(sp)), size))
    else if SpaceWritten(q.op).Some? then
      var sp := SpaceWritten(q.op).value;
      if q.payload.None? || q.size == 0 || q.size > MaxPayload(sp) then Refused
      else
        var n := if sp == Cmos then (q.size - 1) % 256 + 1 else q.size;
        Do(Write(sp, q.addr % Span(AddrWidth(sp)), q.payload.value[..n]))
    else Refused
  }

  /** What the caller learns: failure, or the server's error flag and the data. */
  datatype Outcome = Failed | Got(ok: bool, data: Bytes)

  /** Calling the back ends directly, with no wire in between. */
  datatype Called = Called(m: Machine, outcome: Outcome)

  function Direct(m: Machine, q: Request): Called
    requires Sound(q)
  {
    match Intended(q)
    case Do(c) => var p := Perform(m, c); Called(p.m, Got(p.ok, p.data))
    case _ => Called(m, Failed)
  }

  /** Where a reply's data starts. */
  function DataOff(op: nat): nat {
    if SpaceRead(op).Some? then PayloadOff(SpaceRead(op).value)
    else if SpaceWritten(op).Some? then PayloadOff(SpaceWritten(op).value)
    else if op in {REQ_PCI_LIST, REQ_E820_LIST} then LIST_OFF
    else HEADER
  }

  /** What a caller of executeFunction makes of the packet it got back. */
  function Interpret(op: nat, r: Bytes): Outcome
    requires |r| >= HEADER
  {
    if !Verified(op, Opcode(r)) then Failed
    else Got(ErrorCode(r) == 0, if DataOff(op) <= |r| then r[DataOff(op)..] else [])
  }

  // ------------------------------------------------------------ wire theorems

  lemma EncodeRead(q: Request, sp: Space)
    requires Sound(q) && SpaceRead(q.op) == Some(sp)
    ensures var f := Encode(q).value;
      && Encode(q).Some? && WellFramed(f, MAX_PKT)
      && Opcode(f) == q.op
      && Decode(f) == match Intended(q) case Do(c) => Some(c) case _ => None
  {
    hide Prologue, PayloadOff, RawAddr, RawSize, Span, Opcode, PktLen;
    var a, s := q.addr % Span(AddrWidth(sp)), q.size % Span(SizeWidth(sp));
    SpaceOps(q.op, sp);
    PrologueFields(sp, q.op, a, s, PayloadOff(sp), []);
    assert Encode(q).value + [] == Encode(q).value;
  }

  lemma SpaceOps(op: nat, sp: Space)
    ensures SpaceRead(op) == Some(sp) ==> !HeaderOnly(op) && op == ReadOp(sp) && op < MAX16
    ensures SpaceWritten(op) == Some(sp) ==>
      !HeaderOnly(op) && op == WriteOp(sp) && SpaceRead(op).None? && op < MAX16
  {
  }

  lemma EncodeWrite(q: Request, sp: Space)
    requires Sound(q) && SpaceWritten(q.op) == Some(sp) && Encode(q).Some?
    ensures var f := Encode(q).value;
      && WellFramed(f, MAX_PKT)
      && Opcode(f) == q.op
      && Intended(q).Do? && Decode(f) == Some(Intended(q).c)
  {
    hide Prologue, PayloadOff, RawAddr, RawSize, Span, Opcode, PktLen;
    var a, s := q.addr % Span(AddrWidth(sp)), q.size % Span(SizeWidth(sp));
    var data := q.payload.value[..q.size];
    SpaceOps(q.op, sp);
    PrologueFields(sp, q.op, a, s, PayloadOff(sp) + q.size, data);
    NarrowSize(sp, q.size);
    var n := RequestSize(sp, s);
    var f := Encode(q).value;
    assert f[PayloadOff(sp)..PayloadOff(sp) + n] == f[PayloadOff(sp)..][..n] == data[..n];
    assert data[..n] == q.payload.value[..n];
  }

  /** A write size survives its field, except that CMOS counts modulo 256. */
  lemma NarrowSize(sp: Space, size: nat)
    requires 0 < size <= MaxPayload(sp)
    ensures RequestSize(sp, size % Span(SizeWidth(sp))) == if sp == Cmos then (size - 1) % 256 + 1 else size
    ensures RequestSize(sp, size % Span(SizeWidth(sp))) <= size
  {
    Spans();
  }

  /** Every request the client emits is one whole packet that the server decodes
      to exactly the intended command; it is refused by the server precisely
      when a read's size exceeds what a reply can carry. */
  lemma DecodeOfEncode(q: Request)
    requires Sound(q)
    ensures Encode(q).None? <==> Intended(q).Refused?
    ensures Encode(q).Some? ==>
      && WellFramed(Encode(q).value, MAX_PKT)
      && Opcode(Encode(q).value) == q.op
      && Decode(Encode(q).value) == match Intended(q) case Do(c) => Some(c) case _ => None
  {
    if SpaceRead(q.op).Some? {
      EncodeRead(q, SpaceRead(q.op).value);
      SpaceOps(q.op, SpaceRead(q.op).value);
    } else if SpaceWritten(q.op).Some? {
      SpaceOps(q.op, SpaceWritten(q.op).value);
      if Encode(q).Some? { EncodeWrite(q, SpaceWritten(q.op).value); }
    } else if HeaderOnly(q.op) {
      hide Header;
      HeaderFields(q.op, 0, HEADER, []);
      assert Header(q.op, 0, HEADER) + [] == Header(q.op, 0, HEADER);
    }
  }

  /** Each command has its own opcode, and its fields are there. */
  lemma DecodedOp(f: Bytes, op: nat, c: Command)
    requires |f| >= HEADER && Opcode(f) == op && Decode(f) == Some(c)
    ensures match c
      case Connect => op == REQ_CONNECT
      case Disconnect => op == REQ_DISCONNECT
      case ListPci => op == REQ_PCI_LIST
      case ListE820 => op == REQ_E820_LIST
      case Read(sp, _, _) => SpaceRead(op) == Some(sp) && op == ReadOp(sp) && |f| >= PayloadOff(sp)
      case Write(sp, _, _) => SpaceWritten(op) == Some(sp) && op == WriteOp(sp) && |f| >= PayloadOff(sp)
  {
    hide RawAddr, RawSize, Opcode, Span, PayloadOff;
  }

  /** The opcode, error flag and data of a reply are those of the command. */
  lemma InterpretReply(f: Bytes, op: nat, c: Command, ok: bool, data: Bytes)
    requires |f| >= HEADER && Opcode(f) == op && Decode(f) == Some(c)
    requires c.Read? ==> |data| == c.size
    requires !c.Read? ==> |data| <= MAX_PKT - LIST_OFF
    requires c.Write? || c.Connect? || c.Disconnect? ==> data == []
    requires c.Connect? || c.Disconnect? || c.ListPci? || c.ListE820? ==> ok
    ensures var r := Reply(f, c, ok, data);
      && Opcode(r) == op + 1
      && Interpret(op, r) == Got(ok, data)
  {
    hide Header, Le, PayloadOff, RawAddr, RawSize, Opcode, ErrorCode, Span, Decode;
    DecodedOp(f, op, c);
    var error := if ok then 0 else 1;
    match c
    case Connect => ReplyFields(REQ_CONNECT + 1, 0, [], []);
    case Disconnect => ReplyFields(REQ_DISCONNECT + 1, 0, [], []);
    case Read(sp, _, _) => ReplyFields(op + 1, error, f[8..PayloadOff(sp)], data);
    case Write(sp, _, _) => ReplyFields(op + 1, error, f[8..PayloadOff(sp)], []);
    case ListPci => ReplyFields(REQ_PCI_LIST + 1, 0, Le(4, |data| / 8), data);
    case ListE820 => ReplyFields(REQ_E820_LIST + 1, 0, Le(4, |data| / 24), data);
  }

  lemma ReplyFields(op: nat, error: nat, fields: Bytes, data: Bytes)
    requires op < MAX16 && error < MAX16 && |fields| + |data| <= MAX_PKT - HEADER
    ensures var len := HEADER + |fields| + |data|;
      var r := Header(op, error, len) + fields + data;
      && Opcode(r) == op && ErrorCode(r) == error && r[HEADER + |fields|..] == data
      && (data == [] ==> r == Header(op, error, len) + fields)
      && (data == fields == [] ==> r == Header(op, error, len))
  {
    hide Header, Opcode, ErrorCode;
    var len := HEADER + |fields| + |data|;
    HeaderFields(op, error, len, fields + data);
    assert Header(op, error, len) + (fields + data) == Header(op, error, len) + fields + data;
  }

  /** A list reply starts with the number of its records, and they follow. */
  lemma CountedList(op: nat, count: nat, records: Bytes)
    requires count < MAX32 && |records| <= MAX_PKT
    ensures var r := Header(op, 0, LIST_OFF + |records|) + Le(4, count) + records;
      Field(r, HEADER, 4) == count && r[LIST_OFF..] == records
  {
    hide Header, Le;
    var r := Header(op, 0, LIST_OFF + |records|) + Le(4, count) + records;
    Spans();
    FieldExact(4, count);
    assert r[HEADER..HEADER + 4] == Le(4, count);
  }

  /** Whatever request asked for it, the PCI list reply unpacks, by the count it
      carries, to the list the server made; it fits the client's bound. */
  lemma PciListRoundTrip(m: Machine, f: Bytes)
    requires |f| >= HEADER && Decode(f) == Some(ListPci)
    ensures var r := Handle(m, f).reply;
      var list := PciList(m, MAX_FNS).list;
      && |r| == LIST_OFF + 8 * |list| && Field(r, HEADER, 4) == |list| <= MAX_FNS
      && UnpackFns(r[LIST_OFF..], |list|) == list
  {
    hide PciList, Header, Le, UnpackFns, Decode, Field;
    var list := PciList(m, MAX_FNS).list;
    PciListFits(m);
    UnpackOfPack(list);
    CountedList(REQ_PCI_LIST + 1, |list|, PackFns(list));
  }

  /** Likewise for the firmware memory map. */
  lemma E820RoundTrip(m: Machine, f: Bytes)
    requires |f| >= HEADER && Decode(f) == Some(ListE820)
    ensures var r := Handle(m, f).reply;
      var list := E820Map(m, MAX_RECS);
      && |r| == LIST_OFF + 24 * |list| && Field(r, HEADER, 4) == |list| <= MAX_RECS
      && UnpackRecs(r[LIST_OFF..], |list|) == list
  {
    hide E820Map, Header, Le, UnpackRecs, Decode, Field;
    var list := E820Map(m, MAX_RECS);
    E820Fits(m);
    UnpackOfPackRecs(list);
    CountedList(REQ_E820_LIST + 1, |list|, PackRecs(list));
  }

  /** One exchange over the wire is one direct call: same machine afterwards,
      same outcome for the caller, and only DISCONNECT ends the connection. */
  lemma WireIsDirect(m: Machine, q: Request)
    requires Sound(q) && Encode(q).Some?
    ensures var h := Handle(m, Encode(q).value);
      && Called(h.m, Interpret(q.op, h.reply)) == Direct(m, q)
      && h.close == (q.op == REQ_DISCONNECT)
  {
    hide Perform, Header, Opcode, Encode, DecodeRead, DecodeWrite, Reply;
    var f := Encode(q).value;
    DecodeOfEncode(q);
    if Intended(q).Do? {
      var c := Intended(q).c;
      PerformShape(m, c);
      var p := Perform(m, c);
      InterpretReply(f, q.op, c, p.ok, p.data);
    } else {
      HeaderFields(RSP_NACK, 1, HEADER, []);
      assert NACK + [] == NACK;
    }
  }

  lemma PerformShape(m: Machine, c: Command)
    requires InRange(c)
    ensures var p := Perform(m, c);
      && (c.Write? || c.Connect? || c.Disconnect? ==> p.data == [])
      && (c.Connect? || c.Disconnect? || c.ListPci? || c.ListE820? ==> p.ok)
  {
    hide ReadSpace, WriteSpace;
  }

  /** Exact acceptance: a request is answered by its own response opcode, except
      that an oversized read gets a NACK. */
  lemma ExactAcceptance(m: Machine, q: Request)
    requires Sound(q) && Encode(q).Some?
    ensures var r := Handle(m, Encode(q).value).reply;
      && HEADER <= |r| <= MAX_PKT && PktLen(r) == |r|
      && (Intended(q).Do? ==> Opcode(r) == q.op + 1)
      && (Intended(q).Rejected? ==> Opcode(r) == RSP_NACK)
      && (Intended(q).Rejected? <==> exists sp ::
            SpaceRead(q.op) == Some(sp) && RequestSize(sp, q.size % Span(SizeWidth(sp))) > MaxPayload(sp))
  {
    hide Perform, Header, Opcode, PktLen, Encode, DecodeRead, DecodeWrite, Reply;
    var f := Encode(q).value;
    DecodeOfEncode(q);
    ReplyFramed(m, f);
    if Intended(q).Do? {
      PerformShape(m, Intended(q).c);
      var p := Perform(m, Intended(q).c);
      InterpretReply(f, q.op, Intended(q).c, p.ok, p.data);
    } else {
      HeaderFields(RSP_NACK, 1, HEADER, []);
      assert NACK + [] == NACK;
    }
  }

  // ----------------------------------------------------------------- methods

  /** Copies the payload of a write into place; 0 when empty or too large. */
  method FillPayload(pktBuf: array<byte>, offset: nat, payload: Option<Bytes>, size: u32) returns (len: nat)
    requires offset <= MAX_PKT <= pktBuf.Length
    requires payload.Some? ==> |payload.value| >= size
    modifies pktBuf
    ensures if payload.None? || size == 0 || size > MAX_PKT - offset then len == 0 && pktBuf[..] == old(pktBuf[..])
            else len == offset + size && pktBuf[..] == Splice(old(pktBuf[..]), offset, payload.value[..size])
  {
    if payload.None? || size == 0 || size > MAX_PKT - offset {
      return 0;
    }
    Copy(pktBuf, offset, payload.value[..size]);
    len := offset + size;
  }

  /** The address and size fields of a request for space `sp`. */
  method PutFields(pktBuf: array<byte>, sp: Space, addr: u64, size: u32)
    requires pktBuf.Length >= MAX_PKT
    modifies pktBuf
    ensures pktBuf[..] == Splice(old(pktBuf[..]), HEADER, Fields(sp, addr, size))
  {
    hide Le;
    ghost var a, s := Le(AddrWidth(sp), addr % Span(AddrWidth(sp))), Le(SizeWidth(sp), size % Span(SizeWidth(sp)));
    Copy(pktBuf, HEADER, Le(AddrWidth(sp), addr % Span(AddrWidth(sp))));
    Copy(pktBuf, HEADER + AddrWidth(sp), Le(SizeWidth(sp), size % Span(SizeWidth(sp))));
    SpliceTwice(old(pktBuf[..]), HEADER, a, s);
  }

  /** The address and size fields as `PutFields` lays them out. */
  function Fields(sp: Space, addr: u64, size: u32): (s: Bytes)
    ensures |s| == PayloadOff(sp) - HEADER
  {
    Le(AddrWidth(sp), addr % Span(AddrWidth(sp))) + Le(SizeWidth(sp), size % Span(SizeWidth(sp)))
  }

  lemma EncodeBody(q: Request, sp: Space)
    requires Sound(q) && Encode(q).Some?
    ensures SpaceRead(q.op) == Some(sp) ==>
      |Encode(q).value| == PayloadOff(sp) && Encode(q).value[HEADER..] == Fields(sp, q.addr, q.size)
    ensures SpaceWritten(q.op) == Some(sp) ==>
      && q.payload.Some? && |Encode(q).value| == PayloadOff(sp) + q.size
      && Encode(q).value[HEADER..] == Fields(sp, q.addr, q.size) + q.payload.value[..q.size]
  {
    hide Header, Le, PayloadOff;
    SpaceOps(q.op, sp);
  }

  method PutWrite(pktBuf: array<byte>, q: Request, sp: Space) returns (len: nat)
    requires Sound(q) && SpaceWritten(q.op) == Some(sp) && pktBuf.Length >= MAX_PKT
    modifies pktBuf
    ensures if q.payload.None? || q.size == 0 || q.size > MaxPayload(sp) then len == 0
            else
              var body := Fields(sp, q.addr, q.size) + q.payload.value[..q.size];
              len == PayloadOff(sp) + q.size && pktBuf[..] == Splice(old(pktBuf[..]), HEADER, body)
  {
    hide PayloadOff;
    PutFields(pktBuf, sp, q.addr, q.size);
    len := FillPayload(pktBuf, PayloadOff(sp), q.payload, q.size);
    if len != 0 {
      SpliceTwice(old(pktBuf[..]), HEADER, Fields(sp, q.addr, q.size), q.payload.value[..q.size]);
    }
  }

  /** Lays the request out after the header; 0 when it is refused. */
  method PutBody(pktBuf: array<byte>, q: Request) returns (len: nat)
    requires Sound(q) && pktBuf.Length >= MAX_PKT
    modifies pktBuf
    ensures match Encode(q)
      case None => len == 0
      case Some(f) => len == |f| && pktBuf[..] == Splice(old(pktBuf[..]), HEADER, f[HEADER..])
  {
    hide Fields, PayloadOff, Header, Prologue;
    if HeaderOnly(q.op) {
      len := HEADER;
      assert pktBuf[..] == Splice(pktBuf[..], HEADER, []);
    } else if SpaceRead(q.op).Some? {
      var sp := SpaceRead(q.op).value;
      PutFields(pktBuf, sp, q.addr, q.size);
      len := PayloadOff(sp);
      EncodeBody(q, sp);
    } else if SpaceWritten(q.op).Some? {
      var sp := SpaceWritten(q.op).value;
      len := PutWrite(pktBuf, q, sp);
      if len != 0 { EncodeBody(q, sp); }
    } else {
      len := 0;
    }
  }

  /** What is in the client's `size`-byte buffer when `f` was sent and `r` came
      back: the reply over what is left of the request over zeros. */
  function Received(f: Bytes, r: Bytes, size: nat): (b: Bytes)
    requires |f| <= size && |r| <= size
    ensures |b| == size && b[..|r|] == r
  {
    Splice(f + Zeros(size - |f|), 0, r)
  }

  /** Builds, sends and waits; the reply is left in `pktBuf`. */
  method ExecuteFunction(sock: Socket, q: Request, pktBuf: array<byte>) returns (ok: bool)
    requires Sound(q)
    modifies sock, pktBuf
    ensures pktBuf.Length < MAX_PKT || Encode(q).None? ==>
      !ok && sock.outgoing == old(sock.outgoing) && sock.incoming == old(sock.incoming)
    ensures pktBuf.Length >= MAX_PKT && Encode(q).Some? ==>
      var f, n := Encode(q).value, Min(|Encode(q).value|, old(sock.room));
      && sock.outgoing == old(sock.outgoing) + f[..n] && sock.room == old(sock.room) - n
      && if n < |f| then !ok else
         match FirstPacket(old(sock.incoming), pktBuf.Length)
         case Frame(r) =>
           && ok == Verified(q.op, Opcode(r)) && sock.incoming == old(sock.incoming)[|r|..]
           && pktBuf[..] == Received(f, r, pktBuf.Length)
         case _ => !ok
  {
    hide FirstPacket, Verified;
    if pktBuf.Length < MAX_PKT {
      return false;
    }
    forall i | 0 <= i < pktBuf.Length { pktBuf[i] := 0; }
    assert pktBuf[..] == Zeros(pktBuf.Length);
    var len := PutBody(pktBuf, q);
    if len == 0 {
      return false;
    }
    PutHeader(pktBuf, q, len);
    ghost var f := Encode(q).value;
    var sent := WritePacket(sock, pktBuf);
    forall n | 0 <= n <= len ensures pktBuf[..n] == f[..n] { assert pktBuf[..n] == pktBuf[..len][..n]; }
    if !sent {
      return false;
    }
    var r := ReadPacket(sock, pktBuf);
    if r <= 0 {
      return false;
    }
    assert pktBuf[..r][0..2] == pktBuf[..HEADER][0..2];
    ok := Verified(q.op, Opcode(pktBuf[..HEADER]));
  }

  /** The header of the request, over a buffer that was cleared first. */
  method PutHeader(pktBuf: array<byte>, q: Request, len: nat)
    requires Sound(q) && Encode(q).Some? && len == |Encode(q).value| && pktBuf.Length >= MAX_PKT
    requires pktBuf[..] == Splice(Zeros(pktBuf.Length), HEADER, Encode(q).value[HEADER..])
    modifies pktBuf
    ensures pktBuf[..] == Encode(q).value + Zeros(pktBuf.Length - len)
    ensures pktBuf[..len] == Encode(q).value && PktLen(pktBuf[..HEADER]) == len
  {
    hide Header, PktLen;
    DecodeOfEncode(q);
    ghost var f := Encode(q).value;
    EncodeHeader(q);
    Copy(pktBuf, 0, Header(q.op, 0, len));
    HeaderOver(f, pktBuf.Length);
    assert pktBuf[..len] == pktBuf[..][..len] == f;
    HeaderFields(q.op, 0, len, []);
    assert Header(q.op, 0, len) + [] == pktBuf[..HEADER];
  }

  lemma HeaderOver(f: Bytes, size: nat)
    requires HEADER <= |f| <= size
    ensures Splice(Splice(Zeros(size), HEADER, f[HEADER..]), 0, f[..HEADER]) == f + Zeros(size - |f|)
  {
    var s := Splice(Splice(Zeros(size), HEADER, f[HEADER..]), 0, f[..HEADER]);
    assert s == f[..HEADER] + Splice(Zeros(size), HEADER, f[HEADER..])[HEADER..];
    assert Zeros(size)[|f|..] == Zeros(size - |f|);
  }

  lemma EncodeHeader(q: Request)
    requires Sound(q) && Encode(q).Some?
    ensures q.op < MAX16
    ensures Encode(q).value == Header(q.op, 0, |Encode(q).value|) + Encode(q).value[HEADER..]
  {
    hide Header, Le, PayloadOff;
  }
}
