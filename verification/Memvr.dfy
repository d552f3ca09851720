/** memvr's client.c: 32-bit reads, writes and read-modify-writes of physical
    memory over a connection. */
module Memvr {
  import opened Bits
  import opened Bytes
  import opened Listing
  import opened Machines
  import opened LibPort
  import opened LibMem
  import opened Packet
  import opened Transfer
  import opened Handler
  import opened Client
  import opened Session

  datatype Modify = OrOp | AndOp

  function Combine(op: Modify, x: u32, y: u32): (r: u32) {
    PowersOf256();
    OrBounded(x, y, 32);
    AndBounded(x, y);
    match op case OrOp => Or(x, y) case AndOp => And(x, y)
  }

  function ReadRequest(addr: u64, len: u32): Call { Request(5, addr, len, None) }

  function WriteRequest(addr: u64, value: u32): Call { Request(7, addr, 4, Some(Le(4, value))) }

  function Word(data: Bytes): (w: u32)
    requires |data| == 4
  {
    FromLeBounded(data);
    Spans();
    FromLe(data)
  }

  lemma WordOfLe(w: u32)
    ensures Word(Le(4, w)) == w
  {
    Spans();
    FieldExact(4, w);
  }

  /** memoryORDWord / memoryANDDWord as a client program. */
  function ModifyNext(op: Modify, addr: u64, value: u32, results: seq<Outcome>): Option<Call> {
    if results == [] then Some(ReadRequest(addr, 4))
    else if |results| == 1 && results[0].Got? && results[0].ok && |results[0].data| == 4 then
      Some(WriteRequest(addr, Combine(op, Word(results[0].data), value)))
    else None
  }

  function ModifyProgram(op: Modify, addr: u64, value: u32): Program {
    (results: seq<Outcome>) => ModifyNext(op, addr, value, results)
  }

  /** The 32-bit word at `addr`, as the hardware holds it. */
  function WordAt(ram: map<nat, byte>, addr: u64): u32 {
    Word(Fetch(ram, Everywhere, addr, 4))
  }

  ghost predicate Backed(ram: map<nat, byte>, addr: u64) {
    forall i :: 0 <= i < 4 ==> At(addr, i) in ram
  }

  lemma {:induction false} AtMostTwoCalls(op: Modify, addr: u64, value: u32, m0: Machine, n: nat)
    ensures |LocalRun(ModifyProgram(op, addr, value), m0, n).results| <= (if n <= 2 then n else 2)
  {
    hide Direct, Intended, ReadRequest, WriteRequest, Combine, Word;
    if n > 0 { AtMostTwoCalls(op, addr, value, m0, n - 1); }
  }

  /** The intent of the two requests, spelled out. */
  lemma MemIntents(addr: u64, value: u32)
    ensures Intended(ReadRequest(addr, 4)) == Do(Read(Mem, addr, 4))
    ensures Intended(WriteRequest(addr, value)) == Do(Write(Mem, addr, Le(4, value)))
  {
    hide Le;
    Spans();
    assert Le(4, value)[..4] == Le(4, value);
  }

  /** Storing a word and fetching it again, where RAM answers and is reached. */
  lemma StoreWord(ram: map<nat, byte>, shown: nat -> bool, addr: u64, value: u32)
    requires Backed(ram, addr) && forall i :: 0 <= i < 4 ==> shown(At(addr, i))
    ensures var r := Store(ram, shown, addr, Le(4, value));
      && Fetch(r, Everywhere, addr, 4) == Le(4, value)
      && forall a: u64 :: OffsetOf(a, addr) >= 4 ==> RamByte(r, a) == RamByte(ram, a)
  {
    hide Store, Le;
    var data := Le(4, value);
    var r := Store(ram, shown, addr, data);
    forall a: u64 ensures OffsetOf(a, addr) >= 4 ==> RamByte(r, a) == RamByte(ram, a) {
      StoreLaw(ram, shown, addr, data, a);
    }
    forall i | 0 <= i < 4 ensures Fetch(r, Everywhere, addr, 4)[i] == data[i] {
      StoreLaw(ram, shown, addr, data, At(addr, i));
      assert OffsetOf(At(addr, i), addr) == i;
    }
  }

  /** The two calls of a read-modify-write on memory, with no program and no wire. */
  function ModifyInPlace(op: Modify, addr: u64, value: u32, m: Machine): Local {
    var r := MemRead(m, addr, 4);
    if !r.ok then Local(m, true, [Got(false, r.data)])
    else
      var w := MemWrite(m, addr, Le(4, Combine(op, Word(r.data), value)));
      Local(w.m, true, [Got(true, r.data), Got(w.ok, [])])
  }

  /** The direct run of the program makes exactly those two calls. */
  lemma ModifyLocally(op: Modify, addr: u64, value: u32, m0: Machine)
    ensures LocalRun(ModifyProgram(op, addr, value), m0, 2) == ModifyInPlace(op, addr, value, m0)
    ensures LocalRun(ModifyProgram(op, addr, value), m0, 1).results == ModifyInPlace(op, addr, value, m0).results[..1]
  {
    hide MemRead, MemWrite, Combine, Le, Intended, ReadRequest, WriteRequest, Word;
    var prog := ModifyProgram(op, addr, value);
    var r := MemRead(m0, addr, 4);
    MemIntents(addr, 0);
    RequestOps(addr, 0);
    assert prog([]) == Some(ReadRequest(addr, 4));
    var l0, l1 := LocalRun(prog, m0, 0), LocalRun(prog, m0, 1);
    assert l1 == LocalCall(l0, ReadRequest(addr, 4)) == Local(m0, true, [Got(r.ok, r.data)]);
    if r.ok {
      var new' := Combine(op, Word(r.data), value);
      MemIntents(addr, new');
      RequestOps(addr, new');
      assert prog(l1.results) == Some(WriteRequest(addr, new'));
      assert LocalRun(prog, m0, 2) == LocalCall(l1, WriteRequest(addr, new'));
    } else {
      assert prog(l1.results) == None;
      assert LocalRun(prog, m0, 2) == l1;
    }
  }

  lemma RequestOps(addr: u64, value: u32)
    ensures ReadRequest(addr, 4).op != REQ_DISCONNECT && WriteRequest(addr, value).op != REQ_DISCONNECT
  {
  }

  /** Both calls complete, and RAM answers at each of the four addresses and is
      reached there: through a mapping, or because the kernel exposes the page. */
  ghost predicate Updatable(mem: MemDevice, addr: u64) {
    && Completes(mem, false, addr, 4) && Completes(mem, true, addr, 4)
    && forall i :: 0 <= i < 4 ==> At(addr, i) in mem.ram && Reaches(mem, addr, 4, At(addr, i))
  }

  /** On updatable memory the two calls combine the word and touch nothing else. */
  lemma ModifyUpdates(op: Modify, addr: u64, value: u32, m: Machine)
    requires Updatable(m.mem, addr)
    ensures var l := ModifyInPlace(op, addr, value, m);
      && l.results == [Got(true, Fetch(m.mem.ram, Everywhere, addr, 4)), Got(true, [])]
      && WordAt(l.m.mem.ram, addr) == Combine(op, WordAt(m.mem.ram, addr), value)
      && forall a: u64 :: OffsetOf(a, addr) >= 4 ==> RamByte(l.m.mem.ram, a) == RamByte(m.mem.ram, a)
  {
    var window := Window(m.mem, addr, 4);
    var new' := Combine(op, WordAt(m.mem.ram, addr), value);
    assert Fetch(m.mem.ram, window, addr, 4) == Fetch(m.mem.ram, Everywhere, addr, 4);
    ReadThroughWindow(m, addr, 4);
    WriteThroughWindow(m, addr, Le(4, new'));
    StoreWord(m.mem.ram, window, addr, new');
    WordOfLe(new');
    hide MemRead, MemWrite, Fetch, Store, Combine, Le, Word, MapRange;
  }

  /** An address where RAM does not answer, which a call does not reach, or that
      a failing call leaves alone. */
  ghost predicate Stuck(mem: MemDevice, addr: u64, j: nat) {
    || !Completes(mem, false, addr, 4) || (!Completes(mem, true, addr, 4) && j == 3)
    || At(addr, j) !in mem.ram || !Reaches(mem, addr, 4, At(addr, j))
  }

  lemma StuckByte(m: Machine, addr: u64) returns (j: nat)
    requires !Updatable(m.mem, addr)
    ensures j < 4 && Stuck(m.mem, addr, j)
  {
    hide Completes, Reaches;
    j := 3;
    if Completes(m.mem, false, addr, 4) && Completes(m.mem, true, addr, 4) {
      var i :| 0 <= i < 4 && !(At(addr, i) in m.mem.ram && Reaches(m.mem, addr, 4, At(addr, i)));
      j := i;
    }
  }

  lemma WriteMisses(m: Machine, addr: u64, data: Bytes, j: nat)
    requires j < 4 == |data| && Stuck(m.mem, addr, j) && Completes(m.mem, false, addr, 4)
    ensures RamByte(MemWrite(m, addr, data).m.mem.ram, At(addr, j)) == RamByte(m.mem.ram, At(addr, j))
  {
    hide MapRange, Store;
    assert OffsetOf(At(addr, j), addr) == j;
    if MapRange(m.mem, addr, 4) != NoMapping {
      StoreLaw(m.mem.ram, Everywhere, addr, data, At(addr, j));
    } else if m.mem.open {
      StoreLaw(m.mem.ram, m.mem.exposed, addr, data[..Moved(m.mem, true, addr, 4)], At(addr, j));
    }
  }

  /** A stuck byte is as before, whatever the operation and its operand. */
  lemma StuckStays(op: Modify, addr: u64, value: u32, m: Machine, j: nat)
    requires j < 4 && Stuck(m.mem, addr, j)
    ensures RamByte(ModifyInPlace(op, addr, value, m).m.mem.ram, At(addr, j)) == RamByte(m.mem.ram, At(addr, j))
  {
    hide Combine, Le, Word, Stuck;
    ReadThroughWindow(m, addr, 4);
    var r := MemRead(m, addr, 4);
    hide MemRead, MemWrite;
    if r.ok { WriteMisses(m, addr, Le(4, Combine(op, Word(r.data), value)), j); }
  }

  lemma {:induction false} OrOnes(x: nat, n: nat)
    requires x < Pow2(n)
    ensures Or(x, Pow2(n) - 1) == Pow2(n) - 1
  {
    if x != 0 && n > 0 { OrOnes(x / 2, n - 1); }
  }

  /** OR with all ones and AND with zero tell which bytes they reach. */
  lemma Extremes(x: u32)
    ensures Combine(OrOp, x, MAX32 - 1) == MAX32 - 1 && Combine(AndOp, x, 0) == 0
  {
    PowersOf256();
    OrOnes(x, 32);
  }

  lemma UniformWords(ram: map<nat, byte>, addr: u64, j: nat)
    requires j < 4
    ensures WordAt(ram, addr) == MAX32 - 1 ==> RamByte(ram, At(addr, j)) == 255
    ensures WordAt(ram, addr) == 0 ==> RamByte(ram, At(addr, j)) == 0
  {
    var s := Fetch(ram, Everywhere, addr, 4);
    LeOfFromLe(s);
    assert Le(2, 0xFFFF) == [255, 255];
    assert Le(4, MAX32 - 1) == [255, 255] + Le(2, 0xFFFF);
    assert Le(4, 0) == [0, 0, 0, 0];
    assert s[j] == RamByte(ram, At(addr, j));
  }

  /** Exactly when a read-modify-write does what it says: the word becomes the
      combination for every operation and operand if and only if both calls
      complete and all four bytes are RAM that they reach. */
  lemma ExactIffUpdatable(m: Machine, addr: u64)
    ensures Updatable(m.mem, addr) <==>
      forall op, value: u32 ::
        WordAt(ModifyInPlace(op, addr, value, m).m.mem.ram, addr) == Combine(op, WordAt(m.mem.ram, addr), value)
  {
    hide ModifyInPlace, WordAt, Updatable, Combine;
    if Updatable(m.mem, addr) {
      forall op, value: u32
        ensures WordAt(ModifyInPlace(op, addr, value, m).m.mem.ram, addr) ==
          Combine(op, WordAt(m.mem.ram, addr), value)
      {
        ModifyUpdates(op, addr, value, m);
      }
    } else {
      var j := StuckByte(m, addr);
      var op, value: u32 := if RamByte(m.mem.ram, At(addr, j)) == 255 then AndOp else OrOp,
                            if RamByte(m.mem.ram, At(addr, j)) == 255 then 0 else MAX32 - 1;
      StuckStays(op, addr, value, m, j);
      Extremes(WordAt(m.mem.ram, addr));
      UniformWords(ModifyInPlace(op, addr, value, m).m.mem.ram, addr, j);
      assert WordAt(ModifyInPlace(op, addr, value, m).m.mem.ram, addr) != Combine(op, WordAt(m.mem.ram, addr), value);
    }
  }

  /** Both calls were made and reported success. */
  predicate Reported(l: Local) {
    && |l.results| == 2
    && l.results[0].Got? && l.results[0].ok && l.results[1].Got? && l.results[1].ok
  }

  lemma ReportedIffComplete(op: Modify, addr: u64, value: u32, m: Machine)
    ensures Reported(ModifyInPlace(op, addr, value, m)) <==>
      Completes(m.mem, false, addr, 4) && Completes(m.mem, true, addr, 4)
  {
    hide Combine, Word, Le, Completes;
    ReadThroughWindow(m, addr, 4);
    var r := MemRead(m, addr, 4);
    hide MemRead, MemWrite;
    if r.ok { WriteThroughWindow(m, addr, Le(4, Combine(op, Word(r.data), value))); }
  }

  /** Exactly when success can be believed: whenever both calls report success the
      word is the combination, for every operation and operand, if and only if
      one of the calls does not complete or the memory is updatable. */
  lemma TruthfulIff(m: Machine, addr: u64)
    ensures
      (!Completes(m.mem, false, addr, 4) || !Completes(m.mem, true, addr, 4) || Updatable(m.mem, addr)) <==>
      forall op, value: u32 :: Reported(ModifyInPlace(op, addr, value, m)) ==>
        WordAt(ModifyInPlace(op, addr, value, m).m.mem.ram, addr) == Combine(op, WordAt(m.mem.ram, addr), value)
  {
    hide ModifyInPlace, WordAt, Updatable, Combine, Completes, Reported;
    ExactIffUpdatable(m, addr);
    forall op, value: u32
      ensures Reported(ModifyInPlace(op, addr, value, m)) <==>
        Completes(m.mem, false, addr, 4) && Completes(m.mem, true, addr, 4)
    {
      ReportedIffComplete(op, addr, value, m);
    }
  }

  /** Memory that mmap() refuses and whose first byte the kernel hides. */
  function HiddenByte(): MemDevice {
    MemDevice(true, 12, (_, _) => false, (_, _, len) => len, a => a != 0, map[0 := 0, 1 := 0, 2 := 0, 3 := 0])
  }

  /** It can fail in silence: on such memory both calls of `0 |= 1` report success
      and the word is still 0. */
  lemma HiddenPageIgnored(m: Machine)
    requires m.mem == HiddenByte()
    ensures var l := ModifyInPlace(OrOp, 0, 1, m);
      && l.results == [Got(true, [0, 0, 0, 0]), Got(true, [])]
      && WordAt(m.mem.ram, 0) == 0 == WordAt(l.m.mem.ram, 0) && Combine(OrOp, 0, 1) == 1
  {
    CombineNothing(1);
    assert Le(4, 1) == [1, 0, 0, 0];
    hide MemRead, MemWrite, Combine, Word, Le;
    HiddenRead(m);
    HiddenWrite(m, Le(4, 1));
  }

  lemma HiddenIsUnmapped(mem: MemDevice)
    requires mem == HiddenByte()
    ensures MapRange(mem, 0, 4) == NoMapping && Completes(mem, false, 0, 4) && Completes(mem, true, 0, 4)
    ensures !Reaches(mem, 0, 4, 0) && forall i :: 0 <= i < 4 ==> RamByte(mem.ram, i) == 0
  {
    hide PageOf;
  }

  /** Four addresses from 0 that all hold, or show, zero. */
  lemma AllZero(ram: map<nat, byte>, shown: nat -> bool)
    requires forall i :: 0 <= i < 4 ==> Seen(ram, shown, i) == 0
    ensures Fetch(ram, shown, 0, 4) == [0, 0, 0, 0] && Word([0, 0, 0, 0]) == 0
  {
    CombineNothing(0);
    hide Word;
    forall i | 0 <= i < 4 ensures Fetch(ram, shown, 0, 4)[i] == 0 { assert At(0, i) == i; }
  }

  lemma HiddenRead(m: Machine)
    requires m.mem == HiddenByte()
    ensures MemRead(m, 0, 4).ok && MemRead(m, 0, 4).data == [0, 0, 0, 0] && WordAt(m.mem.ram, 0) == 0
  {
    hide MapRange, Completes, Reaches, Word, Fetch, MemRead, HiddenByte;
    HiddenIsUnmapped(m.mem);
    ReadThroughWindow(m, 0, 4);
    AllZero(m.mem.ram, Window(m.mem, 0, 4));
    AllZero(m.mem.ram, Everywhere);
  }

  lemma HiddenWrite(m: Machine, data: Bytes)
    requires m.mem == HiddenByte() && data == [1, 0, 0, 0]
    ensures MemWrite(m, 0, data).ok && WordAt(MemWrite(m, 0, data).m.mem.ram, 0) == 0
  {
    hide MapRange, Completes, Reaches, Word, Fetch, MemWrite, HiddenByte, Store;
    HiddenIsUnmapped(m.mem);
    WriteThroughWindow(m, 0, data);
    var ram' := MemWrite(m, 0, data).m.mem.ram;
    forall j | 0 <= j < 4 ensures RamByte(ram', j) == 0 {
      StoreLaw(m.mem.ram, Window(m.mem, 0, 4), 0, data, j);
      assert OffsetOf(j, 0) == j;
    }
    AllZero(ram', Everywhere);
  }

  lemma CombineNothing(value: u32)
    ensures Word([0, 0, 0, 0]) == 0 && Combine(OrOp, Word([0, 0, 0, 0]), value) == value
  {
    assert Word([0, 0, 0, 0]) == 0 by { WordOfLe(0); assert Le(4, 0) == [0, 0, 0, 0]; }
  }

  /** A client alone on the machine, on every schedule of the wire: when its
      program is over it has seen, and the machine is as after, the two calls made
      directly. Where memory is updatable it therefore gets exactly `old | value`
      or `old & value`, and no other byte changes. */
  lemma ModifyAlone(op: Modify, addr: u64, value: u32, m0: Machine, steps: seq<Step>)
    requires After(ModifyProgram(op, addr, value), m0, steps).Some?
    ensures var w := After(ModifyProgram(op, addr, value), m0, steps).value;
      w.client.Ready? && ModifyProgram(op, addr, value)(w.results) == None ==>
        && w.m == ModifyInPlace(op, addr, value, m0).m && w.results == ModifyInPlace(op, addr, value, m0).results
        && (Updatable(m0.mem, addr) ==>
             && w.results == [Got(true, Fetch(m0.mem.ram, Everywhere, addr, 4)), Got(true, [])]
             && WordAt(w.m.mem.ram, addr) == Combine(op, WordAt(m0.mem.ram, addr), value)
             && forall a: u64 :: OffsetOf(a, addr) >= 4 ==> RamByte(w.m.mem.ram, a) == RamByte(m0.mem.ram, a))
  {
    hide Updatable, Fetch, Combine, Le, After, LocalRun, WriteRequest, ReadRequest, MemRead, MemWrite, Word, WordAt;
    var prog := ModifyProgram(op, addr, value);
    var w := After(prog, m0, steps).value;
    SessionRefinesDirect(prog, m0, steps);
    AtMostTwoCalls(op, addr, value, m0, |w.results|);
    ModifyLocally(op, addr, value, m0);
    if w.client.Ready? && prog(w.results) == None {
      OverAtTwo(op, addr, value, m0, |w.results|);
      if Updatable(m0.mem, addr) { ModifyUpdates(op, addr, value, m0); }
    }
  }

  /** Once the program is over, more calls change nothing. */
  lemma OverAtTwo(op: Modify, addr: u64, value: u32, m0: Machine, n: nat)
    requires n <= 2
    requires ModifyProgram(op, addr, value)(LocalRun(ModifyProgram(op, addr, value), m0, n).results) == None
    ensures LocalRun(ModifyProgram(op, addr, value), m0, n) == LocalRun(ModifyProgram(op, addr, value), m0, 2)
  {
    hide LocalCall, ReadRequest, WriteRequest, Combine, Word;
    var prog := ModifyProgram(op, addr, value);
    assert n != 0 by { assert LocalRun(prog, m0, 0).results == []; }
    assert n == 1 ==> LocalRun(prog, m0, 2) == LocalRun(prog, m0, 1);
  }

  // ----------------------------------------------------------------- methods

  /** The packet buffer passes for a verified reply to a read of `len` bytes. */
  predicate GoodRead(r: Bytes, len: nat)
    requires |r| >= PayloadOff(Mem)
  {
    Verified(5, Opcode(r)) && RawSize(r, Mem) == len && ErrorCode(r) == 0
  }

  /** The buffer in which the reply `r` to a read is looked at. */
  function AfterRead(addr: u64, len: u32, r: Bytes): (b: Bytes)
    requires |r| <= MAX_PKT
    ensures |b| == MAX_PKT && b[..|r|] == r
  {
    ReadEncodes(addr, len);
    Received(Encode(ReadRequest(addr, len)).value, r, MAX_PKT)
  }

  /** A read asks once and looks at the buffer that holds the reply: if that is
      good it copies the payload, and else fails. */
  method MemoryReadBuffer(sock: Socket, addr: u64, len: u32, buf: array<byte>, pktBuf: array<byte>) returns (ok: bool)
    requires pktBuf.Length == MAX_PKT && buf != pktBuf && len <= buf.Length
    modifies sock, buf, pktBuf
    ensures len > MaxPayload(Mem) ==> !ok && sock.outgoing == old(sock.outgoing) && sock.incoming == old(sock.incoming)
    ensures len <= MaxPayload(Mem) ==>
      var f := Encode(ReadRequest(addr, len)).value;
      && sock.outgoing == old(sock.outgoing) + f[..Min(|f|, old(sock.room))]
      && sock.room == old(sock.room) - Min(|f|, old(sock.room))
      && (|f| > old(sock.room) ==> !ok)
      && (|f| <= old(sock.room) ==>
           match FirstPacket(old(sock.incoming), MAX_PKT)
           case Frame(r) =>
             var b := AfterRead(addr, len, r);
             && sock.incoming == old(sock.incoming)[|r|..]
             && ok == GoodRead(b, len)
             && (ok ==> buf[..len] == b[PayloadOff(Mem)..PayloadOff(Mem) + len])
           case _ => !ok)
    ensures !ok ==> buf[..] == old(buf[..])
  {
    hide Encode, FirstPacket, Verified, Opcode, RawSize, ErrorCode, Received;
    if len > MaxPayload(Mem) {
      return false;
    }
    ReadEncodes(addr, len);
    ok := ExecuteFunction(sock, ReadRequest(addr, len), pktBuf);
    ghost var first := FirstPacket(old(sock.incoming), MAX_PKT);
    if first.Frame? && |Encode(ReadRequest(addr, len)).value| <= old(sock.room) {
      SameOpcode(pktBuf[..], first.f);
    }
    if !ok {
      return;
    }
    if RawSize(pktBuf[..], Mem) != len || ErrorCode(pktBuf[..]) != 0 {
      return false;
    }
    Copy(buf, 0, pktBuf[PayloadOff(Mem)..PayloadOff(Mem) + len]);
    assert buf[..len] == buf[0..len];
  }

  lemma SameOpcode(buf: Bytes, r: Bytes)
    requires HEADER <= |r| <= |buf| && buf[..|r|] == r
    ensures Opcode(buf) == Opcode(r) && ErrorCode(buf) == ErrorCode(r)
  {
    SubSlice(buf, |r|, 0, 2);
    SubSlice(buf, |r|, 2, 4);
  }

  lemma ReadEncodes(addr: u64, len: u32)
    ensures Encode(ReadRequest(addr, len)).Some? && |Encode(ReadRequest(addr, len)).value| == PayloadOff(Mem)
  {
  }

  /** The bytes of the size field that `r` has are those of `len`. */
  predicate SizeAgrees(r: Bytes, len: u32) {
    forall k :: 16 <= k < 20 && k < |r| ==> r[k] == Le(4, len)[k - 16]
  }

  /** What of a reply the client looks at. */
  predicate Passes(r: Bytes, len: u32)
    requires |r| >= HEADER
  {
    Verified(5, Opcode(r)) && ErrorCode(r) == 0 && SizeAgrees(r, len)
  }

  /** How every reply is judged and read. It passes on its opcode, its error flag
      and as much of the size field as it has; of the payload it lacks, zeros are
      read. */
  lemma ReplyJudged(addr: u64, len: u32, r: Bytes)
    requires HEADER <= |r| <= MAX_PKT && len <= MaxPayload(Mem)
    ensures var b := AfterRead(addr, len, r);
      && (GoodRead(b, len) <==> Passes(r, len))
      && forall k :: 20 <= k < 20 + len ==> b[k] == if k < |r| then r[k] else 0
  {
    hide Opcode, ErrorCode, Verified, Encode, Le, Prologue;
    ReadEncodes(addr, len);
    var f := Encode(ReadRequest(addr, len)).value;
    var b := AfterRead(addr, len, r);
    SameOpcode(b, r);
    RequestSizeField(addr, len);
    Spans();
    FieldExact(4, len);
    LeOfFromLe(f[16..20]);
    LeOfFromLe(b[16..20]);
    assert f[16..20] == Le(4, len);
    assert RawSize(b, Mem) == len <==> b[16..20] == Le(4, len);
    BufferBytes(f, r);
    forall k | 16 <= k < 20
      ensures b[k] == if k < |r| then r[k] else Le(4, len)[k - 16]
    {
      assert f[16..20][k - 16] == f[k];
    }
    assert b[16..20] == Le(4, len) <==> SizeAgrees(r, len) by {
      forall k | 16 <= k < 20 ensures b[16..20][k - 16] == b[k] { }
      if SizeAgrees(r, len) { assert b[16..20] == Le(4, len); }
      if b[16..20] == Le(4, len) {
        forall k | 16 <= k < 20 && k < |r| ensures r[k] == Le(4, len)[k - 16] { assert b[16..20][k - 16] == b[k]; }
      }
    }
  }

  lemma BufferBytes(f: Bytes, r: Bytes)
    requires |f| <= MAX_PKT && |r| <= MAX_PKT
    ensures var b := Received(f, r, MAX_PKT);
      forall k :: 0 <= k < MAX_PKT ==> b[k] == if k < |r| then r[k] else if k < |f| then f[k] else 0
  {
  }

  /** Exactly when memvr reads what it was sent: it accepts a reply if and only if
      that passes and holds the whole payload, unless the reply passes and ends
      before the end of the payload. */
  lemma ReadExact(addr: u64, len: u32, r: Bytes)
    requires HEADER <= |r| <= MAX_PKT && len <= MaxPayload(Mem)
    ensures var b := AfterRead(addr, len, r);
      var whole := Passes(r, len) && |r| >= PayloadOff(Mem) + len;
      && ((GoodRead(b, len) <==> whole) <==> !(Passes(r, len) && |r| < PayloadOff(Mem) + len))
      && (whole ==> b[PayloadOff(Mem)..PayloadOff(Mem) + len] == r[PayloadOff(Mem)..PayloadOff(Mem) + len])
  {
    hide Passes, AfterRead, GoodRead;
    ReplyJudged(addr, len, r);
  }

  /** A reply that holds the payload it announces is judged and copied by its own
      bytes alone. */
  lemma WholeReplyCounts(addr: u64, len: u32, r: Bytes)
    requires PayloadOff(Mem) + len <= |r| <= MAX_PKT
    ensures var b := AfterRead(addr, len, r);
      && GoodRead(b, len) == GoodRead(r, len)
      && b[PayloadOff(Mem)..PayloadOff(Mem) + len] == r[PayloadOff(Mem)..PayloadOff(Mem) + len]
  {
    hide Opcode, ErrorCode, Verified, Encode, Received;
    var b := AfterRead(addr, len, r);
    SameOpcode(b, r);
    SubSlice(b, |r|, 16, 20);
    SubSlice(b, |r|, PayloadOff(Mem), PayloadOff(Mem) + len);
  }

  /** A reply to a read of four bytes that stops where its payload should start. */
  function EmptyReply(): (r: Bytes)
    ensures |r| == 20
  {
    [6, 0, 0, 0, 20, 0, 0, 0] + [0, 0, 0, 0, 0, 0, 0, 0] + [4, 0, 0, 0]
  }

  /** It is a whole packet, and it is read as four zeros. */
  lemma EmptyReplyAccepted(addr: u64)
    ensures WellFramed(EmptyReply(), MAX_PKT) && |EmptyReply()| < PayloadOff(Mem) + 4
    ensures var b := AfterRead(addr, 4, EmptyReply());
      GoodRead(b, 4) && b[20..24] == [0, 0, 0, 0]
  {
    hide AfterRead, GoodRead, EmptyReply, Le, Opcode, ErrorCode, PktLen;
    EmptyReplyFields();
    ReplyJudged(addr, 4, EmptyReply());
    assert AfterRead(addr, 4, EmptyReply())[20..24] == [0, 0, 0, 0];
  }

  lemma EmptyReplyFields()
    ensures var r := EmptyReply();
      Opcode(r) == 6 && ErrorCode(r) == 0 && PktLen(r) == 20 && SizeAgrees(r, 4)
  {
    hide Le, FromLe;
    var r := EmptyReply();
    SmallFields();
    Spans();
    FieldExact(2, 6);
    FieldExact(2, 0);
    FieldExact(4, 20);
    assert r[0..2] == Le(2, 6) && r[2..4] == Le(2, 0) && r[4..8] == Le(4, 20);
  }

  lemma SmallFields()
    ensures Le(2, 6) == [6, 0] && Le(2, 0) == [0, 0] && Le(4, 20) == [20, 0, 0, 0] && Le(4, 4) == [4, 0, 0, 0]
  {
  }

  /** A reply that ends before the size field passes by opcode and error flag, and
      reads as zeros throughout. */
  lemma ShortReplyReadsZeros(addr: u64, len: u32, r: Bytes)
    requires HEADER <= |r| <= 16 && len <= MaxPayload(Mem)
    ensures var b := AfterRead(addr, len, r);
      && (GoodRead(b, len) <==> Verified(5, Opcode(r)) && ErrorCode(r) == 0)
      && b[PayloadOff(Mem)..PayloadOff(Mem) + len] == Zeros(len)
  {
    hide AfterRead, GoodRead;
    ReplyJudged(addr, len, r);
  }

  lemma RequestSizeField(addr: u64, len: u32)
    ensures Encode(ReadRequest(addr, len)).Some? && |Encode(ReadRequest(addr, len)).value| == PayloadOff(Mem)
    ensures RawSize(Encode(ReadRequest(addr, len)).value, Mem) == len
  {
    hide Prologue, RawSize;
    Spans();
    DivModUnique(addr, Span(8), 0, addr);
    DivModUnique(len, Span(4), 0, len);
    PrologueFields(Mem, 5, addr, len, PayloadOff(Mem), []);
    var f := Encode(ReadRequest(addr, len)).value;
    assert f + [] == f;
  }

  method MemoryWriteDWord(sock: Socket, addr: u64, value: u32, pktBuf: array<byte>) returns (ok: bool)
    requires pktBuf.Length == MAX_PKT
    modifies sock, pktBuf
    ensures var f := Encode(WriteRequest(addr, value)).value;
      && |f| == 24
      && sock.outgoing == old(sock.outgoing) + f[..Min(24, old(sock.room))]
      && ok == (old(sock.room) >= 24 && GoodWrite(FirstPacket(old(sock.incoming), MAX_PKT)))
  {
    hide Encode, FirstPacket, Verified, Opcode, ErrorCode, WriteRequest;
    WriteEncodes(addr, value);
    ok := ExecuteFunction(sock, WriteRequest(addr, value), pktBuf);
    if ok {
      ghost var r := FirstPacket(old(sock.incoming), MAX_PKT).f;
      assert pktBuf[..HEADER][2..4] == pktBuf[..|r|][2..4] == r[2..4];
      ErrorCodeOfHeader(pktBuf[..HEADER], r);
      ok := ErrorCode(pktBuf[..HEADER]) == 0;
    }
  }

  predicate GoodWrite(first: Transfer.Scan) {
    first.Frame? && |first.f| >= HEADER && Verified(7, Opcode(first.f)) && ErrorCode(first.f) == 0
  }

  lemma ErrorCodeOfHeader(h: Bytes, r: Bytes)
    requires |h| == HEADER <= |r| && h[2..4] == r[2..4]
    ensures ErrorCode(h) == ErrorCode(r)
  {
  }

  lemma WriteEncodes(addr: u64, value: u32)
    ensures Encode(WriteRequest(addr, value)).Some? && |Encode(WriteRequest(addr, value)).value| == 24
    ensures WriteRequest(addr, value).op == 7
  {
    hide Le;
  }

  /** Reads the word, then writes it combined with `value`: exactly the program
      `ModifyProgram`, driven by the replies that arrive. */
  method MemoryModifyDWord(sock: Socket, op: Modify, addr: u64, value: u32, pktBuf: array<byte>) returns (ok: bool)
    requires pktBuf.Length == MAX_PKT
    modifies sock, pktBuf
    ensures var f := Encode(ReadRequest(addr, 4)).value;
      var room := old(sock.room);
      if room < 20 then sock.outgoing == old(sock.outgoing) + f[..room] && !ok
      else
        match FirstPacket(old(sock.incoming), MAX_PKT)
        case Frame(r) =>
          var b := AfterRead(addr, 4, r);
          if GoodRead(b, 4) then
            var g := Encode(WriteRequest(addr, Combine(op, Word(b[20..24]), value))).value;
            && sock.outgoing == old(sock.outgoing) + f + g[..Min(24, room - 20)]
            && ok == (room >= 44 && GoodWrite(FirstPacket(old(sock.incoming)[|r|..], MAX_PKT)))
          else sock.outgoing == old(sock.outgoing) + f && !ok
        case _ => sock.outgoing == old(sock.outgoing) + f && !ok
  {
    hide Encode, FirstPacket, GoodRead, GoodWrite, Word, Combine, WriteRequest, ReadRequest, AfterRead;
    ReadEncodes(addr, 4);
    var tmp := new byte[4](_ => 0);
    ghost var first := FirstPacket(sock.incoming, MAX_PKT);
    ghost var f := Encode(ReadRequest(addr, 4)).value;
    assert f[..20] == f;
    ok := MemoryReadBuffer(sock, addr, 4, tmp, pktBuf);
    if !ok {
      return;
    }
    assert first.Frame?;
    var word := Combine(op, Word(tmp[..4]), value);
    WriteEncodes(addr, word);
    ok := MemoryWriteDWord(sock, addr, word, pktBuf);
  }

  /** Against the server, the client's three checks together test exactly whether
      the read succeeded, and the payload is the memory read. */
  lemma ServerReadIsGood(m: Machine, addr: u64, len: u32)
    requires len <= MaxPayload(Mem)
    ensures Encode(ReadRequest(addr, len)).Some?
    ensures var r := Handle(m, Encode(ReadRequest(addr, len)).value).reply;
      var p := MemRead(m, addr, len);
      && |r| == PayloadOff(Mem) + len
      && GoodRead(r, len) == p.ok
      && r[PayloadOff(Mem)..] == p.data
  {
    hide Prologue, Opcode, ErrorCode, PktLen, MemRead, Header, Le;
    Spans();
    ReadEncodes(addr, len);
    var q := ReadRequest(addr, len);
    var f := Encode(q).value;
    DecodeOfEncode(q);
    DivModUnique(addr, Span(8), 0, addr);
    DivModUnique(len, Span(4), 0, len);
    PrologueFields(Mem, 5, addr, len, PayloadOff(Mem), []);
    assert f + [] == f;
    var p := MemRead(m, addr, len);
    var r := Handle(m, f).reply;
    var h := Header(6, if p.ok then 0 else 1, PayloadOff(Mem) + len);
    assert r == h + f[HEADER..20] + p.data;
    ReplyFields(6, if p.ok then 0 else 1, f[HEADER..20], p.data);
    assert r[16..20] == f[HEADER..20][8..12] == f[16..20];
  }

  /** Likewise for the 32-bit write. */
  lemma ServerWriteIsGood(m: Machine, addr: u64, value: u32)
    ensures Encode(WriteRequest(addr, value)).Some?
    ensures var h := Handle(m, Encode(WriteRequest(addr, value)).value);
      var p := MemWrite(m, addr, Le(4, value));
      h.m == p.m && GoodWrite(Frame(h.reply)) == p.ok
  {
    hide Handle, Encode, MemWrite, Le, Opcode, ErrorCode, PktLen, Intended, WriteRequest;
    WriteEncodes(addr, value);
    MemIntents(addr, value);
    WireIsDirect(m, WriteRequest(addr, value));
    ReplyFramed(m, Encode(WriteRequest(addr, value)).value);
  }
}
