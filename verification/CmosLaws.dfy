/** The two CMOS banks, each behind its own index latch, behave as one array of
    256 bytes. */
module CmosLaws {
  import opened Bits
  import opened Bytes
  import opened Listing
  import opened Machines
  import opened LibPort

  /** The CMOS byte that offset `off` selects. Only the two banks below 256 are
      meant; larger offsets fall into the upper one. */
  function Cell(off: nat): (c: nat)
    ensures c < CMOS_SIZE && (off < CMOS_SIZE ==> c == off)
  {
    if off < CMOS_BANK_SIZE then off else CMOS_BANK_SIZE + off % CMOS_BANK_SIZE
  }

  /** Both ports of the bank that holds `off` complete their transfers. */
  predicate BankAnswers(faulty: (nat, bool) -> bool, h: PortHandle, off: nat, isWrite: bool) {
    h != DevPort || (!faulty(IndexPort(off), true) && !faulty(IndexPort(off) + 1, isWrite))
  }

  /** A CMOS access may move the latches, the CMOS bytes and the port trace, and
      nothing else of the machine. */
  ghost predicate OnlyCmos(m: Machine, m': Machine) {
    m' == m.(io := m.io.(index := m'.io.index, extIndex := m'.io.extIndex, cmos := m'.io.cmos, trace := m'.io.trace))
  }

  /** Bit 7 of an index port masks the NMI; this cycle does not set it. */
  predicate LeavesNmiEnabled(c: PortCycle) {
    c.Out8? && c.port in {CMOS_ADDR, CMOS_EXT_ADDR} ==> c.value < CMOS_BANK_SIZE
  }

  /** Every cycle added between two machines leaves the NMI enabled and stays on
      the four CMOS ports. */
  ghost predicate Polite(m: Machine, m': Machine) {
    m.io.trace <= m'.io.trace &&
    forall k :: |m.io.trace| <= k < |m'.io.trace| ==>
      LeavesNmiEnabled(m'.io.trace[k]) && CMOS_ADDR <= m'.io.trace[k].port <= CMOS_EXT_DATA
  }

  /** A CMOS cycle pair keeps to its ports and disturbs nothing else. */
  ghost predicate Contained(m: Machine, m': Machine) {
    OnlyCmos(m, m') && Polite(m, m')
  }

  lemma ByteContained(m: Machine, h: PortHandle, off: nat, v: byte, isWrite: bool)
    ensures Contained(m, CmosXfer(m, h, off, v, isWrite).m)
  {
  }

  lemma ByteLaw(m: Machine, h: PortHandle, off: nat, v: byte, isWrite: bool)
    ensures var x := CmosXfer(m, h, off, v, isWrite);
      && x.m.io.faulty == m.io.faulty
      && (x.ok <==> BankAnswers(m.io.faulty, h, off, isWrite))
      && x.value == (if x.ok && !isWrite then m.io.cmos[Cell(off)] else v)
      && x.m.io.cmos == (if x.ok && isWrite then m.io.cmos[Cell(off) := v] else m.io.cmos)
  {
  }

  lemma ContainedReflexive(m: Machine)
    ensures Contained(m, m)
  {
  }

  lemma ContainedTransitive(a: Machine, b: Machine, c: Machine)
    requires Contained(a, b) && Contained(b, c)
    ensures Contained(a, c)
  {
    forall k | |a.io.trace| <= k < |c.io.trace|
      ensures LeavesNmiEnabled(c.io.trace[k]) && CMOS_ADDR <= c.io.trace[k].port <= CMOS_EXT_DATA
    {
      if k < |b.io.trace| { assert c.io.trace[k] == b.io.trace[k]; }
    }
  }

  lemma {:induction false} RunContained(m: Machine, h: PortHandle, addr: nat, data: Bytes, i: nat, isWrite: bool)
    requires i <= |data|
    ensures Contained(m, CmosFrom(m, h, addr, data, i, isWrite).m)
    decreases |data| - i
  {
    if i < |data| {
      ByteContained(m, h, CmosOff(addr, i), data[i], isWrite);
      var x := CmosXfer(m, h, CmosOff(addr, i), data[i], isWrite);
      if x.ok {
        RunContained(x.m, h, addr, data[i := x.value], i + 1, isWrite);
        ContainedTransitive(m, x.m, CmosFrom(m, h, addr, data, i, isWrite).m);
      }
    }
  }

  /** The banks that bytes `i`.. of the range touch all answer. */
  predicate RangeAnswers(faulty: (nat, bool) -> bool, h: PortHandle, addr: nat, len: nat, i: nat, isWrite: bool) {
    forall k :: i <= k < len ==> BankAnswers(faulty, h, CmosOff(addr, k), isWrite)
  }

  lemma RangeAnswersStep(faulty: (nat, bool) -> bool, h: PortHandle, addr: nat, len: nat, i: nat, isWrite: bool)
    requires i < len
    ensures RangeAnswers(faulty, h, addr, len, i, isWrite) <==>
      BankAnswers(faulty, h, CmosOff(addr, i), isWrite) && RangeAnswers(faulty, h, addr, len, i + 1, isWrite)
  {
  }

  lemma {:induction false} ReadFrom(m: Machine, h: PortHandle, addr: nat, data: Bytes, i: nat)
    requires i <= |data|
    ensures var p := CmosFrom(m, h, addr, data, i, false);
      && p.m.io.cmos == m.io.cmos
      && (p.ok <==> RangeAnswers(m.io.faulty, h, addr, |data|, i, false))
      && (p.ok ==> forall k :: 0 <= k < |data| ==>
           p.data[k] == if k < i then data[k] else m.io.cmos[Cell(CmosOff(addr, k))])
    decreases |data| - i
  {
    hide CmosXfer, RangeAnswers, BankAnswers, Cell, CmosOff;
    if i < |data| {
      ByteLaw(m, h, CmosOff(addr, i), data[i], false);
      RangeAnswersStep(m.io.faulty, h, addr, |data|, i, false);
      var x := CmosXfer(m, h, CmosOff(addr, i), data[i], false);
      if x.ok { ReadFrom(x.m, h, addr, data[i := x.value], i + 1); }
    } else {
      NothingLeft(m.io.faulty, h, addr, |data|, false);
    }
  }

  lemma NothingLeft(faulty: (nat, bool) -> bool, h: PortHandle, addr: nat, len: nat, isWrite: bool)
    ensures RangeAnswers(faulty, h, addr, len, len, isWrite)
  {
  }

  /** Which of the bytes `i`..`n`-1 of a range is the last to land in cell `c`. */
  function LastInto(addr: nat, i: nat, n: nat, c: nat): (r: Option<nat>)
    ensures match r
      case Some(j) => i <= j < n && Cell(CmosOff(addr, j)) == c && forall l :: j < l < n ==> Cell(CmosOff(addr, l)) != c
      case None => forall l :: i <= l < n ==> Cell(CmosOff(addr, l)) != c
    decreases n - i
  {
    if i >= n then None
    else if LastInto(addr, i + 1, n, c).Some? then LastInto(addr, i + 1, n, c)
    else if Cell(CmosOff(addr, i)) == c then Some(i) else None
  }

  /** The CMOS bytes after bytes `i`..`n`-1 of `data` were written in order. */
  ghost predicate Written(cmos: Cmos, after: Cmos, addr: nat, data: Bytes, i: nat, n: nat)
    requires n <= |data|
  {
    forall c :: 0 <= c < CMOS_SIZE ==>
      after[c] == match LastInto(addr, i, n, c) case Some(j) => data[j] case None => cmos[c]
  }

  lemma WrittenStep(cmos: Cmos, after: Cmos, addr: nat, data: Bytes, i: nat, n: nat)
    requires i < n <= |data|
    requires Written(cmos[Cell(CmosOff(addr, i)) := data[i]], after, addr, data, i + 1, n)
    ensures Written(cmos, after, addr, data, i, n)
  {
    hide CmosOff, Cell;
  }

  lemma NothingWritten(cmos: Cmos, addr: nat, data: Bytes, i: nat)
    requires i <= |data|
    ensures Written(cmos, cmos, addr, data, i, i)
  {
  }

  lemma {:induction false} WriteFrom(m: Machine, h: PortHandle, addr: nat, data: Bytes, i: nat) returns (n: nat)
    requires i <= |data|
    ensures i <= n <= |data|
    ensures var p := CmosFrom(m, h, addr, data, i, true);
      && (p.ok <==> RangeAnswers(m.io.faulty, h, addr, |data|, i, true))
      && (p.ok ==> n == |data|)
      && Written(m.io.cmos, p.m.io.cmos, addr, data, i, n)
    decreases |data| - i
  {
    hide CmosXfer, Written, RangeAnswers, BankAnswers, Cell, CmosOff;
    n := i;
    if i < |data| {
      ByteLaw(m, h, CmosOff(addr, i), data[i], true);
      RangeAnswersStep(m.io.faulty, h, addr, |data|, i, true);
      var x := CmosXfer(m, h, CmosOff(addr, i), data[i], true);
      assert data[i := x.value] == data;
      if x.ok {
        n := WriteFrom(x.m, h, addr, data, i + 1);
        if n > i { WrittenStep(m.io.cmos, CmosFrom(m, h, addr, data, i, true).m.io.cmos, addr, data, i, n); }
      } else {
        NothingWritten(m.io.cmos, addr, data, i);
      }
    } else {
      NothingLeft(m.io.faulty, h, addr, |data|, true);
      NothingWritten(m.io.cmos, addr, data, i);
    }
  }

  function CmosHandle(io: IoDevice): PortHandle {
    PortOpen(io, CMOS_ADDR, 4)
  }

  /** When an access to `len` bytes at `addr` is carried out in full. The range
      check is on a 32-bit sum: it also passes when that sum wraps. */
  ghost predicate Accepted(io: IoDevice, addr: nat, len: nat, isWrite: bool) {
    && (addr + len) % MAX32 <= CMOS_SIZE && CmosHandle(io) != NoAccess
    && RangeAnswers(io.faulty, CmosHandle(io), addr, len, 0, isWrite)
  }

  /** The same, written out: the range check, the kernel's permission for ports 70h
      to 73h, and through /dev/port no failing transfer at the index or the data
      port of a bank that is touched. */
  lemma AcceptedIff(io: IoDevice, addr: nat, len: nat, isWrite: bool)
    ensures Accepted(io, addr, len, isWrite) <==>
      && (addr + len) % 0x1_0000_0000 <= 256 && (io.devPort || io.ioperm(0x70, 4))
      && (io.devPort ==> forall k :: 0 <= k < len ==>
           if CmosOff(addr, k) < 0x80 then !io.faulty(0x70, true) && !io.faulty(0x71, isWrite)
           else !io.faulty(0x72, true) && !io.faulty(0x73, isWrite))
  {
    hide CmosOff;
  }

  /** For a byte address and a 32-bit length the range check means what it says
      unless their sum reaches 2^32. */
  lemma RangeCheckExact(addr: byte, len: u32)
    ensures ((addr + len) % MAX32 <= CMOS_SIZE <==> addr + len <= CMOS_SIZE) <==> addr + len < MAX32
  {
    if addr + len < MAX32 {
      DivModUnique(addr + len, MAX32, 0, addr + len);
    } else {
      DivModUnique(addr + len, MAX32, 1, addr + len - MAX32);
    }
  }

  /** A length that wraps is accepted wherever the ports answer. */
  lemma WrapAccepted(io: IoDevice, isWrite: bool)
    requires CmosHandle(io) == Instructions
    ensures Accepted(io, 1, MAX32 - 1, isWrite) && 1 + (MAX32 - 1) > CMOS_SIZE
  {
    hide PortOpen;
  }

  /** A read succeeds exactly when it is accepted, and then returns the bytes its
      offsets select: for a range inside the array, the slice it asked for,
      whichever banks it spans. Otherwise it returns FFh. It changes no CMOS
      byte, and a range refused by the check touches no port at all. */
  lemma ReadIsSlice(m: Machine, addr: nat, buf: Bytes)
    ensures var p := ReadBack(CmosAccess(m, addr, buf, false));
      && (p.ok <==> Accepted(m.io, addr, |buf|, false))
      && (p.ok ==> forall k :: 0 <= k < |buf| ==> p.data[k] == m.io.cmos[Cell(CmosOff(addr, k))])
      && (p.ok && addr + |buf| <= CMOS_SIZE ==> p.data == m.io.cmos[addr..addr + |buf|])
      && (!p.ok ==> p.data == Ones(|buf|))
      && Contained(m, p.m) && p.m.io.cmos == m.io.cmos
      && ((addr + |buf|) % MAX32 > CMOS_SIZE ==> p.m == m)
  {
    hide RangeAnswers, Contained, CmosFrom, PortOpen, Cell;
    if (addr + |buf|) % MAX32 <= CMOS_SIZE && CmosHandle(m.io) != NoAccess {
      ReadFrom(m, CmosHandle(m.io), addr, buf, 0);
      RunContained(m, CmosHandle(m.io), addr, buf, 0, false);
    } else {
      ContainedReflexive(m);
    }
  }

  /** A write succeeds exactly when it is accepted; a failed one has written a
      prefix of the data and nothing else. Each cell holds the last byte that
      was sent to it; for a range inside the array that replaces the slice. */
  lemma WriteIsSplice(m: Machine, addr: nat, data: Bytes) returns (n: nat)
    ensures n <= |data|
    ensures var p := CmosAccess(m, addr, data, true);
      && (p.ok <==> Accepted(m.io, addr, |data|, true))
      && (p.ok ==> n == |data|)
      && Written(m.io.cmos, p.m.io.cmos, addr, data, 0, n)
      && (addr + |data| <= CMOS_SIZE ==> p.m.io.cmos == Splice(m.io.cmos, addr, data[..n]))
      && Contained(m, p.m)
      && ((addr + |data|) % MAX32 > CMOS_SIZE ==> p.m == m && n == 0)
  {
    hide RangeAnswers, Contained, CmosFrom, PortOpen, Written;
    if (addr + |data|) % MAX32 > CMOS_SIZE || CmosHandle(m.io) == NoAccess {
      ContainedReflexive(m);
      NothingWritten(m.io.cmos, addr, data, 0);
      n := 0;
    } else {
      n := WriteFrom(m, CmosHandle(m.io), addr, data, 0);
      RunContained(m, CmosHandle(m.io), addr, data, 0, true);
    }
    if addr + |data| <= CMOS_SIZE {
      WrittenIsSplice(m.io.cmos, CmosAccess(m, addr, data, true).m.io.cmos, addr, data, n);
    }
  }

  /** Inside the array every byte has a cell of its own. */
  lemma OwnCell(addr: nat, n: nat, c: nat)
    requires addr + n <= CMOS_SIZE
    ensures LastInto(addr, 0, n, c) == if addr <= c < addr + n then Some(c - addr) else None
  {
    hide Cell, CmosOff, LastInto;
    forall k | 0 <= k < n ensures Cell(CmosOff(addr, k)) == addr + k { InsideArray(addr, k); }
    if addr <= c < addr + n { assert Cell(CmosOff(addr, c - addr)) == c; }
  }

  lemma WrittenIsSplice(cmos: Cmos, after: Cmos, addr: nat, data: Bytes, n: nat)
    requires n <= |data| && addr + |data| <= CMOS_SIZE && Written(cmos, after, addr, data, 0, n)
    ensures after == Splice(cmos, addr, data[..n])
  {
    hide LastInto;
    forall c | 0 <= c < CMOS_SIZE ensures after[c] == Splice(cmos, addr, data[..n])[c] {
      OwnCell(addr, n, c);
    }
  }

  /** What was written is what is read, across the bank switch too, and every
      byte outside the written range reads as before. */
  lemma WriteThenRead(m: Machine, addr: nat, data: Bytes, at: nat, buf: Bytes)
    ensures var w := CmosAccess(m, addr, data, true);
      var r := ReadBack(CmosAccess(w.m, at, buf, false));
      && (r.ok <==> Accepted(m.io, at, |buf|, false))
      && (w.ok && r.ok ==> forall k :: 0 <= k < |buf| ==>
           r.data[k] == ByteAfter(m.io.cmos, addr, data, Cell(CmosOff(at, k))))
      && (w.ok && r.ok && addr + |data| <= CMOS_SIZE && at + |buf| <= CMOS_SIZE ==> forall k :: 0 <= k < |buf| ==>
           r.data[k] == if addr <= at + k < addr + |data| then data[at + k - addr] else m.io.cmos[at + k])
  {
    hide CmosAccess, ReadBack, LastInto, Cell, CmosOff, Contained, Accepted, Splice;
    var n := WriteIsSplice(m, addr, data);
    var w := CmosAccess(m, addr, data, true);
    ReadIsSlice(w.m, at, buf);
    SameAcceptance(m, w.m, at, |buf|);
    var r := ReadBack(CmosAccess(w.m, at, buf, false));
    if w.ok && r.ok {
      assert data[..n] == data;
      forall k | 0 <= k < |buf| ensures r.data[k] == ByteAfter(m.io.cmos, addr, data, Cell(CmosOff(at, k))) {
        assert r.data[k] == w.m.io.cmos[Cell(CmosOff(at, k))];
      }
      if addr + |data| <= CMOS_SIZE && at + |buf| <= CMOS_SIZE {
        forall k | 0 <= k < |buf|
          ensures r.data[k] == if addr <= at + k < addr + |data| then data[at + k - addr] else m.io.cmos[at + k]
        {
          InsideArray(at, k);
          OwnCell(addr, |data|, at + k);
        }
      }
    }
  }

  lemma SameAcceptance(m: Machine, m': Machine, addr: nat, len: nat)
    requires Contained(m, m')
    ensures Accepted(m'.io, addr, len, false) == Accepted(m.io, addr, len, false)
  {
    hide RangeAnswers, PortOpen;
    assert m'.io.faulty == m.io.faulty && CmosHandle(m'.io) == CmosHandle(m.io) by { SameHandle(m.io, m'.io); }
  }

  lemma SameHandle(io: IoDevice, io': IoDevice)
    requires io'.devPort == io.devPort && io'.ioperm == io.ioperm
    ensures CmosHandle(io') == CmosHandle(io)
  {
  }

  lemma InsideArray(addr: nat, k: nat)
    requires addr + k < CMOS_SIZE
    ensures Cell(CmosOff(addr, k)) == addr + k
  {
  }

  /** What cell `c` holds once all of `data` was written from `addr` on. */
  function ByteAfter(cmos: Cmos, addr: nat, data: Bytes, c: nat): byte
    requires c < CMOS_SIZE
  {
    match LastInto(addr, 0, |data|, c) case Some(j) => data[j] case None => cmos[c]
  }
}
