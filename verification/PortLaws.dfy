/** What a transfer over a plain port range does: which port each byte goes to,
    in what order, and when it succeeds. */
module PortLaws {
  import opened Bytes
  import opened Machines
  import opened LibPort

  /** The port of byte `k`, a 16-bit sum. */
  function PortOf(port: nat, k: nat): (p: nat)
    ensures p < 0x1_0000
  {
    (port + k) % 0x1_0000
  }

  /** The range check, on a 32-bit sum, and the kernel's permission. */
  predicate Granted(io: IoDevice, port: nat, len: nat) {
    (port + len) % 0x1_0000_0000 <= 0x1_0000 && (io.devPort || io.ioperm(port, len))
  }

  /** Bytes `i`.. of the range transfer; only /dev/port can fail at a port. */
  predicate PortsAnswer(io: IoDevice, port: nat, len: nat, i: nat, isWrite: bool) {
    io.devPort ==> forall k :: i <= k < len ==> !io.faulty(PortOf(port, k), isWrite)
  }

  lemma OpenLaw(io: IoDevice, port: nat, len: nat)
    ensures PortOpen(io, port, len) == NoAccess <==> !Granted(io, port, len)
    ensures PortOpen(io, port, len) == DevPort <==> Granted(io, port, len) && io.devPort
  {
  }

  /** The cycles of a read of bytes `i`..`n`-1. */
  function InCycles(m: Machine, port: nat, i: nat, n: nat): seq<PortCycle>
    requires i <= n
  {
    seq(n - i, j requires 0 <= j < n - i => In8(PortOf(port, i + j), PortValue(m, PortOf(port, i + j))))
  }

  function OutCycles(port: nat, data: Bytes, i: nat, n: nat): seq<PortCycle>
    requires i <= n <= |data|
  {
    seq(n - i, j requires 0 <= j < n - i => Out8(PortOf(port, i + j), data[i + j]))
  }

  /** The machine with some more cycles on its trace. */
  function Traced(m: Machine, cycles: seq<PortCycle>): Machine {
    m.(io := m.io.(trace := m.io.trace + cycles))
  }

  lemma ReadingChangesNothing(m: Machine, cycles: seq<PortCycle>, port: nat)
    ensures PortValue(Traced(m, cycles), port) == PortValue(m, port)
  {
  }

  lemma InCyclesCons(m: Machine, port: nat, i: nat, n: nat)
    requires i < n
    ensures var c := In8(PortOf(port, i), PortValue(m, PortOf(port, i)));
      && InCycles(m, port, i, n) == [c] + InCycles(m, port, i + 1, n)
      && Traced(m, InCycles(m, port, i, n)) == Traced(Traced(m, [c]), InCycles(Traced(m, [c]), port, i + 1, n))
  {
    hide PortValue, PortOf;
    var c := In8(PortOf(port, i), PortValue(m, PortOf(port, i)));
    forall k: nat ensures PortValue(Traced(m, [c]), PortOf(port, k)) == PortValue(m, PortOf(port, k)) {
      ReadingChangesNothing(m, [c], PortOf(port, k));
    }
    assert InCycles(Traced(m, [c]), port, i + 1, n) == InCycles(m, port, i + 1, n);
    assert (m.io.trace + [c]) + InCycles(m, port, i + 1, n) == m.io.trace + ([c] + InCycles(m, port, i + 1, n));
  }

  lemma NoCycles(m: Machine)
    ensures Traced(m, []) == m
  {
    assert m.io.trace + [] == m.io.trace;
  }

  lemma ReadByte(m: Machine, h: PortHandle, port: nat, v: byte)
    ensures var x := Xfer(m, h, port, v, false);
      var fails := h == DevPort && m.io.faulty(port, false);
      && (x.ok <==> !fails)
      && x.m == (if fails then m else Traced(m, [In8(port, PortValue(m, port))]))
      && (x.ok ==> x.value == PortValue(m, port)) && (!x.ok ==> x.value == v)
  {
    hide PortValue;
  }

  lemma {:induction false} ReadRange(m: Machine, h: PortHandle, port: nat, data: Bytes, i: nat) returns (n: nat)
    requires i <= |data| && (h == DevPort <==> m.io.devPort)
    ensures i <= n <= |data|
    ensures var p := PortFrom(m, h, port, data, i, false);
      && (p.ok <==> n == |data|) && (p.ok <==> PortsAnswer(m.io, port, |data|, i, false))
      && p.m == Traced(m, InCycles(m, port, i, n))
      && forall k :: 0 <= k < n ==> p.data[k] == if k < i then data[k] else PortValue(m, PortOf(port, k))
    decreases |data| - i
  {
    hide PortValue, PortOf, Xfer, InCycles;
    n := i;
    assert InCycles(m, port, i, i) == [] by { NothingIn(m, port, i); }
    NoCycles(m);
    if i < |data| {
      assert PortOf(port, i) == (port + i) % PORT_SPACE by { PortOfIs(port, i); }
      ReadByte(m, h, PortOf(port, i), data[i]);
      var x := Xfer(m, h, PortOf(port, i), data[i], false);
      if x.ok {
        n := ReadRange(x.m, h, port, data[i := x.value], i + 1);
        InCyclesCons(m, port, i, n);
        forall k: nat ensures PortValue(x.m, PortOf(port, k)) == PortValue(m, PortOf(port, k)) {
          ReadingChangesNothing(m, [In8(PortOf(port, i), PortValue(m, PortOf(port, i)))], PortOf(port, k));
        }
      }
    }
  }

  lemma PortOfIs(port: nat, k: nat)
    ensures PortOf(port, k) == (port + k) % PORT_SPACE
  {
  }

  lemma NothingIn(m: Machine, port: nat, i: nat)
    ensures InCycles(m, port, i, i) == []
  {
  }

  /** A port read is granted or refused as a whole. Granted, it reads ports port,
      port + 1, ... in that order, each once, until one fails; if none does it
      succeeds and byte `k` is the value of its port, and otherwise every byte is
      FFh. Nothing changes but the trace, and refused it touches no port. */
  lemma ReadLaw(m: Machine, port: nat, buf: Bytes) returns (n: nat)
    ensures n <= |buf|
    ensures var p := ReadBack(PortAccess(m, port, buf, false));
      && (p.ok <==> Granted(m.io, port, |buf|) && PortsAnswer(m.io, port, |buf|, 0, false))
      && (p.ok ==> n == |buf|) && (!Granted(m.io, port, |buf|) ==> n == 0)
      && p.m == Traced(m, InCycles(m, port, 0, n))
      && forall k :: 0 <= k < |buf| ==> p.data[k] == if p.ok then PortValue(m, PortOf(port, k)) else 255
  {
    hide PortOpen, Granted, PortsAnswer, PortFrom, InCycles, PortValue, PortOf;
    OpenLaw(m.io, port, |buf|);
    if Granted(m.io, port, |buf|) {
      if m.io.devPort { GrantedDev(m.io, port, |buf|); }
      n := ReadRange(m, PortOpen(m.io, port, |buf|), port, buf, 0);
    } else {
      n := 0;
      NothingIn(m, port, 0);
      NoCycles(m);
    }
  }

  lemma GrantedDev(io: IoDevice, port: nat, len: nat)
    requires Granted(io, port, len) && io.devPort
    ensures PortOpen(io, port, len) == DevPort
  {
  }

  /** Bytes `i`..`n`-1 of `data` written to their ports, in order. */
  function OutRun(m: Machine, port: nat, data: Bytes, i: nat, n: nat): Machine
    requires n <= |data|
    decreases n - i
  {
    if i >= n then m else OutRun(AfterOut8(m, PortOf(port, i), data[i]), port, data, i + 1, n)
  }

  lemma {:induction false} WriteRange(m: Machine, h: PortHandle, port: nat, data: Bytes, i: nat) returns (n: nat)
    requires i <= |data| && (h == DevPort <==> m.io.devPort)
    ensures i <= n <= |data|
    ensures var p := PortFrom(m, h, port, data, i, true);
      && (p.ok <==> n == |data|) && (p.ok <==> PortsAnswer(m.io, port, |data|, i, true))
      && p.m == OutRun(m, port, data, i, n)
    decreases |data| - i
  {
    hide AfterOut8, PortOf;
    n := i;
    if i < |data| {
      assert PortOf(port, i) == (port + i) % PORT_SPACE by { PortOfIs(port, i); }
      var x := Xfer(m, h, PortOf(port, i), data[i], true);
      assert data[i := x.value] == data;
      if x.ok {
        OutputKeeps(m, PortOf(port, i), data[i]);
        n := WriteRange(x.m, h, port, data, i + 1);
      }
    }
  }

  /** What no port write touches. */
  ghost predicate SameButPorts(m: Machine, m': Machine) {
    m' == m.(io := m'.io, pci := m.pci.(space := m'.pci.space)) &&
    m'.io == m.io.(index := m'.io.index, extIndex := m'.io.extIndex, cmos := m'.io.cmos, plain := m'.io.plain,
                   trace := m'.io.trace)
  }

  lemma OutputKeeps(m: Machine, port: nat, v: byte)
    ensures var r := AfterOut8(m, port, v);
      SameButPorts(m, r) && r.io.trace == m.io.trace + [Out8(port, v)]
  {
    hide SetConfigByte, LatchedFunction, LatchedRegister;
  }

  /** A port that only holds what was written to it: not one of the CMOS ports, and
      not the configuration window while that is enabled. */
  predicate Plain(io: IoDevice, port: nat) {
    !(0x70 <= port <= 0x73) && !(0xCFC <= port <= 0xCFF && io.configAddress >= 0x8000_0000)
  }

  lemma OutputPlain(m: Machine, port: nat, v: byte, q: nat)
    requires Plain(m.io, q)
    ensures PortValue(AfterOut8(m, port, v), q) == if port == q then v else PortValue(m, q)
  {
    hide SetConfigByte, LatchedFunction, LatchedRegister, ConfigByte;
  }

  /** The byte of a range that goes to port `q`, as ranges hold each port once. */
  function ByteFor(q: nat, port: nat): nat { (q - port) % 0x1_0000 }

  lemma ByteForPort(q: nat, port: nat, k: nat)
    requires q < 0x1_0000 && k < 0x1_0000
    ensures PortOf(port, k) == q <==> ByteFor(q, port) == k
  {
  }

  /** A run of outputs appends its cycles in order, sets exactly the plain ports it
      covers, and leaves memory, disk and every other plain port alone. */
  lemma {:induction false} OutRunLaw(m: Machine, port: nat, data: Bytes, i: nat, n: nat)
    requires i <= n <= |data| <= 0x1_0000
    ensures var r := OutRun(m, port, data, i, n);
      && SameButPorts(m, r) && r.io.trace == m.io.trace + OutCycles(port, data, i, n)
      && forall q :: 0 <= q < 0x1_0000 && Plain(m.io, q) ==>
           PortValue(r, q) == if i <= ByteFor(q, port) < n then data[ByteFor(q, port)] else PortValue(m, q)
    decreases n - i
  {
    hide AfterOut8, PortOf, PortValue, ByteFor;
    if i < n {
      var m' := AfterOut8(m, PortOf(port, i), data[i]);
      OutputKeeps(m, PortOf(port, i), data[i]);
      OutRunLaw(m', port, data, i + 1, n);
      assert OutCycles(port, data, i, n) == [Out8(PortOf(port, i), data[i])] + OutCycles(port, data, i + 1, n);
      forall q | 0 <= q < 0x1_0000 && Plain(m.io, q)
        ensures PortValue(OutRun(m, port, data, i, n), q) ==
          if i <= ByteFor(q, port) < n then data[ByteFor(q, port)] else PortValue(m, q)
      {
        OutputPlain(m, PortOf(port, i), data[i], q);
        ByteForPort(q, port, i);
      }
    } else {
      assert OutCycles(port, data, i, n) == [];
    }
  }

  /** A port write, likewise: granted, it writes byte 0, 1, ... to ports port,
      port + 1, ... in that order until one fails, and succeeds iff none does. */
  lemma WriteLaw(m: Machine, port: nat, data: Bytes) returns (n: nat)
    ensures n <= |data|
    ensures var p := PortAccess(m, port, data, true);
      && (p.ok <==> Granted(m.io, port, |data|) && PortsAnswer(m.io, port, |data|, 0, true))
      && (p.ok ==> n == |data|) && (!Granted(m.io, port, |data|) ==> n == 0)
      && p.m == OutRun(m, port, data, 0, n)
  {
    hide PortOpen, Granted, PortsAnswer, PortFrom, OutRun;
    OpenLaw(m.io, port, |data|);
    if Granted(m.io, port, |data|) {
      if m.io.devPort { GrantedDev(m.io, port, |data|); }
      n := WriteRange(m, PortOpen(m.io, port, |data|), port, data, 0);
    } else {
      n := 0;
      NoOutput(m, port, data);
    }
  }

  lemma NoOutput(m: Machine, port: nat, data: Bytes)
    ensures OutRun(m, port, data, 0, 0) == m
  {
  }
}
