/** Any number of connections read-modify-writing RAM at once.  The server runs
    one thread per connection and its copy loops move single bytes, so the bytes
    of different requests interleave freely. */
module ManyClients {
  import opened Bits
  import opened Bytes
  import opened Machines
  import opened LibMem
  import opened Memvr

  /** Where one connection is: idle, copying out the bytes of its read, or
      copying in the bytes of its write. */
  datatype Thread =
    | Idle
    | Reading(addr: u64, value: u32, tmp: Bytes)
    | Writing(addr: u64, data: Bytes, done: nat)

  /** An OR or AND that some client asked for. */
  datatype Operand = Operand(addr: u64, value: u32)

  /** `reach(addr, a)` says whether a word access at `addr` reaches address `a`; it
      never changes. Where it does not, reads show zero and writes do nothing. */
  datatype State = State(
    ram: map<nat, byte>,
    reach: (nat, nat) -> bool,
    threads: seq<Thread>,
    issued: set<Operand>)

  /** What LibMem makes of a machine's answers. */
  function ReachOf(mem: MemDevice): (nat, nat) -> bool {
    (addr: nat, a: nat) => addr < MAX64 && Reaches(mem, addr, 4, a)
  }

  /** What the accesses at `addr` reach. */
  function Shown(s: State, addr: nat): nat -> bool {
    (a: nat) => s.reach(addr, a)
  }

  datatype Step =
    | Start(t: nat, addr: u64, value: u32)
    | ReadByte(t: nat)
    | Turn(t: nat)       // reply to the client, combine, write request back
    | WriteByte(t: nat)
    | Drop(t: nat)       // a call fails or the connection dies

  predicate Enabled(s: State, x: Step) {
    x.t < |s.threads| &&
    var th := s.threads[x.t];
    match x
    case Start(_, _, _) => th.Idle?
    case ReadByte(_) => th.Reading? && |th.tmp| < 4
    case Turn(_) => th.Reading? && |th.tmp| == 4
    case WriteByte(_) => th.Writing? && th.done < |th.data|
    case Drop(_) => true
  }

  function Apply(op: Modify, s: State, x: Step): State
    requires Enabled(s, x)
  {
    var th := s.threads[x.t];
    match x
    case Start(t, addr, value) =>
      s.(threads := s.threads[t := Reading(addr, value, [])], issued := s.issued + {Operand(addr, value)})
    case ReadByte(t) =>
      s.(threads := s.threads[t := th.(tmp := th.tmp + [Seen(s.ram, Shown(s, th.addr), At(th.addr, |th.tmp|))])])
    case Turn(t) =>
      s.(threads := s.threads[t := Writing(th.addr, Le(4, Combine(op, Word(th.tmp), th.value)), 0)])
    case WriteByte(t) =>
      var th' := if th.done + 1 == |th.data| then Idle else th.(done := th.done + 1);
      var a := At(th.addr, th.done);
      var ram := if s.reach(th.addr, a) then SetRamByte(s.ram, a, th.data[th.done]) else s.ram;
      s.(ram := ram, threads := s.threads[t := th'])
    case Drop(t) => s.(threads := s.threads[t := Idle])
  }

  /** The state after an interleaving, if it can happen. */
  ghost predicate Leads(op: Modify, s: State, steps: seq<Step>, s': State)
    decreases |steps|
  {
    if steps == [] then s == s'
    else Enabled(s, steps[0]) && Leads(op, Apply(op, s, steps[0]), steps[1..], s')
  }

  // -------------------------------------------------------------- invariant

  /** The value an operation can force a bit to: OR sets, AND clears. */
  predicate Target(op: Modify) { op == OrOp }

  /** Some issued operand forces bit `b` of the byte at `a`. */
  ghost predicate Hit(op: Modify, issued: set<Operand>, a: nat, b: nat) {
    exists o, j: nat :: o in issued && j < 4 && At(o.addr, j) == a && Forces(op, o.value, 8 * j + b)
  }

  predicate Forces(op: Modify, value: nat, bit: nat) { Bit(value, bit) == Target(op) }

  /** `v` is a value bit `b` of address `a` may have: the initial one, or the
      target of the operation when some operand forces it. */
  ghost predicate Allowed(op: Modify, init: map<nat, byte>, issued: set<Operand>, a: nat, b: nat, v: bool) {
    v == Bit(RamByte(init, a), b) || (v == Target(op) && Hit(op, issued, a, b))
  }

  ghost predicate ByteAllowed(op: Modify, init: map<nat, byte>, issued: set<Operand>, a: nat, v: byte) {
    forall b: nat :: b < 8 ==> Allowed(op, init, issued, a, b, Bit(v, b))
  }

  /** What a connection holds for the bytes that it reaches is allowed there; what
      it holds for the others is never stored. */
  ghost predicate ThreadAllowed(op: Modify, init: map<nat, byte>, s: State, th: Thread) {
    match th
    case Idle => true
    case Reading(addr, value, tmp) =>
      && |tmp| <= 4 && Operand(addr, value) in s.issued
      && forall j :: 0 <= j < |tmp| && s.reach(addr, At(addr, j)) ==>
           ByteAllowed(op, init, s.issued, At(addr, j), tmp[j])
    case Writing(addr, data, done) =>
      && |data| == 4 && done < 4
      && forall j :: 0 <= j < |data| && s.reach(addr, At(addr, j)) ==>
           ByteAllowed(op, init, s.issued, At(addr, j), data[j])
  }

  ghost predicate Inv(op: Modify, init: map<nat, byte>, s: State) {
    && s.ram.Keys == init.Keys
    && (forall a :: a in s.ram ==> ByteAllowed(op, init, s.issued, a, s.ram[a]))
    && (forall t :: 0 <= t < |s.threads| ==> ThreadAllowed(op, init, s, s.threads[t]))
  }

  /** Issuing another operand only allows more. */
  lemma MoreIssued(op: Modify, init: map<nat, byte>, issued: set<Operand>, more: set<Operand>, a: nat, v: byte)
    requires issued <= more && ByteAllowed(op, init, issued, a, v)
    ensures ByteAllowed(op, init, more, a, v)
  {
    forall b: nat | b < 8 ensures Allowed(op, init, more, a, b, Bit(v, b)) {
      assert Allowed(op, init, issued, a, b, Bit(v, b));
      if Hit(op, issued, a, b) {
        var o, j: nat :| o in issued && j < 4 && At(o.addr, j) == a && Forces(op, o.value, 8 * j + b);
        assert o in more;
      }
    }
  }

  /** Combining allowed bytes with an issued operand gives allowed bytes. */
  lemma CombineAllowed(op: Modify, init: map<nat, byte>, issued: set<Operand>, addr: u64, value: u32, tmp: Bytes,
      j: nat)
    requires |tmp| == 4 && j < 4 && Operand(addr, value) in issued
    requires ByteAllowed(op, init, issued, At(addr, j), tmp[j])
    ensures ByteAllowed(op, init, issued, At(addr, j), Le(4, Combine(op, Word(tmp), value))[j])
  {
    var word := Combine(op, Word(tmp), value);
    LeOfFromLe(tmp);
    forall b: nat | b < 8 ensures Allowed(op, init, issued, At(addr, j), b, Bit(Le(4, word)[j], b)) {
      CombinedBit(op, Word(tmp), value, j, b);
      assert Allowed(op, init, issued, At(addr, j), b, Bit(tmp[j], b));
      if Forces(op, value, 8 * j + b) {
        assert Operand(addr, value) in issued && Forces(op, Operand(addr, value).value, 8 * j + b);
      }
    }
  }

  /** A bit of the combined word: forced by the operand, or as it was read. */
  lemma CombinedBit(op: Modify, x: u32, y: u32, j: nat, b: nat)
    requires j < 4 && b < 8
    ensures Bit(Le(4, Combine(op, x, y))[j], b) ==
      if Forces(op, y, 8 * j + b) then Target(op) else Bit(Le(4, x)[j], b)
  {
    hide Le, Bit;
    BitOfLe(4, Combine(op, x, y), j, b);
    BitOfLe(4, x, j, b);
    BitOr(x, y, 8 * j + b);
    BitAnd(x, y, 8 * j + b);
  }

  lemma UnbackedAllowed(op: Modify, init: map<nat, byte>, s: State, a: nat)
    requires Inv(op, init, s)
    ensures ByteAllowed(op, init, s.issued, a, RamByte(s.ram, a))
  {
  }

  lemma StartKeeps(op: Modify, init: map<nat, byte>, s: State, t: nat, addr: u64, value: u32)
    requires Inv(op, init, s) && Enabled(s, Start(t, addr, value))
    ensures Inv(op, init, Apply(op, s, Start(t, addr, value)))
  {
    hide ByteAllowed;
    var more := s.issued + {Operand(addr, value)};
    forall a, v | ByteAllowed(op, init, s.issued, a, v) ensures ByteAllowed(op, init, more, a, v) {
      MoreIssued(op, init, s.issued, more, a, v);
    }
  }

  lemma TurnKeeps(op: Modify, init: map<nat, byte>, s: State, t: nat)
    requires Inv(op, init, s) && Enabled(s, Turn(t))
    ensures Inv(op, init, Apply(op, s, Turn(t)))
  {
    hide ByteAllowed, Le, Combine, Word;
    var th := s.threads[t];
    forall j | 0 <= j < 4 && s.reach(th.addr, At(th.addr, j))
      ensures ByteAllowed(op, init, s.issued, At(th.addr, j), Le(4, Combine(op, Word(th.tmp), th.value))[j])
    {
      CombineAllowed(op, init, s.issued, th.addr, th.value, th.tmp, j);
    }
  }

  lemma StepKeeps(op: Modify, init: map<nat, byte>, s: State, x: Step)
    requires Inv(op, init, s) && Enabled(s, x)
    ensures Inv(op, init, Apply(op, s, x))
  {
    hide ByteAllowed, Le, Combine, Word;
    match x
    case Start(t, addr, value) => StartKeeps(op, init, s, t, addr, value);
    case ReadByte(t) => UnbackedAllowed(op, init, s, At(s.threads[t].addr, |s.threads[t].tmp|));
    case Turn(t) => TurnKeeps(op, init, s, t);
    case WriteByte(t) =>
    case Drop(t) =>
  }

  lemma {:induction false} RunKeeps(op: Modify, init: map<nat, byte>, s: State, steps: seq<Step>, s': State)
    requires Inv(op, init, s) && Leads(op, s, steps, s')
    ensures Inv(op, init, s')
    decreases |steps|
  {
    hide Inv, Apply, Enabled;
    if steps != [] {
      StepKeeps(op, init, s, steps[0]);
      RunKeeps(op, init, Apply(op, s, steps[0]), steps[1..], s');
    }
  }

  /** `n` idle connections on a machine. */
  function Initially(ram: map<nat, byte>, reach: (nat, nat) -> bool, n: nat): State {
    State(ram, reach, seq(n, _ => Idle), {})
  }

  /** In every interleaving of any number of OR-only clients no set bit is ever
      cleared, and no bit is set that was not set initially or in the operand of
      some client that covers its byte. */
  lemma OrSafety(ram: map<nat, byte>, reach: (nat, nat) -> bool, n: nat, steps: seq<Step>, s: State,
      a: nat, b: nat)
    requires Leads(OrOp, Initially(ram, reach, n), steps, s) && a in ram && b < 8
    ensures a in s.ram
    ensures Bit(ram[a], b) ==> Bit(s.ram[a], b)
    ensures Bit(ram[a], b) || !Bit(s.ram[a], b) ||
      exists o, j: nat :: o in s.issued && j < 4 && At(o.addr, j) == a && Bit(o.value, 8 * j + b)
  {
    Unchanged(OrOp, ram, reach, n, steps, s, a, b);
    if Bit(s.ram[a], b) && !Bit(ram[a], b) {
      var o, j: nat :| o in s.issued && j < 4 && At(o.addr, j) == a && Forces(OrOp, o.value, 8 * j + b);
      assert Bit(o.value, 8 * j + b);
    }
  }

  /** The dual for AND-only clients. */
  lemma AndSafety(ram: map<nat, byte>, reach: (nat, nat) -> bool, n: nat, steps: seq<Step>, s: State,
      a: nat, b: nat)
    requires Leads(AndOp, Initially(ram, reach, n), steps, s) && a in ram && b < 8
    ensures a in s.ram
    ensures !Bit(ram[a], b) ==> !Bit(s.ram[a], b)
    ensures !Bit(ram[a], b) || Bit(s.ram[a], b) ||
      exists o, j: nat :: o in s.issued && j < 4 && At(o.addr, j) == a && !Bit(o.value, 8 * j + b)
  {
    Unchanged(AndOp, ram, reach, n, steps, s, a, b);
    if !Bit(s.ram[a], b) && Bit(ram[a], b) {
      var o, j: nat :| o in s.issued && j < 4 && At(o.addr, j) == a && Forces(AndOp, o.value, 8 * j + b);
      assert !Bit(o.value, 8 * j + b);
    }
  }

  lemma Unchanged(op: Modify, ram: map<nat, byte>, reach: (nat, nat) -> bool, n: nat, steps: seq<Step>, s: State,
      a: nat, b: nat)
    requires Leads(op, Initially(ram, reach, n), steps, s) && a in ram && b < 8
    ensures a in s.ram && Allowed(op, ram, s.issued, a, b, Bit(s.ram[a], b))
  {
    hide Leads, Allowed;
    StartAllowed(op, ram, reach, n);
    RunKeeps(op, ram, Initially(ram, reach, n), steps, s);
    assert ByteAllowed(op, ram, s.issued, a, s.ram[a]);
  }

  lemma StartAllowed(op: Modify, ram: map<nat, byte>, reach: (nat, nat) -> bool, n: nat)
    ensures Inv(op, ram, Initially(ram, reach, n))
  {
  }

  // --------------------------------------------------- an update can be lost

  lemma {:induction false} LeadsThrough(op: Modify, s: State, x: seq<Step>, mid: State, y: seq<Step>, s': State)
    requires Leads(op, s, x, mid) && Leads(op, mid, y, s')
    ensures Leads(op, s, x + y, s')
    decreases |x|
  {
    hide Apply, Enabled;
    if x == [] {
      assert x + y == y;
    } else {
      LeadsThrough(op, Apply(op, s, x[0]), x[1..], mid, y, s');
      assert (x + y)[1..] == x[1..] + y;
    }
  }

  lemma OneStep(op: Modify, s: State, x: Step)
    requires Enabled(s, x)
    ensures Leads(op, s, [x], Apply(op, s, x))
  {
    assert [x][1..] == [];
    assert Leads(op, Apply(op, s, x), [], Apply(op, s, x));
  }

  function WithThread(s: State, t: nat, th: Thread): State
    requires t < |s.threads|
  {
    s.(threads := s.threads[t := th])
  }

  /** The rest of a read that nothing interrupts. */
  lemma {:induction false} ReadRest(op: Modify, s: State, t: nat, addr: u64, value: u32, k: nat)
    returns (steps: seq<Step>)
    requires t < |s.threads| && k <= 4
    requires s.threads[t] == Reading(addr, value, Fetch(s.ram, Shown(s, addr), addr, 4)[..k])
    ensures Leads(op, s, steps, WithThread(s, t, Reading(addr, value, Fetch(s.ram, Shown(s, addr), addr, 4))))
    decreases 4 - k
  {
    var all := Fetch(s.ram, Shown(s, addr), addr, 4);
    if k == 4 {
      steps := [];
      assert all[..4] == all && WithThread(s, t, s.threads[t]) == s;
    } else {
      var s' := Apply(op, s, ReadByte(t));
      assert all[..k + 1] == all[..k] + [all[k]];
      assert s'.threads[t] == Reading(addr, value, all[..k + 1]);
      var rest := ReadRest(op, s', t, addr, value, k + 1);
      OneStep(op, s, ReadByte(t));
      steps := [ReadByte(t)] + rest;
      assert WithThread(s', t, Reading(addr, value, all)) == WithThread(s, t, Reading(addr, value, all));
      LeadsThrough(op, s, [ReadByte(t)], s', rest, WithThread(s, t, Reading(addr, value, all)));
    }
  }

  /** The rest of a write that nothing interrupts. */
  lemma {:induction false} WriteRest(op: Modify, s: State, t: nat, ram: map<nat, byte>, addr: u64, data: Bytes, k: nat)
    returns (steps: seq<Step>)
    requires t < |s.threads| && k < 4 == |data|
    requires s.threads[t] == Writing(addr, data, k) && s.ram == Store(ram, Shown(s, addr), addr, data[..k])
    ensures Leads(op, s, steps, WithThread(s, t, Idle).(ram := Store(ram, Shown(s, addr), addr, data)))
    decreases 4 - k
  {
    var s' := Apply(op, s, WriteByte(t));
    var end := WithThread(s, t, Idle).(ram := Store(ram, Shown(s, addr), addr, data));
    assert data[..k + 1][..k] == data[..k];
    assert s'.ram == Store(ram, Shown(s, addr), addr, data[..k + 1]);
    OneStep(op, s, WriteByte(t));
    if k == 3 {
      assert data[..4] == data;
      steps := [WriteByte(t)];
    } else {
      var rest := WriteRest(op, s', t, ram, addr, data, k + 1);
      assert WithThread(s', t, Idle).(ram := Store(ram, Shown(s, addr), addr, data)) == end;
      steps := [WriteByte(t)] + rest;
      LeadsThrough(op, s, [WriteByte(t)], s', rest, end);
    }
  }

  /** The writes are not atomic with the reads: when two clients modify the same
      word and both read before either writes, the word ends up as if the first
      client had done nothing, though both finished. */
  lemma LostUpdate(op: Modify, ram: map<nat, byte>, reach: (nat, nat) -> bool, addr: u64, x: u32, y: u32)
    returns (steps: seq<Step>, s: State)
    requires Backed(ram, addr) && forall i :: 0 <= i < 4 ==> reach(addr, At(addr, i))
    ensures Leads(op, Initially(ram, reach, 2), steps, s)
    ensures s.threads == [Idle, Idle] && s.issued == {Operand(addr, x), Operand(addr, y)}
    ensures WordAt(s.ram, addr) == Combine(op, WordAt(ram, addr), y)
  {
    hide Fetch, Store, Combine, Word, Le, Leads;
    var s0 := Initially(ram, reach, 2);
    var shown := Shown(s0, addr);
    var tmp := Fetch(ram, shown, addr, 4);
    AllShown(ram, shown, addr);
    assert tmp[..0] == [];
    var dx, dy := Le(4, Combine(op, Word(tmp), x)), Le(4, Combine(op, Word(tmp), y));
    assert dx[..0] == [] && dy[..0] == [];
    // Both clients start and read.
    var s1 := Apply(op, s0, Start(0, addr, x));
    OneStep(op, s0, Start(0, addr, x));
    var r0 := ReadRest(op, s1, 0, addr, x, 0);
    var s2 := WithThread(s1, 0, Reading(addr, x, tmp));
    LeadsThrough(op, s0, [Start(0, addr, x)], s1, r0, s2);
    var s3 := Apply(op, s2, Start(1, addr, y));
    OneStep(op, s2, Start(1, addr, y));
    LeadsThrough(op, s0, [Start(0, addr, x)] + r0, s2, [Start(1, addr, y)], s3);
    var r1 := ReadRest(op, s3, 1, addr, y, 0);
    var s4 := WithThread(s3, 1, Reading(addr, y, tmp));
    var both := [Start(0, addr, x)] + r0 + [Start(1, addr, y)] + r1;
    LeadsThrough(op, s0, [Start(0, addr, x)] + r0 + [Start(1, addr, y)], s3, r1, s4);
    // Then each combines what it read and writes it back.
    var w0, s5 := FinishWrite(op, s4, 0, ram, addr, x, tmp);
    LeadsThrough(op, s0, both, s4, w0, s5);
    var w1;
    w1, s := FinishWrite(op, s5, 1, s5.ram, addr, y, tmp);
    steps := both + w0 + w1;
    LeadsThrough(op, s0, both + w0, s5, w1, s);
    BackedAfterStore(ram, shown, addr, dx);
    StoreWord(s5.ram, shown, addr, Combine(op, Word(tmp), y));
    WordOfLe(Combine(op, Word(tmp), y));
    assert s.threads == [Idle, Idle];
  }

  lemma BackedAfterStore(ram: map<nat, byte>, shown: nat -> bool, addr: u64, data: Bytes)
    requires Backed(ram, addr)
    ensures Backed(Store(ram, shown, addr, data), addr)
  {
  }

  lemma AllShown(ram: map<nat, byte>, shown: nat -> bool, addr: u64)
    requires forall i :: 0 <= i < 4 ==> shown(At(addr, i))
    ensures Fetch(ram, shown, addr, 4) == Fetch(ram, Everywhere, addr, 4)
  {
  }

  /** From a complete read to the end of the write. */
  lemma FinishWrite(op: Modify, s: State, t: nat, ram: map<nat, byte>, addr: u64, value: u32, tmp: Bytes)
    returns (steps: seq<Step>, s': State)
    requires t < |s.threads| && |tmp| == 4 && s.ram == ram
    requires s.threads[t] == Reading(addr, value, tmp)
    ensures Leads(op, s, steps, s')
    ensures s' == WithThread(s, t, Idle).(ram := Store(ram, Shown(s, addr), addr, Le(4, Combine(op, Word(tmp), value))))
  {
    hide Combine, Word, Le, Leads;
    var data := Le(4, Combine(op, Word(tmp), value));
    var turned := Apply(op, s, Turn(t));
    OneStep(op, s, Turn(t));
    assert data[..0] == [];
    var rest := WriteRest(op, turned, t, ram, addr, data, 0);
    s' := WithThread(turned, t, Idle).(ram := Store(ram, Shown(s, addr), addr, data));
    assert s' == WithThread(s, t, Idle).(ram := Store(ram, Shown(s, addr), addr, data));
    steps := [Turn(t)] + rest;
    LeadsThrough(op, s, [Turn(t)], turned, rest, s');
  }

  lemma ReachOfIsReaches(mem: MemDevice, addr: u64, a: nat)
    ensures ReachOf(mem)(addr, a) == Reaches(mem, addr, 4, a)
  {
  }

  /** One connection alone, run to its end where both calls complete, leaves the
      memory that the two calls made directly leave. */
  lemma AloneIsInPlace(op: Modify, addr: u64, value: u32, m: Machine) returns (steps: seq<Step>, s: State)
    requires Completes(m.mem, false, addr, 4) && Completes(m.mem, true, addr, 4)
    ensures Leads(op, Initially(m.mem.ram, ReachOf(m.mem), 1), steps, s)
    ensures s.threads == [Idle] && s.ram == ModifyInPlace(op, addr, value, m).m.mem.ram
  {
    hide Combine, Word, Le, Leads, Completes, Reaches, MemRead, MemWrite, Store, ReachOf;
    var ram := m.mem.ram;
    var s0 := Initially(ram, ReachOf(m.mem), 1);
    var window := Window(m.mem, addr, 4);
    forall a: nat ensures Shown(s0, addr)(a) == window(a) { ReachOfIsReaches(m.mem, addr, a); }
    var tmp := Fetch(ram, Shown(s0, addr), addr, 4);
    assert tmp[..0] == [] && tmp == Fetch(ram, window, addr, 4);
    var s1 := Apply(op, s0, Start(0, addr, value));
    OneStep(op, s0, Start(0, addr, value));
    var r := ReadRest(op, s1, 0, addr, value, 0);
    var s2 := WithThread(s1, 0, Reading(addr, value, tmp));
    LeadsThrough(op, s0, [Start(0, addr, value)], s1, r, s2);
    var w;
    w, s := FinishWrite(op, s2, 0, ram, addr, value, tmp);
    steps := [Start(0, addr, value)] + r + w;
    LeadsThrough(op, s0, [Start(0, addr, value)] + r, s2, w, s);
    var data := Le(4, Combine(op, Word(tmp), value));
    StoreSameWindow(ram, Shown(s2, addr), window, addr, data);
    ReadThroughWindow(m, addr, 4);
    WriteThroughWindow(m, addr, data);
    assert s.threads == [Idle];
  }

  // --------------------------------------------- when exactly an update is safe

  /** The connection is about to undo the forced value of bit `b` at `a`, which it
      reaches: it has read the other value and its operand does not force the bit
      again, or it has yet to write the other value. */
  ghost predicate Stale(op: Modify, reach: (nat, nat) -> bool, th: Thread, a: nat, b: nat) {
    match th
    case Idle => false
    case Reading(addr, value, tmp) =>
      reach(addr, a) &&
      exists j :: 0 <= j < |tmp| && At(addr, j) == a && Bit(tmp[j], b) != Target(op) && !Forces(op, value, 8 * j + b)
    case Writing(addr, data, done) =>
      reach(addr, a) &&
      exists j :: done <= j < |data| && At(addr, j) == a && Bit(data[j], b) != Target(op)
  }

  ghost predicate NoneStale(op: Modify, s: State, a: nat, b: nat) {
    forall t :: 0 <= t < |s.threads| ==> !Stale(op, s.reach, s.threads[t], a, b)
  }

  /** Bit `b` of the backed byte at `a` has the value the operation forces. */
  predicate IsForced(op: Modify, s: State, a: nat, b: nat) {
    a in s.ram && Bit(s.ram[a], b) == Target(op)
  }

  /** Transfers are four bytes long, and a finished one is not kept. */
  predicate Shaped(th: Thread) {
    match th
    case Idle => true
    case Reading(_, _, tmp) => |tmp| <= 4
    case Writing(_, data, done) => |data| == 4 && done < 4
  }

  predicate AllShaped(s: State) {
    forall t :: 0 <= t < |s.threads| ==> Shaped(s.threads[t])
  }

  lemma ReachableShaped(op: Modify, ram: map<nat, byte>, reach: (nat, nat) -> bool, n: nat, steps: seq<Step>, s: State)
    requires Leads(op, Initially(ram, reach, n), steps, s)
    ensures AllShaped(s)
  {
    hide Leads, ByteAllowed;
    StartAllowed(op, ram, reach, n);
    RunKeeps(op, ram, Initially(ram, reach, n), steps, s);
  }

  lemma TurnStaysFresh(op: Modify, reach: (nat, nat) -> bool, addr: u64, value: u32, tmp: Bytes, a: nat, b: nat)
    requires |tmp| == 4 && b < 8
    ensures Stale(op, reach, Writing(addr, Le(4, Combine(op, Word(tmp), value)), 0), a, b) <==>
      Stale(op, reach, Reading(addr, value, tmp), a, b)
  {
    hide Combine, Word, Bit, Forces;
    var word := Combine(op, Word(tmp), value);
    LeOfFromLe(tmp);
    assert Le(4, Word(tmp)) == tmp by { WordIsFromLe(tmp); }
    hide Le;
    forall j: nat | j < 4
      ensures Bit(Le(4, word)[j], b) == if Forces(op, value, 8 * j + b) then Target(op) else Bit(tmp[j], b)
    {
      CombinedBit(op, Word(tmp), value, j, b);
    }
  }

  lemma WordIsFromLe(tmp: Bytes)
    requires |tmp| == 4
    ensures Word(tmp) == FromLe(tmp)
  {
  }

  /** A step of an interleaving in which no connection is stale on the bit keeps
      its value and makes no connection stale on it. */
  lemma StepStaysForced(op: Modify, s: State, x: Step, a: nat, b: nat)
    requires IsForced(op, s, a, b) && NoneStale(op, s, a, b) && b < 8 && Enabled(s, x)
    ensures IsForced(op, Apply(op, s, x), a, b) && NoneStale(op, Apply(op, s, x), a, b)
  {
    hide Combine, Word, Le, Bit, Forces;
    if x.Turn? {
      var th := s.threads[x.t];
      TurnStaysFresh(op, s.reach, th.addr, th.value, th.tmp, a, b);
    }
  }

  lemma {:induction false} RunStaysForced(op: Modify, s: State, steps: seq<Step>, s': State, a: nat, b: nat)
    requires IsForced(op, s, a, b) && NoneStale(op, s, a, b) && b < 8 && Leads(op, s, steps, s')
    ensures IsForced(op, s', a, b)
    decreases |steps|
  {
    hide IsForced, NoneStale, Apply, Enabled;
    if steps != [] {
      StepStaysForced(op, s, steps[0], a, b);
      RunStaysForced(op, Apply(op, s, steps[0]), steps[1..], s', a, b);
    }
  }

  /** A write goes on undisturbed until its byte `j` is in memory. */
  lemma {:induction false} WriteUpTo(op: Modify, s: State, t: nat, j: nat) returns (steps: seq<Step>, s': State)
    requires t < |s.threads| && s.threads[t].Writing? && s.threads[t].done <= j < |s.threads[t].data|
    requires At(s.threads[t].addr, j) in s.ram && s.reach(s.threads[t].addr, At(s.threads[t].addr, j))
    ensures Leads(op, s, steps, s')
    ensures var a := At(s.threads[t].addr, j);
      a in s'.ram && s'.ram[a] == s.threads[t].data[j]
    decreases j - s.threads[t].done
  {
    hide Leads;
    s' := Apply(op, s, WriteByte(t));
    steps := [WriteByte(t)];
    OneStep(op, s, WriteByte(t));
    if s.threads[t].done < j {
      var rest, end := WriteUpTo(op, s', t, j);
      LeadsThrough(op, s, steps, s', rest, end);
      steps, s' := steps + rest, end;
    }
  }

  /** A read goes on undisturbed to its end and keeps what it had. */
  lemma {:induction false} ReadOn(op: Modify, s: State, t: nat) returns (steps: seq<Step>, s': State)
    requires t < |s.threads| && s.threads[t].Reading? && |s.threads[t].tmp| <= 4
    ensures Leads(op, s, steps, s') && s'.ram == s.ram && s'.reach == s.reach && t < |s'.threads|
    ensures var th, th' := s.threads[t], s'.threads[t];
      th'.Reading? && |th'.tmp| == 4 && th.tmp <= th'.tmp && th'.addr == th.addr && th'.value == th.value
    decreases 4 - |s.threads[t].tmp|
  {
    steps, s' := [], s;
    if |s.threads[t].tmp| < 4 {
      hide Leads;
      s' := Apply(op, s, ReadByte(t));
      steps := [ReadByte(t)];
      OneStep(op, s, ReadByte(t));
      var rest, end := ReadOn(op, s', t);
      LeadsThrough(op, s, steps, s', rest, end);
      steps, s' := steps + rest, end;
    }
  }

  /** A stale connection that is left to finish undoes the bit. */
  lemma StaleUndoes(op: Modify, s: State, t: nat, a: nat, b: nat) returns (steps: seq<Step>, s': State)
    requires t < |s.threads| && Shaped(s.threads[t]) && Stale(op, s.reach, s.threads[t], a, b) && a in s.ram && b < 8
    ensures Leads(op, s, steps, s') && !IsForced(op, s', a, b)
  {
    hide Leads, Bit, Forces, Combine, Word, Le;
    match s.threads[t]
    case Writing(addr, data, done) =>
      var j :| done <= j < |data| && At(addr, j) == a && Bit(data[j], b) != Target(op);
      steps, s' := WriteUpTo(op, s, t, j);
    case Reading(addr, value, tmp) =>
      var r, mid := ReadOn(op, s, t);
      var all := mid.threads[t].tmp;
      assert Stale(op, s.reach, Reading(addr, value, all), a, b);
      TurnStaysFresh(op, s.reach, addr, value, all, a, b);
      var turned := Apply(op, mid, Turn(t));
      OneStep(op, mid, Turn(t));
      LeadsThrough(op, s, r, mid, [Turn(t)], turned);
      var data := turned.threads[t].data;
      var j :| 0 <= j < |data| && At(addr, j) == a && Bit(data[j], b) != Target(op);
      var w;
      w, s' := WriteUpTo(op, turned, t, j);
      steps := r + [Turn(t)] + w;
      LeadsThrough(op, s, r + [Turn(t)], turned, w, s');
  }

  /** Exactly when an update is safe. In any state that connections can reach, a
      bit that has the operation's value keeps it in every continuation if and
      only if no connection is stale on it at that moment. */
  lemma SafeIffNoneStale(op: Modify, ram: map<nat, byte>, reach: (nat, nat) -> bool, n: nat, before: seq<Step>,
      s: State, a: nat, b: nat)
    requires Leads(op, Initially(ram, reach, n), before, s) && IsForced(op, s, a, b) && b < 8
    ensures (forall steps, s' :: Leads(op, s, steps, s') ==> IsForced(op, s', a, b)) <==> NoneStale(op, s, a, b)
  {
    hide Leads, IsForced, Stale;
    ReachableShaped(op, ram, reach, n, before, s);
    if NoneStale(op, s, a, b) {
      forall steps, s' | Leads(op, s, steps, s') ensures IsForced(op, s', a, b) {
        RunStaysForced(op, s, steps, s', a, b);
      }
    } else {
      var t :| 0 <= t < |s.threads| && Stale(op, s.reach, s.threads[t], a, b);
      assert a in s.ram by { ForcedIsBacked(op, s, a, b); }
      var steps, s' := StaleUndoes(op, s, t, a, b);
    }
  }

  lemma ForcedIsBacked(op: Modify, s: State, a: nat, b: nat)
    requires IsForced(op, s, a, b)
    ensures a in s.ram
  {
  }
}
