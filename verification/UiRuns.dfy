/** Edit transactions, scrolling and paging in the full-screen client. */
module UiRuns {
  import opened Bits
  import opened Bytes
  import opened Listing
  import opened Machines
  import opened LibPort
  import opened LibMem
  import opened PciAddress
  import opened Packet
  import opened Handler
  import opened Client
  import opened Hex
  import opened Ui
  import opened UiLaws
  import CmosLaws

  // ------------------------------------------------------- edit transactions

  /** A key that neither commits, cancels nor leaves the current function. */
  predicate Quiet(func: Func, key: int) {
    key != ENTER && key != ESC && NextFunc(func, key) == func
  }

  /** The hex digits among the keys, in the order typed. */
  function Typed(run: seq<Input>): (d: string)
    ensures forall i :: 0 <= i < |d| ==> IsHexDigit(d[i])
  {
    if run == [] then ""
    else (if IsDigitKey(run[0].key) then [run[0].key as char] else "") + Typed(run[1..])
  }

  /** `n` followed by the typed digits, as one hexadecimal number. */
  function Appended(n: nat, run: seq<Input>): nat
    decreases |run|
  {
    if run == [] then n
    else Appended(if IsDigitKey(run[0].key) then n * 16 + DigitOf(run[0].key) else n, run[1..])
  }

  lemma HexLast(d: string, c: char)
    requires IsHexDigit(c) && forall i :: 0 <= i < |d| ==> IsHexDigit(d[i])
    ensures HexValue(d + [c]) == 16 * HexValue(d) + HexDigit(c)
  {
    assert (d + [c])[..|d|] == d;
  }

  lemma {:induction false} HexFront(c: char, d: string)
    requires IsHexDigit(c) && forall i :: 0 <= i < |d| ==> IsHexDigit(d[i])
    ensures HexValue([c] + d) == HexDigit(c) * Pow16(|d|) + HexValue(d)
  {
    hide HexValue, IsHexDigit, HexDigit;
    EmptyHex();
    if d == [] {
      HexLast("", c);
      assert "" + [c] == [c] + d;
    } else {
      var k := |d| - 1;
      HexFront(c, d[..k]);
      HexLast(d[..k], d[k]);
      HexLast([c] + d[..k], d[k]);
      assert d[..k] + [d[k]] == d && ([c] + d[..k]) + [d[k]] == [c] + d;
      Distribute(0, HexDigit(c), Pow16(k));
      Distribute(HexDigit(c), 0, Pow16(k));
    }
  }

  lemma {:induction false} AppendedIsSum(n: nat, run: seq<Input>)
    ensures Appended(n, run) == n * Pow16(|Typed(run)|) + HexValue(Typed(run))
    decreases |run|
  {
    hide HexValue;
    if run == [] {
      assert Typed(run) == "";
      EmptyHex();
    } else {
      var rest := Typed(run[1..]);
      if IsDigitKey(run[0].key) {
        var c := run[0].key as char;
        AppendedIsSum(n * 16 + DigitOf(run[0].key), run[1..]);
        HexFront(c, rest);
        assert Typed(run) == [c] + rest;
        Distribute(n, HexDigit(c), Pow16(|rest|));
      } else {
        AppendedIsSum(n, run[1..]);
        assert Typed(run) == rest;
      }
    }
  }

  lemma EmptyHex()
    ensures HexValue("") == 0
  {
  }

  lemma Distribute(n: nat, d: nat, p: nat)
    ensures (n * 16 + d) * p == n * (16 * p) + d * p
  {
  }

  /** A quiet key while editing changes nothing of the target. */
  lemma QuietStep(s: State, i: Input, devs: seq<PciFn>)
    requires Inv(s, |devs|) && s.editing && Quiet(s.func, i.key)
    ensures var t := Iterated(s, i, devs);
      && t.func == s.func && t.base == s.base && t.offset == s.offset && t.editing
      && t.editBuf == (if IsDigitKey(i.key) then (s.editBuf * 16 + DigitOf(i.key)) % 256 else s.editBuf)
      && Pressed(s, i.key, devs).1 == ScreenRead(s, devs)
  {
    hide DigitOf, IsDigitKey, CalculatePciAddress;
    var t := Selected(s, i.key);
    assert t.func == s.func && t.editing && t.input == i.key;
    assert Commit(t, devs) == [];
    assert [] + ScreenRead(DumpKey(t, |devs|), devs) == ScreenRead(s, devs);
  }

  predicate AllQuiet(func: Func, run: seq<Input>) {
    forall i :: 0 <= i < |run| ==> Quiet(func, run[i].key)
  }

  /** Still editing the same byte of the same view. */
  predicate SameTarget(s: State, t: State) {
    t.func == s.func && t.base == s.base && t.offset == s.offset && t.editing && s.editing
  }

  ghost predicate Only(qs: seq<Request>, shown: seq<Request>) {
    forall q :: q in qs ==> q in shown
  }

  lemma OnlyJoin(a: seq<Request>, b: seq<Request>, shown: seq<Request>)
    requires Only(a, shown) && Only(b, shown)
    ensures Only(a + b, shown) && Only(shown, shown) && Only([], shown)
  {
  }

  /** From entering edit mode on, along every run of quiet keys, the target (the
      function, base and offset) stays fixed, only reads of the same screen are
      sent, and the buffer holds the start value with the typed digits appended,
      modulo 256. */
  lemma {:induction false} EditRun(s: State, run: seq<Input>, devs: seq<PciFn>, n: nat)
    requires Inv(s, |devs|) && GoodList(devs) && s.editing && s.editBuf == n % 256
    requires AllQuiet(s.func, run)
    ensures var (t, qs) := Ran(s, run, devs);
      && Inv(t, |devs|) && SameTarget(s, t)
      && t.editBuf == Appended(n, run) % 256
      && Only(qs, ScreenRead(s, devs))
    decreases |run|
  {
    hide Iterated, Pressed, Inv, Quiet, IsDigitKey, DigitOf, ScreenRead, Only, GoodList;
    var shown := ScreenRead(s, devs);
    NoneRead(shown);
    OnlyJoin([], [], shown);
    if run != [] {
      var key := run[0].key;
      NotQuit(s, key);
      QuietStep(s, run[0], devs);
      IteratedKeeps(s, run[0], devs);
      var t := Iterated(s, run[0], devs);
      var n' := if IsDigitKey(key) then n * 16 + DigitOf(key) else n;
      if IsDigitKey(key) { TypeModulo(n, DigitOf(key)); }
      SameReads(s, t, devs);
      EditRun(t, run[1..], devs, n');
      OnlyJoin(shown, Ran(t, run[1..], devs).1, shown);
    }
  }

  lemma TypeModulo(n: nat, d: nat)
    ensures (n % 256 * 16 + d) % 256 == (n * 16 + d) % 256
  {
    var x := n % 256 * 16 + d;
    assert n * 16 + d == 256 * (16 * (n / 256) + x / 256) + x % 256;
    DivModUnique(n * 16 + d, 256, 16 * (n / 256) + x / 256, x % 256);
  }

  lemma NoneRead(shown: seq<Request>)
    ensures Only([], shown)
  {
  }

  lemma NotQuit(s: State, key: int)
    requires Quiet(s.func, key)
    ensures !Quits(s, key)
  {
  }

  lemma SameReads(s: State, t: State, devs: seq<PciFn>)
    requires t.func == s.func && t.base == s.base
    ensures ScreenRead(t, devs) == ScreenRead(s, devs)
    ensures t.offset == s.offset ==> ByteWrite(t, devs) == ByteWrite(s.(editBuf := t.editBuf), devs)
  {
    hide CalculatePciAddress;
  }

  /** The byte that `start` becomes when the digits `d` are typed over it. */
  function Overtyped(start: byte, d: string): byte
    requires forall i :: 0 <= i < |d| ==> IsHexDigit(d[i])
  {
    (start * Pow16(|d|) + HexValue(d)) % 256
  }

  /** The commit: Enter sends exactly one write, at the target fixed when editing
      began, of (start * 16^k + value of the k digits typed) mod 256, and then the
      read of the same screen. */
  lemma EditCommits(s: State, run: seq<Input>, devs: seq<PciFn>)
    requires Inv(s, |devs|) && GoodList(devs) && s.editing
    requires AllQuiet(s.func, run)
    ensures var t := Ran(s, run, devs).0;
      && Pressed(t, ENTER, devs).1 ==
           ByteWrite(s.(editBuf := Overtyped(s.editBuf, Typed(run))), devs) + ScreenRead(s, devs)
      && !Pressed(t, ENTER, devs).0.editing
  {
    AppendedIsSum(s.editBuf, run);
    assert Appended(s.editBuf, run) % 256 == Overtyped(s.editBuf, Typed(run));
    hide *;
    EditRun(s, run, devs, s.editBuf);
    var t := Ran(s, run, devs).0;
    TargetFields(s, t);
    EnterCommits(t, devs);
    SameReads(s, t, devs);
  }

  lemma TargetFields(s: State, t: State)
    requires SameTarget(s, t)
    ensures t.func == s.func && t.base == s.base && t.offset == s.offset && t.editing
  {
  }

  lemma EnterCommits(t: State, devs: seq<PciFn>)
    requires Inv(t, |devs|) && t.editing
    ensures Pressed(t, ENTER, devs).1 == ByteWrite(t, devs) + ScreenRead(t, devs)
    ensures !Pressed(t, ENTER, devs).0.editing
  {
    hide CalculatePciAddress;
    var u := Selected(t, ENTER);
    assert u.func == t.func && u.editing && u.input == ENTER;
    SameReads(t, u, devs);
    SameReads(t, DumpKey(u, |devs|), devs);
    assert t.(editBuf := u.editBuf) == t;
  }

  /** Esc and every switch to another function end the edit and write nothing. */
  lemma EditDiscarded(s: State, key: int, devs: seq<PciFn>)
    requires Inv(s, |devs|) && s.editing
    requires key == ESC || NextFunc(s.func, key) != s.func
    ensures !Quits(s, key) && !Pressed(s, key, devs).0.editing
    ensures forall q :: q in Pressed(s, key, devs).1 ==> SpaceRead(q.op).Some?
  {
    hide CalculatePciAddress, Paged, CursorAfter;
    var u := Selected(s, key);
    assert !u.editing && u.input == key;
    var t := Listed(u, |devs|);
    assert Commit(t, devs) == [];
  }

  // -------------------------------------------------- the committed byte shows

  lemma DirectByteWrite(m: Machine, sp: Space, addr: u64, v: byte)
    requires addr < Span(AddrWidth(sp))
    ensures var q := Request(WriteOp(sp), addr, 1, Some([v]));
      var p := WriteSpace(m, sp, addr, [v]);
      Sound(q) && Direct(m, q) == Called(p.m, Got(p.ok, []))
  {
    hide WriteSpace, Intended, Encode;
    ByteWriteIntent(sp, addr, v);
  }

  lemma DirectScreenRead(m: Machine, sp: Space, addr: u64)
    requires addr < Span(AddrWidth(sp))
    ensures var q := Request(ReadOp(sp), addr, SCREEN, None);
      var p := ReadSpace(m, sp, addr, SCREEN);
      Sound(q) && Direct(m, q) == Called(p.m, Got(p.ok, p.data))
  {
    hide ReadSpace, Intended, Encode;
    ScreenIntent(sp, addr);
  }

  /** Byte `k` of the screen at `base` after `v` was written at offset `off`: zero
      where the kernel hides the page from the read, `v` at the cursor when RAM
      answers there and the write reaches it, else as before. */
  function ShownAfter(mem: MemDevice, base: u64, off: nat, v: byte, k: nat): byte
    requires base + off < MAX64
  {
    if !Reaches(mem, base, SCREEN, base + k) then 0
    else if k == off && base + off in mem.ram && Reaches(mem, base + off, 1, base + off) then v
    else RamByte(mem.ram, base + k)
  }

  lemma MemByteShows(m: Machine, base: u64, off: nat, v: byte)
    requires base % SCREEN == 0 && off < SCREEN && base + off < MAX64
    ensures var w := MemWrite(m, base + off, [v]);
      var r := MemRead(w.m, base, SCREEN);
      && (w.ok <==> Completes(m.mem, true, base + off, 1))
      && (r.ok <==> Completes(m.mem, false, base, SCREEN))
      && (w.ok && r.ok ==> forall k :: 0 <= k < SCREEN ==> r.data[k] == ShownAfter(m.mem, base, off, v, k))
  {
    hide MapRange, MemWrite, MemRead, Completes, Reaches;
    LibMem.WriteThenRead(m, base + off, [v], base, SCREEN);
    assert base == SCREEN * (base / SCREEN);
    forall k | 0 <= k < SCREEN
      ensures ReadAfter(m.mem, base + off, [v], base, SCREEN, At(base, k)) == ShownAfter(m.mem, base, off, v, k)
    {
      assert At(base, k) == base + k;
      assert OffsetOf(base + k, base + off) < 1 <==> k == off;
    }
  }

  /** In the memory view a commit and the read that follows it succeed exactly
      when they complete, and then the screen shows the committed byte at the
      cursor, where RAM answers and both reach it, and every other byte as it was
      or hidden. */
  lemma MemoryCommitShows(m: Machine, s: State, devs: seq<PciFn>)
    requires Inv(s, |devs|) && GoodList(devs) && s.func == KhfMem
    ensures |ByteWrite(s, devs)| == 1 == |ScreenRead(s, devs)| && s.base + s.offset < MAX64
    ensures Sound(ByteWrite(s, devs)[0]) && Sound(ScreenRead(s, devs)[0])
    ensures var w := Direct(m, ByteWrite(s, devs)[0]);
      var r := Direct(w.m, ScreenRead(s, devs)[0]).outcome;
      && w.outcome == Got(Completes(m.mem, true, s.base + s.offset, 1), [])
      && r.Got? && (r.ok <==> Completes(m.mem, false, s.base, SCREEN)) && |r.data| == SCREEN
      && (w.outcome.ok && r.ok ==>
           forall k :: 0 <= k < SCREEN ==> r.data[k] == ShownAfter(m.mem, s.base, s.offset, s.editBuf, k))
  {
    hide Completes, Encode, MemWrite, MemRead, Direct, ShownAfter;
    WriteTarget(s, devs);
    Spans();
    DirectByteWrite(m, Mem, s.base + s.offset, s.editBuf);
    DirectScreenRead(MemWrite(m, s.base + s.offset, [s.editBuf]).m, Mem, s.base);
    MemByteShows(m, s.base, s.offset, s.editBuf);
  }

  /** A whole edit in the memory view: keys typed in edit mode, then Enter. Enter
      sends two requests; carried out in order on RAM that both reach, the second
      brings back the typed digits over the start value at the cursor. */
  lemma EditShows(m: Machine, s: State, run: seq<Input>, devs: seq<PciFn>)
    requires Inv(s, |devs|) && GoodList(devs) && s.func == KhfMem && s.editing
    requires AllQuiet(s.func, run)
    ensures s.base + s.offset < MAX64
    ensures var qs := Pressed(Ran(s, run, devs).0, ENTER, devs).1;
      && |qs| == 2 && Sound(qs[0]) && Sound(qs[1])
      && var w := Direct(m, qs[0]);
         var r := Direct(w.m, qs[1]).outcome;
         && w.outcome == Got(Completes(m.mem, true, s.base + s.offset, 1), [])
         && r.Got? && (r.ok <==> Completes(m.mem, false, s.base, SCREEN)) && |r.data| == SCREEN
         && (w.outcome.ok && r.ok ==> forall k :: 0 <= k < SCREEN ==>
              r.data[k] == ShownAfter(m.mem, s.base, s.offset, Overtyped(s.editBuf, Typed(run)), k))
  {
    hide *;
    var s' := s.(editBuf := Overtyped(s.editBuf, Typed(run)));
    EditCommits(s, run, devs);
    AnotherByte(s, s'.editBuf, devs);
    MemoryCommitShows(m, s', devs);
  }

  lemma AnotherByte(s: State, v: byte, devs: seq<PciFn>)
    requires Inv(s, |devs|)
    ensures Inv(s.(editBuf := v), |devs|) && ScreenRead(s.(editBuf := v), devs) == ScreenRead(s, devs)
  {
    hide CalculatePciAddress;
  }

  lemma CmosByteShows(m: Machine, off: nat, v: byte)
    requires off < SCREEN
    requires CmosLaws.Accepted(m.io, off, 1, true) && CmosLaws.Accepted(m.io, 0, SCREEN, false)
    ensures var w := CmosAccess(m, off, [v], true);
      var r := ReadBack(CmosAccess(w.m, 0, Ones(SCREEN), false));
      w.ok && r.ok && r.data == m.io.cmos[off := v]
  {
    hide CmosAccess, ReadBack, CmosLaws.LastInto, CmosLaws.Contained, CmosLaws.Written, CmosLaws.RangeAnswers;
    hide CmosLaws.ByteAfter, CmosLaws.Cell, CmosOff, Splice, PortOpen;
    var n := CmosLaws.WriteIsSplice(m, off, [v]);
    CmosLaws.WriteThenRead(m, off, [v], 0, Ones(SCREEN));
    var w := CmosAccess(m, off, [v], true);
    var r := ReadBack(CmosAccess(w.m, 0, Ones(SCREEN), false));
    assert |r.data| == SCREEN;
    assert r.data == m.io.cmos[off := v];
  }

  /** The same in the CMOS view, through both banks' index and data ports. */
  lemma CmosCommitShows(m: Machine, s: State, devs: seq<PciFn>)
    requires Inv(s, |devs|) && GoodList(devs) && s.func == KhfCmos
    requires CmosLaws.Accepted(m.io, s.offset, 1, true) && CmosLaws.Accepted(m.io, 0, SCREEN, false)
    ensures |ByteWrite(s, devs)| == 1 == |ScreenRead(s, devs)|
    ensures Sound(ByteWrite(s, devs)[0]) && Sound(ScreenRead(s, devs)[0])
    ensures var w := Direct(m, ByteWrite(s, devs)[0]);
      Direct(w.m, ScreenRead(s, devs)[0]).outcome == Got(true, m.io.cmos[s.offset := s.editBuf])
  {
    hide CmosAccess, Encode, CmosLaws.Accepted, ReadBack, Direct, Ones;
    WriteTarget(s, devs);
    Spans();
    DirectByteWrite(m, Cmos, s.offset, s.editBuf);
    DirectScreenRead(CmosAccess(m, s.offset, [s.editBuf], true).m, Cmos, 0);
    CmosByteShows(m, s.offset, s.editBuf);
  }

  // ---------------------------------------------------------------- scrolling

  /** The index of the highlighted device. */
  function Selection(s: State): int { s.pageOffset + s.hlIndex }

  /** Every key of the run is `key`; what the screen reads bring back is free. */
  predicate AllKey(run: seq<Input>, key: int) {
    forall i :: 0 <= i < |run| ==> run[i].key == key
  }

  /** Down moves the selection by exactly one except at the last device, Up
      except at the first; the selection stays inside the window either way, and
      the listing sends nothing. */
  lemma ArrowsMoveByOne(s: State, i: Input, devs: seq<PciFn>)
    requires Inv(s, |devs|) && s.func == KhfPciList && |devs| < MAX32
    requires i.key == KEY_DOWN || i.key == KEY_UP
    ensures var t := Iterated(s, i, devs);
      && Inv(t, |devs|) && t.func == KhfPciList && Pressed(s, i.key, devs).1 == []
      && Selection(t) == (
           if i.key == KEY_DOWN then (if Selection(s) + 1 < |devs| then Selection(s) + 1 else Selection(s))
           else (if Selection(s) > 0 then Selection(s) - 1 else 0))
  {
    hide DumpKey, Displayed, ScreenRead, Commit, Switched;
  }

  lemma {:induction false} Presses(s: State, run: seq<Input>, devs: seq<PciFn>, key: int)
    requires Inv(s, |devs|) && s.func == KhfPciList && |devs| < MAX32
    requires key in {KEY_DOWN, KEY_UP} && AllKey(run, key)
    requires if key == KEY_DOWN then Selection(s) + |run| < |devs| else |run| <= Selection(s)
    ensures var (t, qs) := Ran(s, run, devs);
      && Inv(t, |devs|) && t.func == KhfPciList && qs == []
      && Selection(t) == if key == KEY_DOWN then Selection(s) + |run| else Selection(s) - |run|
    decreases |run|
  {
    hide Inv, Iterated, Pressed;
    if run != [] {
      ArrowsMoveByOne(s, run[0], devs);
      Presses(Iterated(s, run[0], devs), run[1..], devs, key);
    }
  }

  function Distance(a: int, b: int): nat { if a <= b then b - a else a - b }

  /** From every state of the listing every device is reached, by one arrow key in
      exactly as many presses as it is away, and nothing is sent on the way. */
  lemma EveryDeviceReached(s: State, devs: seq<PciFn>, target: nat) returns (key: int, n: nat)
    requires Inv(s, |devs|) && s.func == KhfPciList && target < |devs| < MAX32
    ensures key in {KEY_DOWN, KEY_UP} && n == Distance(Selection(s), target) < |devs|
    ensures forall run :: AllKey(run, key) && |run| == n ==>
      var (t, qs) := Ran(s, run, devs);
      Inv(t, |devs|) && t.func == KhfPciList && Selection(t) == target && qs == []
  {
    hide Ran, AllKey;
    key, n := if target >= Selection(s) then KEY_DOWN else KEY_UP, Distance(Selection(s), target);
    forall run | AllKey(run, key) && |run| == n
      ensures var (t, qs) := Ran(s, run, devs);
        Inv(t, |devs|) && t.func == KhfPciList && Selection(t) == target && qs == []
    {
      Presses(s, run, devs, key);
    }
  }

  /** Enter then shows that device: its view is open, and what is sent is the read
      of its registers. */
  lemma EnterOpens(s: State, screen: Option<Screen>, devs: seq<PciFn>)
    requires Inv(s, |devs|) && s.func == KhfPciList && 0 < |devs| < MAX32
    ensures var t := Iterated(s, Input(ENTER, screen), devs);
      && t.func == KhfPci && t.base == Selection(s) < |devs| && t.offset == 0 && !t.editing
      && Pressed(s, ENTER, devs).1 == ScreenRead(t, devs) && |ScreenRead(t, devs)| == 1
  {
    hide CalculatePciAddress, Paged, IsDigitKey, DigitOf;
    var a := Selected(s, ENTER);
    DivModUnique(s.hlIndex + s.pageOffset, MAX64, 0, s.hlIndex + s.pageOffset);
    var t := Listed(a, |devs|);
    assert t.func == KhfPci && t.base == Selection(s) && t.input == ERR && t.offset == 0 && !t.editing;
    assert DumpKey(t, |devs|) == t.(offset := CursorAfter(0, ERR)) == t;
    SameReads(t, Displayed(t, screen), devs);
    assert Commit(t, devs) == [];
    assert [] + ScreenRead(t, devs) == ScreenRead(t, devs);
  }

  // ----------------------------------------------------------- paging algebra

  lemma DeviceBelow(base: u64, num: nat)
    requires base < num < MAX32
    ensures OtherDevice(base, num, true) == if base + 1 == num then 0 else base + 1
  {
    DivModUnique(base + 1, MAX64, 0, base + 1);
    DivModUnique(base + 1, num, if base + 1 == num then 1 else 0, if base + 1 == num then 0 else base + 1);
  }

  lemma DeviceAbove(base: u64, num: nat)
    requires base < num < MAX32
    ensures OtherDevice(base, num, false) == if base == 0 then num - 1 else base - 1
  {
    var x := base + num - 1;
    DivModUnique(x, MAX64, 0, x);
    DivModUnique(x, num, if base == 0 then 0 else 1, if base == 0 then x else base - 1);
  }

  lemma NextDevice(base: u64, num: nat)
    requires base < num < MAX32
    ensures OtherDevice(base, num, true) == if base + 1 == num then 0 else base + 1
    ensures OtherDevice(base, num, false) == if base == 0 then num - 1 else base - 1
  {
    hide OtherDevice;
    DeviceBelow(base, num);
    DeviceAbove(base, num);
  }

  lemma NextPorts(base: u64)
    requires base < 0x1_0000 && base % SCREEN == 0
    ensures IoPage((base + SCREEN) % MAX64) == if base == 0xFF00 then 0 else base + SCREEN
    ensures IoPage((base - SCREEN) % MAX64) == if base == 0 then 0xFF00 else base - SCREEN
  {
    hide IoPage;
    var k := base / SCREEN;
    assert base == SCREEN * k;
    DivModUnique(base + SCREEN, 0x1_0000, if base == 0xFF00 then 1 else 0, if base == 0xFF00 then 0 else base + SCREEN);
    if base == 0 {
      DivModUnique(-SCREEN, MAX64, -1, MAX64 - SCREEN);
    }
  }

  lemma DevicePagingUndone(base: u64, num: nat)
    requires base < num < MAX32
    ensures OtherDevice(OtherDevice(base, num, true), num, false) == base
    ensures OtherDevice(OtherDevice(base, num, false), num, true) == base
  {
    hide OtherDevice;
    NextDevice(base, num);
    NextDevice(OtherDevice(base, num, true), num);
    NextDevice(OtherDevice(base, num, false), num);
  }

  lemma PortPagingUndone(base: u64)
    requires base < 0x1_0000 && base % SCREEN == 0
    ensures Paged(KhfIo, Paged(KhfIo, base, 0, true), 0, false) == base
    ensures Paged(KhfIo, Paged(KhfIo, base, 0, false), 0, true) == base
  {
    hide IoPage;
    NextPorts(base);
    NextPorts(if base == 0xFF00 then 0 else base + SCREEN);
    NextPorts(if base == 0 then 0xFF00 else base - SCREEN);
  }

  lemma MemoryPagingUndone(base: u64)
    requires base % SCREEN == 0
    ensures ((base + SCREEN) % MAX64 - SCREEN) % MAX64 == base
    ensures ((base - SCREEN) % MAX64 + SCREEN) % MAX64 == base
  {
    PagesAligned(base);
    DivModUnique(base, MAX64, 0, base);
    DivModUnique(MAX64, MAX64, 1, 0);
    DivModUnique(-SCREEN, MAX64, -1, MAX64 - SCREEN);
  }

  lemma PagedBack(func: Func, base: u64, num: nat)
    requires BaseInv(INITIAL.(func := func, base := base), num) && num < MAX32
    requires func in {KhfMem, KhfIo, KhfPci}
    ensures Paged(func, Paged(func, base, num, true), num, false) == base
    ensures Paged(func, Paged(func, base, num, false), num, true) == base
  {
    hide OtherDevice, IoPage;
    match func
    case KhfPci => if num != 0 { DevicePagingUndone(base, num); }
    case KhfIo => PortPagingUndone(base);
    case KhfMem => MemoryPagingUndone(base);
  }

  lemma DiskPagedBack(base: u64)
    requires base % SCREEN == 0
    ensures base + SCREEN < MAX64 ==> Paged(KhfIde, Paged(KhfIde, base, 0, true), 0, false) == base
    ensures base >= SCREEN ==> Paged(KhfIde, Paged(KhfIde, base, 0, false), 0, true) == base
    ensures base == 0 ==> Paged(KhfIde, base, 0, false) == 0
  {
  }

  function DownTimes(base: u64, num: nat, n: nat): u64
    requires num != 0
    decreases n
  {
    if n == 0 then base else DownTimes(OtherDevice(base, num, true), num, n - 1)
  }

  lemma {:induction false} DownTimesAdds(base: u64, num: nat, a: nat, b: nat)
    requires num != 0
    ensures DownTimes(base, num, a + b) == DownTimes(DownTimes(base, num, a), num, b)
    decreases a
  {
    hide OtherDevice;
    if a > 0 { DownTimesAdds(OtherDevice(base, num, true), num, a - 1, b); }
  }

  lemma {:induction false} DownTimesBelow(base: u64, num: nat, n: nat)
    requires base < num < MAX32 && base + n <= num
    ensures DownTimes(base, num, n) == if base + n == num then (if n == 0 then base else 0) else base + n
    decreases n
  {
    hide OtherDevice;
    if n > 0 {
      NextDevice(base, num);
      if base + 1 < num { DownTimesBelow(base + 1, num, n - 1); }
    }
  }

  lemma DeviceCircle(base: u64, num: nat)
    requires base < num < MAX32
    ensures DownTimes(base, num, num) == base
  {
    DownTimesBelow(base, num, num - base);
    DownTimesAdds(base, num, num - base, base);
    DownTimesBelow(0, num, base);
  }

  lemma SidewaysBack(o: int)
    requires 0 <= o < SCREEN
    ensures CursorAfter(CursorAfter(o, KEY_LEFT), KEY_RIGHT) == o == CursorAfter(CursorAfter(o, KEY_RIGHT), KEY_LEFT)
    ensures CursorAfter(o, KEY_LEFT) / LINE == o / LINE == CursorAfter(o, KEY_RIGHT) / LINE
  {
    var row, col := o / LINE, o % LINE;
    DivModUnique(CursorAfter(o, KEY_LEFT), LINE, row, if col != 0 then col - 1 else LINE - 1);
    DivModUnique(CursorAfter(o, KEY_RIGHT), LINE, row, if col < LINE - 1 then col + 1 else 0);
  }

  lemma UpFrom(o: int)
    requires 0 <= o < SCREEN
    ensures CursorAfter(o, KEY_UP) == if o < LINE then o + SCREEN - LINE else o - LINE
    ensures CursorAfter(o, KEY_UP) % LINE == o % LINE
  {
    var up := if o < LINE then o + SCREEN - LINE else o - LINE;
    DivModUnique(o - LINE + SCREEN, SCREEN, if o < LINE then 0 else 1, up);
    DivModUnique(up, LINE, (up - o) / LINE + o / LINE, o % LINE);
  }

  lemma DownFrom(o: int)
    requires 0 <= o < SCREEN
    ensures CursorAfter(o, KEY_DOWN) == if o < SCREEN - LINE then o + LINE else o + LINE - SCREEN
    ensures CursorAfter(o, KEY_DOWN) % LINE == o % LINE
  {
    var down := if o < SCREEN - LINE then o + LINE else o + LINE - SCREEN;
    DivModUnique(o + LINE, SCREEN, if o < SCREEN - LINE then 0 else 1, down);
    DivModUnique(down, LINE, (down - o) / LINE + o / LINE, o % LINE);
  }

  lemma VerticalBack(o: int)
    requires 0 <= o < SCREEN
    ensures CursorAfter(CursorAfter(o, KEY_UP), KEY_DOWN) == o == CursorAfter(CursorAfter(o, KEY_DOWN), KEY_UP)
    ensures CursorAfter(o, KEY_UP) % LINE == o % LINE == CursorAfter(o, KEY_DOWN) % LINE
  {
    hide CursorAfter;
    UpFrom(o);
    DownFrom(o);
    DownFrom(CursorAfter(o, KEY_UP));
    UpFrom(CursorAfter(o, KEY_DOWN));
  }

  // -------------------------------------------------- the same, key by key

  /** A view of bytes, outside an edit. */
  predicate Browsing(s: State) {
    s.func != KhfInit && s.func != KhfPciList && !s.editing
  }

  /** A key that only moves: a page, or the cursor. */
  predicate IsMove(key: int) {
    key in {KEY_UP, KEY_DOWN, KEY_LEFT, KEY_RIGHT, KEY_PPAGE, KEY_NPAGE}
  }

  function BaseAfter(s: State, key: int, num: nat): u64 {
    if key == KEY_PPAGE then Paged(s.func, s.base, num, false)
    else if key == KEY_NPAGE then Paged(s.func, s.base, num, true)
    else s.base
  }

  /** What one moving key does to a view. */
  lemma MoveStep(s: State, i: Input, devs: seq<PciFn>)
    requires Inv(s, |devs|) && GoodList(devs) && Browsing(s) && IsMove(i.key)
    ensures var t := Iterated(s, i, devs);
      && Inv(t, |devs|) && Browsing(t) && t.func == s.func && !Quits(s, i.key)
      && t.base == BaseAfter(s, i.key, |devs|) && t.offset == CursorAfter(s.offset, i.key)
  {
    IteratedKeeps(s, i, devs);
    hide Inv, Paged, IsDigitKey, DigitOf, ScreenRead, CalculatePciAddress;
    var u := Selected(s, i.key);
    assert u.func == s.func && u.input == i.key && u.base == s.base && u.offset == s.offset && !u.editing;
  }

  lemma TwoMoves(s: State, a: Input, b: Input, devs: seq<PciFn>)
    requires Inv(s, |devs|) && GoodList(devs) && Browsing(s) && IsMove(a.key) && IsMove(b.key)
    ensures var t := Ran(s, [a, b], devs).0;
      && t.func == s.func && Browsing(t)
      && t.offset == CursorAfter(CursorAfter(s.offset, a.key), b.key)
      && t.base == BaseAfter(s.(base := BaseAfter(s, a.key, |devs|)), b.key, |devs|)
  {
    hide Inv, Iterated, Pressed, CursorAfter, Paged;
    MoveStep(s, a, devs);
    var m := Iterated(s, a, devs);
    MoveStep(m, b, devs);
    assert [a, b][1..] == [b] && [b][1..] == [];
    assert Ran(s, [a, b], devs).0 == Ran(m, [b], devs).0;
    assert Ran(m, [b], devs).0 == Ran(Iterated(m, b, devs), [], devs).0;
  }

  /** One press, then the opposite one. */
  predicate Opposite(a: int, b: int) {
    || (a == KEY_PPAGE && b == KEY_NPAGE) || (a == KEY_NPAGE && b == KEY_PPAGE)
    || (a == KEY_UP && b == KEY_DOWN) || (a == KEY_DOWN && b == KEY_UP)
    || (a == KEY_LEFT && b == KEY_RIGHT) || (a == KEY_RIGHT && b == KEY_LEFT)
  }

  /** PgUp undoes PgDn and PgDn undoes PgUp, whatever the reads bring back: modulo
      10000h on ports, 2^64 in memory, the device count on PCI. */
  lemma PagingUndone(s: State, a: Input, b: Input, devs: seq<PciFn>)
    requires Inv(s, |devs|) && GoodList(devs) && Browsing(s) && s.func in {KhfMem, KhfIo, KhfPci}
    requires a.key in {KEY_PPAGE, KEY_NPAGE} && Opposite(a.key, b.key)
    ensures var t := Ran(s, [a, b], devs).0;
      t.func == s.func && t.base == s.base && t.offset == s.offset && !t.editing
  {
    TwoMoves(s, a, b, devs);
    PagedBack(s.func, s.base, |devs|);
    hide Ran, Inv, Paged;
  }

  /** On disk they do so away from the ends, and PgUp stays at 0. */
  lemma DiskPaging(s: State, a: Input, b: Input, devs: seq<PciFn>)
    requires Inv(s, |devs|) && GoodList(devs) && Browsing(s) && s.func == KhfIde
    requires a.key in {KEY_PPAGE, KEY_NPAGE} && Opposite(a.key, b.key)
    ensures var t := Ran(s, [a, b], devs).0;
      && (a.key == KEY_NPAGE && s.base + SCREEN < MAX64 ==> t.base == s.base)
      && (a.key == KEY_PPAGE && s.base >= SCREEN ==> t.base == s.base)
    ensures a.key == KEY_PPAGE && s.base == 0 ==> Iterated(s, a, devs).base == 0
  {
    TwoMoves(s, a, b, devs);
    MoveStep(s, a, devs);
    DiskPagedBack(s.base);
    hide Ran, Iterated;
  }

  lemma {:induction false} PagesDown(s: State, run: seq<Input>, devs: seq<PciFn>)
    requires Inv(s, |devs|) && GoodList(devs) && Browsing(s) && s.func == KhfPci && AllKey(run, KEY_NPAGE)
    requires devs != []
    ensures var t := Ran(s, run, devs).0;
      t.func == KhfPci && t.base == DownTimes(s.base, |devs|, |run|)
    decreases |run|
  {
    hide Inv, Iterated, Pressed, OtherDevice;
    if run != [] {
      MoveStep(s, run[0], devs);
      PagesDown(Iterated(s, run[0], devs), run[1..], devs);
    }
  }

  /** As many presses of PgDn as there are devices lead back to the same device. */
  lemma FullCircle(s: State, run: seq<Input>, devs: seq<PciFn>)
    requires Inv(s, |devs|) && GoodList(devs) && Browsing(s) && s.func == KhfPci
    requires AllKey(run, KEY_NPAGE) && |run| == |devs|
    ensures var t := Ran(s, run, devs).0;
      t.func == KhfPci && t.base == s.base
  {
    if devs != [] {
      DeviceCircle(s.base, |devs|);
      hide Ran;
      PagesDown(s, run, devs);
    }
  }

  /** Left and right undo each other, and a single one keeps the row. */
  lemma LeftRight(s: State, a: Input, b: Input, devs: seq<PciFn>)
    requires Inv(s, |devs|) && GoodList(devs) && Browsing(s)
    requires a.key in {KEY_LEFT, KEY_RIGHT} && Opposite(a.key, b.key)
    ensures var t := Ran(s, [a, b], devs).0;
      t.func == s.func && t.base == s.base && t.offset == s.offset
    ensures Iterated(s, a, devs).offset / LINE == s.offset / LINE && Iterated(s, a, devs).base == s.base
  {
    TwoMoves(s, a, b, devs);
    MoveStep(s, a, devs);
    SidewaysBack(s.offset);
    hide Ran, Iterated, CursorAfter;
  }

  /** Up and down undo each other, and a single one keeps the column. */
  lemma UpDown(s: State, a: Input, b: Input, devs: seq<PciFn>)
    requires Inv(s, |devs|) && GoodList(devs) && Browsing(s)
    requires a.key in {KEY_UP, KEY_DOWN} && Opposite(a.key, b.key)
    ensures var t := Ran(s, [a, b], devs).0;
      t.func == s.func && t.base == s.base && t.offset == s.offset
    ensures Iterated(s, a, devs).offset % LINE == s.offset % LINE && Iterated(s, a, devs).base == s.base
  {
    TwoMoves(s, a, b, devs);
    MoveStep(s, a, devs);
    VerticalBack(s.offset);
    hide Ran, Iterated, CursorAfter;
  }
}
