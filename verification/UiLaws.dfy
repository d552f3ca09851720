/** What holds along every run of keys in the full-screen client. */
module UiLaws {
  import opened Bits
  import opened Bytes
  import opened Listing
  import opened Machines
  import opened PciAddress
  import opened LibPci
  import PciLaws
  import opened Packet
  import opened Handler
  import opened Client
  import opened Ui

  // -------------------------------------------------------------- invariant

  /** The highlighted device exists and lies in the drawn window. */
  predicate ListInv(s: State, num: nat) {
    && 0 <= s.hlIndex < PER_PAGE
    && 0 <= s.pageOffset <= (if num > PER_PAGE then num - PER_PAGE else 0)
    && (s.pageOffset + s.hlIndex < num || (num == 0 && s.hlIndex == 0))
  }

  predicate BaseInv(s: State, num: nat) {
    match s.func
    case KhfPci => s.base < num || (num == 0 && s.base == 0)
    case KhfIo => s.base < 0x1_0000 && s.base % SCREEN == 0
    case KhfCmos => s.base == 0
    case KhfPciList => s.base == 0 && !s.editing
    case KhfInit => s.base == 0 && !s.editing
    case _ => s.base % SCREEN == 0
  }

  predicate Inv(s: State, num: nat) {
    0 <= s.offset < SCREEN && ListInv(s, num) && BaseInv(s, num)
  }

  lemma InitialInv(num: nat)
    ensures Inv(INITIAL, num)
  {
  }

  lemma SelectedInv(s: State, key: int, num: nat)
    requires Inv(s, num) && num < MAX32
    ensures Inv(Selected(s, key), num)
    ensures Selected(s, key).func == KhfInit ==> key == KEY_F0 + 1 || key == ESC
  {
  }

  lemma ListKeyInv(s: State, num: nat)
    requires Inv(s, num) && num < MAX32
    ensures ListInv(ListKey(s, num).0, num)
    ensures var (t, open) := ListKey(s, num);
      t.func == s.func && t.offset == s.offset && t.editing == s.editing
      && (if open then t.base < num else t.base == s.base)
  {
    hide Selected, Switched, Listed;
    if s.input == KEY_UP {
    } else if s.input == KEY_DOWN {
    } else if s.input == KEY_PPAGE {
    } else if s.input == KEY_NPAGE {
    } else if s.input == ENTER && num != 0 {
      DivModUnique(s.hlIndex + s.pageOffset, MAX64, 0, s.hlIndex + s.pageOffset);
    }
  }

  lemma ListedInv(s: State, num: nat)
    requires Inv(s, num) && num < MAX32
    ensures Inv(Listed(s, num), num)
    ensures Listed(s, num).func == KhfInit ==> s.func == KhfInit && Listed(s, num) == s
  {
    hide ListKey;
    ListKeyInv(s, num);
  }

  /** Screens start on multiples of 256, also across the wrap at 2^64. */
  lemma PagesAligned(base: u64)
    requires base % SCREEN == 0
    ensures (base + SCREEN) % MAX64 == if base + SCREEN == MAX64 then 0 else base + SCREEN
    ensures (base - SCREEN) % MAX64 == if base == 0 then MAX64 - SCREEN else base - SCREEN
  {
    var k := base / SCREEN;
    assert base == SCREEN * k;
    if base == 0 { DivModUnique(-SCREEN, MAX64, -1, MAX64 - SCREEN); }
  }

  lemma IoPageAligned(x: u64)
    ensures IoPage(x) % SCREEN == 0 && IoPage(x) < 0x1_0000
  {
    hide IoPage;
    var k := x % 0x1_0000 / SCREEN;
    assert x % 0x100 == x % 0x1_0000 % 0x100;
    assert IoPage(x) == SCREEN * k;
  }

  lemma PagedInv(s: State, num: nat, down: bool)
    requires BaseInv(s, num) && num < MAX32 && s.func != KhfInit && s.func != KhfPciList
    ensures BaseInv(s.(base := Paged(s.func, s.base, num, down)), num)
  {
    hide IoPage;
    if s.func == KhfPci {
      if num != 0 { ModAtMost((s.base + if down then 1 else num - 1) % MAX64, num); }
    } else if s.func == KhfIo {
      IoPageAligned((s.base + SCREEN) % MAX64);
      IoPageAligned((s.base - SCREEN) % MAX64);
    } else if s.func != KhfCmos {
      PagesAligned(s.base);
    }
  }

  lemma DumpKeyInv(s: State, num: nat)
    requires Inv(s, num) && num < MAX32 && s.func != KhfPciList
    requires s.func == KhfInit ==> s.input == KEY_F0 + 1 || s.input == ESC
    ensures Inv(DumpKey(s, num), num)
  {
    hide Paged;
    if s.func != KhfInit {
      PagedInv(s, num, false);
      PagedInv(s, num, true);
    }
  }

  /** The client's device list: as many records as a reply carries, all of them
      addressable. */
  predicate GoodList(devs: seq<PciFn>) {
    |devs| <= MAX_FNS && forall i :: 0 <= i < |devs| ==> Addressable(devs[i])
  }

  /** What the server lists is such a list, and the client unpacks it from the
      reply by the count in it. */
  lemma ListingIsGood(m: Machine, f: Bytes)
    requires |f| >= HEADER && Decode(f) == Some(ListPci)
    ensures var list := PciList(m, MAX_FNS).list;
      var r := Handle(m, f).reply;
      && GoodList(list)
      && |r| == LIST_OFF + 8 * |list| && Field(r, HEADER, 4) == |list|
      && UnpackFns(r[LIST_OFF..], Field(r, HEADER, 4)) == list
  {
    hide Addressable, UnpackFns, Handle, Decode, Field;
    PciListRoundTrip(m, f);
    ServedListGood(m);
  }

  lemma ServedListGood(m: Machine)
    ensures GoodList(PciList(m, MAX_FNS).list)
  {
    hide Addressable, PciList;
    var list := PciList(m, MAX_FNS).list;
    PciListFits(m);
    forall i | 0 <= i < |list| ensures Addressable(list[i]) {
      PciLaws.ListedAddressable(m, MAX_FNS, i);
    }
  }

  // --------------------------------------------------- every request in bounds

  /** What the server accepts and its back ends' own range checks let through. */
  predicate InBounds(c: Command, devs: seq<PciFn>) {
    match c
    case Read(sp, addr, size) =>
      && (sp == Io ==> addr + size <= 0x1_0000)
      && (sp == Cmos ==> addr + size <= CMOS_SIZE)
      && (sp == Pci ==> size == SCREEN && exists i :: 0 <= i < |devs| && IsRegister(devs[i], addr, 0))
    case Write(sp, addr, data) =>
      && |data| == 1
      && (sp == Io ==> addr < 0x1_0000)
      && (sp == Cmos ==> addr < CMOS_SIZE)
      && (sp == Pci ==> exists i, off :: 0 <= i < |devs| && 0 <= off < SCREEN && IsRegister(devs[i], addr, off))
    case _ => false
  }

  /** `addr` is register `off` of device `d`, as the client packs it. */
  predicate IsRegister(d: PciFn, addr: nat, off: int) {
    addr == CalculatePciAddress(d.bus, d.dev, d.fun) + off
  }

  /** The request reaches the server, is not NACKed and is in range there. */
  ghost predicate Served(q: Request, devs: seq<PciFn>) {
    Sound(q) && Encode(q).Some? && Intended(q).Do? && InBounds(Intended(q).c, devs)
  }

  /** A screen read at `addr` of a space reads 256 bytes there; for CMOS the size
      field wraps to 0 and means 256 again. */
  lemma ScreenIntent(sp: Space, addr: u64)
    requires addr < Span(AddrWidth(sp))
    ensures var q := Request(ReadOp(sp), addr, SCREEN, None);
      Sound(q) && Encode(q).Some? && Intended(q) == Do(Read(sp, addr, SCREEN))
  {
    hide Prologue;
    Spans();
    SpaceOps(ReadOp(sp), sp);
    DivModUnique(addr, Span(AddrWidth(sp)), 0, addr);
  }

  lemma ScreenReadServed(s: State, devs: seq<PciFn>)
    requires Inv(s, |devs|) && GoodList(devs) && s.func != KhfPciList
    ensures forall q :: q in ScreenRead(s, devs) ==> Served(q, devs)
  {
    hide CalculatePciAddress, Encode, Intended, ReadOp;
    Spans();
    if BaseAddress(s, devs).Some? {
      var a := BaseAddress(s, devs).value;
      if s.func == KhfPci { PackedAddress(devs[s.base]); }
      ScreenIntent(SpaceOf(s.func), a);
      if s.func == KhfPci {
        assert IsRegister(devs[s.base], a, 0);
      }
    }
  }

  /** One byte written at `addr` of a space is written there. */
  lemma ByteWriteIntent(sp: Space, addr: u64, v: byte)
    requires addr < Span(AddrWidth(sp))
    ensures var q := Request(WriteOp(sp), addr, 1, Some([v]));
      Sound(q) && Encode(q).Some? && Intended(q) == Do(Write(sp, addr, [v]))
  {
    hide Prologue;
    Spans();
    SpaceOps(WriteOp(sp), sp);
    DivModUnique(addr, Span(AddrWidth(sp)), 0, addr);
    assert [v][..1] == [v];
  }

  lemma ByteWriteServed(s: State, devs: seq<PciFn>)
    requires Inv(s, |devs|) && GoodList(devs)
    ensures forall q :: q in ByteWrite(s, devs) ==> Served(q, devs)
  {
    hide CalculatePciAddress, Encode, Intended, WriteOp;
    Spans();
    if s.func != KhfInit && s.func != KhfPciList && BaseAddress(s, devs).Some? {
      var a := BaseAddress(s, devs).value;
      WriteTarget(s, devs);
      ByteWriteIntent(SpaceOf(s.func), a + s.offset, s.editBuf);
      if s.func == KhfPci {
        assert IsRegister(devs[s.base], a + s.offset, s.offset);
      }
    }
  }

  /** The cursor's address does not wrap and fits the space's address field. */
  lemma WriteTarget(s: State, devs: seq<PciFn>)
    requires Inv(s, |devs|) && GoodList(devs)
    requires s.func != KhfInit && s.func != KhfPciList && BaseAddress(s, devs).Some?
    ensures var a := BaseAddress(s, devs).value + s.offset;
      a < MAX64 && a < Span(AddrWidth(SpaceOf(s.func))) && a % MAX64 == a
  {
    hide CalculatePciAddress;
    Spans();
    if s.func == KhfPci {
      PackedAddress(devs[s.base]);
    } else if s.func == KhfMem || s.func == KhfIde {
      assert s.base == SCREEN * (s.base / SCREEN);
    }
  }

  lemma PressedKeeps(s: State, key: int, devs: seq<PciFn>)
    requires Inv(s, |devs|) && GoodList(devs)
    ensures Inv(Pressed(s, key, devs).0, |devs|)
    ensures forall q :: q in Pressed(s, key, devs).1 ==> Served(q, devs)
  {
    hide Inv, Selected, ListKey, DumpKey, ByteWrite, ScreenRead, Served;
    var num := |devs|;
    SelectedInv(s, key, num);
    var a := Selected(s, key);
    SelectedInput(s, key);
    ListedInv(a, num);
    var t := Listed(a, num);
    if t.func != KhfPciList {
      DumpKeyInv(t, num);
      ByteWriteServed(t, devs);
      ScreenReadServed(DumpKey(t, num), devs);
    }
  }

  lemma SelectedInput(s: State, key: int)
    ensures Selected(s, key).input == key
  {
  }

  lemma IteratedKeeps(s: State, i: Input, devs: seq<PciFn>)
    requires Inv(s, |devs|) && GoodList(devs)
    ensures Inv(Iterated(s, i, devs), |devs|)
  {
    hide Pressed;
    PressedKeeps(s, i.key, devs);
  }

  /** Along every run of keys, whatever the replies were, the invariant is kept
      and every request sent is accepted by the server and within its range
      checks. */
  lemma {:induction false} RunKeeps(s: State, run: seq<Input>, devs: seq<PciFn>)
    requires Inv(s, |devs|) && GoodList(devs)
    ensures Inv(Ran(s, run, devs).0, |devs|)
    ensures forall q :: q in Ran(s, run, devs).1 ==> Served(q, devs)
    decreases |run|
  {
    hide Inv, Iterated, Pressed, Served;
    if run != [] && !Quits(s, run[0].key) {
      PressedKeeps(s, run[0].key, devs);
      IteratedKeeps(s, run[0], devs);
      RunKeeps(Iterated(s, run[0], devs), run[1..], devs);
    }
  }

  /** In particular on every machine, from program start, with the list that this
      machine's server sends. */
  lemma EveryRunServed(m: Machine, run: seq<Input>)
    ensures var devs := PciList(m, MAX_FNS).list;
      && Inv(Ran(INITIAL, run, devs).0, |devs|)
      && forall q :: q in Ran(INITIAL, run, devs).1 ==> Served(q, devs)
  {
    hide Inv, Ran, Served, PciList, GoodList;
    var devs := PciList(m, MAX_FNS).list;
    ServedListGood(m);
    InitialInv(|devs|);
    RunKeeps(INITIAL, run, devs);
  }

  /** The bytes on the screen are the payload of the reply to the view's own
      read request. */
  lemma DumpShowsPayload(func: Func)
    ensures DumpOff(func) == DataOff(ReadOp(SpaceOf(func)))
  {
  }
}
