/** What each key of the full-screen client does: which view it selects, which way
    and how far it moves, and what it starts or leaves. */
module UiKeys {
  import opened Bits
  import opened Bytes
  import opened Machines
  import opened PciAddress
  import opened Hex
  import opened HexDigits
  import opened Ui
  import opened UiLaws
  import opened UiRuns

  // ------------------------------------------------------- selecting a view

  /** F2 to F7 select the listing, PCI, ports, memory, disk and CMOS. */
  function ViewOf(n: int): Func
    requires 2 <= n <= 7
  {
    match n
    case 2 => KhfPciList
    case 3 => KhfPci
    case 4 => KhfIo
    case 5 => KhfMem
    case 6 => KhfIde
    case _ => KhfCmos
  }

  /** A view as it opens: at base 0 with the cursor in the corner, the list at its
      top, and no edit. */
  predicate Fresh(t: State) {
    t.base == 0 && t.offset == 0 && !t.editing && t.hlIndex == 0 && t.pageOffset == 0
  }

  /** A function key selects its view, which opens afresh unless it is shown. */
  lemma FunctionKeys(s: State, i: Input, devs: seq<PciFn>, n: int)
    requires Inv(s, |devs|) && 2 <= n <= 7 && i.key == KEY_F0 + n
    ensures var t := Iterated(s, i, devs);
      && t.func == ViewOf(n) && t.bits == s.bits && t.help == s.help
      && (s.func != ViewOf(n) ==> Fresh(t))
      && (s.func == ViewOf(n) ==>
           && t.base == s.base && t.offset == s.offset && t.editing == s.editing
           && t.hlIndex == s.hlIndex && t.pageOffset == s.pageOffset)
  {
    hide ScreenRead, ByteWrite, CalculatePciAddress, Paged;
    var u := Selected(s, i.key);
    assert u.func == ViewOf(n) && u.input == i.key;
  }

  /** On the first screen any key but a function key and Esc opens the memory view;
      everywhere else such a key stays in the view it is in, but for Enter on a
      device of the listing. */
  lemma OtherKeys(s: State, i: Input, devs: seq<PciFn>)
    requires i.key != ESC && !(KEY_F0 + 1 <= i.key <= KEY_F0 + 7)
    ensures s.func == KhfInit ==> Iterated(s, i, devs).func == KhfMem
    ensures s.func != KhfInit && !(s.func == KhfPciList && i.key == ENTER) ==> Iterated(s, i, devs).func == s.func
  {
    hide ScreenRead, ByteWrite, CalculatePciAddress, Paged, CursorAfter;
  }

  /** F1 turns the help on or off; in the listing and outside an edit it does
      nothing else. */
  lemma HelpKey(s: State, i: Input, devs: seq<PciFn>)
    requires i.key == KEY_F0 + 1
    ensures var t := Iterated(s, i, devs);
      && t.help == !s.help && t.func == s.func && t.base == s.base && t.offset == s.offset
      && t.editing == s.editing && t.hlIndex == s.hlIndex && t.pageOffset == s.pageOffset
  {
    hide ScreenRead, ByteWrite, CalculatePciAddress, Paged;
  }

  /** Esc ends an edit; outside one it ends the run at once, with nothing sent. */
  lemma EscKey(s: State, run: seq<Input>, devs: seq<PciFn>)
    requires run != [] && run[0].key == ESC
    ensures !s.editing ==> Ran(s, run, devs) == (s, [])
    ensures s.editing && s.func != KhfPciList ==>
      var t := Iterated(s, run[0], devs);
      && !t.editing && t.func == s.func && t.base == s.base && t.offset == s.offset
      && t.hlIndex == s.hlIndex && t.pageOffset == s.pageOffset && t.bits == s.bits && t.help == s.help
  {
    hide ScreenRead, ByteWrite, CalculatePciAddress, Paged;
  }

  // ----------------------------------------------------------------- moving

  /** PgDn and PgUp move by 256 bytes up and down: modulo 2^64 in memory, 10000h on
      ports; on disk PgUp does not pass 0; CMOS has one screen; and in the PCI view
      they go to the next and the previous device, around the ends. */
  lemma PageDirection(s: State, i: Input, devs: seq<PciFn>)
    requires Inv(s, |devs|) && GoodList(devs) && Browsing(s) && (i.key == KEY_NPAGE || i.key == KEY_PPAGE)
    ensures var t := Iterated(s, i, devs);
      var down := i.key == KEY_NPAGE;
      && t.func == s.func && t.offset == s.offset
      && (s.func == KhfMem ==> t.base == (if down then s.base + 256 else s.base - 256) % 0x1_0000_0000_0000_0000)
      && (s.func == KhfIo ==> t.base == (if down then s.base + 256 else s.base - 256) % 0x1_0000)
      && (s.func == KhfIde && down ==> t.base == (s.base + 256) % 0x1_0000_0000_0000_0000)
      && (s.func == KhfIde && !down ==> t.base == if s.base >= 256 then s.base - 256 else s.base)
      && (s.func == KhfCmos ==> t.base == s.base)
      && (s.func == KhfPci && |devs| > 0 ==>
           t.base == if down then (if s.base + 1 == |devs| then 0 else s.base + 1)
                     else if s.base == 0 then |devs| - 1 else s.base - 1)
      && (s.func == KhfPci && |devs| == 0 ==> t.base == s.base)
  {
    hide Iterated, IoPage, OtherDevice;
    MoveStep(s, i, devs);
    if s.func == KhfIo { PortPage(s.base); }
    if s.func == KhfPci && devs != [] { NextDevice(s.base, |devs|); }
  }

  lemma PortPage(base: u64)
    requires base < 0x1_0000 && base % SCREEN == 0
    ensures IoPage((base + SCREEN) % MAX64) == (base + 256) % 0x1_0000
    ensures IoPage((base - SCREEN) % MAX64) == (base - 256) % 0x1_0000
  {
    hide IoPage;
    NextPorts(base);
    DivModUnique(base + 256, 0x1_0000, if base == 0xFF00 then 1 else 0, if base == 0xFF00 then 0 else base + 256);
    DivModUnique(base - 256, 0x1_0000, if base == 0 then -1 else 0, if base == 0 then 0xFF00 else base - 256);
  }

  /** The cursor moves by one cell on a 16 by 16 grid, around its edges: left and
      right inside the row, up and down inside the column. */
  lemma CursorDirection(s: State, i: Input, devs: seq<PciFn>)
    requires Inv(s, |devs|) && GoodList(devs) && Browsing(s)
    requires i.key in {KEY_LEFT, KEY_RIGHT, KEY_UP, KEY_DOWN}
    ensures var t := Iterated(s, i, devs);
      var row, col := s.offset / 16, s.offset % 16;
      && t.func == s.func && t.base == s.base
      && (i.key == KEY_LEFT ==> t.offset == 16 * row + (if col == 0 then 15 else col - 1))
      && (i.key == KEY_RIGHT ==> t.offset == 16 * row + (if col == 15 then 0 else col + 1))
      && (i.key == KEY_UP ==> t.offset == 16 * (if row == 0 then 15 else row - 1) + col)
      && (i.key == KEY_DOWN ==> t.offset == 16 * (if row == 15 then 0 else row + 1) + col)
  {
    hide Iterated, Paged;
    MoveStep(s, i, devs);
    UpFrom(s.offset);
    DownFrom(s.offset);
  }

  /** The listing shows 21 devices. PgDn moves the window on by 21, but not past the
      last 21, and selects its last line; PgUp moves it back by 21, but not before
      the first, and selects its first. A list that fits the window stays. */
  lemma ListPages(s: State, i: Input, devs: seq<PciFn>)
    requires Inv(s, |devs|) && s.func == KhfPciList && (i.key == KEY_NPAGE || i.key == KEY_PPAGE)
    ensures var t, num := Iterated(s, i, devs), |devs|;
      && t.func == KhfPciList && Pressed(s, i.key, devs).1 == []
      && (num < 21 ==> t.hlIndex == s.hlIndex && t.pageOffset == s.pageOffset)
      && (num >= 21 && i.key == KEY_NPAGE ==>
           t.hlIndex == 20 && t.pageOffset == if s.pageOffset + 42 <= num then s.pageOffset + 21 else num - 21)
      && (num >= 21 && i.key == KEY_PPAGE ==>
           t.hlIndex == 0 && t.pageOffset == if s.pageOffset >= 21 then s.pageOffset - 21 else 0)
  {
    hide DumpKey, Displayed, ScreenRead, Commit, Switched;
  }

  /** Keys without a meaning leave everything: in a view of bytes, and in the listing,
      where Enter has none either while no device is listed. */
  lemma IdleKeys(s: State, i: Input, devs: seq<PciFn>)
    requires s.func != KhfInit && !s.editing && i.key != ESC && !(KEY_F0 + 1 <= i.key <= KEY_F0 + 7)
    requires i.key !in {KEY_UP, KEY_DOWN, KEY_NPAGE, KEY_PPAGE}
    requires if s.func == KhfPciList then i.key != ENTER || devs == []
             else i.key !in {KEY_LEFT, KEY_RIGHT, ENTER, SPACE}
    ensures var t := Iterated(s, i, devs);
      && t.func == s.func && t.base == s.base && t.offset == s.offset && !t.editing
      && t.hlIndex == s.hlIndex && t.pageOffset == s.pageOffset && t.bits == s.bits && t.help == s.help
  {
    hide ScreenRead, ByteWrite, CalculatePciAddress, Paged;
  }

  // ------------------------------------------------------ display and edits

  /** Where the payload of a view's reply starts. */
  function PayloadStart(func: Func): nat {
    match func case KhfPci => 14 case KhfIo => 14 case KhfCmos => 10 case _ => 20
  }

  /** Outside an edit the buffer holds the byte that the last screen shows at the
      cursor. */
  lemma ShownByte(s: State, i: Input, devs: seq<PciFn>)
    requires Inv(s, |devs|) && GoodList(devs) && i.screen.Some?
    ensures var t := Iterated(s, i, devs);
      t.func != KhfPciList && !t.editing ==>
        0 <= t.offset < 256 && t.editBuf == i.screen.value[PayloadStart(t.func) + t.offset]
  {
    IteratedKeeps(s, i, devs);
    hide Pressed;
  }

  /** The keys that type a digit are the sixteen hex digits in both cases, and each
      typed in an edit shifts its value in from the right. */
  lemma DigitKeys(s: State, i: Input, devs: seq<PciFn>, k: nat)
    requires s.editing && s.func != KhfInit && s.func != KhfPciList && k < 16
    requires i.key == LOWER[k] as int || i.key == UPPER[k] as int
    ensures var t := Iterated(s, i, devs);
      && t.editing && t.editBuf == (s.editBuf * 16 + k) % 256
      && t.func == s.func && t.base == s.base && t.offset == s.offset
  {
    hide ScreenRead, ByteWrite, CalculatePciAddress, Paged, HexDigit;
    var c := i.key as char;
    assert IsDigitFor(c, k);
    DigitTable(c, k);
  }

  /** No other key changes the byte being edited. */
  lemma OtherKeysKeepByte(s: State, i: Input, devs: seq<PciFn>)
    requires s.editing && Iterated(s, i, devs).editing
    requires forall k: nat :: k < 16 ==> i.key != LOWER[k] as int && i.key != UPPER[k] as int
    ensures Iterated(s, i, devs).editBuf == s.editBuf
  {
    hide ScreenRead, ByteWrite, CalculatePciAddress, Paged, HexDigit;
    if IsDigitKey(i.key) { DigitTable(i.key as char, 0); }
  }

  /** Enter starts an edit of that byte, and Space turns the bit display. */
  lemma EditBegins(s: State, i: Input, devs: seq<PciFn>)
    requires Browsing(s) && (i.key == ENTER || i.key == SPACE)
    ensures var t := Iterated(s, i, devs);
      && t.func == s.func && t.base == s.base && t.offset == s.offset
      && (i.key == ENTER ==> t.editing && t.editBuf == s.editBuf && t.bits == s.bits)
      && (i.key == SPACE ==> !t.editing && t.bits == !s.bits)
  {
    hide ScreenRead, ByteWrite, CalculatePciAddress, Paged;
  }
}
