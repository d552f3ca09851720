/** The state of the full-screen client and what one key press makes of it: the
    functions that the methods of class `Cfdk` are proved against. */
module Ui {
  import opened Bits
  import opened Bytes
  import opened Listing
  import opened Machines
  import opened PciAddress
  import opened Packet
  import opened Client
  import opened Hex

  /** What the screen shows. */
  datatype Func = KhfInit | KhfMem | KhfIo | KhfPci | KhfPciList | KhfIde | KhfCmos

  const ESC := 0x1B
  const SPACE := 0x20
  const ENTER := 0x0A
  const KEY_DOWN := 0x102
  const KEY_UP := 0x103
  const KEY_LEFT := 0x104
  const KEY_RIGHT := 0x105
  const KEY_F0 := 0x108
  const KEY_NPAGE := 0x152
  const KEY_PPAGE := 0x153
  const ERR := -1

  const SCREEN := 256
  const LINE := 16
  const PER_PAGE := 21

  /** The fields that keys change. In the PCI view `base` is a device index. */
  datatype State = State(
    func: Func,
    prev: Func,
    input: int,
    base: u64,
    offset: int,
    bits: bool,
    editing: bool,
    editBuf: byte,
    help: bool,
    hlIndex: int,
    pageOffset: int)

  const INITIAL := State(KhfInit, KhfInit, 0, 0, 0, false, false, 0, false, 0, 0)

  // ------------------------------------------------------------ runUi's parts

  /** The function a key selects. */
  function NextFunc(func: Func, key: int): Func {
    if key == KEY_F0 + 1 then func
    else if key == KEY_F0 + 2 then KhfPciList
    else if key == KEY_F0 + 3 then KhfPci
    else if key == KEY_F0 + 4 then KhfIo
    else if key == KEY_F0 + 5 then KhfMem
    else if key == KEY_F0 + 6 then KhfIde
    else if key == KEY_F0 + 7 then KhfCmos
    else if key == ESC then func
    else if func == KhfInit then KhfMem else func
  }

  /** switchFunction: everything is reset but a device picked from the listing. */
  function Switched(s: State): State {
    s.(base := if s.prev != KhfPciList || s.func != KhfPci then 0 else s.base,
       offset := 0, editing := false, hlIndex := 0, pageOffset := 0)
  }

  /** The listing's reaction to the current key; true when a device is opened. */
  function ListKey(s: State, num: nat): (State, bool) {
    if s.input == KEY_UP then
      (if s.hlIndex != 0 then s.(hlIndex := s.hlIndex - 1)
       else if s.pageOffset != 0 then s.(pageOffset := s.pageOffset - 1) else s, false)
    else if s.input == KEY_DOWN then
      (if s.hlIndex < PER_PAGE - 1 && s.pageOffset + s.hlIndex < num - 1 then s.(hlIndex := s.hlIndex + 1)
       else if s.pageOffset + PER_PAGE < num then s.(pageOffset := s.pageOffset + 1) else s, false)
    else if s.input == KEY_PPAGE then
      (if num < PER_PAGE then s
       else s.(pageOffset := if s.pageOffset >= PER_PAGE then s.pageOffset - PER_PAGE else 0, hlIndex := 0), false)
    else if s.input == KEY_NPAGE then
      (if num < PER_PAGE then s
       else
         var next := s.pageOffset + PER_PAGE;
         s.(pageOffset := if next > num - PER_PAGE then num - PER_PAGE else next, hlIndex := PER_PAGE - 1), false)
    else if s.input == ENTER && num != 0 then (s.(base := (s.hlIndex + s.pageOffset) % MAX64), true)
    else (s, false)
  }

  /** `x & 0xFF00`. */
  function IoPage(x: u64): (r: u64)
    ensures r == x % 0x1_0000 - x % 0x100
  {
    SmallPowers();
    AndRun(x, 16, 8);
    AsDivMod(x, 16);
    AsDivMod(x, 8);
    And(x, 0xFF00)
  }

  /** The device before or after device `base` of `num`. */
  function OtherDevice(base: u64, num: nat, down: bool): u64
    requires num != 0
  {
    var x := (base + if down then 1 else num - 1) % MAX64;
    ModAtMost(x, num);
    x % num
  }

  lemma ModAtMost(x: nat, n: nat)
    requires n != 0
    ensures x % n <= x && x % n < n && (x < n ==> x % n == x)
  {
    if x < n { DivModUnique(x, n, 0, x); }
  }

  /** pageDump: the base of the next or previous screen. */
  function Paged(func: Func, base: u64, num: nat, down: bool): u64 {
    match func
    case KhfPci => if num == 0 then base else OtherDevice(base, num, down)
    case KhfIo => IoPage(if down then (base + SCREEN) % MAX64 else (base - SCREEN) % MAX64)
    case KhfCmos => base
    case KhfIde => if down then (base + SCREEN) % MAX64 else if base >= SCREEN then base - SCREEN else base
    case _ => if down then (base + SCREEN) % MAX64 else (base - SCREEN) % MAX64
  }

  predicate IsDigitKey(key: int) {
    '0' as int <= key <= '9' as int || 'a' as int <= key <= 'f' as int || 'A' as int <= key <= 'F' as int
  }

  function DigitOf(key: int): (d: nat)
    requires IsDigitKey(key)
    ensures d < 16
  {
    HexDigit(key as char)
  }

  /** Where the cursor goes. */
  function CursorAfter(offset: int, key: int): int {
    var col := offset % LINE;
    if key == KEY_UP then (offset - LINE + SCREEN) % SCREEN
    else if key == KEY_DOWN then (offset + LINE) % SCREEN
    else if key == KEY_LEFT then (if col != 0 then offset - 1 else offset + LINE - 1)
    else if key == KEY_RIGHT then (if col < LINE - 1 then offset + 1 else offset - (LINE - 1))
    else offset
  }

  /** The dump panel's reaction to the current key. While a byte is edited only
      Enter and hex digits do anything. */
  function DumpKey(s: State, num: nat): (r: State)
    ensures r.func == s.func
  {
    if s.editing then
      if s.input == ENTER then s.(editing := false)
      else if IsDigitKey(s.input) then s.(editBuf := (s.editBuf * 16 + DigitOf(s.input)) % 256)
      else s
    else if s.input == KEY_PPAGE then s.(base := Paged(s.func, s.base, num, false))
    else if s.input == KEY_NPAGE then s.(base := Paged(s.func, s.base, num, true))
    else if s.input == ENTER then s.(editing := true)
    else if s.input == SPACE then s.(bits := !s.bits)
    else s.(offset := CursorAfter(s.offset, s.input))
  }

  // ----------------------------------------------------------------- requests

  /** The space a dump view reads; none while the listing is shown. */
  function SpaceOf(func: Func): Space {
    match func case KhfIo => Io case KhfPci => Pci case KhfIde => Ide case KhfCmos => Cmos case _ => Mem
  }

  /** Where the view's bytes are: its base, or the address of the device shown. */
  function BaseAddress(s: State, devs: seq<PciFn>): Option<u64> {
    if s.func != KhfPci then Some(s.base)
    else if s.base >= |devs| then None
    else Some(CalculatePciAddress(devs[s.base].bus, devs[s.base].dev, devs[s.base].fun))
  }

  /** readCurrent's request. */
  function ScreenRead(s: State, devs: seq<PciFn>): seq<Request> {
    match BaseAddress(s, devs)
    case Some(a) => [Request(ReadOp(SpaceOf(s.func)), a, SCREEN, None)]
    case None => []
  }

  /** writeEditedByte's request; the first screen and the listing write nothing. */
  function ByteWrite(s: State, devs: seq<PciFn>): seq<Request> {
    if s.func == KhfInit || s.func == KhfPciList then []
    else match BaseAddress(s, devs)
      case Some(a) => [Request(WriteOp(SpaceOf(s.func)), (a + s.offset) % MAX64, 1, Some([s.editBuf]))]
      case None => []
  }

  /** handleKeyPressForDumpPanel's request: Enter commits an edit. */
  function Commit(s: State, devs: seq<PciFn>): seq<Request> {
    if s.editing && s.input == ENTER then ByteWrite(s, devs) else []
  }

  // -------------------------------------------------------- one loop iteration

  /** The client's packet buffer after a read that can be displayed. */
  type Screen = s: Bytes | |s| == MAX_PKT witness seq(MAX_PKT, _ => 0)

  /** dumpData: where the displayed bytes start in the packet. */
  function DumpOff(func: Func): nat {
    match func case KhfPci => 14 case KhfIo => 14 case KhfIde => 20 case KhfCmos => 10 case _ => 20
  }

  /** printDumpUpdatePanel: outside an edit the edit buffer follows the cursor. */
  function Displayed(s: State, screen: Option<Screen>): State {
    if screen.None? || s.editing || !(0 <= s.offset < SCREEN) then s
    else s.(editBuf := screen.value[DumpOff(s.func) + s.offset])
  }

  /** After the key is read and the function switch, before the panels see it. */
  function Selected(s: State, key: int): State {
    var t := s.(input := key,
      help := if key == KEY_F0 + 1 then !s.help else s.help,
      editing := if key == ESC then false else s.editing,
      prev := s.func, func := NextFunc(s.func, key));
    if s.func != t.func then Switched(t) else t
  }

  /** After the listing has seen the key. */
  function Listed(s: State, num: nat): State {
    if s.func != KhfPciList then s
    else
      var (t, open) := ListKey(s, num);
      if open then Switched(t.(prev := KhfPciList, func := KhfPci, input := ERR)) else t
  }

  /** One iteration: the new state, up to the display, and the requests sent. */
  function Pressed(s: State, key: int, devs: seq<PciFn>): (State, seq<Request>) {
    var t := Listed(Selected(s, key), |devs|);
    if t.func == KhfPciList then (t, [])
    else
      var u := DumpKey(t, |devs|);
      (u, Commit(t, devs) + ScreenRead(u, devs))
  }

  /** Esc outside an edit leaves the program. */
  predicate Quits(s: State, key: int) { key == ESC && !s.editing }

  /** A key press and what the screen read that follows it brought back. */
  datatype Input = Input(key: int, screen: Option<Screen>)

  function Iterated(s: State, i: Input, devs: seq<PciFn>): State {
    var (t, qs) := Pressed(s, i.key, devs);
    if t.func == KhfPciList then t else Displayed(t, i.screen)
  }

  /** A run of the loop: the final state and every request sent on the way. */
  function Ran(s: State, run: seq<Input>, devs: seq<PciFn>): (State, seq<Request>)
    decreases |run|
  {
    if run == [] || Quits(s, run[0].key) then (s, [])
    else
      var (t, qs) := Ran(Iterated(s, run[0], devs), run[1..], devs);
      (t, Pressed(s, run[0].key, devs).1 + qs)
  }
}
