/** The configuration address layout shared by the server (libpci.h) and the
    full-screen client (client.c): enable bit 31, segment 30:24, bus 23:16,
    device 15:11, function 10:8, register 7:0. */
module PciAddress {
  import opened Bits
  import opened Bytes
  import opened Machines

  type u16 = x: nat | x < MAX16

  /** A device record of the PCI listing; the segment is in bits 15:8 of `bus`. */
  datatype PciFn = PciFn(bus: u16, dev: byte, fun: byte, vendorId: u16, deviceId: u16)

  /** `(a >> shift) & (2^width - 1)`. */
  lemma FieldIs(a: nat, shift: nat, width: nat)
    ensures And(Shr(a, shift), Pow2(width) - 1) == a / Pow2(shift) % Pow2(width)
  {
    AndRun(Shr(a, shift), width, 0);
    AsDivMod(a, shift);
    AsDivMod(Shr(a, shift), width);
  }

  lemma SmallPowers()
    ensures Pow2(0) == 1 && Pow2(2) == 4 && Pow2(3) == 8 && Pow2(5) == 0x20 && Pow2(7) == 0x80 && Pow2(8) == 0x100
    ensures Pow2(11) == 0x800 && Pow2(15) == 0x8000 && Pow2(16) == 0x1_0000
    ensures Pow2(24) == 0x100_0000 && Pow2(31) == 0x8000_0000
  {
    assert Pow2(4) == 16;
    assert Pow2(9) == 0x200 && Pow2(13) == 0x2000 && Pow2(17) == 0x2_0000 && Pow2(20) == 0x10_0000;
    assert Pow2(27) == 0x800_0000;
  }

  function PciSeg(a: u32): (f: nat)
    ensures f == a / 0x100_0000 % 0x80
  {
    SmallPowers();
    FieldIs(a, 24, 7);
    And(Shr(a, 24), 0x7F)
  }

  function PciBus(a: u32): (f: nat)
    ensures f == a / 0x1_0000 % 0x100
  {
    SmallPowers();
    FieldIs(a, 16, 8);
    And(Shr(a, 16), 0xFF)
  }

  function PciDev(a: u32): (f: nat)
    ensures f == a / 0x800 % 0x20
  {
    SmallPowers();
    FieldIs(a, 11, 5);
    And(Shr(a, 11), 0x1F)
  }

  function PciFunc(a: u32): (f: nat)
    ensures f == a / 0x100 % 8
  {
    SmallPowers();
    FieldIs(a, 8, 3);
    And(Shr(a, 8), 0x07)
  }

  function PciReg(a: u32): (f: nat)
    ensures f == a % 0x100
  {
    SmallPowers();
    FieldIs(a, 0, 8);
    And(a, 0xFF)
  }

  lemma LatchWordIs(reg: u32)
    ensures And(reg, 0x00FF_FFFC) == reg % 0x100_0000 / 4 * 4
    ensures Or(0x8000_0000, And(reg, 0x00FF_FFFC)) == 0x8000_0000 + reg % 0x100_0000 / 4 * 4
  {
    hide *;
    SmallPowers();
    AndRun(reg, 24, 2);
    AsDivMod(reg, 24);
    AsDivMod(reg, 2);
    assert reg % 4 == reg % 0x100_0000 % 4;
    OrDisjoint(1, And(reg, 0x00FF_FFFC), 31);
    ShlIsProduct(1, 31);
  }

  /** The word written to CF8h for register `reg`: the enable bit over bits 23:2. */
  function LatchWord(reg: u32): (v: u32)
    ensures v == 0x8000_0000 + reg % 0x100_0000 / 4 * 4
  {
    LatchWordIs(reg);
    Or(0x8000_0000, And(reg, 0x00FF_FFFC))
  }

  /** The data port for register `reg`, by its two low bits. */
  function LanePort(reg: u32): (p: nat)
    ensures p == CONFIG_DATA + reg % 4
  {
    SmallPowers();
    FieldIs(reg, 0, 2);
    CONFIG_DATA + And(reg, 3)
  }

  /** The latch and lane written for `reg` select exactly its function and
      register, whatever its segment bits are. */
  lemma LatchSelects(reg: u32)
    ensures LatchWord(reg) >= CONFIG_ENABLE
    ensures LatchedFunction(LatchWord(reg)) == reg / 0x100 % 0x1_0000
    ensures LatchedRegister(LatchWord(reg), LanePort(reg)) == reg % 0x100
  {
    hide LatchWord, LanePort;
    var fn, lo := reg / 0x100 % 0x1_0000, reg % 0x100;
    assert reg % 0x100_0000 == fn * 0x100 + lo;
    assert lo == lo / 4 * 4 + reg % 4;
    DivModUnique(LatchWord(reg), 0x100, 0x80_0000 + fn, lo / 4 * 4);
  }

  /** A function's address as the client packs it. */
  function CalculatePciAddress(bus: u16, dev: byte, fun: byte): (a: u32)
    ensures a == 0x8000_0000 + bus % 0x8000 * 0x1_0000 + dev % 0x20 * 0x800 + fun % 8 * 0x100
  {
    SmallPowers();
    FieldIs(bus, 0, 15);
    FieldIs(dev, 0, 5);
    FieldIs(fun, 0, 3);
    var b, d, f := And(bus, 0x7FFF), And(dev, 0x1F), And(fun, 0x07);
    ShlIsProduct(b, 16);
    ShlIsProduct(d, 11);
    ShlIsProduct(f, 8);
    PackDisjoint(1, b, d, f);
    Or(Or(Or(0x8000_0000, Shl(b, 16)), Shl(d, 11)), Shl(f, 8))
  }

  /** The comparator's key: bus, device and function packed together. */
  function PciKey(p: PciFn): (k: nat)
    ensures p.dev < 0x20 && p.fun < 8 ==> k == p.bus * 0x100 + p.dev * 8 + p.fun
  {
    SmallPowers();
    ShlIsProduct(p.bus, 8);
    ShlIsProduct(p.dev, 3);
    if p.dev < 0x20 && p.fun < 8 then
      OrDisjoint(p.bus, Shl(p.dev, 3), 8);
      ShlAgain(p.bus, 5, 3);
      ShlSum(p.bus, p.dev);
      OrDisjoint(p.bus * 0x20 + p.dev, p.fun, 3);
      Or(Or(Shl(p.bus, 8), Shl(p.dev, 3)), p.fun)
    else
      Or(Or(Shl(p.bus, 8), Shl(p.dev, 3)), p.fun)
  }

  lemma {:induction false} ShlAgain(x: nat, a: nat, b: nat)
    ensures Shl(Shl(x, a), b) == Shl(x, a + b)
  {
    if b > 0 { ShlAgain(x, a, b - 1); }
  }

  lemma ShlSum(bus: nat, dev: nat)
    ensures Shl(bus * 0x20 + dev, 3) == bus * 0x100 + dev * 8
  {
    SmallPowers();
    ShlIsProduct(bus * 0x20 + dev, 3);
  }

  lemma PackDisjoint(e: nat, b: nat, d: nat, f: nat)
    requires e == 1 && b < 0x8000 && d < 0x20 && f < 8
    ensures Or(Or(Or(0x8000_0000, Shl(b, 16)), Shl(d, 11)), Shl(f, 8)) ==
      0x8000_0000 + b * 0x1_0000 + d * 0x800 + f * 0x100
  {
    SmallPowers();
    ShlIsProduct(1, 31);
    ShlIsProduct(b, 16);
    OrDisjoint(1, Shl(b, 16), 31);
    var hi := 0x8000 + b;
    ShlIsProduct(hi, 16);
    ShlIsProduct(d, 11);
    OrDisjoint(hi, Shl(d, 11), 16);
    var mid := hi * 0x20 + d;
    ShlIsProduct(mid, 11);
    ShlIsProduct(f, 8);
    OrDisjoint(mid, Shl(f, 8), 11);
  }

  /** The record as it lies in the packet. */
  function PackFn(p: PciFn): (s: Bytes)
    ensures |s| == 8
  {
    Le(2, p.bus) + [p.dev] + [p.fun] + Le(2, p.vendorId) + Le(2, p.deviceId)
  }

  function PackFns(list: seq<PciFn>): (s: Bytes)
    ensures |s| == 8 * |list|
  {
    if list == [] then [] else PackFn(list[0]) + PackFns(list[1..])
  }

  function UnpackFn(s: Bytes): PciFn
    requires |s| == 8
  {
    Spans();
    FromLeBounded(s[0..2]);
    FromLeBounded(s[4..6]);
    FromLeBounded(s[6..8]);
    PciFn(FromLe(s[0..2]), s[2], s[3], FromLe(s[4..6]), FromLe(s[6..8]))
  }

  /** The client's copy of `n` records. */
  function UnpackFns(s: Bytes, n: nat): seq<PciFn>
    requires |s| >= 8 * n
  {
    if n == 0 then [] else [UnpackFn(s[..8])] + UnpackFns(s[8..], n - 1)
  }

  /** The client recovers exactly the records the server packed. */
  lemma {:induction false} UnpackOfPack(list: seq<PciFn>)
    ensures UnpackFns(PackFns(list), |list|) == list
  {
    if list != [] {
      var p, s := list[0], PackFn(list[0]);
      Spans();
      assert s[0..2] == Le(2, p.bus) && s[4..6] == Le(2, p.vendorId) && s[6..8] == Le(2, p.deviceId);
      FieldExact(2, p.bus);
      FieldExact(2, p.vendorId);
      FieldExact(2, p.deviceId);
      UnpackOfPack(list[1..]);
      assert PackFns(list)[..8] == s && PackFns(list)[8..] == PackFns(list[1..]);
    }
  }

  /** Every record either listing can produce: 7-bit segment, 5-bit device,
      3-bit function. */
  predicate Addressable(p: PciFn) {
    p.bus < 0x8000 && p.dev < 0x20 && p.fun < 8
  }

  lemma SplitAddress(bus: nat, dev: nat, fun: nat, off: nat)
    requires bus < 0x8000 && dev < 0x20 && fun < 8 && off < 0x100
    ensures var a := 0x8000_0000 + bus * 0x1_0000 + dev * 0x800 + fun * 0x100 + off;
      && a < MAX32 && a % 0x100 == off
      && a / 0x100 == ((0x8000 + bus) * 0x20 + dev) * 8 + fun
      && a / 0x800 == (0x8000 + bus) * 0x20 + dev
      && a / 0x1_0000 == 0x8000 + bus
      && a / 0x100_0000 == 0x80 + bus / 0x100
  {
    var a := 0x8000_0000 + bus * 0x1_0000 + dev * 0x800 + fun * 0x100 + off;
    DivModUnique(a, 0x100, ((0x8000 + bus) * 0x20 + dev) * 8 + fun, off);
    DivModUnique(a, 0x800, (0x8000 + bus) * 0x20 + dev, fun * 0x100 + off);
    DivModUnique(a, 0x1_0000, 0x8000 + bus, dev * 0x800 + fun * 0x100 + off);
    DivModUnique(a, 0x100_0000, 0x80 + bus / 0x100, a - 0x8000_0000 - bus / 0x100 * 0x100_0000);
  }

  /** The address the client sends for byte `off` of a listed device decodes on
      the server to that device's own fields and that register. */
  lemma AddressDecodes(p: PciFn, off: nat)
    requires Addressable(p) && off < 0x100
    ensures var a := CalculatePciAddress(p.bus, p.dev, p.fun) + off;
      && a < MAX32
      && PciSeg(a) == p.bus / 0x100 && PciBus(a) == p.bus % 0x100
      && PciDev(a) == p.dev && PciFunc(a) == p.fun && PciReg(a) == off
  {
    PackedAddress(p);
    SplitAddress(p.bus, p.dev, p.fun, off);
    FieldsOf(CalculatePciAddress(p.bus, p.dev, p.fun) + off, p.bus, p.dev, p.fun, off);
  }

  lemma PackedAddress(p: PciFn)
    requires Addressable(p)
    ensures CalculatePciAddress(p.bus, p.dev, p.fun) == 0x8000_0000 + p.bus * 0x1_0000 + p.dev * 0x800 + p.fun * 0x100
  {
    hide CalculatePciAddress;
  }

  lemma FieldsOf(a: u32, bus: nat, dev: nat, fun: nat, off: nat)
    requires bus < 0x8000 && dev < 0x20 && fun < 8
    requires a % 0x100 == off
    requires a / 0x100 == ((0x8000 + bus) * 0x20 + dev) * 8 + fun
    requires a / 0x800 == (0x8000 + bus) * 0x20 + dev
    requires a / 0x1_0000 == 0x8000 + bus
    requires a / 0x100_0000 == 0x80 + bus / 0x100
    ensures PciSeg(a) == bus / 0x100 && PciBus(a) == bus % 0x100
    ensures PciDev(a) == dev && PciFunc(a) == fun && PciReg(a) == off
  {
    hide *;
  }

  /** Distinct (device, offset) pairs have distinct addresses. */
  lemma AddressInjective(p: PciFn, off: nat, q: PciFn, off': nat)
    requires Addressable(p) && off < 0x100 && Addressable(q) && off' < 0x100
    requires CalculatePciAddress(p.bus, p.dev, p.fun) + off == CalculatePciAddress(q.bus, q.dev, q.fun) + off'
    ensures p.bus == q.bus && p.dev == q.dev && p.fun == q.fun && off == off'
  {
    hide *;
    AddressDecodes(p, off);
    AddressDecodes(q, off');
    assert p.bus == 0x100 * (p.bus / 0x100) + p.bus % 0x100;
    assert q.bus == 0x100 * (q.bus / 0x100) + q.bus % 0x100;
  }
}
