/** What the latch-driven loops of libpci.c amount to: plain slices of one
    function's registers, and a filter over the whole function space. */
module PciLaws {
  import opened Bits
  import opened Bytes
  import opened Listing
  import opened Machines
  import opened PciAddress
  import opened LibPci

  // ------------------------------------------------------ one configuration byte

  /** A legacy access may move the latch, the trace and configuration space. */
  ghost predicate OnlyConfig(m: Machine, m': Machine) {
    m' == m.(io := m.io.(configAddress := m'.io.configAddress, trace := m'.io.trace),
             pci := m.pci.(space := m'.pci.space))
  }

  lemma ByteLaw(m: Machine, reg: u32, v: byte, isWrite: bool)
    ensures var x := LegacyByte(m, reg, v, isWrite);
      var fn, r := reg / 0x100 % FUNCTIONS, reg % 0x100;
      && x.value == (if isWrite then v else ConfigByte(m.pci.space, fn, r))
      && x.m.pci.space == (if isWrite then SetConfigByte(m.pci.space, fn, r, v) else m.pci.space)
      && OnlyConfig(m, x.m)
  {
    hide LatchWord, LanePort, LatchedFunction, LatchedRegister, ConfigByte, SetConfigByte;
    LatchSelects(reg);
  }

  lemma NoCarry(addr: u32, i: nat)
    requires addr % 0x100 + i <= 0xFF
    ensures addr + i < MAX32
    ensures (addr + i) / 0x100 == addr / 0x100 && (addr + i) % 0x100 == addr % 0x100 + i
  {
  }

  /** The function number an address selects on segment 0. */
  function FnOf(addr: u32): nat { addr / 0x100 % FUNCTIONS }

  /** How many bytes the loop transfers: up to the end of the 256 registers. */
  function Reach(addr: u32, len: nat): (n: nat)
    ensures n <= len && addr % 0x100 + n <= 0x100
  {
    if addr % 0x100 + len <= 0x100 then len else 0x100 - addr % 0x100
  }

  /** Byte `k` after a read that still has bytes `i`.. to go. */
  function Expected(m: Machine, addr: u32, data: Bytes, i: nat, k: nat): byte
    requires k < |data|
  {
    if i <= k < Reach(addr, |data|) then ConfigByte(m.pci.space, FnOf(addr), addr % 0x100 + k) else data[k]
  }

  lemma {:induction false} ReadFrom(m: Machine, addr: u32, data: Bytes, i: nat)
    requires i <= Reach(addr, |data|)
    ensures var p := LegacyFrom(m, addr, data, i, false);
      && p.m.pci.space == m.pci.space && OnlyConfig(m, p.m)
      && (p.ok <==> addr % 0x100 + |data| <= 0x100)
      && forall k :: 0 <= k < |data| ==> p.data[k] == Expected(m, addr, data, i, k)
    decreases |data| - i
  {
    hide ConfigByte, LegacyByte, PciReg;
    if i < |data| && addr % 0x100 + i <= 0xFF {
      NoCarry(addr, i);
      ByteLaw(m, addr + i, data[i], false);
      var x := LegacyByte(m, addr + i, data[i], false);
      ReadFrom(x.m, addr, data[i := x.value], i + 1);
    }
  }

  /** On segment 0 with the ports granted, a read returns registers reg, reg+1,
      ... of the addressed function and of no other, stops at register 255,
      leaves the rest FFh, and succeeds exactly when it did not have to stop. */
  lemma LegacyReadIsSlice(m: Machine, addr: u32, len: nat)
    requires !m.pci.sysfs
    ensures var p := PciRead(m, addr, len);
      var usable := PciSeg(addr) == 0 && LegacyGranted(m);
      && (p.ok <==> usable && PciReg(addr) + len <= 0x100)
      && p.m.pci.space == m.pci.space && OnlyConfig(m, p.m)
      && (!usable ==> p.m == m && p.data == Ones(len))
      && (usable ==> forall k :: 0 <= k < len ==>
            var reg := PciReg(addr) + k;
            p.data[k] == if reg <= 0xFF then ConfigByte(m.pci.space, FnOf(addr), reg) else 255)
  {
    hide LegacyFrom, ConfigByte, PciSeg;
    if PciSeg(addr) == 0 && LegacyGranted(m) {
      ReadFrom(m, addr, Ones(len), 0);
    }
  }

  lemma WriteByte(m: Machine, addr: u32, v: byte, i: nat)
    requires addr % 0x100 + i <= 0xFF
    ensures addr + i < MAX32 && PciReg(addr) == addr % 0x100
    ensures var x := LegacyByte(m, addr + i, v, true);
      var fn := FnOf(addr);
      && x.value == v && OnlyConfig(m, x.m)
      && x.m.pci.space == if fn !in m.pci.space then m.pci.space else
           m.pci.space[fn := m.pci.space[fn][addr % 0x100 + i := v]]
  {
    hide LegacyByte, PciReg;
    NoCarry(addr, i);
    ByteLaw(m, addr + i, v, true);
  }

  lemma {:induction false} WriteFrom(m: Machine, addr: u32, data: Bytes, i: nat)
    requires i <= Reach(addr, |data|)
    ensures var p := LegacyFrom(m, addr, data, i, true);
      var fn := FnOf(addr);
      && OnlyConfig(m, p.m)
      && (p.ok <==> addr % 0x100 + |data| <= 0x100)
      && p.m.pci.space == (if fn !in m.pci.space then m.pci.space else
           m.pci.space[fn := Splice(m.pci.space[fn], addr % 0x100 + i, data[i..Reach(addr, |data|)])])
    decreases |data| - i
  {
    hide LegacyByte, PciReg, Splice, FnOf, SetConfigByte;
    var fn, n := FnOf(addr), Reach(addr, |data|);
    if i < |data| && addr % 0x100 + i <= 0xFF {
      NoCarry(addr, i);
      WriteByte(m, addr, data[i], i);
      var x := LegacyByte(m, addr + i, data[i], true);
      assert data[i := x.value] == data;
      WriteFrom(x.m, addr, data, i + 1);
      if fn in m.pci.space {
        SpliceStep(m.pci.space[fn], addr % 0x100 + i, data[i..n]);
        assert data[i..n][1..] == data[i + 1..n];
      }
    } else if fn in m.pci.space {
      SpliceEmpty(m.pci.space[fn], addr % 0x100 + i);
      assert m.pci.space[fn := m.pci.space[fn]] == m.pci.space;
    }
  }

  lemma SpliceStep(s: Bytes, off: nat, data: Bytes)
    requires data != [] && off + |data| <= |s|
    ensures Splice(s[off := data[0]], off + 1, data[1..]) == Splice(s, off, data)
  {
    assert s[off := data[0]][..off + 1] == s[..off] + [data[0]];
    assert data == [data[0]] + data[1..];
  }

  lemma SpliceEmpty(s: Bytes, off: nat)
    requires off <= |s|
    ensures Splice(s, off, []) == s
  {
  }

  /** A write changes exactly the registers it reaches of the addressed function. */
  lemma LegacyWriteIsSplice(m: Machine, addr: u32, data: Bytes)
    requires !m.pci.sysfs
    ensures var p := PciAccess(m, addr, data, true);
      var usable := PciSeg(addr) == 0 && LegacyGranted(m);
      var fn := FnOf(addr);
      && (p.ok <==> usable && PciReg(addr) + |data| <= 0x100)
      && OnlyConfig(m, p.m)
      && (!usable ==> p.m == m)
      && (usable ==> p.m.pci.space == if fn !in m.pci.space then m.pci.space else
           m.pci.space[fn := Splice(m.pci.space[fn], PciReg(addr), data[..Reach(addr, |data|)])])
  {
    hide LegacyFrom, PciSeg, Splice;
    if PciSeg(addr) == 0 && LegacyGranted(m) {
      WriteFrom(m, addr, data, 0);
      assert data[0..Reach(addr, |data|)] == data[..Reach(addr, |data|)];
    }
  }

  // -------------------------------------------------------------- the scan

  function Vendor(space: map<nat, ConfigSpace>, fn: nat): nat {
    ConfigByte(space, fn, 0) + 0x100 * ConfigByte(space, fn, 1)
  }

  predicate Present(space: map<nat, ConfigSpace>, fn: nat) {
    Vendor(space, fn) != 0xFFFF
  }

  /** The record of a function, read off configuration space directly. */
  function RecordOf(space: map<nat, ConfigSpace>, fn: nat): PciFn
    requires fn < FUNCTIONS
  {
    PciFn(fn / 0x100, fn / 8 % 0x20, fn % 8, Vendor(space, fn),
      ConfigByte(space, fn, 2) + 0x100 * ConfigByte(space, fn, 3))
  }

  /** The records of all present functions from number `k` up. */
  function PresentFrom(space: map<nat, ConfigSpace>, k: nat): seq<PciFn>
    requires k <= FUNCTIONS
    decreases FUNCTIONS - k
  {
    if k == FUNCTIONS then []
    else (if Present(space, k) then [RecordOf(space, k)] else []) + PresentFrom(space, k + 1)
  }

  lemma IdsOf(a: byte, b: byte, c: byte, d: byte)
    ensures Id([a, b, c, d], 0) == a + 0x100 * b && Id([a, b, c, d], 2) == c + 0x100 * d
  {
    assert [a, b, c, d][0..2] == [a, b] && [a, b, c, d][2..4] == [c, d];
    FromLePair(a, b);
    FromLePair(c, d);
  }

  lemma FromLePair(a: byte, b: byte)
    ensures FromLe([a, b]) == a + 0x100 * b
  {
    assert [a, b][1..] == [b] && [b][1..] == [];
    assert FromLe([b]) == b + 256 * FromLe([]);
  }

  lemma ScanStepLaw(m: Machine, k: nat, list: seq<PciFn>)
    requires k < FUNCTIONS && LegacyGranted(m)
    ensures var (ok, s) := ScanStep(m, k, list);
      && ok && s.m.pci.space == m.pci.space && LegacyGranted(s.m) && OnlyConfig(m, s.m)
      && s.list == if Present(m.pci.space, k) then list + [RecordOf(m.pci.space, k)] else list
  {
    hide LegacyFrom, ConfigByte, Id;
    var addr: u32 := 0x8000_0000 + k * 0x100;
    DivFacts(k);
    var zeros: Bytes := [0, 0, 0, 0];
    ReadFrom(m, addr, zeros, 0);
    var p := LegacyFrom(m, addr, zeros, 0, false);
    var space := m.pci.space;
    assert Reach(addr, 4) == 4;
    assert p.data[0] == ConfigByte(space, k, 0) && p.data[1] == ConfigByte(space, k, 1);
    assert p.data[2] == ConfigByte(space, k, 2) && p.data[3] == ConfigByte(space, k, 3);
    assert p.data == [p.data[0], p.data[1], p.data[2], p.data[3]];
    IdsOf(p.data[0], p.data[1], p.data[2], p.data[3]);
  }

  lemma DivFacts(k: nat)
    requires k < FUNCTIONS
    ensures var addr: u32 := 0x8000_0000 + k * 0x100;
      addr % 0x100 == 0 && FnOf(addr) == k && PciSeg(addr) == 0
  {
    hide PciSeg;
  }

  lemma TakeCons(list: seq<PciFn>, r: PciFn, rest: seq<PciFn>, max: nat)
    requires |list| < max
    ensures (list + [r]) + Take(rest, max - |list| - 1) == list + Take([r] + rest, max - |list|)
  {
  }

  lemma {:induction false} ScanFromLaw(m: Machine, k: nat, list: seq<PciFn>, max: nat)
    requires k <= FUNCTIONS && |list| <= max && LegacyGranted(m)
    ensures var s := ScanFrom(m, k, list, max);
      && s.list == list + Take(PresentFrom(m.pci.space, k), max - |list|)
      && s.m.pci.space == m.pci.space && OnlyConfig(m, s.m)
    decreases FUNCTIONS - k
  {
    hide ScanStep, Present, RecordOf;
    if k < FUNCTIONS && |list| < max {
      ScanStepLaw(m, k, list);
      var (ok, s) := ScanStep(m, k, list);
      ScanFromLaw(s.m, k + 1, s.list, max);
      if Present(m.pci.space, k) {
        TakeCons(list, RecordOf(m.pci.space, k), PresentFrom(m.pci.space, k + 1), max);
      }
      assert [] + PresentFrom(m.pci.space, k + 1) == PresentFrom(m.pci.space, k + 1);
    } else if k < FUNCTIONS {
      assert Take(PresentFrom(m.pci.space, k), 0) == [];
    }
  }

  /** With the ports granted the triple loop lists exactly the first `max`
      present functions of the whole space; without, it lists nothing. Either
      way it changes no register. */
  lemma LegacyScanIsFilter(m: Machine, max: nat)
    requires !m.pci.sysfs
    ensures var s := PciList(m, max);
      && s.list == (if LegacyGranted(m) then Take(PresentFrom(m.pci.space, 0), max) else [])
      && s.m.pci.space == m.pci.space && OnlyConfig(m, s.m)
  {
    hide PresentFrom, PciSeg, LegacyFrom;
    if LegacyGranted(m) {
      ScanFromLaw(m, 0, [], max);
    }
  }

  lemma RecordKey(space: map<nat, ConfigSpace>, k: nat)
    requires k < FUNCTIONS
    ensures PciKey(RecordOf(space, k)) == k && Addressable(RecordOf(space, k))
  {
    hide PciKey, ConfigByte, Vendor;
  }

  /** `p` is the record of a present function numbered `k` or above. */
  predicate Listed(space: map<nat, ConfigSpace>, k: nat, p: PciFn) {
    k <= PciKey(p) < FUNCTIONS && Present(space, PciKey(p)) && p == RecordOf(space, PciKey(p)) && Addressable(p)
  }

  ghost predicate AllListed(space: map<nat, ConfigSpace>, k: nat, list: seq<PciFn>) {
    forall i :: 0 <= i < |list| ==> Listed(space, k, list[i])
  }

  ghost predicate StrictlyAscending(list: seq<PciFn>) {
    forall i, j :: 0 <= i < j < |list| ==> PciKey(list[i]) < PciKey(list[j])
  }

  lemma ListedCons(space: map<nat, ConfigSpace>, k: nat, rest: seq<PciFn>)
    requires k < FUNCTIONS && AllListed(space, k + 1, rest) && StrictlyAscending(rest)
    ensures AllListed(space, k, rest)
    ensures Present(space, k) ==>
      var list := [RecordOf(space, k)] + rest;
      AllListed(space, k, list) && StrictlyAscending(list)
  {
    hide PciKey, Present, RecordOf, Addressable;
    RecordKey(space, k);
    forall i | 0 <= i < |rest| ensures Listed(space, k, rest[i]) {
      assert Listed(space, k + 1, rest[i]);
    }
  }

  /** The filter is in strictly increasing order of the comparator's key, holds
      only present functions, and holds every present function. */
  lemma {:induction false} PresentFromLaw(space: map<nat, ConfigSpace>, k: nat)
    requires k <= FUNCTIONS
    ensures StrictlyAscending(PresentFrom(space, k))
    ensures AllListed(space, k, PresentFrom(space, k))
    ensures forall fn :: k <= fn < FUNCTIONS && Present(space, fn) ==> RecordOf(space, fn) in PresentFrom(space, k)
    decreases FUNCTIONS - k
  {
    hide StrictlyAscending, AllListed, Present, RecordOf;
    if k < FUNCTIONS {
      PresentFromLaw(space, k + 1);
      ListedCons(space, k, PresentFrom(space, k + 1));
      assert [] + PresentFrom(space, k + 1) == PresentFrom(space, k + 1);
    } else {
      NothingListed(space, k);
    }
  }

  lemma NothingListed(space: map<nat, ConfigSpace>, k: nat)
    ensures StrictlyAscending([]) && AllListed(space, k, [])
  {
  }

  // ------------------------------------------------------- the sysfs listing

  lemma {:induction false} KeptAreAddressable(pci: PciDevice, entries: seq<SysfsEntry>)
    ensures forall i :: 0 <= i < |Keep(SysfsView(pci), entries)| ==> Addressable(Keep(SysfsView(pci), entries)[i])
  {
    if entries != [] {
      KeptAreAddressable(pci, entries[..|entries| - 1]);
    }
  }

  // ------------------------------------------------------------ sysfs access

  /** The config file an address names is the one of the function number in its
      bits 30:8, segment included. */
  lemma SysfsKeyIs(addr: u32)
    ensures SysfsKey(addr) == addr / 0x100 % 0x80_0000
  {
    hide *;
    var w, r := addr / 0x100, addr % 0x100;
    var w3, fun := w / 8, w % 8;
    var w8, dev := w3 / 0x20, w3 % 0x20;
    var w16, bus := w8 / 0x100, w8 % 0x100;
    var q, seg := w16 / 0x80, w16 % 0x80;
    DivModUnique(addr, 0x800, w3, fun * 0x100 + r);
    DivModUnique(addr, 0x1_0000, w8, (dev * 8 + fun) * 0x100 + r);
    DivModUnique(addr, 0x100_0000, w16, ((bus * 0x20 + dev) * 8 + fun) * 0x100 + r);
    DivModUnique(w, 0x80_0000, q, ((seg * 0x100 + bus) * 0x20 + dev) * 8 + fun);
    FieldsKey(addr, seg, bus, dev, fun);
  }

  lemma FieldsKey(addr: u32, seg: nat, bus: nat, dev: nat, fun: nat)
    requires seg == addr / 0x100_0000 % 0x80 && bus == addr / 0x1_0000 % 0x100
    requires dev == addr / 0x800 % 0x20 && fun == addr / 0x100 % 8
    ensures SysfsKey(addr) == ((seg * 0x100 + bus) * 0x20 + dev) * 8 + fun
  {
    hide PciSeg, PciBus, PciDev, PciFunc;
  }

  /** The same functions, with as many registers each. */
  ghost predicate SameShape(space: map<nat, ConfigSpace>, space': map<nat, ConfigSpace>) {
    space'.Keys == space.Keys && forall g :: g in space ==> |space'[g]| == |space[g]|
  }

  /** On the sysfs path a read succeeds iff the addressed function's file exists
      and holds the whole range; it returns the file's bytes from the register on,
      FFh where there are none, and changes nothing. */
  lemma SysfsReadIsSlice(m: Machine, addr: u32, len: nat)
    requires m.pci.sysfs
    ensures var p := PciRead(m, addr, len);
      var fn, reg, space := addr / 0x100 % 0x80_0000, addr % 0x100, m.pci.space;
      && (p.ok <==> fn in space && reg + len <= |space[fn]|)
      && p.m == m
      && forall k :: 0 <= k < len ==>
           p.data[k] == if fn in space && reg + k < |space[fn]| then space[fn][reg + k] else 255
  {
    SysfsKeyIs(addr);
    hide SysfsKey, PciReg;
  }

  /** A write succeeds iff the file exists, can be written and holds the range, and
      it changes exactly the registers it covers of that one function. */
  lemma SysfsWriteIsSplice(m: Machine, addr: u32, data: Bytes)
    requires m.pci.sysfs
    ensures var p := PciAccess(m, addr, data, true);
      var fn, reg, space := addr / 0x100 % 0x80_0000, addr % 0x100, m.pci.space;
      && (p.ok <==> fn in space && m.pci.sysfsWritable && reg + |data| <= |space[fn]|)
      && p.m == m.(pci := m.pci.(space := p.m.pci.space)) && SameShape(space, p.m.pci.space)
      && forall g, r: nat ::
           ConfigByte(p.m.pci.space, g, r) ==
             if g == fn && fn in space && m.pci.sysfsWritable && r < |space[fn]| && reg <= r < reg + |data|
             then data[r - reg] else ConfigByte(space, g, r)
  {
    SysfsKeyIs(addr);
    hide SysfsKey, PciReg;
    var p := PciAccess(m, addr, data, true);
    var fn, reg := addr / 0x100 % 0x80_0000, addr % 0x100;
    if fn in m.pci.space && m.pci.sysfsWritable {
      var file := m.pci.space[fn];
      var n := if reg + |data| <= |file| then |data| else |file| - reg;
      assert p.m.pci.space == m.pci.space[fn := Splice(file, reg, data[..n])];
      SpliceBytes(file, reg, data[..n]);
      hide Splice;
    }
  }

  lemma SpliceBytes(s: Bytes, off: nat, data: Bytes)
    requires off + |data| <= |s|
    ensures forall r :: 0 <= r < |s| ==>
      Splice(s, off, data)[r] == if off <= r < off + |data| then data[r - off] else s[r]
  {
  }

  /** The legacy write, register by register. */
  lemma LegacyWriteBytes(m: Machine, addr: u32, data: Bytes)
    requires !m.pci.sysfs
    ensures var p := PciAccess(m, addr, data, true);
      var usable := PciSeg(addr) == 0 && LegacyGranted(m);
      var fn, reg, space := FnOf(addr), PciReg(addr), m.pci.space;
      && SameShape(space, p.m.pci.space)
      && forall g, r: nat ::
           ConfigByte(p.m.pci.space, g, r) ==
             if usable && g == fn && fn in space && r <= 0xFF && reg <= r < reg + |data|
             then data[r - reg] else ConfigByte(space, g, r)
  {
    LegacyWriteIsSplice(m, addr, data);
    hide PciAccess, PciReg, PciSeg, LegacyGranted, FnOf;
    var fn, reg := FnOf(addr), addr % 0x100;
    if fn in m.pci.space { SpliceBytes(m.pci.space[fn], reg, data[..Reach(addr, |data|)]); }
    hide Splice;
  }

  /** A listed entry's record: its location from its name and its two identifiers
      from the first four bytes of its configuration space. */
  lemma SysfsRecordLaw(pci: PciDevice, e: SysfsEntry)
    ensures SysfsRecord(pci, e).Some? <==>
      e.Named? && e.seg < 0x80 && e.bus < 0x100 && e.dev < 0x20 && e.fun < 8 && e.readable &&
      (((e.seg * 0x100 + e.bus) * 0x20 + e.dev) * 8 + e.fun) in pci.space
    ensures SysfsRecord(pci, e).Some? ==>
      var r := SysfsRecord(pci, e).value;
      var s := pci.space[((e.seg * 0x100 + e.bus) * 0x20 + e.dev) * 8 + e.fun];
      && r.bus == e.seg * 0x100 + e.bus && r.dev == e.dev && r.fun == e.fun
      && r.vendorId == s[0] as int + 0x100 * (s[1] as int) && r.deviceId == s[2] as int + 0x100 * (s[3] as int)
  {
    hide Id;
    if SysfsRecord(pci, e).Some? {
      var s := pci.space[((e.seg * 0x100 + e.bus) * 0x20 + e.dev) * 8 + e.fun];
      assert s[..4] == [s[0], s[1], s[2], s[3]];
      IdsOf(s[0], s[1], s[2], s[3]);
    }
  }

  /** The sysfs listing is a permutation of the first `max` entries that parse,
      in ascending order of segment, bus, device and function. */
  lemma SysfsListLaw(m: Machine, max: nat)
    requires m.pci.sysfs
    ensures var s := PciList(m, max);
      && s.m == m
      && multiset(s.list) == multiset(Take(Keep(SysfsView(m.pci), m.pci.entries), max))
      && (forall i, j :: 0 <= i < j < |s.list| ==> PciKey(s.list[i]) <= PciKey(s.list[j]))
      && forall i :: 0 <= i < |s.list| ==> Addressable(s.list[i])
  {
    hide PciKey;
    KeptAreAddressable(m.pci, m.pci.entries);
    var kept := Take(Keep(SysfsView(m.pci), m.pci.entries), max);
    var list := SysfsList(m, max);
    forall i | 0 <= i < |list| ensures Addressable(list[i]) {
      assert list[i] in multiset(list);
      assert list[i] in kept;
    }
  }

  /** A sysfs listing holds only records of entries, and when they all fit, every
      one of them. */
  lemma ListedFromEntries(m: Machine, max: nat, p: PciFn)
    requires m.pci.sysfs
    ensures var list, entries := PciList(m, max).list, m.pci.entries;
      var named := exists e :: e in entries && SysfsRecord(m.pci, e) == Some(p);
      && (p in list ==> named)
      && (|Keep(SysfsView(m.pci), entries)| <= max && named ==> p in list)
  {
    hide PciKey, SysfsRecord;
    var kept := Keep(SysfsView(m.pci), m.pci.entries);
    var list := SysfsList(m, max);
    KeptIff(SysfsView(m.pci), m.pci.entries, p);
    assert p in list <==> p in multiset(list);
    assert p in Take(kept, max) <==> p in multiset(Take(kept, max));
  }

  lemma ListedAddressable(m: Machine, max: nat, i: nat)
    requires i < |PciList(m, max).list|
    ensures Addressable(PciList(m, max).list[i])
  {
    hide PciKey, PciSeg, PresentFrom, Addressable;
    if m.pci.sysfs {
      SysfsListLaw(m, max);
    } else {
      LegacyScanIsFilter(m, max);
      PresentFromLaw(m.pci.space, 0);
    }
  }

  /** What the legacy scan lists lies on segment 0. */
  lemma LegacyOnSegmentZero(m: Machine, max: nat, i: nat)
    requires !m.pci.sysfs && i < |PciList(m, max).list|
    ensures PciKey(PciList(m, max).list[i]) < FUNCTIONS
  {
    hide PciKey, PciSeg, PresentFrom, Addressable;
    LegacyScanIsFilter(m, max);
    PresentFromLaw(m.pci.space, 0);
  }

  /** Whatever path listed a device, the client's address for any of its 256
      registers names that device's own config file and that register; for a
      device of the legacy scan, that function of segment 0 and that register. */
  lemma ListedDevicesReachable(m: Machine, max: nat, p: PciFn, off: nat)
    requires p in PciList(m, max).list && off < 0x100
    ensures var a := CalculatePciAddress(p.bus, p.dev, p.fun) + off;
      && a < MAX32 && SysfsKey(a) == PciKey(p) && PciReg(a) == off
      && (!m.pci.sysfs ==> FnOf(a) == PciKey(p) && PciSeg(a) == 0)
  {
    hide *;
    var list := PciList(m, max).list;
    var i :| 0 <= i < |list| && list[i] == p;
    ListedAddressable(m, max, i);
    AddressKey(p, off);
    if !m.pci.sysfs {
      LegacyOnSegmentZero(m, max, i);
      AddressFunction(p, off);
    }
  }

  /** So a read at any register of a listed device shows that device's registers
      from there on, on either path. */
  lemma ListedRegisters(m: Machine, max: nat, p: PciFn, off: nat, len: nat)
    requires p in PciList(m, max).list && off < 0x100
    ensures var a := CalculatePciAddress(p.bus, p.dev, p.fun) + off;
      && a < MAX32
      && forall k :: 0 <= k < len ==>
           PciRead(m, a, len).data[k] ==
             if m.pci.sysfs || off + k <= 0xFF then ConfigByte(m.pci.space, PciKey(p), off + k) else 255
  {
    hide PciList, CalculatePciAddress, PciKey, PciRead, PciSeg, PciReg, SysfsKey, FnOf, LegacyGranted;
    ListedDevicesReachable(m, max, p, off);
    var a := CalculatePciAddress(p.bus, p.dev, p.fun) + off;
    if m.pci.sysfs {
      SysfsKeyIs(a);
      SysfsReadIsSlice(m, a, len);
    } else {
      ListedMeansGranted(m, max, p);
      LegacyReadIsSlice(m, a, len);
    }
  }

  lemma ListedMeansGranted(m: Machine, max: nat, p: PciFn)
    requires !m.pci.sysfs && p in PciList(m, max).list
    ensures LegacyGranted(m)
  {
    hide PciList;
    LegacyScanIsFilter(m, max);
  }

  lemma AddressFunction(p: PciFn, off: nat)
    requires Addressable(p) && PciKey(p) < FUNCTIONS && off < 0x100
    ensures var a := CalculatePciAddress(p.bus, p.dev, p.fun) + off;
      a < MAX32 && FnOf(a) == PciKey(p) && PciSeg(a) == 0
  {
    hide CalculatePciAddress, PciSeg, PciBus, PciDev, PciFunc, PciReg, PciKey, FnOf;
    SplitAddress(p.bus, p.dev, p.fun, off);
    PackedAddress(p);
    AddressDecodes(p, off);
    SegmentZero(CalculatePciAddress(p.bus, p.dev, p.fun) + off, p, off);
  }

  lemma SegmentZero(a: u32, p: PciFn, off: nat)
    requires a / 0x100 == ((0x8000 + p.bus) * 0x20 + p.dev) * 8 + p.fun && PciSeg(a) == p.bus / 0x100
    requires p.dev < 0x20 && p.fun < 8 && PciKey(p) < FUNCTIONS
    ensures FnOf(a) == PciKey(p) && PciSeg(a) == 0
  {
    hide PciSeg, PciKey;
    DivModUnique(a / 0x100, FUNCTIONS, 0x80, PciKey(p));
  }

  lemma AddressKey(p: PciFn, off: nat)
    requires Addressable(p) && off < 0x100
    ensures var a := CalculatePciAddress(p.bus, p.dev, p.fun) + off;
      a < MAX32 && SysfsKey(a) == PciKey(p) && PciReg(a) == off
  {
    hide PciSeg, PciBus, PciDev, PciFunc, PciReg, CalculatePciAddress, PciKey;
    AddressDecodes(p, off);
  }
}
