/** libmem.c: physical memory through /dev/mem, by mapping the covering pages or
    by a positioned transfer where mapping is refused. */
module LibMem {
  import opened Bits
  import opened Bytes
  import opened Machines
  import opened LibPort

  /** A mapping: `len` bytes from physical address `base`, the requested byte
      being `offset` into it. */
  datatype Mapping = NoMapping | Mapping(base: u64, len: u64, offset: nat)

  function PageSize(mem: MemDevice): nat { Pow2(mem.pageBits) }

  /** The page that holds `x`: masking with the 64-bit complement of the page
      size minus one, which is 2^64 - 2^k. */
  function PageOf(x: u64, k: PageBits): (p: u64)
  {
    PageMask(x, k);
    And(x, MAX64 - Pow2(k))
  }

  function MapRange(mem: MemDevice, addr: u64, len: u32): Mapping {
    var base := PageOf(addr, mem.pageBits);
    var end := PageOf((addr + len + PageSize(mem) - 1) % MAX64, mem.pageBits);
    PageMask(addr, mem.pageBits);
    if !mem.open || len == 0 then NoMapping
    else
      var size := (end - base) % MAX64;
      if size > 0 && mem.mappable(base, size) then Mapping(base, size, addr - base) else NoMapping
  }

  function RamByte(ram: map<nat, byte>, a: nat): byte {
    if a in ram then ram[a] else 255
  }

  function SetRamByte(ram: map<nat, byte>, a: nat, v: byte): map<nat, byte> {
    if a in ram then ram[a := v] else ram
  }

  /** Byte `i` of a transfer at `addr`; addresses wrap at 2^64. */
  function At(addr: nat, i: nat): nat { (addr + i) % MAX64 }

  predicate Everywhere(a: nat) { true }

  /** Memory as a transfer sees it: zeros where the kernel hides the page. */
  function Seen(ram: map<nat, byte>, shown: nat -> bool, a: nat): byte {
    if shown(a) then RamByte(ram, a) else 0
  }

  function Fetch(ram: map<nat, byte>, shown: nat -> bool, addr: nat, len: nat): (s: Bytes)
    ensures |s| == len
  {
    seq(len, i requires 0 <= i < len => Seen(ram, shown, At(addr, i)))
  }

  /** `data` stored from `addr`, skipping the pages the kernel hides. */
  function Store(ram: map<nat, byte>, shown: nat -> bool, addr: nat, data: Bytes): (r: map<nat, byte>)
    ensures r.Keys == ram.Keys
  {
    if data == [] then ram
    else
      var n := |data| - 1;
      var r := Store(ram, shown, addr, data[..n]);
      if shown(At(addr, n)) then SetRamByte(r, At(addr, n), data[n]) else r
  }

  /** What a positioned transfer of `len` bytes returns: an error, or a count. */
  function Result(mem: MemDevice, isWrite: bool, addr: u64, len: nat): (r: int)
    ensures r <= len
  {
    var r := mem.moved(isWrite, addr, len);
    if r > len then len else r
  }

  /** How many bytes it moves. */
  function Moved(mem: MemDevice, isWrite: bool, addr: u64, len: nat): (n: nat)
    ensures n <= len
  {
    var r := Result(mem, isWrite, addr, len);
    if r < 0 then 0 else r
  }

  /** What memReadBuffer leaves in a `len`-byte buffer. */
  function MemRead(m: Machine, addr: u64, len: u32): (p: Progress)
    ensures |p.data| == len && p.m == m
  {
    if MapRange(m.mem, addr, len) != NoMapping then Progress(m, true, Fetch(m.mem.ram, Everywhere, addr, len))
    else if m.mem.open && Result(m.mem, false, addr, len) == len then
      Progress(m, true, Fetch(m.mem.ram, m.mem.exposed, addr, len))
    else Progress(m, false, Ones(len))
  }

  function MemWrite(m: Machine, addr: u64, data: Bytes): (p: Progress)
    requires |data| < MAX32
    ensures p.data == data
  {
    if MapRange(m.mem, addr, |data|) != NoMapping then
      Progress(m.(mem := m.mem.(ram := Store(m.mem.ram, Everywhere, addr, data))), true, data)
    else if m.mem.open then
      var n := Moved(m.mem, true, addr, |data|);
      Progress(m.(mem := m.mem.(ram := Store(m.mem.ram, m.mem.exposed, addr, data[..n]))),
        Result(m.mem, true, addr, |data|) == |data|, data)
    else Progress(m, false, data)
  }

  // ------------------------------------------------------------- page cover

  /** The 64-bit complement mask is a remainder in disguise. */
  lemma PageMask(x: u64, k: PageBits)
    ensures Pow2(k) <= MAX64 && And(x, MAX64 - Pow2(k)) == x - x % Pow2(k)
  {
    PowersOf256();
    AndRun(x, 64, k);
    AsDivMod(x, 64);
    AsDivMod(x, k);
  }

  lemma ModShift(x: int, p: nat, q: int)
    requires p > 0
    ensures (x + p * q) % p == x % p
  {
    assert x + p * q == p * (x / p + q) + x % p by {
      assert p * (x / p + q) == p * (x / p) + p * q;
    }
    DivModUnique(x + p * q, p, x / p + q, x % p);
  }

  lemma {:induction false} PowMonotone(a: nat, b: nat)
    requires a <= b
    ensures Pow2(a) <= Pow2(b)
  {
    if a < b { PowMonotone(a, b - 1); }
  }

  /** The least multiple of the page size that covers `x` bytes. */
  function RoundUp(x: nat, page: nat): nat
    requires page > 0
  {
    x + page - 1 - (x + page - 1) % page
  }

  lemma RoundUpCovers(x: nat, page: nat)
    requires page > 0
    ensures RoundUp(x, page) % page == 0 && x <= RoundUp(x, page) < x + page
  {
    var y := x + page - 1;
    assert y - y % page == page * (y / page);
    ModShift(0, page, y / page);
  }

  lemma RoundDownAligned(x: nat, page: nat)
    requires page > 0
    ensures (x - x % page) % page == 0
  {
    assert x == page * (x / page) + x % page;
    ModShift(0, page, x / page);
  }

  /** Rounding down and rounding up differ by whole pages, and so does the wrap
      at 2^64 when pages divide it. */
  lemma CoverLength(addr: u64, len: u32, page: nat, pages: nat)
    requires 0 < page <= 0x4000_0000_0000_0000 && page * pages == MAX64
    ensures var wrapped := (addr + len + page - 1) % MAX64;
      ((wrapped - wrapped % page) - (addr - addr % page)) % MAX64 == RoundUp(addr % page + len, page)
  {
    var o, q := addr % page, addr / page;
    var sum := addr + len + page - 1;
    var w, wrapped := sum / MAX64, sum % MAX64;
    assert addr == page * q + o;
    assert sum % page == (o + len + page - 1) % page by {
      ModShift(o + len + page - 1, page, q);
    }
    assert wrapped % page == sum % page by {
      assert page * (pages * w) == MAX64 * w;
      ModShift(wrapped, page, pages * w);
    }
    var up := RoundUp(o + len, page);
    RoundUpCovers(o + len, page);
    DivModUnique(up - MAX64 * w, MAX64, -w, up);
  }

  lemma PageSizes(k: PageBits) returns (pages: nat)
    ensures 0 < Pow2(k) <= 0x4000_0000_0000_0000 && Pow2(k) * pages == MAX64
  {
    var n: nat := k;
    pages := Pow2(64 - n);
    PowersOf256();
    PowDouble(n, 64 - n);
    PowMonotone(n, 62);
    assert Pow2(64) == 4 * Pow2(62);
  }

  lemma MapRangeArithmetic(mem: MemDevice, addr: u64, len: u32)
    requires MapRange(mem, addr, len) != NoMapping
    ensures var map' := MapRange(mem, addr, len);
      var page := PageSize(mem);
      var wrapped := (addr + len + page - 1) % MAX64;
      && map'.base == addr - addr % page
      && map'.offset == addr % page
      && map'.len == ((wrapped - wrapped % page) - (addr - addr % page)) % MAX64
  {
    hide And, Pow2;
    PageMask(addr, mem.pageBits);
    PageMask((addr + len + PageSize(mem) - 1) % MAX64, mem.pageBits);
  }

  /** The mapping starts on a page boundary at or below the address and its
      length is the page-rounded cover of the requested range, even when
      `addr + len` wraps past 2^64; the range lies inside it. */
  lemma PageCover(mem: MemDevice, addr: u64, len: u32)
    requires MapRange(mem, addr, len) != NoMapping
    ensures var map' := MapRange(mem, addr, len);
      var page := PageSize(mem);
      && map'.base % page == 0
      && map'.base + map'.offset == addr && map'.offset == addr % page
      && map'.len == RoundUp(addr % page + len, page)
      && map'.offset + len <= map'.len
  {
    var page := PageSize(mem);
    var pages := PageSizes(mem.pageBits);
    MapRangeArithmetic(mem, addr, len);
    hide MapRange, RoundUp, Pow2;
    CoverLength(addr, len, page, pages);
    RoundUpCovers(addr % page + len, page);
    RoundDownAligned(addr, page);
  }

  lemma PageOfIs(x: u64, k: PageBits)
    ensures PageOf(x, k) == x - x % Pow2(k)
  {
    hide And, Pow2;
    PageMask(x, k);
  }

  /** The length of the mapping, as the page-rounded ends give it. */
  function Span64(mem: MemDevice, addr: u64, len: u32): nat {
    (PageOf((addr + len + PageSize(mem) - 1) % MAX64, mem.pageBits) - PageOf(addr, mem.pageBits)) % MAX64
  }

  lemma MappedWhen(mem: MemDevice, addr: u64, len: u32)
    ensures MapRange(mem, addr, len) != NoMapping <==>
      && mem.open && len > 0 && Span64(mem, addr, len) > 0
      && mem.mappable(PageOf(addr, mem.pageBits), Span64(mem, addr, len))
  {
    hide And, Pow2, PageOf;
  }

  lemma SpanIsCover(mem: MemDevice, addr: u64, len: u32)
    ensures Span64(mem, addr, len) == RoundUp(addr % PageSize(mem) + len, PageSize(mem))
  {
    hide RoundUp, Pow2, PageOf;
    var pages := PageSizes(mem.pageBits);
    CoverLength(addr, len, PageSize(mem), pages);
    PageOfIs(addr, mem.pageBits);
    PageOfIs((addr + len + PageSize(mem) - 1) % MAX64, mem.pageBits);
  }

  /** When a range is mapped: iff the device is open, the range is not empty and the
      kernel maps the pages that cover it, from the page that holds its start. */
  lemma MappedIff(mem: MemDevice, addr: u64, len: u32, page: nat, base: nat, size: nat)
    requires page == PageSize(mem) > 0
    requires base % page == 0 && base <= addr < base + page && size == RoundUp(addr - base + len, page)
    ensures MapRange(mem, addr, len) != NoMapping <==> mem.open && len > 0 && mem.mappable(base, size)
  {
    hide RoundUp, MapRange, Span64, PageOf, PageSize;
    PageSizeIs(mem);
    DivModUnique(addr, page, base / page, addr - base);
    MappedWhen(mem, addr, len);
    SpanIsCover(mem, addr, len);
    PageOfIs(addr, mem.pageBits);
    RoundUpCovers(addr - base + len, page);
  }

  lemma PageSizeIs(mem: MemDevice)
    ensures PageSize(mem) == Pow2(mem.pageBits) > 0
  {
  }

  // -------------------------------------------------------- copying memory

  /** Copies byte by byte out of the mapping. */
  method CopyFromMapping(hw: Hardware, mapped: Mapping, len: u32, buf: array<byte>, off: nat)
    requires mapped != NoMapping && mapped.offset + len <= mapped.len
    requires off + len <= buf.Length
    modifies buf
    ensures buf[..] == Splice(old(buf[..]), off, Fetch(hw.m.mem.ram, Everywhere, mapped.base + mapped.offset, len))
  {
    ghost var was := buf[..];
    ghost var goal := Fetch(hw.m.mem.ram, Everywhere, mapped.base + mapped.offset, len);
    for i := 0 to len
      invariant buf[..off] == was[..off] && buf[off + i..] == was[off + i..]
      invariant buf[off..off + i] == goal[..i]
    {
      assert mapped.offset + i < mapped.len;
      buf[off + i] := RamByte(hw.m.mem.ram, At(mapped.base, mapped.offset + i));
      assert buf[off + i] == goal[i];
    }
    assert buf[off..off + len] == goal;
    assert buf[..] == Splice(was, off, goal);
  }

  method MemReadBuffer(hw: Hardware, addr: u64, len: u32, buf: array<byte>, off: nat) returns (ok: bool)
    requires off + len <= buf.Length
    modifies buf
    ensures var p := MemRead(hw.m, addr, len);
      ok == p.ok && buf[..] == Splice(old(buf[..]), off, p.data)
  {
    hide MapRange, Fetch;
    var mapped := MapRange(hw.m.mem, addr, len);
    if mapped != NoMapping {
      PageCover(hw.m.mem, addr, len);
      CopyFromMapping(hw, mapped, len, buf, off);
      return true;
    }
    if hw.m.mem.open && Result(hw.m.mem, false, addr, len) == len {
      Copy(buf, off, Fetch(hw.m.mem.ram, hw.m.mem.exposed, addr, len));
      return true;
    }
    Fill(buf, off, len);
    ok := false;
  }

  /** Copies byte by byte into the mapping. */
  method CopyToMapping(hw: Hardware, mapped: Mapping, len: u32, buf: array<byte>, off: nat)
    requires mapped != NoMapping && mapped.offset + len <= mapped.len
    requires off + len <= buf.Length
    modifies hw
    ensures var mem := old(hw.m.mem);
      hw.m == old(hw.m).(mem := mem.(ram :=
        Store(mem.ram, Everywhere, mapped.base + mapped.offset, buf[off..off + len])))
  {
    hide SetRamByte;
    ghost var was, data := hw.m, buf[off..off + len];
    for i := 0 to len
      invariant hw.m == was.(mem := was.mem.(ram :=
        Store(was.mem.ram, Everywhere, mapped.base + mapped.offset, data[..i])))
    {
      assert mapped.offset + i < mapped.len;
      assert data[..i + 1][..i] == data[..i];
      hw.m := hw.m.(mem := hw.m.mem.(ram :=
        SetRamByte(hw.m.mem.ram, At(mapped.base, mapped.offset + i), buf[off + i])));
    }
    assert data[..len] == data;
  }

  method MemWriteBuffer(hw: Hardware, addr: u64, len: u32, buf: array<byte>, off: nat) returns (ok: bool)
    requires off + len <= buf.Length
    modifies hw
    ensures var p := MemWrite(old(hw.m), addr, buf[off..off + len]);
      hw.m == p.m && ok == p.ok
  {
    hide MapRange, Store;
    var mapped := MapRange(hw.m.mem, addr, len);
    if mapped != NoMapping {
      PageCover(hw.m.mem, addr, len);
      CopyToMapping(hw, mapped, len, buf, off);
      return true;
    }
    if hw.m.mem.open {
      var n := Moved(hw.m.mem, true, addr, len);
      ok := Result(hw.m.mem, true, addr, len) == len;
      hw.m := hw.m.(mem := hw.m.mem.(ram := Store(hw.m.mem.ram, hw.m.mem.exposed, addr, buf[off..off + len][..n])));
      return;
    }
    ok := false;
  }

  // ------------------------------------------------------------------ laws

  /** Where address `a` falls in a transfer that starts at `addr`. */
  function OffsetOf(a: nat, addr: nat): nat { (a - addr) % MAX64 }

  /** A store changes exactly the backed, shown addresses it covers. */
  lemma {:induction false} StoreLaw(ram: map<nat, byte>, shown: nat -> bool, addr: u64, data: Bytes, a: u64)
    requires |data| <= MAX64
    ensures RamByte(Store(ram, shown, addr, data), a) ==
      if a in ram && shown(a) && OffsetOf(a, addr) < |data| then data[OffsetOf(a, addr)] else RamByte(ram, a)
  {
    if data != [] {
      var n := |data| - 1;
      StoreLaw(ram, shown, addr, data[..n], a);
      assert (At(addr, n) == a) == (OffsetOf(a, addr) == n);
    }
  }

  /** A transfer completes on a mapping, or when the kernel moves all of it. */
  predicate Completes(mem: MemDevice, isWrite: bool, addr: u64, len: u32) {
    MapRange(mem, addr, len) != NoMapping || (mem.open && Result(mem, isWrite, addr, len) == len)
  }

  /** Whether a transfer of `len` bytes at `addr` reaches address `a` of it: on a
      mapping always, else unless the kernel hides the page. */
  predicate Reaches(mem: MemDevice, addr: u64, len: u32, a: nat) {
    MapRange(mem, addr, len) != NoMapping || mem.exposed(a)
  }

  /** What a transfer of `len` bytes at `addr` sees, as a function. */
  function Window(mem: MemDevice, addr: u64, len: u32): nat -> bool {
    (a: nat) => Reaches(mem, addr, len, a)
  }

  /** A transfer that is not mapped completes iff the device is open and the system
      call returns the whole length. */
  lemma CompletesIff(mem: MemDevice, isWrite: bool, addr: u64, len: u32)
    ensures Completes(mem, isWrite, addr, len) <==>
      MapRange(mem, addr, len) != NoMapping || (mem.open && mem.moved(isWrite, addr, len) >= len)
  {
    hide MapRange;
  }

  lemma ReadThroughWindow(m: Machine, addr: u64, len: u32)
    ensures var p := MemRead(m, addr, len);
      && (p.ok <==> Completes(m.mem, false, addr, len))
      && (!p.ok ==> p.data == Ones(len))
      && (p.ok ==> p.data == Fetch(m.mem.ram, Window(m.mem, addr, len), addr, len))
  {
    hide MapRange;
  }

  lemma {:induction false} StoreSameWindow(ram: map<nat, byte>, f: nat -> bool, g: nat -> bool, addr: nat, data: Bytes)
    requires forall a: nat :: f(a) == g(a)
    ensures Store(ram, f, addr, data) == Store(ram, g, addr, data)
  {
    hide SetRamByte;
    if data != [] { StoreSameWindow(ram, f, g, addr, data[..|data| - 1]); }
  }

  lemma WriteThroughWindow(m: Machine, addr: u64, data: Bytes)
    requires |data| < MAX32
    ensures var p := MemWrite(m, addr, data);
      && (p.ok <==> Completes(m.mem, true, addr, |data|))
      && p.m == m.(mem := m.mem.(ram := p.m.mem.ram))
      && (p.ok ==> p.m.mem.ram == Store(m.mem.ram, Window(m.mem, addr, |data|), addr, data))
  {
    hide MapRange, Store;
    assert data[..|data|] == data;
    if MapRange(m.mem, addr, |data|) != NoMapping {
      StoreSameWindow(m.mem.ram, Everywhere, Window(m.mem, addr, |data|), addr, data);
    } else {
      StoreSameWindow(m.mem.ram, m.mem.exposed, Window(m.mem, addr, |data|), addr, data);
    }
  }

  /** How many bytes of a write reach memory: all of a mapped one, and otherwise as
      many as the system call says. */
  function Stored(mem: MemDevice, addr: u64, len: u32): (n: nat)
    ensures n <= len
  {
    if MapRange(mem, addr, len) != NoMapping then len
    else if mem.open then Moved(mem, true, addr, len) else 0
  }

  /** What a write leaves at every address, whether it succeeds or not. */
  lemma WriteBytes(m: Machine, addr: u64, data: Bytes, a: u64)
    requires |data| < MAX32
    ensures RamByte(MemWrite(m, addr, data).m.mem.ram, a) ==
      if a in m.mem.ram && Reaches(m.mem, addr, |data|, a) && OffsetOf(a, addr) < Stored(m.mem, addr, |data|)
      then data[OffsetOf(a, addr)] else RamByte(m.mem.ram, a)
  {
    hide MapRange, Store, OffsetOf;
    var n := Stored(m.mem, addr, |data|);
    if MapRange(m.mem, addr, |data|) != NoMapping {
      StoreLaw(m.mem.ram, Everywhere, addr, data, a);
    } else if m.mem.open {
      StoreLaw(m.mem.ram, m.mem.exposed, addr, data[..n], a);
    }
  }

  /** Memory that was written reads back, through a mapping or by positioned
      transfers: each call succeeds exactly when it completes, and then the read
      shows the written byte wherever RAM answers and both calls reach it, zero
      where the kernel hides the page from the read, and the old byte elsewhere. */
  lemma WriteThenRead(m: Machine, addr: u64, data: Bytes, at: u64, len: u32)
    requires |data| < MAX32
    ensures var w := MemWrite(m, addr, data);
      var r := MemRead(w.m, at, len);
      && (w.ok <==> Completes(m.mem, true, addr, |data|))
      && (r.ok <==> Completes(m.mem, false, at, len))
      && (w.ok && r.ok ==> forall i :: 0 <= i < len ==> r.data[i] == ReadAfter(m.mem, addr, data, at, len, At(at, i)))
  {
    WriteThroughWindow(m, addr, data);
    var w := MemWrite(m, addr, data);
    ReadThroughWindow(w.m, at, len);
    SameAnswers(m.mem, w.m.mem, at, len);
    var r := MemRead(w.m, at, len);
    hide MapRange, MemWrite, MemRead, Store, Completes;
    if w.ok && r.ok {
      forall i | 0 <= i < len ensures r.data[i] == ReadAfter(m.mem, addr, data, at, len, At(at, i)) {
        StoreLaw(m.mem.ram, Window(m.mem, addr, |data|), addr, data, At(at, i));
      }
    }
  }

  /** The byte at `a` that a read of `len` bytes at `at` shows after `data` was
      written at `addr`. */
  function ReadAfter(mem: MemDevice, addr: u64, data: Bytes, at: u64, len: u32, a: nat): byte
    requires |data| < MAX32
  {
    if !Reaches(mem, at, len, a) then 0
    else if a in mem.ram && Reaches(mem, addr, |data|, a) && OffsetOf(a, addr) < |data| then data[OffsetOf(a, addr)]
    else RamByte(mem.ram, a)
  }

  /** The kernel's answers do not depend on what RAM holds. */
  lemma SameAnswers(mem: MemDevice, mem': MemDevice, addr: u64, len: u32)
    requires mem' == mem.(ram := mem'.ram)
    ensures MapRange(mem', addr, len) == MapRange(mem, addr, len)
    ensures forall isWrite :: Completes(mem', isWrite, addr, len) == Completes(mem, isWrite, addr, len)
    ensures forall a: nat :: Reaches(mem', addr, len, a) == Reaches(mem, addr, len, a)
  {
  }
}
