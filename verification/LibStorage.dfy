/** libdisk.c and libe820.c: the block device and the firmware memory map. */
module LibStorage {
  import opened Bytes
  import opened Listing
  import opened Machines
  import opened LibPort

  /** How much of a transfer at `addr` lies on the device. */
  function OnDevice(content: Bytes, addr: nat, len: nat): (n: nat)
    ensures n <= len && (n > 0 ==> addr + n <= |content|)
  {
    if addr >= |content| then 0 else if addr + len <= |content| then len else |content| - addr
  }

  /** A read past the end keeps the real prefix and FFh after it, and fails. */
  function DiskRead(m: Machine, addr: u64, len: nat): (p: Progress)
    ensures |p.data| == len && p.m == m
  {
    if m.disk.NoDisk? || len == 0 || !m.disk.readable then Progress(m, false, Ones(len))
    else
      var n := OnDevice(m.disk.content, addr, len);
      var prefix := if n == 0 then [] else m.disk.content[addr..addr + n];
      Progress(m, n == len, prefix + Ones(len - n))
  }

  function DiskWrite(m: Machine, addr: u64, data: Bytes): (p: Progress)
    ensures p.data == data
  {
    if m.disk.NoDisk? || data == [] || !m.disk.writable then Progress(m, false, data)
    else
      var n := OnDevice(m.disk.content, addr, |data|);
      if n == 0 then Progress(m, false, data)
      else
        var content := Splice(m.disk.content, addr, data[..n]);
        Progress(m.(disk := m.disk.(content := content)), n == |data| && m.disk.synced, data)
  }

  /** A read succeeds exactly when the whole range lies on a readable device, and
      shows the device's bytes where there are any, FFh elsewhere. */
  lemma DiskReadLaw(m: Machine, addr: u64, len: nat)
    ensures var p := DiskRead(m, addr, len);
      var open := m.disk.Disk? && m.disk.readable && len > 0;
      && (p.ok <==> open && addr + len <= |m.disk.content|)
      && forall k :: 0 <= k < len ==>
           p.data[k] == if open && addr + k < |m.disk.content| then m.disk.content[addr + k] else 255
  {
  }

  /** A write changes exactly the part of the range that lies on the device, and
      succeeds exactly when that is all of it, is not empty and reaches the disk. */
  lemma DiskWriteLaw(m: Machine, addr: u64, data: Bytes)
    ensures var p := DiskWrite(m, addr, data);
      && (p.ok <==>
           && m.disk.Disk? && m.disk.writable && m.disk.synced
           && data != [] && addr + |data| <= |m.disk.content|)
      && p.m == m.(disk := p.m.disk)
      && (m.disk.Disk? ==>
            && p.m.disk == m.disk.(content := p.m.disk.content) && |p.m.disk.content| == |m.disk.content|
            && forall a :: 0 <= a < |m.disk.content| ==>
                 p.m.disk.content[a] ==
                   if m.disk.writable && addr <= a < addr + |data| then data[a - addr] else m.disk.content[a])
  {
    if m.disk.Disk? && data != [] && m.disk.writable {
      var n := OnDevice(m.disk.content, addr, |data|);
      if n > 0 {
        var content := Splice(m.disk.content, addr, data[..n]);
        forall a | 0 <= a < |content|
          ensures content[a] == if addr <= a < addr + |data| then data[a - addr] else m.disk.content[a]
        {
        }
      }
    }
  }

  /** A disk write that succeeds is read back by any read that lies on the disk. */
  lemma DiskRoundTrip(m: Machine, addr: u64, data: Bytes)
    ensures var w := DiskWrite(m, addr, data);
      w.ok && m.disk.readable ==>
        DiskRead(w.m, addr, |data|) == Progress(w.m, true, data)
  {
    if DiskWrite(m, addr, data).ok && m.disk.readable {
      assert data[..|data|] == data;
      assert data + Ones(0) == data;
    }
  }

  /** A record of the firmware memory map. */
  datatype E820Rec = E820Rec(base: u64, length: u64, kind: u32)

  function E820View(): E820Entry -> Option<E820Rec> {
    (e: E820Entry) => if e.readable && e.end >= e.start
         then Some(E820Rec(e.start, (e.end - e.start + 1) % MAX64, e.kind)) else None
  }

  function BaseOf(): E820Rec -> int { (r: E820Rec) => r.base }

  function E820Map(m: Machine, max: nat): seq<E820Rec> {
    SortBy(BaseOf(), Take(Keep(E820View(), m.firmware), max))
  }

  /** A readable entry whose end is not below its start gives a record of that
      start, of `end` included, and of its kind; others give none. */
  lemma E820ViewLaw(e: E820Entry)
    ensures E820View()(e).Some? <==> e.readable && e.start <= e.end
    ensures E820View()(e).Some? ==>
      var r := E820View()(e).value;
      && r.base == e.start && r.kind == e.kind
      && (e.end - e.start + 1 < MAX64 ==> r.base + r.length == e.end + 1)
      && (e.end - e.start + 1 == MAX64 ==> r.length == 0)
  {
  }

  /** The map holds the first `max` records, by ascending start. */
  lemma E820MapLaw(m: Machine, max: nat)
    ensures var list := E820Map(m, max);
      && multiset(list) == multiset(Take(Keep(E820View(), m.firmware), max))
      && forall i, j :: 0 <= i < j < |list| ==> list[i].base <= list[j].base
  {
    var list := E820Map(m, max);
    forall i, j | 0 <= i < j < |list| ensures list[i].base <= list[j].base {
      assert BaseOf()(list[i]) <= BaseOf()(list[j]);
    }
  }

  function PackRec(r: E820Rec): (s: Bytes)
    ensures |s| == 24
  {
    Le(8, r.base) + Le(8, r.length) + Le(4, r.kind) + Le(4, 0)
  }

  function PackRecs(list: seq<E820Rec>): (s: Bytes)
    ensures |s| == 24 * |list|
  {
    if list == [] then [] else PackRec(list[0]) + PackRecs(list[1..])
  }

  /** One record as the client copies it; the attribute word is always zero. */
  function UnpackRec(s: Bytes): E820Rec
    requires |s| == 24
  {
    Spans();
    FromLeBounded(s[0..8]);
    FromLeBounded(s[8..16]);
    FromLeBounded(s[16..20]);
    E820Rec(FromLe(s[0..8]), FromLe(s[8..16]), FromLe(s[16..20]))
  }

  function UnpackRecs(s: Bytes, n: nat): seq<E820Rec>
    requires |s| >= 24 * n
  {
    if n == 0 then [] else [UnpackRec(s[..24])] + UnpackRecs(s[24..], n - 1)
  }

  lemma UnpackOfPackRec(r: E820Rec)
    ensures UnpackRec(PackRec(r)) == r
  {
    hide Le;
    var s := PackRec(r);
    Spans();
    assert s[0..8] == Le(8, r.base) && s[8..16] == Le(8, r.length) && s[16..20] == Le(4, r.kind);
    FieldExact(8, r.base);
    FieldExact(8, r.length);
    FieldExact(4, r.kind);
  }

  /** The client recovers exactly the records the server packed. */
  lemma {:induction false} UnpackOfPackRecs(list: seq<E820Rec>)
    ensures UnpackRecs(PackRecs(list), |list|) == list
  {
    hide UnpackRec, PackRec;
    if list != [] {
      UnpackOfPackRec(list[0]);
      UnpackOfPackRecs(list[1..]);
      assert PackRecs(list)[..24] == PackRec(list[0]) && PackRecs(list)[24..] == PackRecs(list[1..]);
    }
  }

  method DiskReadCall(hw: Hardware, addr: u64, len: nat, buf: array<byte>, off: nat) returns (ok: bool)
    requires off + len <= buf.Length
    modifies buf
    ensures var p := DiskRead(hw.m, addr, len);
      ok == p.ok && buf[..] == Splice(old(buf[..]), off, p.data)
  {
    var p := DiskRead(hw.m, addr, len);
    Copy(buf, off, p.data);
    ok := p.ok;
  }

  method DiskWriteCall(hw: Hardware, addr: u64, len: nat, buf: array<byte>, off: nat) returns (ok: bool)
    requires off + len <= buf.Length
    modifies hw
    ensures var p := DiskWrite(old(hw.m), addr, buf[off..off + len]);
      hw.m == p.m && ok == p.ok
  {
    var p := DiskWrite(hw.m, addr, buf[off..off + len]);
    hw.m := p.m;
    ok := p.ok;
  }

  method E820ReadMap(hw: Hardware, max: nat) returns (list: seq<E820Rec>)
    ensures list == E820Map(hw.m, max)
  {
    list := Collect(E820View(), hw.m.firmware, max);
    list := SortBy(BaseOf(), list);
  }
}
