/** pciids.c: naming every listed device in one pass over a pci.ids file. */
module PciIds {
  import opened Listing
  import opened PciAddress
  import opened Hex

  const MAX_READBUF := 512
  const MAX_PCINAME := 75

  // ---------------------------------------------------------- lines and ids

  /** How many characters one fgets(line, 512, fp) takes from a non-empty rest:
      through the newline, or as many as the buffer holds. */
  function FgetsLen(s: string): (n: nat)
    requires s != []
    ensures 0 < n <= |s| && n < MAX_READBUF
  {
    FgetsFrom(s, 0)
  }

  function FgetsFrom(s: string, i: nat): (n: nat)
    requires i < |s| && i < MAX_READBUF - 1
    ensures i < n <= |s| && n < MAX_READBUF
    decreases |s| - i
  {
    if s[i] == '\n' || i + 1 == |s| || i + 1 == MAX_READBUF - 1 then i + 1 else FgetsFrom(s, i + 1)
  }

  /** The C string left once the newline is overwritten. */
  function Text(chunk: string): string {
    if chunk == [] || chunk[0] == '\n' || chunk[0] == '\0' then [] else [chunk[0]] + Text(chunk[1..])
  }

  datatype IdName = IdName(id: nat, name: string)

  /** "<4 characters of number><blank><name>". */
  function IdLine(line: string): Option<IdName> {
    if line == [] || !IsHexDigit(line[0]) then None
    else if NumberEnd(line) != 4 || |line| == 4 || !IsSpace(line[4]) then None
    else Some(IdName(HexValue(line[NumberStart(line)..4]), line[SkipSpaces(line, 4)..]))
  }

  predicate AllHex(s: string) { forall i :: 0 <= i < |s| ==> IsHexDigit(s[i]) }

  lemma {:induction false} RunUpTo(s: string, n: nat)
    requires n < |s| && !IsHexDigit(s[n])
    ensures HexRun(s) == n <==> AllHex(s[..n])
  {
    if n > 0 {
      RunUpTo(s[1..], n - 1);
      assert s[..n] == [s[0]] + s[1..][..n - 1];
    }
  }

  lemma {:induction false} BlanksEnd(pre: string, blanks: string, name: string, k: nat)
    requires |pre| <= k <= |pre + blanks| && (name == [] || !IsSpace(name[0]))
    requires forall i :: 0 <= i < |blanks| ==> IsSpace(blanks[i])
    ensures SkipSpaces(pre + blanks + name, k) == |pre + blanks|
    decreases |pre + blanks| - k
  {
    var s := pre + blanks + name;
    if k < |pre + blanks| {
      assert s[k] == blanks[k - |pre|];
      BlanksEnd(pre, blanks, name, k + 1);
    } else if k < |s| {
      assert s[k] == name[0];
    }
  }

  /** Four hex digits, blanks and a name give exactly that number and name. */
  lemma IdLineOfParts(d: string, blanks: string, name: string)
    requires |d| == 4 && AllHex(d) && blanks != [] && (name == [] || !IsSpace(name[0]))
    requires forall i :: 0 <= i < |blanks| ==> IsSpace(blanks[i])
    ensures IdLine(d + blanks + name) == Some(IdName(HexValue(d), name))
  {
    var s := d + blanks + name;
    BlanksEnd(d, blanks, name, 4);
    assert s[4] == blanks[0] && s[..4] == d && s[0] == d[0] && s[1] == d[1];
    RunUpTo(s, 4);
    assert s[0..] == s && s[0..4] == d && s[|d + blanks|..] == name;
  }

  /** The documented form: four hex digits and a blank, then anything. */
  predicate FourDigits(line: string) {
    |line| > 4 && IsSpace(line[4]) && AllHex(line[..4])
  }

  /** A number written as "0x" and two digits, which strtoul() also takes. */
  predicate PrefixedDigits(line: string) {
    |line| > 4 && IsSpace(line[4]) && line[0] == '0' && (line[1] == 'x' || line[1] == 'X') && AllHex(line[2..4])
  }

  /** Exactly when a line parses, and when that is as documented. */
  lemma IdLineForm(line: string)
    ensures IdLine(line).Some? <==> FourDigits(line) || PrefixedDigits(line)
    ensures (IdLine(line).Some? <==> FourDigits(line)) <==> !PrefixedDigits(line)
  {
    hide SkipSpaces, HexValue;
    if |line| > 4 && IsSpace(line[4]) {
      assert line[0] == line[..4][0] && line[1] == line[..4][1] && line[0..] == line;
      assert line[2] == line[2..4][0];
      RunUpTo(line, 4);
      RunUpTo(line[2..], 2);
      assert line[2..][..2] == line[2..4];
    }
  }

  lemma PrefixedIdAccepted()
    ensures IdLine("0x12 A").Some? && !FourDigits("0x12 A")
  {
    var line := "0x12 A";
    assert line[2..4] == "12" && line[4] == ' ';
    IdLineForm(line);
    assert line[..4][1] == 'x';
  }

  method ParseIdLine(line: string) returns (r: Option<IdName>)
    ensures r == IdLine(line)
  {
    if line == [] || !IsHexDigit(line[0]) {
      return None;
    }
    var id := HexValue(line[NumberStart(line)..NumberEnd(line)]);
    var end := NumberEnd(line);
    if end != 4 || end == |line| || !IsSpace(line[end]) {
      return None;
    }
    while end < |line| && IsSpace(line[end])
      invariant 4 <= end <= |line| && SkipSpaces(line, 4) == SkipSpaces(line, end)
    {
      end := end + 1;
    }
    r := Some(IdName(id, line[end..]));
  }

  // ------------------------------------------------------- what a line means

  datatype Kind =
    | Ignored                          // blank, comment or nested under a device
    | Classes                          // start of the class section
    | VendorLine(v: Option<IdName>)    // None: does not parse
    | DeviceLine(d: Option<IdName>)

  function Classify(line: string): Kind {
    if line == [] || line[0] == '#' then Ignored
    else if line[0] == 'C' && |line| > 1 && line[1] == ' ' then Classes
    else if line[0] != '\t' then VendorLine(IdLine(line))
    else if |line| > 1 && line[1] == '\t' then Ignored
    else DeviceLine(IdLine(line[1..]))
  }

  /** The lines of the file up to the class section. */
  function Kinds(file: string): seq<Kind>
    decreases |file|
  {
    if file == [] then []
    else
      var n := FgetsLen(file);
      var k := Classify(Text(file[..n]));
      if k.Classes? then [] else [k] + Kinds(file[n..])
  }

  // --------------------------------------- the separate lookup for one device

  /** snprintf into a 75-byte field. */
  function Cut(name: string): string {
    if |name| < MAX_PCINAME then name else name[..MAX_PCINAME - 1]
  }

  const UNKNOWN_VENDOR := "Unknown vendor"
  const UNKNOWN_DEVICE := "Unknown device"

  predicate NamesVendor(k: Kind, vendor: nat) {
    k.VendorLine? && k.v.Some? && k.v.value.id == vendor
  }

  /** The vendor whose section line `n` lies in; None after an unparsable one. */
  function Section(ks: seq<Kind>, n: nat): Option<nat>
    requires n <= |ks|
  {
    if n == 0 then None
    else match ks[n - 1]
      case VendorLine(Some(v)) => Some(v.id)
      case VendorLine(None) => None
      case _ => Section(ks, n - 1)
  }

  predicate NamesDevice(ks: seq<Kind>, n: nat, vendor: nat, device: nat)
    requires n < |ks|
  {
    ks[n].DeviceLine? && ks[n].d.Some? && ks[n].d.value.id == device && Section(ks, n) == Some(vendor)
  }

  /** Scanning backwards for one vendor: the last line that names it wins. */
  function VendorName(ks: seq<Kind>, n: nat, vendor: nat): string
    requires n <= |ks|
  {
    if n == 0 then UNKNOWN_VENDOR
    else if NamesVendor(ks[n - 1], vendor) then Cut(ks[n - 1].v.value.name)
    else VendorName(ks, n - 1, vendor)
  }

  /** Scanning backwards for one device of one vendor. */
  function DeviceName(ks: seq<Kind>, n: nat, vendor: nat, device: nat): string
    requires n <= |ks|
  {
    if n == 0 then UNKNOWN_DEVICE
    else if NamesDevice(ks, n - 1, vendor, device) then Cut(ks[n - 1].d.value.name)
    else DeviceName(ks, n - 1, vendor, device)
  }

  /** The lookup is decided by the last naming line `k`, and the default stands
      exactly when there is none. */
  lemma {:induction false} LastVendorWins(ks: seq<Kind>, n: nat, vendor: nat) returns (k: int)
    requires n <= |ks|
    ensures -1 <= k < n && forall j :: k < j < n ==> !NamesVendor(ks[j], vendor)
    ensures k >= 0 ==> NamesVendor(ks[k], vendor) && VendorName(ks, n, vendor) == Cut(ks[k].v.value.name)
    ensures k == -1 ==> VendorName(ks, n, vendor) == UNKNOWN_VENDOR
  {
    hide Cut, NamesVendor;
    if n == 0 {
      k := -1;
    } else if NamesVendor(ks[n - 1], vendor) {
      k := n - 1;
      VendorLineNamed(ks[k], vendor);
    } else {
      k := LastVendorWins(ks, n - 1, vendor);
      if k >= 0 { VendorLineNamed(ks[k], vendor); }
    }
  }

  lemma VendorLineNamed(k: Kind, vendor: nat)
    requires NamesVendor(k, vendor)
    ensures k.VendorLine? && k.v.Some?
  {
  }

  /** The same for a device; only lines inside its own vendor's section count. */
  lemma {:induction false} LastDeviceWins(ks: seq<Kind>, n: nat, vendor: nat, device: nat) returns (k: int)
    requires n <= |ks|
    ensures -1 <= k < n && forall j :: k < j < n ==> !NamesDevice(ks, j, vendor, device)
    ensures k >= 0 ==>
      NamesDevice(ks, k, vendor, device) && DeviceName(ks, n, vendor, device) == Cut(ks[k].d.value.name)
    ensures k == -1 ==> DeviceName(ks, n, vendor, device) == UNKNOWN_DEVICE
  {
    hide Cut, NamesDevice;
    if n == 0 {
      k := -1;
    } else if NamesDevice(ks, n - 1, vendor, device) {
      k := n - 1;
      DeviceLineNamed(ks, k, vendor, device);
    } else {
      k := LastDeviceWins(ks, n - 1, vendor, device);
      if k >= 0 { DeviceLineNamed(ks, k, vendor, device); }
    }
  }

  lemma DeviceLineNamed(ks: seq<Kind>, n: nat, vendor: nat, device: nat)
    requires n < |ks| && NamesDevice(ks, n, vendor, device)
    ensures ks[n].DeviceLine? && ks[n].d.Some?
  {
  }

  /** A section starts at its vendor line, holds until the next vendor line, and
      an unparsable vendor line opens no section at all. */
  lemma {:induction false} SectionStart(ks: seq<Kind>, n: nat) returns (k: int)
    requires n <= |ks|
    ensures -1 <= k < n && forall j :: k < j < n ==> !ks[j].VendorLine?
    ensures k == -1 ==> Section(ks, n) == None
    ensures k >= 0 ==> ks[k].VendorLine?
    ensures k >= 0 ==> Section(ks, n) == match ks[k].v case Some(v) => Some(v.id) case None => None
  {
    if n == 0 {
      k := -1;
    } else if ks[n - 1].VendorLine? {
      k := n - 1;
    } else {
      k := SectionStart(ks, n - 1);
    }
  }

  lemma {:induction false} LookupsIgnoreLater(ks: seq<Kind>, more: seq<Kind>, n: nat, vendor: nat, device: nat)
    requires n <= |ks|
    ensures VendorName(ks + more, n, vendor) == VendorName(ks, n, vendor)
    ensures DeviceName(ks + more, n, vendor, device) == DeviceName(ks, n, vendor, device)
    ensures Section(ks + more, n) == Section(ks, n)
  {
    hide Cut;
    if n > 0 { LookupsIgnoreLater(ks, more, n - 1, vendor, device); }
  }

  // --------------------------------------------------------- the single pass

  /** All names so far agree with separate lookups over the lines so far. */
  ghost predicate Agree(devs: seq<PciFn>, ven: seq<string>, dev: seq<string>, ks: seq<Kind>) {
    |ven| == |dev| == |devs| &&
    forall i :: 0 <= i < |devs| ==>
      && ven[i] == VendorName(ks, |ks|, devs[i].vendorId)
      && dev[i] == DeviceName(ks, |ks|, devs[i].vendorId, devs[i].deviceId)
  }

  lemma AgreeMeans(devs: seq<PciFn>, ven: seq<string>, dev: seq<string>, ks: seq<Kind>)
    requires Agree(devs, ven, dev, ks)
    ensures |ven| == |dev| == |devs|
    ensures forall i :: 0 <= i < |devs| ==> ven[i] == VendorName(ks, |ks|, devs[i].vendorId)
    ensures forall i :: 0 <= i < |devs| ==> dev[i] == DeviceName(ks, |ks|, devs[i].vendorId, devs[i].deviceId)
  {
    hide VendorName, DeviceName;
  }

  /** What one more line does to the running vendor and to every device. */
  method ApplyLine(devs: seq<PciFn>, venTxt: array<string>, devTxt: array<string>, line: string, vendor: Option<nat>,
                   ghost ks: seq<Kind>)
    returns (vendor': Option<nat>)
    requires venTxt != devTxt && venTxt.Length == devTxt.Length == |devs|
    requires Agree(devs, venTxt[..], devTxt[..], ks) && vendor == Section(ks, |ks|)
    requires !Classify(line).Classes?
    modifies venTxt, devTxt
    ensures Agree(devs, venTxt[..], devTxt[..], ks + [Classify(line)])
    ensures vendor' == Section(ks + [Classify(line)], |ks| + 1)
  {
    hide IdLine, Cut;
    ghost var k, ks' := Classify(line), ks + [Classify(line)];
    forall v: nat, d: nat
      ensures VendorName(ks', |ks|, v) == VendorName(ks, |ks|, v)
      ensures DeviceName(ks', |ks|, v, d) == DeviceName(ks, |ks|, v, d)
    {
      LookupsIgnoreLater(ks, [k], |ks|, v, d);
    }
    LookupsIgnoreLater(ks, [k], |ks|, 0, 0);
    vendor' := vendor;
    if line == [] || line[0] == '#' {
      return;
    }
    if line[0] != '\t' {
      var parsed := ParseIdLine(line);
      vendor' := if parsed.Some? then Some(parsed.value.id) else None;
      var i := 0;
      while parsed.Some? && i < |devs|
        invariant i <= |devs|
        invariant devTxt[..] == old(devTxt[..])
        invariant forall j :: i <= j < |devs| ==> venTxt[j] == old(venTxt[j])
        invariant forall j :: 0 <= j < i ==> venTxt[j] == VendorName(ks', |ks'|, devs[j].vendorId)
      {
        if devs[i].vendorId == parsed.value.id {
          venTxt[i] := Cut(parsed.value.name);
        }
        i := i + 1;
      }
    } else if (|line| < 2 || line[1] != '\t') && vendor.Some? {
      var parsed := ParseIdLine(line[1..]);
      var i := 0;
      while parsed.Some? && i < |devs|
        invariant i <= |devs|
        invariant venTxt[..] == old(venTxt[..])
        invariant forall j :: i <= j < |devs| ==> devTxt[j] == old(devTxt[j])
        invariant forall j :: 0 <= j < i ==> devTxt[j] == DeviceName(ks', |ks'|, devs[j].vendorId, devs[j].deviceId)
      {
        if devs[i].vendorId == vendor.value && devs[i].deviceId == parsed.value.id {
          devTxt[i] := Cut(parsed.value.name);
        }
        i := i + 1;
      }
    }
  }

  method SetDefaults(devs: seq<PciFn>, venTxt: array<string>, devTxt: array<string>)
    requires venTxt != devTxt && venTxt.Length == devTxt.Length == |devs|
    modifies venTxt, devTxt
    ensures Agree(devs, venTxt[..], devTxt[..], []) && Section([], 0) == None
  {
    for i := 0 to |devs|
      invariant forall j :: 0 <= j < i ==> venTxt[j] == UNKNOWN_VENDOR && devTxt[j] == UNKNOWN_DEVICE
    {
      venTxt[i] := UNKNOWN_VENDOR;
      devTxt[i] := UNKNOWN_DEVICE;
    }
  }

  lemma KindsStep(file: string)
    requires file != []
    ensures var n := FgetsLen(file);
      var line := Text(file[..n]);
      && Kinds(file) == (if Classify(line).Classes? then [] else [Classify(line)] + Kinds(file[n..]))
      && (Classify(line).Classes? <==> line != [] && line[0] == 'C' && |line| > 1 && line[1] == ' ')
  {
    hide FgetsLen, Text;
  }

  lemma NoMoreKinds()
    ensures Kinds([]) == []
  {
  }

  /** One pass over the file gives every device the names that a separate lookup
      for that device alone would give, whatever the other devices are. */
  method LoadPciNames(devs: seq<PciFn>, venTxt: array<string>, devTxt: array<string>, file: Option<string>)
    returns (ok: bool)
    requires venTxt != devTxt && venTxt.Length == devTxt.Length == |devs|
    modifies venTxt, devTxt
    ensures ok == file.Some?
    ensures var ks := if file.Some? then Kinds(file.value) else [];
      forall i :: 0 <= i < |devs| ==>
        venTxt[i] == VendorName(ks, |ks|, devs[i].vendorId) &&
        devTxt[i] == DeviceName(ks, |ks|, devs[i].vendorId, devs[i].deviceId)
  {
    hide VendorName, DeviceName, Section, FgetsLen, Text, Kinds, Classify, Agree;
    SetDefaults(devs, venTxt, devTxt);
    if file.None? {
      AgreeMeans(devs, venTxt[..], devTxt[..], []);
      return false;
    }
    ghost var ks: seq<Kind> := [];
    var vendor: Option<nat> := None;
    var rest := file.value;
    while rest != []
      invariant Agree(devs, venTxt[..], devTxt[..], ks) && vendor == Section(ks, |ks|)
      invariant ks + Kinds(rest) == Kinds(file.value)
      decreases |rest|
    {
      var n := FgetsLen(rest);
      var line := Text(rest[..n]);
      ghost var k := Classify(line);
      KindsStep(rest);
      rest := rest[n..];
      if line != [] && line[0] == 'C' && |line| > 1 && line[1] == ' ' {
        assert ks + [] == ks;
        break;
      }
      vendor := ApplyLine(devs, venTxt, devTxt, line, vendor, ks);
      assert ks + ([k] + Kinds(rest)) == (ks + [k]) + Kinds(rest);
      ks := ks + [k];
    }
    NoMoreKinds();
    assert rest == [] ==> ks + [] == ks;
    AgreeMeans(devs, venTxt[..], devTxt[..], ks);
    ok := true;
  }
}
