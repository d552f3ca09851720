/** From the text of a pci.ids file to the names of a device: how it is split into
    lines, what each line means and what is kept of a name. */
module PciNames {
  import opened Listing
  import opened Hex
  import opened PciIds

  // ----------------------------------------------------------------- lines

  /** One fgets() takes the characters through the first newline, but no more than
      511, and all that is left when there is neither. */
  lemma {:induction false} FgetsLaw(s: string, i: nat)
    requires i < |s| && i < 511
    ensures var n := FgetsFrom(s, i);
      && i < n <= 511 && (n == 511 || n == |s| || s[n - 1] == '\n')
      && forall k :: i <= k < n - 1 ==> s[k] != '\n'
    decreases |s| - i
  {
    if !(s[i] == '\n' || i + 1 == |s| || i + 1 == 511) { FgetsLaw(s, i + 1); }
  }

  /** The text of a chunk ends at its first newline or NUL. */
  lemma {:induction false} TextLaw(chunk: string)
    ensures var t := Text(chunk);
      && t <= chunk && (t == chunk || chunk[|t|] == '\n' || chunk[|t|] == '\0')
      && forall k :: 0 <= k < |t| ==> t[k] != '\n' && t[k] != '\0'
  {
    if chunk != "" && chunk[0] != '\n' && chunk[0] != '\0' {
      TextLaw(chunk[1..]);
      var t := Text(chunk[1..]);
      assert chunk[..|t| + 1] == [chunk[0]] + chunk[1..][..|t|];
    }
  }

  /** A line that the 512-byte buffer holds whole. */
  predicate Line(line: string) {
    |line| <= 510 && forall k :: 0 <= k < |line| ==> line[k] != '\n' && line[k] != '\0'
  }

  lemma FirstLine(line: string, rest: string)
    requires Line(line)
    ensures var s := line + "\n" + rest;
      && FgetsLen(s) == |line| + 1 && Text(s[..|line| + 1]) == line && s[|line| + 1..] == rest
  {
    hide FgetsFrom, Text;
    var s := line + "\n" + rest;
    FgetsLaw(s, 0);
    assert s[|line|] == '\n';
    forall k | 0 <= k < |line| ensures s[k] != '\n' { assert s[k] == line[k]; }
    var chunk := s[..|line| + 1];
    TextLaw(chunk);
    assert chunk[|line|] == '\n';
    forall k | 0 <= k < |line| ensures chunk[k] != '\n' && chunk[k] != '\0' { assert chunk[k] == line[k]; }
    assert chunk[..|line|] == line;
  }

  /** The kinds of a file are the kind of its first line and those of the rest,
      unless that line starts the class section, which ends the scan. */
  lemma KindsOfLine(line: string, rest: string)
    requires Line(line)
    ensures Kinds(line + "\n" + rest) == if Classify(line).Classes? then [] else [Classify(line)] + Kinds(rest)
  {
    hide FgetsLen, Text, Classify;
    FirstLine(line, rest);
  }

  /** Likewise for a last line without a newline. */
  lemma KindsOfLastLine(line: string)
    requires Line(line) && line != ""
    ensures Kinds(line) == if Classify(line).Classes? then [] else [Classify(line)]
  {
    hide FgetsFrom, Text, Classify;
    assert line[|line| - 1] != '\n';
    FgetsLaw(line, 0);
    TextLaw(line);
    assert FgetsLen(line) == |line| && Text(line) == line;
    assert line[..|line|] == line && line[|line|..] == "" && Kinds("") == [];
  }

  function Join(lines: seq<string>): string {
    if lines == [] then "" else lines[0] + "\n" + Join(lines[1..])
  }

  function Meanings(lines: seq<string>): (ks: seq<Kind>)
    ensures |ks| == |lines| && forall i :: 0 <= i < |lines| ==> ks[i] == Classify(lines[i])
  {
    if lines == [] then [] else [Classify(lines[0])] + Meanings(lines[1..])
  }

  /** A file means what its lines mean, in order, up to the class section. */
  lemma {:induction false} KindsOfLines(lines: seq<string>, rest: string)
    requires forall i :: 0 <= i < |lines| ==> Line(lines[i]) && !Classify(lines[i]).Classes?
    ensures Kinds(Join(lines) + rest) == Meanings(lines) + Kinds(rest)
  {
    hide Classify, Kinds;
    if lines == [] {
      assert Join(lines) + rest == rest && Meanings(lines) + Kinds(rest) == Kinds(rest);
    } else {
      var tail := Join(lines[1..]) + rest;
      assert Join(lines) + rest == lines[0] + "\n" + tail;
      KindsOfLine(lines[0], tail);
      KindsOfLines(lines[1..], rest);
    }
  }

  // ------------------------------------------------------- what lines mean

  predicate AllBlank(s: string) { forall i :: 0 <= i < |s| ==> IsSpace(s[i]) }

  /** Four hex digits, blanks and a name. */
  predicate Entry(d: string, blanks: string, name: string) {
    && |d| == 4 && AllHex(d) && blanks != "" && AllBlank(blanks)
    && (name == "" || !IsSpace(name[0]))
  }

  /** At the start of a line that is a vendor, behind one tab a device of it. */
  lemma EntryLines(d: string, blanks: string, name: string)
    requires Entry(d, blanks, name)
    ensures Classify(d + blanks + name) == VendorLine(Some(IdName(HexValue(d), name)))
    ensures Classify("\t" + (d + blanks + name)) == DeviceLine(Some(IdName(HexValue(d), name)))
  {
    IdLineOfParts(d, blanks, name);
    var line, tabbed := d + blanks + name, "\t" + (d + blanks + name);
    assert line[0] == d[0] && line[1] == d[1];
    assert tabbed[0] == '\t' && tabbed[1] == d[0] && tabbed[1..] == line;
    hide IdLine, HexValue;
  }

  /** Empty lines, comments and lines behind two tabs mean nothing; "C " starts the
      class section. */
  lemma OtherLines(s: string)
    ensures Classify("") == Ignored && Classify("#" + s) == Ignored && Classify("\t\t" + s) == Ignored
    ensures Classify("C " + s) == Classes
  {
    hide IdLine;
    assert ("#" + s)[0] == '#' && ("C " + s)[0] == 'C' && ("C " + s)[1] == ' ';
    assert ("\t\t" + s)[0] == '\t' && ("\t\t" + s)[1] == '\t';
  }

  /** A name is kept whole below 75 characters, else its first 74. */
  lemma CutLaw(name: string)
    ensures |name| < 75 ==> Cut(name) == name
    ensures |name| >= 75 ==> Cut(name) == name[..74]
  {
  }

  lemma Defaults(vendor: nat, device: nat)
    ensures VendorName([], 0, vendor) == "Unknown vendor"
    ensures DeviceName([], 0, vendor, device) == "Unknown device"
  {
  }

  // -------------------------------------------------- naming one device

  lemma {:induction false} SectionKept(ks: seq<Kind>, n: nat, k: nat)
    requires n <= k <= |ks| && forall j :: n <= j < k ==> !ks[j].VendorLine?
    ensures Section(ks, k) == Section(ks, n)
  {
    if n < k { SectionKept(ks, n, k - 1); }
  }

  lemma {:induction false} NameKept(ks: seq<Kind>, n: nat, k: nat, vendor: nat, device: nat)
    requires n <= k <= |ks|
    requires forall j :: n <= j < k ==> !NamesDevice(ks, j, vendor, device)
    ensures DeviceName(ks, k, vendor, device) == DeviceName(ks, n, vendor, device)
  {
    hide NamesDevice, Cut;
    if n < k { NameKept(ks, n, k - 1, vendor, device); }
  }

  lemma {:induction false} VendorKept(ks: seq<Kind>, n: nat, k: nat, vendor: nat)
    requires n <= k <= |ks| && forall j :: n <= j < k ==> !NamesVendor(ks[j], vendor)
    ensures VendorName(ks, k, vendor) == VendorName(ks, n, vendor)
  {
    hide NamesVendor, Cut;
    if n < k { VendorKept(ks, n, k - 1, vendor); }
  }

  /** Line `v` of the file is the line of vendor `vid`, line `d` that of its device
      `did`, no vendor line lies between them, and neither is given again. Then
      every such device ends up with those names, cut to the field. */
  lemma FileNames(file: string, lines: seq<string>, rest: string, v: nat, d: nat, vid: IdName, did: IdName)
    requires forall i :: 0 <= i < |lines| ==> Line(lines[i]) && !Classify(lines[i]).Classes?
    requires file == Join(lines) + rest && (rest == "" || exists s :: rest == "C " + s)
    requires v < d < |lines|
    requires Classify(lines[v]) == VendorLine(Some(vid)) && Classify(lines[d]) == DeviceLine(Some(did))
    requires forall j :: v < j < d ==> !Classify(lines[j]).VendorLine?
    requires forall j :: v < j < |lines| ==> !NamesVendor(Classify(lines[j]), vid.id)
    requires forall j :: d < j < |lines| ==>
      !(Classify(lines[j]).DeviceLine? && Classify(lines[j]).d.Some? && Classify(lines[j]).d.value.id == did.id)
    ensures var ks := Kinds(file);
      && VendorName(ks, |ks|, vid.id) == Cut(vid.name)
      && DeviceName(ks, |ks|, vid.id, did.id) == Cut(did.name)
  {
    hide Classify, Kinds, Cut, Line, Section, VendorName, DeviceName, NamesVendor, Join;
    KindsOfLines(lines, rest);
    NothingMore(rest);
    var ks := Meanings(lines);
    assert ks + [] == ks;
    KindsName(ks, v, d, vid, did);
  }

  lemma KindsName(ks: seq<Kind>, v: nat, d: nat, vid: IdName, did: IdName)
    requires v < d < |ks| && ks[v] == VendorLine(Some(vid)) && ks[d] == DeviceLine(Some(did))
    requires forall j :: v < j < d ==> !ks[j].VendorLine?
    requires forall j :: v < j < |ks| ==> !NamesVendor(ks[j], vid.id)
    requires forall j :: d < j < |ks| ==> !(ks[j].DeviceLine? && ks[j].d.Some? && ks[j].d.value.id == did.id)
    ensures VendorName(ks, |ks|, vid.id) == Cut(vid.name)
    ensures DeviceName(ks, |ks|, vid.id, did.id) == Cut(did.name)
  {
    hide Cut, Section, VendorName, DeviceName, NamesVendor;
    NamedAt(ks, v, d, vid, did);
    forall j | d + 1 <= j < |ks| ensures !NamesDevice(ks, j, vid.id, did.id) { }
    NameKept(ks, d + 1, |ks|, vid.id, did.id);
    VendorKept(ks, v + 1, |ks|, vid.id);
  }

  lemma NamedAt(ks: seq<Kind>, v: nat, d: nat, vid: IdName, did: IdName)
    requires v < d < |ks| && ks[v] == VendorLine(Some(vid)) && ks[d] == DeviceLine(Some(did))
    requires forall j :: v < j < d ==> !ks[j].VendorLine?
    ensures VendorName(ks, v + 1, vid.id) == Cut(vid.name)
    ensures DeviceName(ks, d + 1, vid.id, did.id) == Cut(did.name)
  {
    hide Cut;
    SectionKept(ks, v + 1, d);
  }

  lemma NothingMore(rest: string)
    requires rest == "" || exists s :: rest == "C " + s
    ensures Kinds(rest) == []
  {
    hide FgetsFrom, Text, IdLine;
    if rest != "" {
      var n := FgetsLen(rest);
      FgetsLaw(rest, 0);
      TextLaw(rest[..n]);
      var t := Text(rest[..n]);
      assert rest[0] == 'C' && rest[1] == ' ';
      assert n >= 2;
      assert t[0] == 'C' && t[1] == ' ';
    }
  }

  /** The smallest instance: a vendor line and one device line. */
  lemma TwoLineFile(vd: string, vb: string, vname: string, dd: string, db: string, dname: string)
    requires Entry(vd, vb, vname) && Entry(dd, db, dname)
    requires Line(vd + vb + vname) && Line("\t" + (dd + db + dname))
    ensures var ks := Kinds((vd + vb + vname) + "\n" + ("\t" + (dd + db + dname)) + "\n");
      && VendorName(ks, |ks|, HexValue(vd)) == Cut(vname)
      && DeviceName(ks, |ks|, HexValue(vd), HexValue(dd)) == Cut(dname)
  {
    hide Kinds, Classify, Line, Cut, HexValue;
    var a, b := vd + vb + vname, "\t" + (dd + db + dname);
    EntryLines(vd, vb, vname);
    EntryLines(dd, db, dname);
    assert Join([a, b]) + "" == a + "\n" + b + "\n" by { JoinTwo(a, b); }
    FileNames(a + "\n" + b + "\n", [a, b], "", 0, 1, IdName(HexValue(vd), vname), IdName(HexValue(dd), dname));
  }

  lemma JoinTwo(a: string, b: string)
    ensures Join([a, b]) == a + "\n" + b + "\n"
  {
    assert [a, b][1..] == [b] && [b][1..] == [];
    assert Join([b]) == b + "\n" + Join([]);
    assert b + "\n" + "" == b + "\n";
    assert a + "\n" + (b + "\n") == a + "\n" + b + "\n";
  }
}
