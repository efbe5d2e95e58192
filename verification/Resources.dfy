/** Reading disks and network interfaces of a node from command output. */
module Resources {
  import opened Lists
  import opened Text

  /** What is collected from the lines of a text, one after the other. */
  lemma ByLine<T>(f: string -> seq<T>, line: string, rest: string)
    requires '\n' !in line
    ensures Concat(Map(f, Split(line, '\n'))) == f(line)
    ensures Concat(Map(f, Split(line + "\n" + rest, '\n'))) == f(line) + Concat(Map(f, Split(rest, '\n')))
  {
    SplitWhole(line, '\n');
    SplitFirst(line, rest, '\n');
    assert Map(f, [line]) == [f(line)] && [f(line)][..0] == [];
    assert Map(f, [line] + Split(rest, '\n')) == [f(line)] + Map(f, Split(rest, '\n'));
    ConcatCons(f(line), Map(f, Split(rest, '\n')));
  }

  // ---------- Network interfaces ----------

  /** The interface a line names: its second field without one trailing colon; a shorter line names none. */
  function NicsOfLine(line: string): seq<string> {
    var fields := Fields(line);
    if |fields| > 1 then [TrimSuffix(fields[1], ":")] else []
  }

  function Nics(output: string): seq<string> {
    Concat(Map(NicsOfLine, Split(output, '\n')))
  }

  /** Line by line, for any text: the second field, if there is one, without one colon at its end. */
  lemma NicsByLine(line: string, rest: string)
    requires '\n' !in line
    ensures var fields := Fields(line);
            var nics := if |fields| < 2 then []
                        else if fields[1] != "" && fields[1][|fields[1]| - 1] == ':' then [fields[1][..|fields[1]| - 1]]
                        else [fields[1]];
            Nics(line) == nics && Nics(line + "\n" + rest) == nics + Nics(rest)
  {
    ByLine(NicsOfLine, line, rest);
  }

  method ParseNicLines(output: string) returns (interfaces: seq<string>)
    ensures interfaces == Nics(output)
  {
    var lines := Split(output, '\n');
    interfaces := [];
    ghost var each := Map(NicsOfLine, lines);
    for i := 0 to |lines|
      invariant interfaces == Concat(each[..i])
    {
      ConcatSnoc(each, i);
      var fields := Fields(lines[i]);
      if |fields| > 1 {
        var iface := TrimSuffix(fields[1], ":");
        interfaces := interfaces + [iface];
      }
    }
    assert each[..|lines|] == each;
  }

  const VIRTUAL_PREFIXES: seq<string> := ["lo", "br-", "ovs-", "ovn-", "genev_sys"]
  const MAX_NAME_LENGTH := 15

  /** Short enough, and starting with none of the prefixes of virtual interfaces. */
  predicate IsPhysical(nic: string) {
    |nic| <= MAX_NAME_LENGTH && forall prefix <- VIRTUAL_PREFIXES :: !(prefix <= nic)
  }

  predicate HasPrefix(s: string, prefix: string) {
    |prefix| <= |s| && s[..|prefix|] == prefix
  }

  method FilterPhysicalInterfaces(nics: seq<string>) returns (filtered: seq<string>)
    ensures filtered == Select(IsPhysical, nics)
  {
    filtered := [];
    for i := 0 to |nics|
      invariant filtered == Select(IsPhysical, nics[..i])
    {
      SelectSnoc(IsPhysical, nics, i);
      var nic := nics[i];
      IsPhysicalByCases(nic);
      if HasPrefix(nic, "lo") || HasPrefix(nic, "br-") || HasPrefix(nic, "ovs-") || HasPrefix(nic, "ovn-")
         || HasPrefix(nic, "genev_sys") || |nic| > 15 {
        continue;
      }
      filtered := filtered + [nic];
    }
    assert nics[..|nics|] == nics;
  }

  /** The prefixes and the length that are excluded. */
  lemma IsPhysicalByCases(nic: string)
    ensures IsPhysical(nic) <==>
              !("lo" <= nic || "br-" <= nic || "ovs-" <= nic || "ovn-" <= nic || "genev_sys" <= nic || |nic| > 15)
  {
    var p := VIRTUAL_PREFIXES;
    assert p[0] in p && p[1] in p && p[2] in p && p[3] in p && p[4] in p;
  }

  method GetNodeNics(output: string) returns (nics: seq<string>)
    ensures nics == Select(IsPhysical, Nics(output))
  {
    nics := ParseNicLines(output);
    nics := FilterPhysicalInterfaces(nics);
  }

  /**
   One line of the listing: an index and a name, each followed by a colon, then anything. A line may lack the
   colon after the name, or have no second field at all.
   */
  datatype NicLine =
    | Named(pad: string, index: string, gap: string, name: string, colon: bool, rest: seq<Cell>, tail: string)
    | Short(cells: seq<Cell>, tail: string)

  function Cells(line: NicLine): seq<Cell> {
    match line
    case Named(pad, index, gap, name, colon, rest, _) =>
      [Cell(pad, index + ":"), Cell(gap, name + if colon then ":" else "")] + rest
    case Short(cells, _) => cells
  }

  predicate IsNicLine(line: NicLine) {
    && IsLine(Cells(line), line.tail)
    && match line
       case Named(_, _, _, name, colon, _, _) => name != [] && (name[|name| - 1] == ':' ==> colon)
       case Short(cells, _) => |cells| < 2
  }

  function PrintNic(line: NicLine): string {
    Print(Cells(line), line.tail)
  }

  predicate HasNic(line: NicLine) {
    line.Named?
  }

  function Name(line: NicLine): string {
    if line.Named? then line.name else ""
  }

  lemma NicsOfPrinted(line: NicLine)
    requires IsNicLine(line)
    ensures NicsOfLine(PrintNic(line)) == if HasNic(line) then [Name(line)] else []
    ensures '\n' !in PrintNic(line)
  {
    FieldsOfLine(Cells(line), line.tail);
    if line.Named? {
      assert Tokens(Cells(line))[1] == line.name + if line.colon then ":" else "";
      assert line.name + "" == line.name;
      TrimSuffixExactly(line.name, ':');
    }
  }

  /** The lines of a listing, each ended by a line break, as `ip -o link show` prints them. */
  function PrintNics(listing: seq<NicLine>): string {
    Join(Map(PrintNic, listing) + [""], '\n')
  }

  lemma LastBreakAddsNoNic(lines: seq<string>)
    ensures Concat(Map(NicsOfLine, lines + [""])) == Concat(Map(NicsOfLine, lines))
  {
    var each := Map(NicsOfLine, lines + [""]);
    assert each == Map(NicsOfLine, lines) + [NicsOfLine("")];
    assert each[..|lines|] == Map(NicsOfLine, lines);
  }

  lemma NicsOfPrintedLines(listing: seq<NicLine>)
    requires forall line <- listing :: IsNicLine(line)
    ensures Concat(Map(NicsOfLine, Map(PrintNic, listing))) == Map(Name, Select(HasNic, listing))
    ensures forall line <- Map(PrintNic, listing) :: '\n' !in line
  {
    var printed := Map(PrintNic, listing);
    forall i | 0 <= i < |listing|
      ensures NicsOfLine(printed[i]) == if HasNic(listing[i]) then [Name(listing[i])] else []
      ensures '\n' !in printed[i]
    {
      assert listing[i] in listing;
      NicsOfPrinted(listing[i]);
    }
    ConcatSelects(Map(NicsOfLine, printed), HasNic, Name, listing);
  }

  /**
   Parsing a printed listing gives back its names in order, even names that end in a colon, and the filter
   then leaves exactly the physical ones. A missing last line break makes no difference.
   */
  lemma NicRoundTrip(listing: seq<NicLine>)
    requires forall line <- listing :: IsNicLine(line)
    ensures var names := Map(Name, Select(HasNic, listing));
            && Nics(PrintNics(listing)) == names
            && (listing != [] ==> Nics(Join(Map(PrintNic, listing), '\n')) == names)
            && Select(IsPhysical, Nics(PrintNics(listing))) == Select(IsPhysical, names)
  {
    var printed := Map(PrintNic, listing);
    NicsOfPrintedLines(listing);
    LastBreakAddsNoNic(printed);
    SplitOfJoin(printed + [""], '\n');
    if listing != [] {
      SplitOfJoin(printed, '\n');
    }
  }

  // ---------- Disks ----------

  /** The first field of a line that shows a mount point, that is, of a line with a second field. */
  function MountedOfLine(line: string): seq<string> {
    var fields := Fields(line);
    if |fields| > 1 then [fields[0]] else []
  }

  function Mounted(output: string): seq<string> {
    Concat(Map(MountedOfLine, Split(output, '\n')))
  }

  /** Line by line, for any text: the first field of a line that has a second one. */
  lemma MountedByLine(line: string, rest: string)
    requires '\n' !in line
    ensures var disks := if |Fields(line)| > 1 then [Fields(line)[0]] else [];
            Mounted(line) == disks && Mounted(line + "\n" + rest) == disks + Mounted(rest)
  {
    ByLine(MountedOfLine, line, rest);
  }

  method ParseMountedDisks(output: string) returns (mountedDisks: seq<string>)
    ensures mountedDisks == Mounted(output)
  {
    var lines := Split(output, '\n');
    mountedDisks := [];
    ghost var each := Map(MountedOfLine, lines);
    for i := 0 to |lines|
      invariant mountedDisks == Concat(each[..i])
    {
      ConcatSnoc(each, i);
      var fields := Fields(lines[i]);
      FieldsAreTokens(lines[i]);
      assert |fields| > 1 ==> fields[1] in fields;
      if |fields| > 1 && fields[1] != "" {
        mountedDisks := mountedDisks + [fields[0]];
      }
    }
    assert each[..|lines|] == each;
  }

  predicate IsNamed(line: string) {
    line != ""
  }

  /** The lines that are not blank, trimmed. */
  function NonBlank(output: string): seq<string> {
    Select(IsNamed, Map(TrimSpace, Split(output, '\n')))
  }

  /** Line by line, for any text: the trimmed line, unless nothing is left of it. */
  lemma NonBlankByLine(line: string, rest: string)
    requires '\n' !in line
    ensures var names := if TrimSpace(line) != "" then [TrimSpace(line)] else [];
            NonBlank(line) == names && NonBlank(line + "\n" + rest) == names + NonBlank(rest)
  {
    var trimmed, lines := TrimSpace(line), Split(rest, '\n');
    assert Split(line, '\n') == [line] && Map(TrimSpace, [line]) == [trimmed] by { SplitWhole(line, '\n'); }
    assert Select(IsNamed, [trimmed]) == if trimmed != "" then [trimmed] else [] by {
      assert [trimmed] + [] == [trimmed];
      SelectCons(IsNamed, trimmed, []);
    }
    assert Split(line + "\n" + rest, '\n') == [line] + lines by { SplitFirst(line, rest, '\n'); }
    assert Map(TrimSpace, [line] + lines) == [trimmed] + Map(TrimSpace, lines);
    SelectCons(IsNamed, trimmed, Map(TrimSpace, lines));
  }

  method ParseLines(output: string) returns (result: seq<string>)
    ensures result == NonBlank(output)
  {
    var lines := Split(output, '\n');
    result := [];
    ghost var trimmedLines := Map(TrimSpace, lines);
    for i := 0 to |lines|
      invariant result == Select(IsNamed, trimmedLines[..i])
    {
      SelectSnoc(IsNamed, trimmedLines, i);
      var trimmed := TrimSpace(lines[i]);
      if trimmed != "" {
        result := result + [trimmed];
      }
    }
    assert trimmedLines[..|lines|] == trimmedLines;
  }

  function NotIn(mountedDisks: seq<string>): string -> bool {
    disk => disk !in mountedDisks
  }

  method FilterUnmountedDisks(allDisks: seq<string>, mountedDisks: seq<string>) returns (unmountedDisks: seq<string>)
    ensures unmountedDisks == Select(disk => disk !in mountedDisks, allDisks)
  {
    SelectSame(NotIn(mountedDisks), disk => disk !in mountedDisks, allDisks);
    var mountedSet: map<string, bool> := map[];
    for i := 0 to |mountedDisks|
      invariant forall disk :: disk in mountedSet <==> disk in mountedDisks[..i]
      invariant forall disk <- mountedSet :: mountedSet[disk]
    {
      mountedSet := mountedSet[mountedDisks[i] := true];
    }
    assert mountedDisks[..|mountedDisks|] == mountedDisks;
    unmountedDisks := [];
    for i := 0 to |allDisks|
      invariant unmountedDisks == Select(NotIn(mountedDisks), allDisks[..i])
    {
      var disk := allDisks[i];
      SelectSnoc(NotIn(mountedDisks), allDisks, i);
      if !(disk in mountedSet && mountedSet[disk]) {
        unmountedDisks := unmountedDisks + [disk];
      }
    }
    assert allDisks[..|allDisks|] == allDisks;
  }

  function Unmounted(names: string, mounts: string): seq<string> {
    Select(NotIn(Mounted(mounts)), NonBlank(names))
  }

  method GetNodeDisks(names: string, mounts: string) returns (disks: seq<string>)
    ensures disks == Unmounted(names, mounts)
    ensures disks == Select(disk => disk !in Mounted(mounts), NonBlank(names))
  {
    SelectSame(NotIn(Mounted(mounts)), disk => disk !in Mounted(mounts), NonBlank(names));
    disks := ParseLines(names);
    var mountedDisks := ParseMountedDisks(mounts);
    disks := FilterUnmountedDisks(disks, mountedDisks);
  }

  /** A line of the first listing: a name with white space around it, or nothing at all. */
  datatype NameLine = NameLine(gap: string, name: string, tail: string)

  predicate IsNameLine(line: NameLine) {
    && OnlySpace(line.gap) && OnlySpace(line.tail) && Trimmed(line.name)
    && '\n' !in line.gap && '\n' !in line.name && '\n' !in line.tail
  }

  function PrintName(line: NameLine): string {
    line.gap + line.name + line.tail
  }

  function DiskName(line: NameLine): string {
    line.name
  }

  lemma NameRoundTrip(listing: seq<NameLine>)
    requires listing != [] && forall line <- listing :: IsNameLine(line)
    ensures NonBlank(Join(Map(PrintName, listing), '\n'))
         == Select(IsNamed, Map(DiskName, listing))
  {
    var printed := Map(PrintName, listing);
    forall i | 0 <= i < |listing|
      ensures TrimSpace(printed[i]) == listing[i].name && '\n' !in printed[i]
    {
      assert listing[i] in listing;
      TrimOfPadded(listing[i].gap, listing[i].name, listing[i].tail);
    }
    SplitOfJoin(printed, '\n');
    assert Map(TrimSpace, printed) == Map(DiskName, listing);
  }

  /** A line of the second listing: any cells, with the name first and a mount point, if any, second. */
  datatype MountLine = MountLine(cells: seq<Cell>, tail: string)

  function PrintMount(line: MountLine): string {
    Print(line.cells, line.tail)
  }

  predicate HasMount(line: MountLine) {
    |line.cells| > 1
  }

  function Disk(line: MountLine): string {
    if line.cells != [] then line.cells[0].token else ""
  }

  ghost predicate ShownMounted(listing: seq<MountLine>, disk: string) {
    exists line <- listing :: |line.cells| > 1 && line.cells[0].token == disk
  }

  /** Parsed as mounted are the first cells of the lines with a second one, in order. */
  lemma MountRoundTrip(listing: seq<MountLine>, disk: string)
    requires listing != [] && forall line <- listing :: IsLine(line.cells, line.tail)
    ensures Mounted(Join(Map(PrintMount, listing), '\n')) == Map(Disk, Select(HasMount, listing))
    ensures disk in Mounted(Join(Map(PrintMount, listing), '\n')) <==> ShownMounted(listing, disk)
  {
    var printed := Map(PrintMount, listing);
    var each := Map(MountedOfLine, printed);
    forall i | 0 <= i < |listing|
      ensures '\n' !in printed[i] && each[i] == if HasMount(listing[i]) then [Disk(listing[i])] else []
    {
      assert listing[i] in listing;
      FieldsOfLine(listing[i].cells, listing[i].tail);
    }
    SplitOfJoin(printed, '\n');
    ConcatSelects(each, HasMount, Disk, listing);
    InConcat(each, disk);
    if ShownMounted(listing, disk) {
      var line :| line in listing && |line.cells| > 1 && line.cells[0].token == disk;
      var i :| 0 <= i < |listing| && listing[i] == line;
      assert disk in each[i];
    }
  }

  ghost function Free(mounts: seq<MountLine>): string -> bool {
    disk => IsNamed(disk) && !ShownMounted(mounts, disk)
  }

  /** On printed listings, whatever the spacing, the text pipeline computes the list specification. */
  lemma DiskPipelineRefines(names: seq<NameLine>, mounts: seq<MountLine>)
    requires names != [] && forall line <- names :: IsNameLine(line)
    requires mounts != [] && forall line <- mounts :: IsLine(line.cells, line.tail)
    ensures Unmounted(Join(Map(PrintName, names), '\n'), Join(Map(PrintMount, mounts), '\n'))
         == Select(Free(mounts), Map(DiskName, names))
  {
    NameRoundTrip(names);
    var mounted := Mounted(Join(Map(PrintMount, mounts), '\n'));
    forall disk <- Map(DiskName, names)
      ensures Free(mounts)(disk) <==> IsNamed(disk) && NotIn(mounted)(disk)
    {
      MountRoundTrip(mounts, disk);
    }
    SelectTwice(IsNamed, NotIn(mounted), Free(mounts), Map(DiskName, names));
  }

  /** Whatever the texts, the reported disks and the mounted ones together are the parsed disks. */
  lemma DisksConserved(names: string, mounts: string)
    ensures multiset(Unmounted(names, mounts)) + multiset(Select(disk => disk in Mounted(mounts), NonBlank(names)))
         == multiset(NonBlank(names))
  {
    SelectPartitions(NotIn(Mounted(mounts)), disk => disk in Mounted(mounts), NonBlank(names));
  }
}
