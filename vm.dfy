/** One machine's inventory record (src/vm.rs): the column parser for
    `virsh domiflist` tables, the normalisers that turn each command's
    captured output into a field, and the field-by-field construction of
    the record. Every command's output is an input (`VmProbes`). */
module VmRecord {
  import opened Wrappers
  import opened Text
  import opened Execute

  const Unknown := "unknown"
  const ExampleIp := "example_ip"
  const NoIpFound := "no_ip_found"
  const NoDiskFound := "no_disk_found"
  const Up := "up"
  const Down := "down"
  const InterfaceHeader := "Interface"
  const MacHeader := "MAC"

  /** The record `Vm::new` returns. `rawOutput` is the private domiflist text. */
  datatype Vm = Vm(
    name: string,
    vnet: string,
    ip: string,
    disk: string,
    mac: string,
    configXmlFile: string,
    rawOutput: string,
    state: string)

  /** The captured output of every command `Vm::new` runs for one machine:
      `id -u`, `virsh domiflist`, the neighbour-table lookup for a MAC,
      `virsh domblklist` and `virsh domstate`. */
  datatype VmProbes = VmProbes(
    euid: CommandResult,
    domiflist: CommandResult,
    neighbours: string -> CommandResult,
    domblklist: CommandResult,
    domstate: CommandResult)

  /** Why `Vm::new` does not return a record (the source panics). */
  datatype VmError = InsufficientPermissions

  // ---------------------------------------------------------------------
  // The domiflist column parser

  /** The whitespace-separated header names on the first line of a table. */
  function HeaderRow(raw: string): (r: seq<string>)
    ensures forall k :: 0 <= k < |r| ==> r[k] != [] && NoWhitespace(r[k])
    ensures Lines(raw) == [] ==> r == []
  {
    var lines := Lines(raw);
    Tokens(if |lines| > 0 then lines[0] else [])
  }

  lemma UnknownIsToken()
    ensures Unknown != [] && NoWhitespace(Unknown)
  {
  }

  /** The column-`index` cell of the first row that has one. */
  function FirstCell(rows: seq<string>, index: nat): (r: string)
    ensures r != [] && NoWhitespace(r)
  {
    if rows == [] then Unknown
    else
      var columns := Tokens(rows[0]);
      if index < |columns| then columns[index] else FirstCell(rows[1..], index)
  }

  /** One step of the row scan: a row long enough gives its cell, a shorter one is skipped. */
  lemma FirstCellFrom(rows: seq<string>, k: nat, index: nat)
    requires k < |rows|
    ensures FirstCell(rows[k..], index) ==
      if index < |Tokens(rows[k])| then Tokens(rows[k])[index] else FirstCell(rows[k + 1..], index)
  {
    assert rows[k..][0] == rows[k];
    assert rows[k..][1..] == rows[k + 1..];
  }

  /** What `parse_result(header)` returns: the header's column in the first data
      row (the line after the separator) long enough to have it, else "unknown". */
  function ColumnOf(raw: string, header: string): (r: string)
    ensures r != [] && NoWhitespace(r)
  {
    var index := Find(HeaderRow(raw), header);
    if index.None? then UnknownIsToken(); Unknown
    else FirstCell(Skip(Lines(raw), 2), index.value)
  }

  /** `parse_result`: locate the header, then scan the rows after the separator. */
  method ParseResult(raw: string, header: string) returns (r: string)
    ensures r == ColumnOf(raw, header)
  {
    var lines := Lines(raw);
    var headers := Tokens(if |lines| > 0 then lines[0] else []);
    var index := Find(headers, header);
    if index.Some? {
      var rows := Skip(lines, 2);
      for k := 0 to |rows|
        invariant FirstCell(rows[k..], index.value) == FirstCell(rows, index.value)
      {
        FirstCellFrom(rows, k, index.value);
        var columns := Tokens(rows[k]);
        if index.value < |columns| {
          return columns[index.value];
        }
      }
    }
    return Unknown;
  }

  /** `get_vnet`: the "Interface" column. */
  method GetVnet(raw: string) returns (r: string)
    ensures r == ColumnOf(raw, InterfaceHeader)
    ensures r != [] && NoWhitespace(r)
  {
    r := ParseResult(raw, InterfaceHeader);
  }

  /** `get_mac`: the "MAC" column. */
  method GetMac(raw: string) returns (r: string)
    ensures r == ColumnOf(raw, MacHeader)
    ensures r != [] && NoWhitespace(r)
  {
    r := ParseResult(raw, MacHeader);
  }

  // ---------------------------------------------------------------------
  // Field normalisers

  /** `get_ip`: the neighbour-table addresses for `mac`, one per non-blank
      trimmed line, joined with ", "; a sentinel when there is no MAC, the
      lookup failed, or it found nothing. The lookup runs only for a MAC. */
  function GetIp(mac: string, neighbours: string -> CommandResult): (r: string)
    ensures r != []
  {
    if mac == [] then Unknown
    else
      var result := neighbours(mac);
      if result.status != 0 then ExampleIp
      else
        var ips := NonBlankLines(result.stdout);
        if ips == [] then NoIpFound else Join(ips, ", ")
  }

  /** The second whitespace token of a row, or "" when it has fewer. */
  function SecondToken(row: string): (r: string)
    ensures NoWhitespace(r)
  {
    var columns := Tokens(row);
    if |columns| > 1 then columns[1] else []
  }

  /** One entry per row after the two header lines of a domblklist table. */
  function DiskCells(rows: seq<string>): (r: seq<string>)
    ensures |r| == |rows|
    ensures forall k :: 0 <= k < |r| ==> NoWhitespace(r[k])
    ensures forall k :: 0 <= k < |r| ==> (r[k] == [] <==> |Tokens(rows[k])| <= 1)
  {
    seq(|rows|, k requires 0 <= k < |rows| => SecondToken(rows[k]))
  }

  /** `get_disk`: the Source column of every data row, joined with ", ", or
      "no_disk_found" when that join is empty. */
  function GetDisk(listing: CommandResult): (r: string)
    ensures r != []
  {
    var disks := Join(DiskCells(Skip(Lines(listing.stdout), 2)), ", ");
    if disks == [] then NoDiskFound else disks
  }

  /** The `match` of `get_state` on the trimmed domstate output: English and
      French `virsh domstate` words. */
  function StateOfWord(word: string): (r: string)
    ensures r == Up || r == Down || r == Unknown
  {
    match word
    case "running" => Up
    case "shut off" => Down
    case "en cours d\U{2019}ex\U{E9}cution" => Up
    case "arr\U{EA}t\U{E9}" => Down
    case "ferm\U{E9}" => Down
    case _ => Unknown
  }

  /** `get_state`: "unknown" when domstate wrote to stderr, otherwise the
      trimmed output mapped to "up", "down" or "unknown". */
  function GetState(result: CommandResult): (r: string)
    ensures r == Up || r == Down || r == Unknown
  {
    if result.stderr != [] then Unknown else StateOfWord(Trim(result.stdout))
  }

  /** `get_xml_file`'s path: where the domain XML of `name` is written. */
  function XmlPath(name: string): (r: string)
    ensures |r| == |name| + 16
  {
    "/tmp/" + name + "_config.xml"
  }

  /** Reads the machine name back out of a configuration path. */
  function NameOfXmlPath(path: string): Option<string>
  {
    if |path| >= 16 && path[..5] == "/tmp/" && path[|path| - 11..] == "_config.xml"
    then Some(path[5..|path| - 11])
    else None
  }

  // ---------------------------------------------------------------------
  // Construction

  /** The record `Vm::new(name)` builds from the given command outputs. */
  ghost predicate IsRecordOf(v: Vm, name: string, probes: VmProbes)
  {
    && v.name == name
    && v.rawOutput == probes.domiflist.stdout
    && v.vnet == ColumnOf(v.rawOutput, InterfaceHeader)
    && v.mac == ColumnOf(v.rawOutput, MacHeader)
    && v.ip == GetIp(v.mac, probes.neighbours)
    && v.disk == GetDisk(probes.domblklist)
    && v.configXmlFile == XmlPath(name)
    && v.state == GetState(probes.domstate)
  }

  /** `Vm::new`: abort unless the caller is root, then fill the fields in the
      source's order; the IP lookup uses the MAC just parsed. */
  method New(name: string, probes: VmProbes) returns (r: Result<Vm, VmError>)
    ensures r.Failure? <==> !PermissionValid(probes.euid)
    ensures r.Failure? ==> r.error == InsufficientPermissions
    ensures r.Success? ==> IsRecordOf(r.value, name, probes)
  {
    var vm := Vm(name, [], [], [], [], [], [], []);
    if !PermissionValid(probes.euid) {
      return Failure(InsufficientPermissions);
    }
    vm := vm.(rawOutput := probes.domiflist.stdout);
    var vnet := GetVnet(vm.rawOutput);
    vm := vm.(vnet := vnet);
    var mac := GetMac(vm.rawOutput);
    vm := vm.(mac := mac);
    vm := vm.(ip := GetIp(vm.mac, probes.neighbours));
    vm := vm.(disk := GetDisk(probes.domblklist));
    vm := vm.(configXmlFile := XmlPath(vm.name));
    vm := vm.(state := GetState(probes.domstate));
    return Success(vm);
  }

  // ---------------------------------------------------------------------
  // Lemmas: the column parser

  /** A header that is not a token of the first line gives "unknown"; so does empty output. */
  lemma ColumnOfMissingHeader(raw: string, header: string)
    requires header !in HeaderRow(raw)
    ensures ColumnOf(raw, header) == Unknown
  {
  }

  lemma ColumnOfEmptyOutput(header: string)
    ensures ColumnOf([], header) == Unknown
  {
  }

  lemma {:induction false} FirstCellAt(rows: seq<string>, index: nat, m: nat)
    requires m < |rows| && index < |Tokens(rows[m])|
    requires forall j :: 0 <= j < m ==> |Tokens(rows[j])| <= index
    ensures FirstCell(rows, index) == Tokens(rows[m])[index]
  {
    if m > 0 {
      FirstCellAt(rows[1..], index, m - 1);
    }
  }

  lemma {:induction false} FirstCellNone(rows: seq<string>, index: nat)
    requires forall j :: 0 <= j < |rows| ==> |Tokens(rows[j])| <= index
    ensures FirstCell(rows, index) == Unknown
  {
    if rows != [] {
      FirstCellNone(rows[1..], index);
    }
  }

  /** The row scan started at line 2 of a table finds column i of line k, the
      first line from there with more than i tokens. */
  lemma FirstCellAfterRule(lines: seq<string>, i: nat, k: nat)
    requires 2 <= k < |lines| && i < |Tokens(lines[k])|
    requires forall j :: 2 <= j < k ==> |Tokens(lines[j])| <= i
    ensures FirstCell(Skip(lines, 2), i) == Tokens(lines[k])[i]
  {
    var rows := lines[2..];
    forall j | 0 <= j < k - 2 ensures |Tokens(rows[j])| <= i {
      assert rows[j] == lines[j + 2];
    }
    assert rows[k - 2] == lines[k];
    FirstCellAt(rows, i, k - 2);
  }

  /** The row scan started at line 2 ends in "unknown" when no line from there
      has more than i tokens. */
  lemma NoCellAfterRule(lines: seq<string>, i: nat)
    requires forall j :: 2 <= j < |lines| ==> |Tokens(lines[j])| <= i
    ensures FirstCell(Skip(lines, 2), i) == Unknown
  {
    var rows := Skip(lines, 2);
    forall j | 0 <= j < |rows| ensures |Tokens(rows[j])| <= i {
      assert rows[j] == lines[j + 2];
    }
    FirstCellNone(rows, i);
  }

  /** With the header at column i, the result is column i of the first line from
      line 2 on that has more than i tokens: line 1 is never read and shorter rows
      are skipped. */
  lemma ColumnOfFirstLongRow(raw: string, header: string, i: nat, k: nat)
    requires i < |HeaderRow(raw)| && HeaderRow(raw)[i] == header && header !in HeaderRow(raw)[..i]
    requires 2 <= k < |Lines(raw)| && i < |Tokens(Lines(raw)[k])|
    requires forall j :: 2 <= j < k ==> |Tokens(Lines(raw)[j])| <= i
    ensures ColumnOf(raw, header) == Tokens(Lines(raw)[k])[i]
  {
    FindFirst(HeaderRow(raw), header, i);
    FirstCellAfterRule(Lines(raw), i, k);
  }

  /** With the header at column i but no later row that long, the result is "unknown". */
  lemma ColumnOfNoLongRow(raw: string, header: string, i: nat)
    requires i < |HeaderRow(raw)| && HeaderRow(raw)[i] == header && header !in HeaderRow(raw)[..i]
    requires forall j :: 2 <= j < |Lines(raw)| ==> |Tokens(Lines(raw)[j])| <= i
    ensures ColumnOf(raw, header) == Unknown
  {
    FindFirst(HeaderRow(raw), header, i);
    NoCellAfterRule(Lines(raw), i);
  }

  // ---------------------------------------------------------------------
  // Lemmas: IP addresses

  /** The three sentinels of `get_ip`. */
  lemma GetIpSentinels(mac: string, neighbours: string -> CommandResult)
    ensures mac == [] ==> GetIp(mac, neighbours) == Unknown
    ensures mac != [] && neighbours(mac).status != 0 ==> GetIp(mac, neighbours) == ExampleIp
    ensures mac != [] && neighbours(mac).status == 0 && AllBlankLines(neighbours(mac).stdout)
            ==> GetIp(mac, neighbours) == NoIpFound
  {
    if mac != [] && neighbours(mac).status == 0 && AllBlankLines(neighbours(mac).stdout) {
      NonBlankLinesOfBlank(neighbours(mac).stdout);
    }
  }

  /** The address list splits back into the trimmed, non-blank lines of the lookup, in order. */
  lemma GetIpEntries(mac: string, neighbours: string -> CommandResult)
    requires mac != [] && neighbours(mac).status == 0
    requires NonBlankLines(neighbours(mac).stdout) != []
    requires forall k :: 0 <= k < |NonBlankLines(neighbours(mac).stdout)| ==> ',' !in NonBlankLines(neighbours(mac).stdout)[k]
    ensures SplitCommaList(GetIp(mac, neighbours)) == NonBlankLines(neighbours(mac).stdout)
  {
    SplitCommaListOfJoin(NonBlankLines(neighbours(mac).stdout));
  }

  /** A lookup that prints addresses one per line yields exactly those addresses. */
  lemma GetIpOfAddressLines(mac: string, neighbours: string -> CommandResult, addresses: seq<string>)
    requires mac != [] && neighbours(mac).status == 0 && neighbours(mac).stdout == Unlines(addresses)
    requires addresses != []
    requires forall k :: 0 <= k < |addresses| ==>
      addresses[k] != [] && IsTrimmed(addresses[k]) && '\n' !in addresses[k] && ',' !in addresses[k]
    ensures SplitCommaList(GetIp(mac, neighbours)) == addresses
  {
    NonBlankLinesOfUnlines(addresses);
    GetIpEntries(mac, neighbours);
  }

  // ---------------------------------------------------------------------
  // Lemmas: disks

  /** The join is empty, so the field is "no_disk_found", when there is no row
      after the two header lines, or exactly one row and it has fewer than two tokens. */
  lemma GetDiskNoRows(listing: CommandResult)
    requires |Lines(listing.stdout)| <= 2 ||
      (|Lines(listing.stdout)| == 3 && |Tokens(Lines(listing.stdout)[2])| <= 1)
    ensures GetDisk(listing) == NoDiskFound
  {
    var rows := Skip(Lines(listing.stdout), 2);
    if |rows| == 1 {
      assert rows[0] == Lines(listing.stdout)[2];
    }
  }

  /** When every data row has a comma-free Source column, the disk list splits
      back into those columns, in row order. */
  lemma GetDiskEntries(listing: CommandResult)
    requires |Lines(listing.stdout)| > 3 ||
      (|Lines(listing.stdout)| == 3 && SecondToken(Lines(listing.stdout)[2]) != [])
    requires forall k :: 2 <= k < |Lines(listing.stdout)| ==> ',' !in SecondToken(Lines(listing.stdout)[k])
    ensures SplitCommaList(GetDisk(listing)) == DiskCells(Lines(listing.stdout)[2..])
  {
    var lines := Lines(listing.stdout);
    var rows := lines[2..];
    var cells := DiskCells(rows);
    forall k | 0 <= k < |cells| ensures ',' !in cells[k] {
      assert rows[k] == lines[k + 2];
    }
    assert |cells| > 1 || cells[0] != [] by { assert |rows| == 1 ==> rows[0] == lines[2]; }
    JoinNonEmpty(cells, ", ");
    SplitCommaListOfJoin(cells);
  }

  /** A data row with fewer than two tokens contributes an empty entry
      (`unwrap_or("")`), which still takes its place in the list. */
  lemma GetDiskShortRow(listing: CommandResult, k: nat)
    requires 2 <= k < |Lines(listing.stdout)|
    requires |Tokens(Lines(listing.stdout)[k])| <= 1
    ensures DiskCells(Skip(Lines(listing.stdout), 2))[k - 2] == []
  {
    var lines := Lines(listing.stdout);
    assert Skip(lines, 2)[k - 2] == lines[k];
  }

  lemma DiskRowSource(target: string, source: string)
    requires target != [] && NoWhitespace(target) && source != [] && NoWhitespace(source)
    ensures SecondToken(target + " " + source) == source
  {
    TokensOfSpaced(target, source);
    TokensOfWordFirst(source, []);
    assert source + [] == source;
  }

  lemma DiskRowIsLine(target: string, source: string)
    requires NoWhitespace(target) && source != [] && NoWhitespace(source)
    ensures '\n' !in target + " " + source && StripCr(target + " " + source) == target + " " + source
  {
    var row := target + " " + source;
    forall i | 0 <= i < |row| ensures row[i] != '\n' {
      if i < |target| {
        assert row[i] == target[i];
      } else if i > |target| {
        assert row[i] == source[i - |target| - 1];
      }
    }
    assert row[|row| - 1] == source[|source| - 1];
  }

  lemma TableBody(table: seq<string>)
    requires |table| >= 2
    requires forall k :: 0 <= k < |table| ==> '\n' !in table[k] && StripCr(table[k]) == table[k]
    ensures Skip(Lines(Unlines(table)), 2) == table[2..]
  {
    LinesOfUnlines(table);
  }

  lemma DiskCellsOfRows(rows: seq<string>, targets: seq<string>, sources: seq<string>)
    requires |rows| == |targets| == |sources|
    requires forall k :: 0 <= k < |rows| ==> rows[k] == targets[k] + " " + sources[k]
    requires forall k :: 0 <= k < |targets| ==> targets[k] != [] && NoWhitespace(targets[k])
    requires forall k :: 0 <= k < |sources| ==> sources[k] != [] && NoWhitespace(sources[k])
    ensures DiskCells(rows) == sources
    ensures forall k :: 0 <= k < |rows| ==> '\n' !in rows[k] && StripCr(rows[k]) == rows[k]
  {
    forall k | 0 <= k < |rows|
      ensures DiskCells(rows)[k] == sources[k]
      ensures '\n' !in rows[k] && StripCr(rows[k]) == rows[k]
    {
      DiskRowSource(targets[k], sources[k]);
      DiskRowIsLine(targets[k], sources[k]);
    }
  }

  lemma JoinNonEmpty(parts: seq<string>, sep: string)
    requires sep != [] && parts != [] && (|parts| > 1 || parts[0] != [])
    ensures Join(parts, sep) != []
  {
    if |parts| > 1 {
      assert |Join(parts, sep)| >= |sep|;
    }
  }

  /** A domblklist table (a header line, a rule line, then one "target source"
      row per disk) yields its Source column joined with ", ", in row order,
      and that list splits back into the sources. */
  lemma GetDiskOfTable(listing: CommandResult, table: seq<string>, targets: seq<string>, sources: seq<string>)
    requires listing.stdout == Unlines(table)
    requires |table| == |sources| + 2 && |targets| == |sources| > 0
    requires '\n' !in table[0] && '\r' !in table[0] && '\n' !in table[1] && '\r' !in table[1]
    requires forall k :: 0 <= k < |sources| ==> table[k + 2] == targets[k] + " " + sources[k]
    requires forall k :: 0 <= k < |targets| ==> targets[k] != [] && NoWhitespace(targets[k])
    requires forall k :: 0 <= k < |sources| ==> sources[k] != [] && NoWhitespace(sources[k]) && ',' !in sources[k]
    ensures GetDisk(listing) == Join(sources, ", ") && SplitCommaList(GetDisk(listing)) == sources
  {
    var rows := table[2..];
    forall k | 0 <= k < |rows| ensures rows[k] == targets[k] + " " + sources[k] {
      assert rows[k] == table[k + 2];
    }
    DiskCellsOfRows(rows, targets, sources);
    HeaderLine(table[0]);
    HeaderLine(table[1]);
    forall k | 0 <= k < |table| ensures '\n' !in table[k] && StripCr(table[k]) == table[k] {
      if k >= 2 { assert table[k] == rows[k - 2]; }
    }
    TableBody(table);
    JoinNonEmpty(sources, ", ");
    SplitCommaListOfJoin(sources);
  }

  lemma HeaderLine(line: string)
    requires '\r' !in line
    ensures StripCr(line) == line
  {
    if line != [] { assert line[|line| - 1] in line; }
  }

  // ---------------------------------------------------------------------
  // Lemmas: power state

  /** The state words: exactly the two running words give "up", exactly the
      three stopped words give "down", and every other word gives "unknown". */
  lemma StateOfWordCases(word: string)
    ensures StateOfWord(word) == Up <==> word == "running" || word == "en cours d\U{2019}ex\U{E9}cution"
    ensures StateOfWord(word) == Down <==> word == "shut off" || word == "arr\U{EA}t\U{E9}" || word == "ferm\U{E9}"
    ensures StateOfWord(word) == Unknown <==> word !in {"running", "en cours d\U{2019}ex\U{E9}cution", "shut off", "arr\U{EA}t\U{E9}", "ferm\U{E9}"}
  {
  }

  /** Anything on stderr makes the state "unknown", whatever stdout says. */
  lemma GetStateErrorWins(result: CommandResult)
    requires result.stderr != []
    ensures GetState(result) == Unknown
  {
  }

  /** Whitespace around the state word (the trailing newline of domstate) does not matter. */
  lemma GetStateIgnoresPadding(p: string, word: string, q: string, status: int)
    requires AllWhitespace(p) && AllWhitespace(q)
    ensures GetState(CommandResult(p + word + q, [], status)) == GetState(CommandResult(word, [], status))
  {
    TrimPadded(p, word, q);
  }

  // ---------------------------------------------------------------------
  // Lemmas: configuration path

  /** The configuration path gives back the machine name. */
  lemma NameOfXmlPathInverse(name: string)
    ensures NameOfXmlPath(XmlPath(name)) == Some(name)
  {
    var p := XmlPath(name);
    assert p[..5] == "/tmp/";
    assert p[|p| - 11..] == "_config.xml";
    assert p[5..|p| - 11] == name;
  }

  /** Distinct machines get distinct configuration paths. */
  lemma XmlPathInjective(a: string, b: string)
    requires XmlPath(a) == XmlPath(b)
    ensures a == b
  {
    NameOfXmlPathInverse(a);
    NameOfXmlPathInverse(b);
  }

  // ---------------------------------------------------------------------
  // Lemmas: the record

  /** What every record built by `Vm::new` satisfies. In particular its MAC is
      never empty, so the "unknown" early return of `get_ip` is never taken. */
  lemma RecordInvariants(v: Vm, name: string, probes: VmProbes)
    requires IsRecordOf(v, name, probes)
    ensures v.vnet != [] && NoWhitespace(v.vnet)
    ensures v.mac != [] && NoWhitespace(v.mac)
    ensures v.ip != [] && v.disk != []
    ensures probes.neighbours(v.mac).status != 0 ==> v.ip == ExampleIp
    ensures probes.neighbours(v.mac).status == 0 ==>
      v.ip == if NonBlankLines(probes.neighbours(v.mac).stdout) == [] then NoIpFound
              else Join(NonBlankLines(probes.neighbours(v.mac).stdout), ", ")
    ensures v.state == Up || v.state == Down || v.state == Unknown
    ensures NameOfXmlPath(v.configXmlFile) == Some(name)
  {
    NameOfXmlPathInverse(name);
  }

  /** The record is determined by the name and the command outputs alone. */
  lemma RecordDeterministic(v: Vm, w: Vm, name: string, probes: VmProbes)
    requires IsRecordOf(v, name, probes) && IsRecordOf(w, name, probes)
    ensures v == w
  {
  }
}
