# simplekvmlist inventory core, in Dafny

simplekvmlist lists the virtual machines of a libvirt host. For each machine it
runs `virsh` and shell commands and turns their text output into one record:
- the network interface;
- the MAC and IP addresses;
- the disks;
- the path of a configuration dump;
- a normalised power state.

Records are built only for a root caller. The inventory (`Vms`) keeps the
records and their count, and it can filter machine names with a grep pattern.

This project models that core. It covers the text processing that turns a
captured command result into field values, the construction of one record,
the inventory's state changes, and the root check. Commands are not run. Every
command's captured output is an input:
- `VmProbes` holds the outputs one machine's record needs;
- `Hypervisor` holds the outputs of the listings.

Modules, one per source file plus two helpers:
- `Wrappers` (`wrappers.dfy`): `Option` and `Result`.
- `Text` (`text.dfy`): the Rust string operations the code relies on.
  - `char::is_whitespace` is the full Unicode White_Space set.
  - `trim` and `split_whitespace` follow from it.
  - `lines` splits at `\n` and drops one `\r` before it.
  - Also `Iterator::position`, `join`, and decimal rendering of integers.
- `Execute` (`execute.dfy`, src/execute.rs):
  - the exit-status mapping;
  - the `u32` parse of `id -u`;
  - the root check.
- `VmRecord` (`vm.dfy`, src/vm.rs):
  - the domiflist column parser, as a loop with an early return;
  - the IP, disk and state normalisers;
  - the configuration path;
  - `Vm::new`, which fills the fields one by one in the source's order.
- `VmInventory` (`vms.dfy`, src/vms.rs):
  - the class `Vms` with fields `vm` and `number`;
  - its constructor, `clear`, `describe`, `get_vm`, `get_running_vm` and `find_vms`;
  - the grep pattern that `find_vms` builds.

The code has no IP fallback chain and no link-local filtering, and it does not
collect MACs by colon: `mac` is the first cell of the "MAC" column and `ip`
comes from the neighbour table alone.

## Model

| member | source | states |
|---|---|---|
| Execute.StatusOf | src/execute.rs:25 | the status is the exit code when there is one, else -1 |
| Execute.SignalledProbeHasNoEuid | src/execute.rs:25-48 | a probe ended by a signal has status -1, so it never yields a uid |
| Execute.ParseU32 | src/execute.rs:45 | a parsed value comes from a non-empty run of ASCII digits after an optional '+', is the decimal value of those digits, and is below 2^32 |
| Execute.ParseU32Range | src/execute.rs:45 | a non-empty digit run parses to its value when that value is below 2^32, and fails to parse otherwise |
| Execute.ParseU32OfDecimal | src/execute.rs:45 | every `u32` written in decimal parses back to itself |
| Execute.GetEuid | src/execute.rs:35-49 | a non-zero status gives no uid; a uid is below 2^32 and comes from non-blank output |
| Execute.PermissionValid | src/execute.rs:51-56 | permission is granted only for status 0 with non-blank output |
| Execute.GetEuidNeedsSuccess | src/execute.rs:40-48 | a non-zero status gives no uid, whatever was printed |
| Execute.GetEuidIgnoresPadding | src/execute.rs:40-45 | with status 0 the uid is the `u32` reading of the text, and whitespace around it is ignored |
| Execute.PermissionValidIffRoot | src/execute.rs:51-55 | permission is granted exactly when the uid lookup yields 0 |
| Execute.PermissionValidIffZeroLiteral | src/execute.rs:35-55 | an independent reading: permission holds exactly when the status is 0 and the trimmed output is an optional '+' followed by only '0's |
| Execute.OrdinaryUserRefused | src/execute.rs:51-55 | any non-zero uid printed by `id -u` (e.g. "1000\n") is refused |
| Execute.UnparsableProbeRefused | src/execute.rs:35-55 | output with a non-digit (other than a leading '+') is refused |
| Text.Skip | src/vm.rs:114 | `skip(n)`: the elements after the first n, in order, and none when there are at most n |
| Text.Join | src/vm.rs:117 | `join(sep)`: empty for no parts, and it starts with the first part; SplitCommaListOfJoin reads a ", " join back into its parts |
| Text.Find | src/vm.rs:183 | `position`: None exactly when the element is absent; otherwise the index of its first occurrence |
| Text.Trim | src/execute.rs:42 | the result has no whitespace at either end and is empty exactly when the input is all whitespace |
| Text.TrimEndOfTrimStart | src/execute.rs:42 | `trim` is `trim_start` followed by `trim_end` |
| Text.Tokens | src/vm.rs:188 | every token of `split_whitespace` is non-empty and holds no whitespace |
| Text.TokensOfJoin | src/vm.rs:188 | tokens joined by single spaces split back into the same tokens |
| Text.Lines | src/vm.rs:179 | no line returned by `lines` holds a newline |
| Text.NonBlankLines | src/vms.rs:24-32 | every parsed name is non-empty and trimmed |
| Text.TrimmedNonBlankEntries | src/vms.rs:24-32 | the parser yields at most one name per line, each non-empty and without surrounding whitespace |
| Text.NonBlankLinesAppend | src/vms.rs:24-32 | parsing two texts joined by a newline gives the concatenated names, so order is kept |
| Text.NonBlankLinesOfUnlines | src/vms.rs:24-32 | names printed one per line parse back to the same names |
| Text.SplitCommaListOfJoin | src/vm.rs:97 | a list joined with ", " splits back into its parts when no part holds a comma |
| Text.NatToDecimal | src/vms.rs:18 | the rendering is non-empty decimal digits that denote the number, and the first digit is '0' only for the single digit "0" |
| VmRecord.FirstCell | src/vm.rs:187-194 | the cell found is non-empty and free of whitespace |
| VmRecord.HeaderRow | src/vm.rs:179-182 | the header names are the non-empty, whitespace-free tokens of the first line, and there are none when the output has no line |
| VmRecord.ColumnOf | src/vm.rs:178-198 | `parse_result` never returns an empty or whitespace-holding string |
| VmRecord.ParseResult | src/vm.rs:178-198 | the loop over the rows after the separator, with its early return, computes `ColumnOf` |
| VmRecord.GetVnet | src/vm.rs:58-60 | the vnet is the "Interface" column, non-empty and without whitespace |
| VmRecord.GetMac | src/vm.rs:63-65 | the MAC is the "MAC" column, non-empty and without whitespace |
| VmRecord.ColumnOfMissingHeader | src/vm.rs:182-197 | a header that is not an exact token of line 0 gives "unknown" |
| VmRecord.ColumnOfEmptyOutput | src/vm.rs:179-197 | empty output gives "unknown" |
| VmRecord.FirstCellAt | src/vm.rs:187-194 | the scan returns column i of the first row with more than i tokens |
| VmRecord.FirstCellNone | src/vm.rs:187-197 | with no row long enough the scan ends in "unknown" |
| VmRecord.FirstCellAfterRule | src/vm.rs:187-193 | the scan from line 2 on returns column i of the first line with more than i tokens |
| VmRecord.NoCellAfterRule | src/vm.rs:187-197 | the scan from line 2 on ends in "unknown" when no line has more than i tokens |
| VmRecord.ColumnOfFirstLongRow | src/vm.rs:185-193 | with the header at index i, the result is token i of the first line at position 2 or later that has more than i tokens; line 1 is never read and short rows are skipped |
| VmRecord.ColumnOfNoLongRow | src/vm.rs:185-197 | with the header at index i and no later line that long, the result is "unknown" |
| VmRecord.GetIp | src/vm.rs:68-100 | the IP field is never empty |
| VmRecord.GetIpSentinels | src/vm.rs:69-99 | no MAC gives "unknown"; a failed lookup gives "example_ip"; a lookup with only blank lines gives "no_ip_found" |
| VmRecord.GetIpEntries | src/vm.rs:84-98 | otherwise the field splits back into the trimmed non-blank lines of the lookup, in order |
| VmRecord.GetIpOfAddressLines | src/vm.rs:85-98 | a lookup printing addresses one per line yields exactly those addresses |
| VmRecord.SecondToken | src/vm.rs:115 | the disk cell of a row holds no whitespace |
| VmRecord.GetDisk | src/vm.rs:103-124 | the disk field is never empty |
| VmRecord.GetDiskNoRows | src/vm.rs:112-123 | the empty join gives "no_disk_found": no data row, or exactly one data row with fewer than two tokens |
| VmRecord.DiskCells | src/vm.rs:112-116 | one entry per row, each free of whitespace, and an entry is empty exactly when its row has fewer than two tokens |
| VmRecord.GetDiskEntries | src/vm.rs:112-123 | when there are two or more data rows, or one with a second token, and no entry holds a comma, the field splits back into the per-row entries in row order, empty entries included |
| VmRecord.GetDiskShortRow | src/vm.rs:115 | a data row with fewer than two tokens contributes an empty entry |
| VmRecord.DiskRowSource | src/vm.rs:115 | the cell of a "target source" row is the source |
| VmRecord.DiskCellsOfRows | src/vm.rs:112-116 | "target source" rows give exactly the list of sources |
| VmRecord.GetDiskOfTable | src/vm.rs:112-123 | a domblklist table with rows "vda /path/a.img", "vdb /path/b.img", and so on, gives "/path/a.img, /path/b.img, ..." |
| VmRecord.StateOfWord | src/vm.rs:153-169 | the state is always "up", "down" or "unknown" |
| VmRecord.StateOfWordCases | src/vm.rs:153-169 | "up" exactly for "running" and "en cours d’exécution"; "down" exactly for "shut off", "arrêté" and "fermé"; "unknown" exactly for every other word |
| VmRecord.GetState | src/vm.rs:144-170 | the state field is always one of the three values |
| VmRecord.GetStateErrorWins | src/vm.rs:148-151 | any stderr text gives "unknown", whatever stdout says |
| VmRecord.GetStateIgnoresPadding | src/vm.rs:153 | whitespace around the state word does not change the result |
| VmRecord.XmlPath | src/vm.rs:137 | the path is the name plus 16 characters |
| VmRecord.NameOfXmlPathInverse | src/vm.rs:137 | the name can be read back out of "/tmp/<name>_config.xml" |
| VmRecord.XmlPathInjective | src/vm.rs:137 | distinct machines get distinct configuration paths |
| VmRecord.New | src/vm.rs:16-43 | a record exists exactly when the permission check passes, otherwise the error is InsufficientPermissions; the record's name is the argument and every field is the normaliser applied to that machine's outputs, with the IP looked up from the parsed MAC |
| VmRecord.RecordInvariants | src/vm.rs:33-40 | in every record vnet and MAC are non-empty and whitespace-free, so the "unknown" branch of `get_ip` is never taken; ip and disk are non-empty; the state is canonical; the path gives back the name |
| VmRecord.RecordDeterministic | src/vm.rs:16-43 | a record depends only on the name and the command outputs |
| VmInventory.FindPattern | src/vms.rs:72-76 | the grep pattern always starts with '^' or contains '*' |
| VmInventory.FindPatternKeepsPattern | src/vms.rs:72-73 | a filter starting with '^' or containing '*' is used unchanged |
| VmInventory.FindPatternWrapsPlainFilter | src/vms.rs:74-76 | any other filter becomes ".*" + filter + ".*", and the filter can be read back from it |
| VmInventory.FindPatternIdempotent | src/vms.rs:72-76 | building the pattern again from a pattern changes nothing |
| VmInventory.FindPatternInjectiveOnPlainFilters | src/vms.rs:74-76 | distinct plain filters give distinct patterns |
| VmInventory.NameListOfListing | src/vms.rs:24-32 | a listing printing names one per line yields exactly those names |
| VmInventory.RecordsOfPush | src/vms.rs:34-37 | pushing the record of the next admitted name extends the inventory's records |
| VmInventory.RecordsOfUnique | src/vms.rs:22-39 | records for equally many names are identical, so a rebuild does not depend on what the inventory held before |
| VmInventory.RecordsOfStopsAtFirstRefusal | src/vms.rs:34-37 | an interrupted rebuild stops at the first refused name, so what it keeps is determined too |
| VmInventory.Vms.constructor | src/vms.rs:10-15 | a new inventory is empty with count 0 |
| VmInventory.Vms.Describe | src/vms.rs:17-19 | the text is "number of vms: " followed by the canonical decimal rendering of the count: digits that denote it, with no leading zero |
| VmInventory.Vms.Clear | src/vms.rs:102-105 | clearing leaves no records and count 0 |
| VmInventory.Vms.Rebuild | src/vms.rs:21-40 | after clear and one record per parsed name: the count equals the number of records; record k is the record of name k; on success the returned names are the parsed listing and there is one record per name; on failure the refused name is the one after the records kept |
| VmInventory.Vms.GetVm | src/vms.rs:21-40 | `get_vm` rebuilds from `virsh list --all --name`: count, records and returned names agree, and `vm[k].name` is `names[k]` |
| VmInventory.Vms.GetRunningVm | src/vms.rs:42-61 | `get_running_vm` does the same from the running listing |
| VmInventory.Vms.FindVms | src/vms.rs:70-100 | `find_vms` returns the parsed names of the listing filtered by the built pattern, each non-empty and trimmed, and it changes nothing in the inventory |

## Left out

- Spawning `sh -c` and its failure panic (src/execute.rs:14-18) are operating-system I/O. The lossy UTF-8 decoding of the output (src/execute.rs:21-22) is left out too. A command's output is an input string.
- The shell command strings (`virsh ...`, `ip neigh show | awk ...`, `... | grep -E ...`) only feed external tools and are not modelled.
  - The neighbour lookup is a function from a MAC to a command result.
  - The filtered listing is a function from a pattern to a command result.
- The regular-expression matching of `grep -E` is an external tool. Only the pattern and the parsing of its output are modelled.
- The XML file write in `get_xml_file` and its panic (src/vm.rs:138) are filesystem I/O. Only the path is modelled. The dump's text is not kept, since the record does not keep it either.
- All logging (`eprintln!`, `println!`) is a side effect and does not affect any returned value.
- src/show_vm_cli.rs is terminal output and is not part of this model.
- src/main.rs is argument parsing and is not part of this model.
- VmRecord.New: the source panics for a caller that is not root. The model returns `Failure(InsufficientPermissions)` instead.
- VmRecord.New: the source runs `id -u` once per record. The model takes that output from each machine's probes.
- VmInventory.Vms.Rebuild: a failed `Vm::new` ends the source process. The model stops the rebuild and keeps the records built before the refused name.
- VmInventory.Vms.Rebuild: the source pushes each record into the field as it goes. The model collects the records in a local list and stores the list and its count once. The final state is the same, and nothing can observe the state in between.
- VmInventory.Vms.Rebuild: the source's `number` is an `i32` and would overflow after 2^31 - 1 records. The model's count is unbounded.
- VmRecord.XmlPath: its contract states only the path's length. The exact form is stated by NameOfXmlPathInverse and XmlPathInjective.
