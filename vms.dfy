/** The machine inventory (src/vms.rs): the `Vms` collection, rebuilt from a
    name listing on every enumeration, and the name filter. */
module VmInventory {
  import opened Wrappers
  import opened Text
  import opened Execute
  import opened VmRecord

  /** The captured output of every command the inventory runs:
      `virsh list --all --name`, `virsh list --state-running --name`, that
      listing piped through `grep -E <pattern>`, and each machine's probes. */
  datatype Hypervisor = Hypervisor(
    listAll: CommandResult,
    listRunning: CommandResult,
    listMatching: string -> CommandResult,
    machine: string -> VmProbes)

  const CountPrefix := "number of vms: "

  /** A filter that `find_vms` already treats as a regular expression. */
  predicate LooksLikePattern(filter: string)
  {
    (|filter| > 0 && filter[0] == '^') || '*' in filter
  }

  /** The `grep -E` pattern `find_vms` builds: the filter itself when it looks
      like a pattern, otherwise the filter wrapped in ".*" on both sides. */
  function FindPattern(filter: string): (pattern: string)
    ensures LooksLikePattern(pattern)
  {
    if LooksLikePattern(filter) then filter
    else
      assert (".*" + filter + ".*")[1] == '*';
      ".*" + filter + ".*"
  }

  /** `records` are the records of the first |records| names, each built for
      a caller the privilege check admitted. */
  ghost predicate RecordsOf(records: seq<Vm>, names: seq<string>, machine: string -> VmProbes)
  {
    && |records| <= |names|
    && forall k :: 0 <= k < |records| ==>
         PermissionValid(machine(names[k]).euid) && IsRecordOf(records[k], names[k], machine(names[k]))
  }

  lemma RecordsOfPush(records: seq<Vm>, names: seq<string>, machine: string -> VmProbes, v: Vm)
    requires RecordsOf(records, names, machine) && |records| < |names|
    requires PermissionValid(machine(names[|records|]).euid)
    requires IsRecordOf(v, names[|records|], machine(names[|records|]))
    ensures RecordsOf(records + [v], names, machine)
  {
    forall k | 0 <= k < |records| + 1
      ensures PermissionValid(machine(names[k]).euid) && IsRecordOf((records + [v])[k], names[k], machine(names[k]))
    {
      if k < |records| { assert (records + [v])[k] == records[k]; }
    }
  }

  /** Records of equally many names are the same records: a rebuilt inventory
      depends only on the listing and the machines' outputs, never on what it
      held before. */
  lemma RecordsOfUnique(a: seq<Vm>, b: seq<Vm>, names: seq<string>, machine: string -> VmProbes)
    requires RecordsOf(a, names, machine) && RecordsOf(b, names, machine) && |a| == |b|
    ensures a == b
  {
    forall k | 0 <= k < |a| ensures a[k] == b[k] {
      RecordDeterministic(a[k], b[k], names[k], machine(names[k]));
    }
  }

  /** The failing record, when there is one, is the first refused name, so
      the number of records kept is determined too. */
  lemma RecordsOfStopsAtFirstRefusal(a: seq<Vm>, b: seq<Vm>, names: seq<string>, machine: string -> VmProbes)
    requires RecordsOf(a, names, machine) && |a| < |names| && !PermissionValid(machine(names[|a|]).euid)
    requires RecordsOf(b, names, machine) && |b| < |names| && !PermissionValid(machine(names[|b|]).euid)
    ensures a == b
  {
    RecordsOfUnique(a, b, names, machine);
  }

  class Vms {
    var vm: seq<Vm>
    var number: int

    /** The count always equals the number of records. */
    ghost predicate Valid()
      reads this
    {
      number == |vm|
    }

    /** `Vms::new`: an empty inventory. */
    constructor ()
      ensures Valid() && vm == [] && number == 0
    {
      vm := [];
      number := 0;
    }

    /** `describe`: the count, rendered in decimal after "number of vms: ". */
    function Describe(): (r: string)
      reads this
      requires Valid()
      ensures r == CountPrefix + NatToDecimal(number)
      ensures |r| > |CountPrefix| && r[..|CountPrefix|] == CountPrefix
      ensures AllDigits(r[|CountPrefix|..]) && DecimalValue(r[|CountPrefix|..]) == number
      ensures |r| == |CountPrefix| + 1 || r[|CountPrefix|] != '0'
    {
      var r := CountPrefix + IntToDecimal(number);
      assert r[|CountPrefix|..] == NatToDecimal(number);
      r
    }

    /** `clear`: forget every record. */
    method Clear()
      modifies this
      ensures Valid() && vm == [] && number == 0
    {
      vm := [];
      number := 0;
    }

    /** The body shared by `get_vm` and `get_running_vm`: clear, parse the name
        listing, then build one record per name, in listing order, so that the
        count ends equal to the number of records. `Vm::new` aborts the whole
        process for an unprivileged caller; here the loop stops with `Failure`
        and the inventory keeps the records built before that name. */
    method Rebuild(listing: CommandResult, machine: string -> VmProbes) returns (r: Result<seq<string>, VmError>)
      modifies this
      ensures Valid()
      ensures var names := NonBlankLines(listing.stdout);
        && RecordsOf(vm, names, machine)
        && (r.Success? ==> r.value == names && |vm| == |names|)
        && (r.Failure? ==> |vm| < |names| && !PermissionValid(machine(names[|vm|]).euid)
                           && r.error == InsufficientPermissions)
    {
      Clear();
      var names := NonBlankLines(listing.stdout);
      var records: seq<Vm> := [];
      for i := 0 to |names|
        invariant |records| == i
        invariant RecordsOf(records, names, machine)
      {
        var record := New(names[i], machine(names[i]));
        if record.Failure? {
          vm, number := records, |records|;
          return Failure(record.error);
        }
        RecordsOfPush(records, names, machine, record.value);
        records := records + [record.value];
      }
      vm, number := records, |records|;
      return Success(names);
    }

    /** `get_vm`: rebuild the inventory from every defined machine. */
    method GetVm(h: Hypervisor) returns (r: Result<seq<string>, VmError>)
      modifies this
      ensures Valid()
      ensures var names := NonBlankLines(h.listAll.stdout);
        && RecordsOf(vm, names, h.machine)
        && (r.Success? ==> r.value == names && |vm| == |names|)
        && (r.Failure? ==> |vm| < |names| && !PermissionValid(h.machine(names[|vm|]).euid))
    {
      r := Rebuild(h.listAll, h.machine);
    }

    /** `get_running_vm`: rebuild the inventory from the running machines. */
    method GetRunningVm(h: Hypervisor) returns (r: Result<seq<string>, VmError>)
      modifies this
      ensures Valid()
      ensures var names := NonBlankLines(h.listRunning.stdout);
        && RecordsOf(vm, names, h.machine)
        && (r.Success? ==> r.value == names && |vm| == |names|)
        && (r.Failure? ==> |vm| < |names| && !PermissionValid(h.machine(names[|vm|]).euid))
    {
      r := Rebuild(h.listRunning, h.machine);
    }

    /** `find_vms`: the names the filtered listing prints, trimmed and without
        blank lines. It reads nothing of the inventory and changes nothing. */
    method FindVms(h: Hypervisor, filter: string) returns (names: seq<string>)
      ensures names == NonBlankLines(h.listMatching(FindPattern(filter)).stdout)
      ensures forall k :: 0 <= k < |names| ==> names[k] != [] && IsTrimmed(names[k])
    {
      var pattern := FindPattern(filter);
      var result := h.listMatching(pattern);
      names := NonBlankLines(result.stdout);
    }
  }

  // ---------------------------------------------------------------------
  // Lemmas

  /** A filter that looks like a pattern is passed to grep unchanged. */
  lemma FindPatternKeepsPattern(filter: string)
    requires LooksLikePattern(filter)
    ensures FindPattern(filter) == filter
  {
  }

  /** A plain filter becomes ".*filter.*", from which the filter can be read back. */
  lemma FindPatternWrapsPlainFilter(filter: string)
    requires !LooksLikePattern(filter)
    ensures FindPattern(filter) == ".*" + filter + ".*"
    ensures FindPattern(filter)[2..|FindPattern(filter)| - 2] == filter
  {
    var p := ".*" + filter + ".*";
    assert p[2..|p| - 2] == filter;
  }

  /** Building the pattern twice changes nothing. */
  lemma FindPatternIdempotent(filter: string)
    ensures FindPattern(FindPattern(filter)) == FindPattern(filter)
  {
  }

  /** Different plain filters give different patterns. */
  lemma FindPatternInjectiveOnPlainFilters(a: string, b: string)
    requires !LooksLikePattern(a) && !LooksLikePattern(b)
    requires FindPattern(a) == FindPattern(b)
    ensures a == b
  {
    FindPatternWrapsPlainFilter(a);
    FindPatternWrapsPlainFilter(b);
  }

  /** A listing that prints the names one per line yields exactly those names. */
  lemma NameListOfListing(listing: CommandResult, names: seq<string>)
    requires listing.stdout == Unlines(names)
    requires forall k :: 0 <= k < |names| ==> names[k] != [] && IsTrimmed(names[k]) && '\n' !in names[k]
    ensures NonBlankLines(listing.stdout) == names
  {
    NonBlankLinesOfUnlines(names);
  }
}
