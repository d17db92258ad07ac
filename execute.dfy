/** The process-execution layer (src/execute.rs): what a finished command
    reports, and the privilege decision taken from the output of `id -u`.
    Spawning the shell and decoding its bytes are outside the model: a
    command's captured output is an input. */
module Execute {
  import opened Wrappers
  import opened Text

  /** What `execute_cmd` returns: both streams as text and an exit status. */
  datatype CommandResult = CommandResult(stdout: string, stderr: string, status: int)

  /** `status.code().unwrap_or(-1)`: a process ended by a signal has no exit code. */
  function StatusOf(code: Option<int>): (status: int)
    ensures code.Some? ==> status == code.value
    ensures code.None? ==> status == -1
  {
    match code
    case Some(c) => c
    case None => -1
  }

  /** The result `execute_cmd` builds from a finished child process. */
  function Captured(stdout: string, stderr: string, code: Option<int>): CommandResult
  {
    CommandResult(stdout, stderr, StatusOf(code))
  }

  /** One more than the largest `u32`. */
  const U32Limit: nat := 0x1_0000_0000

  /** The digits after the optional leading '+' that `u32::from_str` accepts. */
  function UnsignedDigits(s: string): string
  {
    if |s| > 0 && s[0] == '+' then s[1..] else s
  }

  /** `str::parse::<u32>().ok()`: an optional '+', then one or more ASCII digits
      whose value fits in 32 bits. */
  function ParseU32(s: string): (r: Option<nat>)
    ensures r.Some? ==> r.value < U32Limit
    ensures r.Some? ==> UnsignedDigits(s) != [] && AllDigits(UnsignedDigits(s))
    ensures r.Some? ==> r.value == DecimalValue(UnsignedDigits(s))
  {
    var digits := UnsignedDigits(s);
    if digits != [] && AllDigits(digits) && DecimalValue(digits) < U32Limit then Some(DecimalValue(digits))
    else None
  }

  /** `get_euid` on the captured result of `id -u`. */
  function GetEuid(probe: CommandResult): (r: Option<nat>)
    ensures probe.status != 0 ==> r == None
    ensures r.Some? ==> r.value < U32Limit && Trim(probe.stdout) != []
  {
    if probe.status == 0 then ParseU32(Trim(probe.stdout)) else None
  }

  /** `get_permission_valid` on the captured result of `id -u`. */
  function PermissionValid(probe: CommandResult): (r: bool)
    ensures r ==> probe.status == 0 && Trim(probe.stdout) != []
  {
    match GetEuid(probe)
    case Some(euid) => euid == 0
    case None => false
  }

  /** A literal that `u32::from_str` reads as zero: an optional '+', then only '0's. */
  predicate IsZeroLiteral(t: string)
  {
    var d := UnsignedDigits(t);
    d != [] && forall i :: 0 <= i < |d| ==> d[i] == '0'
  }

  // ---------------------------------------------------------------------
  // Lemmas

  /** `u32::from_str` accepts a digit run exactly when its value fits in 32 bits. */
  lemma ParseU32Range(s: string)
    requires UnsignedDigits(s) != [] && AllDigits(UnsignedDigits(s))
    ensures DecimalValue(UnsignedDigits(s)) < U32Limit ==> ParseU32(s) == Some(DecimalValue(UnsignedDigits(s)))
    ensures DecimalValue(UnsignedDigits(s)) >= U32Limit ==> ParseU32(s) == None
  {
  }

  /** Every `u32`, rendered in decimal, parses back to itself. */
  lemma ParseU32OfDecimal(n: nat)
    requires n < U32Limit
    ensures ParseU32(NatToDecimal(n)) == Some(n)
  {
    var s := NatToDecimal(n);
    assert IsDigit(s[0]);
  }

  /** A failed `id -u` gives no uid, whatever it printed. */
  lemma GetEuidNeedsSuccess(probe: CommandResult)
    requires probe.status != 0
    ensures GetEuid(probe) == None
  {
  }

  /** A probe killed by a signal reports -1 and so never yields a uid. */
  lemma SignalledProbeHasNoEuid(stdout: string, stderr: string)
    ensures GetEuid(Captured(stdout, stderr, None)) == None
  {
  }

  /** With status 0 the uid is the trimmed output read as a `u32`; surrounding whitespace is ignored. */
  lemma GetEuidIgnoresPadding(p: string, t: string, q: string, stderr: string)
    requires AllWhitespace(p) && AllWhitespace(q)
    ensures GetEuid(CommandResult(p + t + q, stderr, 0)) == ParseU32(Trim(t))
  {
    TrimPadded(p, t, q);
  }

  /** The privilege check passes exactly when `get_euid` yields uid 0. */
  lemma PermissionValidIffRoot(probe: CommandResult)
    ensures PermissionValid(probe) <==> GetEuid(probe) == Some(0)
  {
  }

  /** Independent reading of the privilege check: status 0 and output that is a zero literal. */
  lemma PermissionValidIffZeroLiteral(probe: CommandResult)
    ensures PermissionValid(probe) <==> probe.status == 0 && IsZeroLiteral(Trim(probe.stdout))
  {
    var d := UnsignedDigits(Trim(probe.stdout));
    if probe.status == 0 && d != [] && AllDigits(d) {
      DecimalValueZero(d);
    }
    if probe.status == 0 && IsZeroLiteral(Trim(probe.stdout)) {
      assert AllDigits(d) by {
        forall i | 0 <= i < |d| ensures IsDigit(d[i]) { assert d[i] == '0'; }
      }
      DecimalValueZero(d);
    }
  }

  /** A non-zero uid is refused, e.g. the output "1000\n" of an ordinary user. */
  lemma OrdinaryUserRefused(n: nat, stderr: string)
    requires 0 < n < U32Limit
    ensures !PermissionValid(CommandResult(NatToDecimal(n) + "\n", stderr, 0))
  {
    var s := NatToDecimal(n);
    assert IsTrimmed(s) by { assert IsDigit(s[0]) && IsDigit(s[|s| - 1]); }
    assert Trim(s + "\n") == s by {
      TrimPadded([], s, "\n");
      assert [] + s + "\n" == s + "\n";
      TrimOfTrimmed(s);
    }
    ParseU32OfDecimal(n);
  }

  /** Output that is not a number is refused. */
  lemma UnparsableProbeRefused(t: string, stderr: string, status: int)
    requires exists i :: 0 <= i < |Trim(t)| && !IsDigit(Trim(t)[i]) && (i > 0 || Trim(t)[i] != '+')
    ensures !PermissionValid(CommandResult(t, stderr, status))
  {
    var u := Trim(t);
    var i :| 0 <= i < |u| && !IsDigit(u[i]) && (i > 0 || u[i] != '+');
    var d := UnsignedDigits(u);
    if |u| > 0 && u[0] == '+' {
      assert d[i - 1] == u[i];
    } else {
      assert d[i] == u[i];
    }
    assert !AllDigits(d);
    assert ParseU32(u) == None;
  }
}
