/** The start-up decisions of the launcher: which mode to run in, whether a
    reset or a refresh of the inventory is requested, which major Java version
    the runtime reports and whether the JavaFX configuration is usable. The
    environment (system properties, environment variables, class loading) is
    passed in as values. */
module Launcher {
  import opened Wrappers
  import opened Text

  // ---------------------------------------------------------------------
  // Mode selection (AppLauncher)
  // ---------------------------------------------------------------------

  /** The lower-cased first arguments that ask for the console. */
  predicate IsConsoleFlag(mode: string) {
    mode == "console" || mode == "--console" || mode == "-c"
  }

  /** The lower-cased first arguments that ask for the GUI. */
  predicate IsGuiFlag(mode: string) {
    mode == "gui" || mode == "--gui" || mode == "-g"
  }

  /** `isHeadlessEnvironment`: the `java.awt.headless` property is set, or
      the operating system's name contains "linux" in any case and `DISPLAY`
      is unset or blank. */
  predicate IsHeadless(headlessProperty: bool, osName: string, display: Option<string>) {
    headlessProperty || (Contains(ToLower(osName), "linux") && (display.None? || |Trim(display.value)| == 0))
  }

  /** Without the property, only a Linux system with no usable display is
      headless; on such a system the display alone decides. */
  lemma HeadlessNeedsLinux(osName: string, display: Option<string>)
    ensures IsHeadless(false, osName, display) ==> exists i :: MatchAt(ToLower(osName), "linux", i)
    ensures (exists i :: MatchAt(ToLower(osName), "linux", i)) ==>
      (IsHeadless(false, osName, display) <==> display.None? || |Trim(display.value)| == 0)
  {
    ContainsIffOccurs(ToLower(osName), "linux");
  }

  /** `determineAppropriateMode`: true for console mode. An explicit first
      argument decides; otherwise a headless environment or a missing JavaFX
      runtime means console mode. */
  function DetermineAppropriateMode(args: seq<string>, headless: bool, javaFxAvailable: bool): bool {
    if |args| > 0 && IsConsoleFlag(ToLower(args[0])) then true
    else if |args| > 0 && IsGuiFlag(ToLower(args[0])) then false
    else headless || !javaFxAvailable
  }

  /** An explicit flag wins over any environment; without one, console mode
      is chosen exactly when the environment cannot show the GUI. */
  lemma ModeDecision(args: seq<string>, headless: bool, javaFxAvailable: bool)
    ensures |args| > 0 && IsConsoleFlag(ToLower(args[0])) ==>
      forall h: bool, j: bool :: DetermineAppropriateMode(args, h, j)
    ensures |args| > 0 && IsGuiFlag(ToLower(args[0])) ==>
      forall h: bool, j: bool :: !DetermineAppropriateMode(args, h, j)
    ensures (|args| == 0 || (!IsConsoleFlag(ToLower(args[0])) && !IsGuiFlag(ToLower(args[0])))) ==>
      (DetermineAppropriateMode(args, headless, javaFxAvailable) <==> headless || !javaFxAvailable)
  {
  }

  /** Only the first argument is consulted: later arguments never change the
      mode, and the first one counts in any letter case. */
  lemma ModeIgnoresLaterArgs(first: string, first': string, rest: seq<string>, rest': seq<string>, headless: bool, javaFxAvailable: bool)
    requires ToLower(first) == ToLower(first')
    ensures DetermineAppropriateMode([first] + rest, headless, javaFxAvailable)
         == DetermineAppropriateMode([first'] + rest', headless, javaFxAvailable)
  {
    assert ([first] + rest)[0] == first;
    assert ([first'] + rest')[0] == first';
  }

  /** Upper-case flags are honoured, and a first argument that is no mode
      flag leaves the choice to the environment. */
  lemma ModeUpperCaseFlag()
    ensures DetermineAppropriateMode(["--CONSOLE"], false, true)
  {
    assert ToLower("--CONSOLE") == "--console";
  }

  lemma ModeOtherFirstArg()
    ensures DetermineAppropriateMode(["reset"], true, true)
  {
    assert ToLower("reset") == "reset";
  }

  /** `shouldRunInConsoleMode`: the legacy test that only looks for an
      explicit console flag. */
  function ShouldRunInConsoleMode(args: seq<string>): (r: bool)
    ensures r <==> |args| > 0 && IsConsoleFlag(ToLower(args[0]))
  {
    if |args| > 0 then IsConsoleFlag(ToLower(args[0])) else false
  }

  /** The legacy test never disagrees with the current one when it asks for
      the console, and asks for nothing without arguments. */
  lemma LegacyConsoleAgrees(args: seq<string>, headless: bool, javaFxAvailable: bool)
    ensures ShouldRunInConsoleMode(args) ==> DetermineAppropriateMode(args, headless, javaFxAvailable)
    ensures !ShouldRunInConsoleMode([])
    ensures DetermineAppropriateMode(args, headless, javaFxAvailable) && !ShouldRunInConsoleMode(args) ==>
      headless || !javaFxAvailable
  {
  }

  // ---------------------------------------------------------------------
  // Reset and refresh flags (AppLauncher)
  // ---------------------------------------------------------------------

  /** The arguments that ask for a reset, compared ignoring case. */
  const ResetFlags: seq<string> := ["--reset", "-reset", "reset"]

  /** The arguments that ask for a refresh, compared ignoring case. */
  const RefreshFlags: seq<string> := ["--refresh", "-r"]

  /** `arg` equals one of `flags`, ignoring case. */
  predicate IsFlag(arg: string, flags: seq<string>) {
    exists j :: 0 <= j < |flags| && EqualsIgnoreCase(arg, flags[j])
  }

  /** Some argument, in any position, is one of `flags`. */
  predicate Requested(args: seq<string>, flags: seq<string>) {
    exists i :: 0 <= i < |args| && IsFlag(args[i], flags)
  }

  /** A request is found in a split argument list exactly when it is found in
      one of the parts, so neither the order nor the position of the
      arguments matters. */
  lemma {:induction false} RequestedConcat(a: seq<string>, b: seq<string>, flags: seq<string>)
    ensures Requested(a + b, flags) <==> Requested(a, flags) || Requested(b, flags)
  {
    var ab := a + b;
    if Requested(ab, flags) {
      var i :| 0 <= i < |ab| && IsFlag(ab[i], flags);
      if i < |a| {
        assert ab[i] == a[i];
      } else {
        assert ab[i] == b[i - |a|];
      }
    }
    if Requested(a, flags) {
      var i :| 0 <= i < |a| && IsFlag(a[i], flags);
      assert ab[i] == a[i];
    }
    if Requested(b, flags) {
      var i :| 0 <= i < |b| && IsFlag(b[i], flags);
      assert ab[|a| + i] == b[i];
    }
  }

  /** `shouldResetInventory`: scans the arguments and stops at the first
      reset flag. */
  method ShouldResetInventory(args: seq<string>) returns (r: bool)
    ensures r == Requested(args, ResetFlags)
  {
    var i := 0;
    while i < |args|
      invariant 0 <= i <= |args|
      invariant !Requested(args[..i], ResetFlags)
    {
      var arg := args[i];
      if EqualsIgnoreCase(arg, "--reset") || EqualsIgnoreCase(arg, "-reset") || EqualsIgnoreCase(arg, "reset") {
        assert IsFlag(args[i], ResetFlags) by {
          if EqualsIgnoreCase(arg, "--reset") { assert ResetFlags[0] == "--reset"; }
          else if EqualsIgnoreCase(arg, "-reset") { assert ResetFlags[1] == "-reset"; }
          else { assert ResetFlags[2] == "reset"; }
        }
        return true;
      }
      assert !IsFlag(args[i], ResetFlags);
      assert args[..i + 1] == args[..i] + [args[i]];
      RequestedConcat(args[..i], [args[i]], ResetFlags);
      i := i + 1;
    }
    assert args[..i] == args;
    return false;
  }

  /** `shouldForceRefresh`: scans the arguments and stops at the first
      refresh flag. */
  method ShouldForceRefresh(args: seq<string>) returns (r: bool)
    ensures r == Requested(args, RefreshFlags)
  {
    var i := 0;
    while i < |args|
      invariant 0 <= i <= |args|
      invariant !Requested(args[..i], RefreshFlags)
    {
      var arg := args[i];
      if EqualsIgnoreCase(arg, "--refresh") || EqualsIgnoreCase(arg, "-r") {
        assert IsFlag(args[i], RefreshFlags) by {
          if EqualsIgnoreCase(arg, "--refresh") { assert RefreshFlags[0] == "--refresh"; }
          else { assert RefreshFlags[1] == "-r"; }
        }
        return true;
      }
      assert !IsFlag(args[i], RefreshFlags);
      assert args[..i + 1] == args[..i] + [args[i]];
      RequestedConcat(args[..i], [args[i]], RefreshFlags);
      i := i + 1;
    }
    assert args[..i] == args;
    return false;
  }

  /** A reset flag is recognised in any position and in any letter case, and
      a refresh flag is not a reset flag. */
  lemma ResetAnywhere(before: seq<string>, after: seq<string>)
    ensures Requested(before + ["--RESET"] + after, ResetFlags)
    ensures !Requested(["--refresh", "-r"], ResetFlags)
  {
    var args := before + ["--RESET"] + after;
    assert EqualsIgnoreCase("--RESET", ResetFlags[0]);
    assert args[|before|] == "--RESET";
    var refresh := ["--refresh", "-r"];
    forall i, j | 0 <= i < |refresh| && 0 <= j < |ResetFlags|
      ensures !EqualsIgnoreCase(refresh[i], ResetFlags[j])
    {
      assert |refresh[i]| != |ResetFlags[j]|;
    }
  }

  // ---------------------------------------------------------------------
  // Java version and JavaFX configuration (JavaFxUtil)
  // ---------------------------------------------------------------------

  /** How `getMajorJavaVersion` can fail. */
  datatype VersionError =
    | NumberFormat      // `Integer.parseInt` rejects the slice
    | IndexOutOfBounds  // `substring(2, 3)` of a version shorter than three characters

  /** `Integer.parseInt`, with its exception as an error. */
  function ParseVersion(s: string): (r: Result<Int32, VersionError>)
    ensures r.Ok? <==> ParseInt(s).Some?
    ensures r.Ok? ==> r.value == ParseInt(s).value
    ensures r.Err? ==> r.error == NumberFormat
  {
    match ParseInt(s)
    case Some(v) => Ok(v)
    case None => Err(NumberFormat)
  }

  /** `getMajorJavaVersion` of the `java.version` string: for "1.x" versions
      the single character after "1.", otherwise the part before the first
      '.', or the whole string when there is none. */
  function MajorJavaVersion(version: string): (r: Result<Int32, VersionError>)
    ensures StartsWith(version, "1.") && |version| < 3 ==> r == Err(IndexOutOfBounds)
    ensures r.Err? && r.error == IndexOutOfBounds ==> version == "1."
  {
    if StartsWith(version, "1.") then
      if |version| < 3 then Err(IndexOutOfBounds) else ParseVersion(version[2..3])
    else
      var dot := IndexOf(version, ".", 0);
      if dot != -1 then ParseVersion(version[..dot]) else ParseVersion(version)
  }

  /** The digits of a Java `int` parse back to it. */
  lemma ParseNatDigits(n: nat)
    requires n <= MaxInt32
    ensures ParseInt(NatDigits(n)) == Some(n)
  {
    ParseIntToString(n);
  }

  /** A version "n.rest" with n other than 1 has major version n, and a
      version without a dot is read whole. */
  lemma {:induction false} MajorVersionOfModern(n: nat, rest: string)
    requires n != 1 && n <= MaxInt32
    ensures MajorJavaVersion(NatDigits(n) + "." + rest) == Ok(n)
    ensures MajorJavaVersion(NatDigits(n)) == Ok(n)
  {
    var d := NatDigits(n);
    var v := d + "." + rest;
    assert !StartsWith(v, "1.") by {
      if |d| == 1 {
        assert d == [DigitChar(n)];
        assert v[0] == DigitChar(n) != '1';
      } else {
        assert v[1] == d[1] && IsDigit(d[1]);
      }
    }
    assert !StartsWith(d, "1.") by {
      if |d| >= 2 { assert IsDigit(d[1]); }
    }
    assert MatchAt(v, ".", |d|) by { MatchByChars(v, ".", |d|); }
    var dot := IndexOf(v, ".", 0);
    assert dot == |d|;
    assert v[..dot] == d;
    ParseNatDigits(n);
  }

  /** A "1.x" version of three or more characters is read from its third
      character alone: a digit gives its value, anything else fails. */
  lemma MajorVersionOfLegacy(version: string)
    requires StartsWith(version, "1.") && |version| >= 3
    ensures var r := MajorJavaVersion(version);
      (r.Ok? <==> IsDigit(version[2])) && (r.Ok? ==> r.value == version[2] as int - '0' as int)
  {
    var c := version[2];
    var s := version[2..3];
    assert s == [c];
    if IsDigit(c) {
      assert s[..0] == [];
      assert DigitsValue(s) == c as int - '0' as int;
    }
  }

  /** A "1.d..." version has major version d. */
  lemma MajorVersionOfLegacyDigit(digit: char, rest: string)
    requires IsDigit(digit)
    ensures MajorJavaVersion("1." + [digit] + rest) == Ok(digit as int - '0' as int)
  {
    var v := "1." + [digit] + rest;
    assert v[..2] == "1.";
    assert v[2] == digit;
    MajorVersionOfLegacy(v);
  }

  /** The versions the runtime reports in practice, and two it rejects. */
  lemma MajorVersionOfJava8()
    ensures MajorJavaVersion("1.8.0_292") == Ok(8)
  {
    MajorVersionOfLegacyDigit('8', ".0_292");
    assert "1." + ['8'] + ".0_292" == "1.8.0_292";
  }

  lemma MajorVersionOfJava11()
    ensures MajorJavaVersion("11.0.2") == Ok(11)
  {
    MajorVersionOfModern(11, "0.2");
    assert NatDigits(11) + "." + "0.2" == "11.0.2";
  }

  lemma MajorVersionOfJava21()
    ensures MajorJavaVersion("21") == Ok(21)
  {
    MajorVersionOfModern(21, "");
    assert NatDigits(21) == "21";
  }

  lemma MajorVersionOfEarlyAccess()
    ensures MajorJavaVersion("17-ea") == Err(NumberFormat)
  {
    var v := "17-ea";
    assert v[..2][1] == '7';
    MismatchAt(v, ".", 0, 0);
    MismatchAt(v, ".", 1, 0);
    MismatchAt(v, ".", 2, 0);
    MismatchAt(v, ".", 3, 0);
    MismatchAt(v, ".", 4, 0);
    assert IndexOf(v, ".", 0) == -1;
    ParseIntRejectsNonDigit(v, 2);
  }

  lemma MajorVersionTooShort()
    ensures MajorJavaVersion("1.") == Err(IndexOutOfBounds)
  {
    assert StartsWith("1.", "1.");
  }

  /** Some argument, lower-cased, contains "test". */
  predicate TestMode(args: seq<string>) {
    exists i :: 0 <= i < |args| && Contains(ToLower(args[i]), "test")
  }

  /** The decision of `verifyJavaFxConfiguration`: test mode accepts at once;
      otherwise JavaFX must be available and, from Java 11 on, its modules
      too. A version string `getMajorJavaVersion` cannot read is an error. */
  function VerifyConfiguration(args: seq<string>, javaFxAvailable: bool, version: string, moduleAvailable: bool): Result<bool, VersionError> {
    if TestMode(args) then Ok(true)
    else if !javaFxAvailable then Ok(false)
    else
      match MajorJavaVersion(version)
      case Err(e) => Err(e)
      case Ok(v) => Ok(!(v >= 11 && !moduleAvailable))
  }

  /** `verifyJavaFxConfiguration`: scans the arguments for test mode, then
      checks the runtime. */
  method VerifyJavaFxConfiguration(args: seq<string>, javaFxAvailable: bool, version: string, moduleAvailable: bool)
    returns (r: Result<bool, VersionError>)
    ensures r == VerifyConfiguration(args, javaFxAvailable, version, moduleAvailable)
  {
    var i := 0;
    while i < |args|
      invariant 0 <= i <= |args|
      invariant forall k :: 0 <= k < i ==> !Contains(ToLower(args[k]), "test")
    {
      if Contains(ToLower(args[i]), "test") {
        return Ok(true);
      }
      i := i + 1;
    }
    if !javaFxAvailable {
      return Ok(false);
    }
    var javaVersion := MajorJavaVersion(version);
    if javaVersion.Err? {
      return Err(javaVersion.error);
    }
    if javaVersion.value >= 11 && !moduleAvailable {
      return Ok(false);
    }
    return Ok(true);
  }

  /** Outside test mode the configuration is accepted exactly when JavaFX is
      there and either the version is below 11 or the modules are present,
      and it fails exactly when the version cannot be read. */
  lemma VerifyConfigurationOutcome(args: seq<string>, javaFxAvailable: bool, version: string, moduleAvailable: bool)
    requires !TestMode(args)
    ensures var r := VerifyConfiguration(args, javaFxAvailable, version, moduleAvailable);
      var m := MajorJavaVersion(version);
      (r == Ok(true) <==> javaFxAvailable && m.Ok? && (m.value < 11 || moduleAvailable))
      && (r.Err? <==> javaFxAvailable && m.Err?)
  {
  }

  /** A "1.x" runtime with JavaFX never needs the modules, and test mode
      accepts whatever the runtime. */
  lemma VerifyLegacyIgnoresModules(args: seq<string>, digit: char, rest: string, moduleAvailable: bool)
    requires IsDigit(digit)
    ensures VerifyConfiguration(args, true, "1." + [digit] + rest, moduleAvailable) == Ok(true)
    ensures VerifyConfiguration(args + ["--test"], false, rest, false) == Ok(true)
  {
    MajorVersionOfLegacyDigit(digit, rest);
    var a := args + ["--test"];
    assert a[|args|] == "--test";
    assert ToLower("--test") == "--test";
    assert MatchAt("--test", "test", 2);
    ContainsIffOccurs(ToLower(a[|args|]), "test");
  }
}
