/**
 * The command-line front end, up to the point where it opens the
 * workspace: argument expansion, the pre-command split and its options,
 * subcommand dispatch, the option loops of `workspace name`, `workspace
 * description` and `project create`, slug validation, and the
 * set-only-if-different rule applied once the workspace is open.
 */
module Cli {
  import opened Core

  /** The exit code of every usage error and of the help and version texts. */
  const UsageExitCode: int := 2

  /** The exit code of a failed `-C`. */
  const ChdirExitCode: int := 1

  /** Whether a command-line argument starts with `-`. */
  predicate Dash(arg: string)
  {
    |arg| > 0 && arg[0] == '-'
  }

  /** The elements of `s` that satisfy `keep`, in order. */
  function Filter<T>(s: seq<T>, keep: T -> bool): (r: seq<T>)
    ensures |r| <= |s|
    decreases |s|
  {
    if s == [] then []
    else Filter(s[..|s| - 1], keep) + (if keep(s[|s| - 1]) then [s[|s| - 1]] else [])
  }

  lemma {:induction false} FilterAppend<T>(a: seq<T>, b: seq<T>, keep: T -> bool)
    ensures Filter(a + b, keep) == Filter(a, keep) + Filter(b, keep)
    decreases |b|
  {
    if b != [] {
      var b' := b[..|b| - 1];
      assert (a + b)[..|a + b| - 1] == a + b';
      assert (a + b)[|a + b| - 1] == b[|b| - 1];
      FilterAppend(a, b', keep);
    } else {
      assert a + b == a;
    }
  }

  // ---------------------------------------------------------------------
  // Argument expansion

  /** The index of the first `c` in `s`, or `|s|` when there is none. */
  function IndexOf(s: string, c: char): (i: nat)
    ensures i <= |s|
    ensures i < |s| ==> s[i] == c
    ensures forall j :: 0 <= j < i ==> s[j] != c
    decreases |s|
  {
    if |s| == 0 then 0
    else if s[0] == c then 0
    else 1 + IndexOf(s[1..], c)
  }

  /** The text before and after the first `c`, if there is one. */
  function SplitOnce(s: string, c: char): (r: Option<(string, string)>)
    ensures r.None? <==> c !in s
    ensures r.Some? ==> s == r.value.0 + [c] + r.value.1 && c !in r.value.0
  {
    var i := IndexOf(s, c);
    if i == |s| then None
    else
      assert s == s[..i] + [c] + s[i + 1..];
      Some((s[..i], s[i + 1..]))
  }

  /** Conversely, any split at a first occurrence is the one found. */
  lemma SplitOnceAtFirst(a: string, b: string, c: char)
    requires c !in a
    ensures SplitOnce(a + [c] + b, c) == Some((a, b))
  {
    var s := a + [c] + b;
    var r := SplitOnce(s, c);
    assert s[|a|] == c;
    var i := IndexOf(s, c);
    assert forall j :: 0 <= j < |a| ==> s[j] == a[j];
    assert i == |a|;
    assert s[..i] == a && s[i + 1..] == b;
  }

  /**
   * One argument as the program sees it: `--key=value` becomes `--key`
   * and `value`, split at the first `=`; `-abc` becomes `-a`, `-b`, `-c`;
   * a lone `-`, `--flag` without `=` and anything not starting with `-`
   * stay as they are.
   */
  function Expansion(arg: string): seq<string>
  {
    if |arg| >= 2 && arg[0] == '-' then
      if arg[1] == '-' then
        match SplitOnce(arg, '=')
        case Some((key, value)) => [key, value]
        case None => [arg]
      else
        seq(|arg| - 1, i requires 0 <= i < |arg| - 1 => ['-', arg[i + 1]])
    else
      [arg]
  }

  /**
   * What expansion makes of each kind of argument: `--key=value` splits at
   * its first `=`, `-abc` becomes one flag per letter, and everything else
   * stays whole.
   */
  lemma ExpansionMeaning(arg: string)
    ensures var r := Expansion(arg);
            && (!Dash(arg) || arg == "-" ==> r == [arg])
            && (|arg| >= 2 && arg[..2] == "--" && '=' !in arg ==> r == [arg])
            && (|arg| >= 2 && arg[..2] == "--" && '=' in arg ==>
                  |r| == 2 && arg == r[0] + "=" + r[1] && '=' !in r[0])
            && (|arg| >= 2 && arg[0] == '-' && arg[1] != '-' ==>
                  |r| == |arg| - 1 && forall i :: 0 <= i < |r| ==> r[i] == ['-', arg[i + 1]])
  {
    if |arg| >= 2 && arg[..2] == "--" {
      assert arg[1] == '-';
    }
  }

  /** A word that does not start with `-`, or a lone `-`, is its own expansion. */
  lemma ExpansionWord(arg: string)
    requires !Dash(arg) || arg == "-"
    ensures Expansion(arg) == [arg]
  {
  }

  /** A single short flag such as `-C` or `-l` is its own expansion. */
  lemma ExpansionShortFlag(arg: string)
    requires |arg| == 2 && arg[0] == '-' && arg[1] != '-'
    ensures Expansion(arg) == [arg]
  {
    assert ['-', arg[1]] == arg;
  }

  /** All arguments expanded, in order. */
  function ExpandedAll(args: seq<string>): seq<string>
    decreases |args|
  {
    if args == [] then []
    else ExpandedAll(args[..|args| - 1]) + Expansion(args[|args| - 1])
  }

  lemma {:induction false} ExpandedAllAppend(a: seq<string>, b: seq<string>)
    ensures ExpandedAll(a + b) == ExpandedAll(a) + ExpandedAll(b)
    decreases |b|
  {
    if b != [] {
      var b' := b[..|b| - 1];
      assert (a + b)[..|a + b| - 1] == a + b';
      assert (a + b)[|a + b| - 1] == b[|b| - 1];
      ExpandedAllAppend(a, b');
    } else {
      assert a + b == a;
    }
  }

  /** Arguments none of which start with `-` pass through expansion unchanged. */
  lemma {:induction false} ExpandedAllPlain(args: seq<string>)
    requires forall i :: 0 <= i < |args| ==> !Dash(args[i])
    ensures ExpandedAll(args) == args
    decreases |args|
  {
    if args != [] {
      ExpandedAllPlain(args[..|args| - 1]);
      ExpansionWord(args[|args| - 1]);
      assert args[..|args| - 1] + [args[|args| - 1]] == args;
    }
  }

  /** The expansion of one argument, built up flag by flag. */
  method ExpandArg(arg: string) returns (expanded: seq<string>)
    ensures expanded == Expansion(arg)
  {
    expanded := [];
    if |arg| >= 1 && arg[0] == '-' {
      if |arg| >= 2 && arg[1] == '-' {
        match SplitOnce(arg, '=')
        case Some((key, value)) =>
          expanded := expanded + [key];
          expanded := expanded + [value];
        case None =>
          expanded := expanded + [arg];
      } else if |arg| >= 2 {
        expanded := expanded + [['-', arg[1]]];
        var k := 2;
        while k < |arg|
          invariant 2 <= k <= |arg|
          invariant |expanded| == k - 1
          invariant forall i :: 0 <= i < k - 1 ==> expanded[i] == ['-', arg[i + 1]]
        {
          expanded := expanded + [['-', arg[k]]];
          k := k + 1;
        }
      } else {
        expanded := expanded + [arg];
      }
    } else {
      expanded := expanded + [arg];
    }
  }

  /** Every argument expanded, in order. */
  method ExpandArgs(args: seq<string>) returns (expanded: seq<string>)
    ensures expanded == ExpandedAll(args)
  {
    expanded := [];
    for i := 0 to |args|
      invariant expanded == ExpandedAll(args[..i])
    {
      assert args[..i + 1][..i] == args[..i];
      var more := ExpandArg(args[i]);
      expanded := expanded + more;
    }
    assert args[..|args|] == args;
  }

  // ---------------------------------------------------------------------
  // The pre-command split

  /**
   * How many leading arguments are pre-command options: those starting
   * with `-`, up to and including a `--`, where `-C` takes the argument
   * after it along, whatever it starts with.
   */
  function PrecommandCount(args: seq<string>): (n: nat)
    ensures n <= |args|
    decreases |args|
  {
    if args == [] || !Dash(args[0]) then 0
    else if args[0] == "--" then 1
    else if args[0] == "-C" && |args| > 1 then 2 + PrecommandCount(args[2..])
    else 1 + PrecommandCount(args[1..])
  }

  /**
   * The pre-command options, the subcommand if any, and its arguments, with
   * the split as corrected: `-C` takes the argument after it along.
   */
  method SplitPrecommand(args: seq<string>) returns (pre: seq<string>, subcommand: Option<string>, rest: seq<string>)
    ensures var n := PrecommandCount(args);
            && pre == args[..n]
            && subcommand == (if n < |args| then Some(args[n]) else None)
            && rest == (if n < |args| then args[n + 1..] else [])
  {
    pre := [];
    var i := 0;
    var last: Option<string> := if |args| > 0 then Some(args[0]) else None;
    var stop := false;
    while !stop && last.Some? && Dash(last.value)
      invariant 0 <= i <= |args|
      invariant pre == args[..i]
      invariant last == (if i < |args| then Some(args[i]) else None)
      invariant PrecommandCount(args) == i + (if stop then 0 else PrecommandCount(args[i..]))
      decreases |args| - i
    {
      var arg := last.value;
      SplitStep(args, i);
      stop := arg == "--";
      pre := pre + [arg];
      i := i + 1;
      last := if i < |args| then Some(args[i]) else None;
      if arg == "-C" && last.Some? {
        pre := pre + [last.value];
        i := i + 1;
        last := if i < |args| then Some(args[i]) else None;
      }
    }
    if !stop {
      assert PrecommandCount(args[i..]) == 0;
    }
    subcommand := last;
    rest := if i < |args| then args[i + 1..] else [];
  }

  /** One step of the corrected split, at an argument starting with `-`. */
  lemma SplitStep(args: seq<string>, i: nat)
    requires i < |args| && Dash(args[i])
    ensures args[i] == "--" ==> PrecommandCount(args[i..]) == 1
    ensures args[i] == "-C" && i + 1 < |args| ==>
              PrecommandCount(args[i..]) == 2 + PrecommandCount(args[i + 2..])
    ensures args[i] != "--" && !(args[i] == "-C" && i + 1 < |args|) ==>
              PrecommandCount(args[i..]) == 1 + PrecommandCount(args[i + 1..])
  {
    assert args[i..][0] == args[i];
    assert args[i..][1..] == args[i + 1..];
    if i + 1 < |args| {
      assert args[i..][2..] == args[i + 2..];
    }
  }

  // ---------------------------------------------------------------------
  // Pre-command options

  /**
   * What the pre-command options decide: `None` to go on to the
   * subcommand, or the exit code. `--help`, `--version` and anything
   * unknown (a `--` included) end with the usage code; `-C` takes the next
   * option as a directory and ends with code 1 when there is none or the
   * change of directory fails.
   */
  function PrecommandVerdict(pre: seq<string>, chdir: string -> bool): (r: Option<int>)
    ensures r.None? || r == Some(ChdirExitCode) || r == Some(UsageExitCode)
    decreases |pre|
  {
    if pre == [] then None
    else if pre[0] == "--help" then Some(UsageExitCode)
    else if pre[0] == "--version" then Some(UsageExitCode)
    else if pre[0] == "-C" then
      if |pre| == 1 || !chdir(pre[1]) then Some(ChdirExitCode)
      else PrecommandVerdict(pre[2..], chdir)
    else Some(UsageExitCode)
  }

  /**
   * The directories the pre-command options change into, in order: one per
   * leading `-C dir` pair, up to the first change that fails or the first
   * option that is not `-C`.
   */
  function DirsEntered(pre: seq<string>, chdir: string -> bool): (dirs: seq<string>)
    ensures 2 * |dirs| <= |pre|
    ensures forall k :: 0 <= k < |dirs| ==>
              pre[2 * k] == "-C" && dirs[k] == pre[2 * k + 1] && chdir(dirs[k])
    decreases |pre|
  {
    if pre != [] && pre[0] == "-C" && |pre| > 1 && chdir(pre[1]) then
      var rest := DirsEntered(pre[2..], chdir);
      assert forall k :: 1 <= k <= |rest| ==> pre[2 * k] == pre[2..][2 * (k - 1)];
      [pre[1]] + rest
    else []
  }

  /** When the subcommand runs, every pre-command option was a `-C dir` whose directory was entered. */
  lemma {:induction false} DirsEnteredAll(pre: seq<string>, chdir: string -> bool)
    requires PrecommandVerdict(pre, chdir).None?
    ensures 2 * |DirsEntered(pre, chdir)| == |pre|
    decreases |pre|
  {
    if pre != [] {
      DirsEnteredAll(pre[2..], chdir);
    }
  }

  /** The options are nothing but `-C dir` pairs whose changes of directory succeed. */
  ghost predicate ChdirPairs(pre: seq<string>, chdir: string -> bool)
  {
    && |pre| % 2 == 0
    && forall k :: 0 <= k < |pre| / 2 ==> pre[2 * k] == "-C" && chdir(pre[2 * k + 1])
  }

  /** The subcommand runs exactly when every pre-command option is a successful `-C dir`. */
  lemma {:induction false} PrecommandVerdictNone(pre: seq<string>, chdir: string -> bool)
    ensures PrecommandVerdict(pre, chdir).None? <==> ChdirPairs(pre, chdir)
    decreases |pre|
  {
    if pre != [] && pre[0] == "-C" && |pre| > 1 && chdir(pre[1]) {
      var tail := pre[2..];
      PrecommandVerdictNone(tail, chdir);
      if ChdirPairs(tail, chdir) {
        forall k | 0 <= k < |pre| / 2
          ensures pre[2 * k] == "-C" && chdir(pre[2 * k + 1])
        {
          if k > 0 {
            assert pre[2 * k] == tail[2 * (k - 1)];
            assert pre[2 * k + 1] == tail[2 * (k - 1) + 1];
          }
        }
      }
      if ChdirPairs(pre, chdir) {
        forall k | 0 <= k < |tail| / 2
          ensures tail[2 * k] == "-C" && chdir(tail[2 * k + 1])
        {
          assert tail[2 * k] == pre[2 * (k + 1)];
          assert tail[2 * k + 1] == pre[2 * (k + 1) + 1];
        }
      }
    } else if pre != [] {
      assert pre[2 * 0] == pre[0];
    }
  }

  /** Works through the pre-command options in order. */
  method HandlePrecommand(pre: seq<string>, chdir: string -> bool) returns (verdict: Option<int>, dirs: seq<string>)
    ensures verdict == PrecommandVerdict(pre, chdir)
    ensures dirs == DirsEntered(pre, chdir)
  {
    var i := 0;
    dirs := [];
    while i < |pre|
      invariant 0 <= i <= |pre|
      invariant PrecommandVerdict(pre, chdir) == PrecommandVerdict(pre[i..], chdir)
      invariant DirsEntered(pre, chdir) == dirs + DirsEntered(pre[i..], chdir)
      decreases |pre| - i
    {
      var arg := pre[i];
      i := i + 1;
      if arg == "--help" || arg == "--version" {
        return Some(UsageExitCode), dirs;
      } else if arg == "-C" {
        if i < |pre| {
          var dir := pre[i];
          i := i + 1;
          if !chdir(dir) {
            return Some(ChdirExitCode), dirs;
          }
          assert pre[i - 2..][2..] == pre[i..];
          dirs := dirs + [dir];
        } else {
          return Some(ChdirExitCode), dirs;
        }
      } else {
        return Some(UsageExitCode), dirs;
      }
    }
    return None, dirs;
  }

  // ---------------------------------------------------------------------
  // `workspace name` and `workspace description`

  /** The options of `workspace name` and `workspace description`. */
  datatype MetaArgs = MetaArgs(verbose: bool, idempotent: bool, value: Option<string>)

  predicate IsVerboseFlag(arg: string) { arg == "-v" || arg == "--verbose" }

  predicate IsForceFlag(arg: string) { arg == "-f" || arg == "--force" }

  predicate IsPositional(arg: string) { !Dash(arg) }

  /** The positional arguments, in order. */
  function Positionals(args: seq<string>): seq<string>
  {
    Filter(args, IsPositional)
  }

  /** An argument starting with `-` that is neither `-v`/`--verbose` nor `-f`/`--force`. */
  predicate UnknownMetaFlag(arg: string)
  {
    Dash(arg) && !IsVerboseFlag(arg) && !IsForceFlag(arg)
  }

  /**
   * What the options of `workspace name` or `workspace description`
   * mean: the usage code when an argument starting with `-` is neither
   * `-v`/`--verbose` nor `-f`/`--force` (so `--help` too) or when more
   * than one value is given; otherwise whether any `-v` was given, whether
   * no `-f` was, and the value to set, if any.
   */
  ghost function MetaSpec(args: seq<string>): Result<MetaArgs, int>
  {
    if (exists i :: 0 <= i < |args| && UnknownMetaFlag(args[i])) || |Positionals(args)| > 1
    then Err(UsageExitCode)
    else Ok(MetaArgs(
      "-v" in args || "--verbose" in args,
      "-f" !in args && "--force" !in args,
      if |Positionals(args)| == 1 then Some(Positionals(args)[0]) else None))
  }

  /** The effect of one more argument on what the arguments before it mean. */
  function MetaStep(r: Result<MetaArgs, int>, arg: string): Result<MetaArgs, int>
  {
    match r
    case Err(c) => Err(c)
    case Ok(m) =>
      if UnknownMetaFlag(arg) then Err(UsageExitCode)
      else if IsVerboseFlag(arg) then Ok(m.(verbose := true))
      else if IsForceFlag(arg) then Ok(m.(idempotent := false))
      else if m.value.Some? then Err(UsageExitCode)
      else Ok(m.(value := Some(arg)))
  }

  lemma MetaSpecEmpty()
    ensures MetaSpec([]) == Ok(MetaArgs(false, true, None))
  {
    assert Positionals([]) == [];
  }

  /** Reading the arguments one at a time gives what they mean together. */
  lemma MetaSpecSnoc(p: seq<string>, arg: string)
    ensures MetaSpec(p + [arg]) == MetaStep(MetaSpec(p), arg)
  {
    var q := p + [arg];
    FilterSnoc(p, arg, IsPositional);
    UnknownSnoc(p, arg);
    assert "-v" in q <==> "-v" in p || arg == "-v";
    assert "--verbose" in q <==> "--verbose" in p || arg == "--verbose";
    assert "-f" in q <==> "-f" in p || arg == "-f";
    assert "--force" in q <==> "--force" in p || arg == "--force";
  }

  lemma UnknownSnoc(p: seq<string>, arg: string)
    ensures (exists i :: 0 <= i < |p + [arg]| && UnknownMetaFlag((p + [arg])[i]))
        <==> (exists i :: 0 <= i < |p| && UnknownMetaFlag(p[i])) || UnknownMetaFlag(arg)
  {
    var q := p + [arg];
    if exists i :: 0 <= i < |p| && UnknownMetaFlag(p[i]) {
      var i :| 0 <= i < |p| && UnknownMetaFlag(p[i]);
      assert q[i] == p[i];
    } else if UnknownMetaFlag(arg) {
      assert q[|p|] == arg;
    } else {
      forall i | 0 <= i < |q|
        ensures !UnknownMetaFlag(q[i])
      {
        if i < |p| {
          assert q[i] == p[i];
        }
      }
    }
  }

  /** Once the arguments read so far end the command, the whole command line does. */
  lemma MetaSpecStops(args: seq<string>, n: nat)
    requires n <= |args| && MetaSpec(args[..n]).Err?
    ensures MetaSpec(args) == Err(UsageExitCode)
  {
    var p := args[..n];
    if exists i :: 0 <= i < |p| && UnknownMetaFlag(p[i]) {
      var i :| 0 <= i < |p| && UnknownMetaFlag(p[i]);
      assert args[i] == p[i];
    } else {
      assert args == p + args[n..];
      FilterAppend(p, args[n..], IsPositional);
    }
  }

  lemma HelpIsNoFlag()
    ensures UnknownMetaFlag("--help")
  {
    assert "--help"[1] != "-v"[1];
    assert |"--help"| != |"--verbose"| && |"--help"| != |"--force"|;
  }

  /** Reads the options of `workspace name` or `workspace description`, in order. */
  method ParseMetaArgs(args: seq<string>) returns (r: Result<MetaArgs, int>)
    ensures r == MetaSpec(args)
  {
    var value: Option<string> := None;
    var verbose := false;
    var idempotent := true;
    MetaSpecEmpty();
    assert args[..0] == [];
    for i := 0 to |args|
      invariant MetaSpec(args[..i]) == Ok(MetaArgs(verbose, idempotent, value))
    {
      var arg := args[i];
      MetaSpecSnoc(args[..i], arg);
      assert args[..i + 1] == args[..i] + [arg];
      if arg == "--help" {
        HelpIsNoFlag();
        MetaSpecStops(args, i + 1);
        return Err(UsageExitCode);
      } else if IsVerboseFlag(arg) {
        verbose := true;
      } else if IsForceFlag(arg) {
        idempotent := false;
      } else if Dash(arg) {
        MetaSpecStops(args, i + 1);
        return Err(UsageExitCode);
      } else {
        if value.Some? {
          MetaSpecStops(args, i + 1);
          return Err(UsageExitCode);
        }
        value := Some(arg);
      }
    }
    assert args[..|args|] == args;
    return Ok(MetaArgs(verbose, idempotent, value));
  }

  /**
   * What the workspace is asked to do once open, given the current value
   * (the message of the latest name or description record, if any): the
   * exit code, and the value to set, if a set is performed.
   */
  function MetaOutcome(a: MetaArgs, current: Option<string>): (r: (int, Option<string>))
    ensures a.value.Some? ==> r.0 == 0
    ensures a.value.Some? && !a.idempotent ==> r.1 == a.value
    ensures a.value.Some? && a.idempotent ==> (r.1.None? <==> current == a.value)
    ensures r.1.Some? ==> r.1 == a.value
    ensures a.value.None? ==> r.1.None? && (r.0 == 0 <==> current.Some?) && (r.0 == 1 <==> current.None?)
  {
    match a.value
    case Some(v) =>
      if a.idempotent && current == Some(v) then (0, None) else (0, Some(v))
    case None =>
      if current.Some? then (0, None) else (1, None)
  }

  /** The current value after the outcome: the set value if one is set. */
  function AfterOutcome(current: Option<string>, r: (int, Option<string>)): Option<string>
  {
    if r.1.Some? then r.1 else current
  }

  /**
   * Giving a value always leaves it as the current value, and giving the
   * same value again without `-f` performs no second set.
   */
  lemma MetaOutcomeSettles(a: MetaArgs, current: Option<string>)
    requires a.value.Some?
    ensures AfterOutcome(current, MetaOutcome(a, current)) == a.value
    ensures a.idempotent ==>
              MetaOutcome(a, AfterOutcome(current, MetaOutcome(a, current))).1.None?
  {
  }

  // ---------------------------------------------------------------------
  // `project create`

  /** The options of `project create` that reach the workspace. */
  datatype CreateArgs = CreateArgs(
    verbose: bool, allowExisting: bool, allowLowercase: bool,
    slug: string, description: Option<string>, name: Option<string>)

  datatype CreateSwitch = Verbose | AllowExisting | AllowLowercase

  datatype ValueOption = Description | Name

  /** One option of `project create`, with the argument it takes if it takes one. */
  datatype CreateToken =
    | HelpToken
    | SwitchToken(switch: CreateSwitch)
    | ValueToken(option: ValueOption, value: Option<string>)
    | UnknownToken(arg: string)
    | SlugToken(slug: string)

  /** What one argument of `project create` is, read as an option. */
  datatype CreateArgKind = HelpArg | SwitchArg(switch: CreateSwitch) | ValueArg(option: ValueOption) | UnknownArg | SlugArg

  function CreateArgKindOf(arg: string): CreateArgKind
  {
    if arg == "--help" then HelpArg
    else if arg == "-v" || arg == "--verbose" then SwitchArg(Verbose)
    else if arg == "-e" || arg == "--allow-existing" then SwitchArg(AllowExisting)
    else if arg == "-l" || arg == "--allow-lowercase" then SwitchArg(AllowLowercase)
    else if arg == "-d" || arg == "--description" then ValueArg(Description)
    else if arg == "-n" || arg == "--name" then ValueArg(Name)
    else if Dash(arg) then UnknownArg
    else SlugArg
  }

  /**
   * The arguments of `project create` grouped into options: `-d` and `-n`
   * take the next argument, whatever it is, when there is one.
   */
  function CreateTokens(args: seq<string>): seq<CreateToken>
  {
    TokensFrom(args, 0)
  }

  /** The options of `project create` from the argument at `i` on. */
  function TokensFrom(args: seq<string>, i: nat): seq<CreateToken>
    decreases |args| - i
  {
    if i >= |args| then []
    else
      var (t, j) := OptionAt(args, i);
      [t] + TokensFrom(args, j)
  }

  /**
   * The option starting at argument `i`, and where the next one starts:
   * `-d` and `-n` take the argument after them when there is one.
   */
  function OptionAt(args: seq<string>, i: nat): (r: (CreateToken, nat))
    requires i < |args|
    ensures i < r.1 <= |args|
  {
    match CreateArgKindOf(args[i])
    case HelpArg => (HelpToken, i + 1)
    case SwitchArg(s) => (SwitchToken(s), i + 1)
    case ValueArg(o) =>
      if i + 1 == |args| then (ValueToken(o, None), i + 1)
      else (ValueToken(o, Some(args[i + 1])), i + 2)
    case UnknownArg => (UnknownToken(args[i]), i + 1)
    case SlugArg => (SlugToken(args[i]), i + 1)
  }

  /** An option that ends the command with the usage code by itself. */
  predicate Refused(t: CreateToken)
  {
    || t.HelpToken?
    || t.UnknownToken?
    || (t.ValueToken? && (t.value.None? || Dash(t.value.value)))
  }

  predicate IsSlugToken(t: CreateToken) { t.SlugToken? }

  predicate IsDescriptionToken(t: CreateToken) { t.ValueToken? && t.option == Description }

  predicate IsNameToken(t: CreateToken) { t.ValueToken? && t.option == Name }

  /** What the options read so far have set. */
  datatype CreateScan = CreateScan(
    verbose: bool, allowExisting: bool, allowLowercase: bool,
    slug: Option<string>, description: Option<string>, name: Option<string>)

  /** The effect of one more option: the usage code, or the options updated. */
  function ScanStep(s: CreateScan, t: CreateToken): Result<CreateScan, int>
  {
    match t
    case HelpToken => Err(UsageExitCode)
    case UnknownToken(_) => Err(UsageExitCode)
    case SwitchToken(Verbose) => Ok(s.(verbose := true))
    case SwitchToken(AllowExisting) => Ok(s.(allowExisting := true))
    case SwitchToken(AllowLowercase) => Ok(s.(allowLowercase := true))
    case ValueToken(Description, v) =>
      if s.description.Some? || v.None? || Dash(v.value) then Err(UsageExitCode)
      else Ok(s.(description := v))
    case ValueToken(Name, v) =>
      if s.name.Some? || v.None? || Dash(v.value) then Err(UsageExitCode)
      else Ok(s.(name := v))
    case SlugToken(x) =>
      if s.slug.Some? then Err(UsageExitCode) else Ok(s.(slug := Some(x)))
  }

  /** The options read in order, stopping at the first that ends the command. */
  function Scan(ts: seq<CreateToken>): (r: Result<CreateScan, int>)
    ensures r.Err? ==> r.error == UsageExitCode
    decreases |ts|
  {
    if ts == [] then Ok(CreateScan(false, false, false, None, None, None))
    else
      match Scan(ts[..|ts| - 1])
      case Err(c) => Err(c)
      case Ok(s) => ScanStep(s, ts[|ts| - 1])
  }

  lemma ScanSnoc(ts: seq<CreateToken>, t: CreateToken)
    ensures Scan(ts + [t]) == match Scan(ts) case Err(c) => Err(c) case Ok(s) => ScanStep(s, t)
  {
    assert (ts + [t])[..|ts|] == ts;
  }

  lemma FilterSnoc<T>(ts: seq<T>, t: T, keep: T -> bool)
    ensures Filter(ts + [t], keep) == Filter(ts, keep) + (if keep(t) then [t] else [])
  {
    assert (ts + [t])[..|ts|] == ts;
  }

  /** Once the command is ended, later options change nothing. */
  lemma {:induction false} ScanStops(a: seq<CreateToken>, b: seq<CreateToken>)
    requires Scan(a).Err?
    ensures Scan(a + b).Err?
    decreases |b|
  {
    if b == [] {
      assert a + b == a;
    } else {
      var b' := b[..|b| - 1];
      assert a + b == (a + b') + [b[|b| - 1]];
      ScanStops(a, b');
      ScanSnoc(a + b', b[|b| - 1]);
    }
  }

  /** No option among `ts` is refused. */
  ghost predicate NoneRefused(ts: seq<CreateToken>)
  {
    forall k :: 0 <= k < |ts| ==> !Refused(ts[k])
  }

  /** The options among `ts` can all be taken together. */
  ghost predicate Admissible(ts: seq<CreateToken>)
  {
    && NoneRefused(ts)
    && |Filter(ts, IsDescriptionToken)| <= 1
    && |Filter(ts, IsNameToken)| <= 1
    && |Filter(ts, IsSlugToken)| <= 1
  }

  /** What the options among `ts` say, as `s` records it. */
  ghost predicate Records(ts: seq<CreateToken>, s: CreateScan)
  {
    && s.verbose == (SwitchToken(Verbose) in ts)
    && s.allowExisting == (SwitchToken(AllowExisting) in ts)
    && s.allowLowercase == (SwitchToken(AllowLowercase) in ts)
    && (s.description.Some? <==> |Filter(ts, IsDescriptionToken)| == 1)
    && (s.description.Some? ==> Filter(ts, IsDescriptionToken)[0] == ValueToken(Description, s.description))
    && (s.name.Some? <==> |Filter(ts, IsNameToken)| == 1)
    && (s.name.Some? ==> Filter(ts, IsNameToken)[0] == ValueToken(Name, s.name))
    && (s.slug.Some? <==> |Filter(ts, IsSlugToken)| == 1)
    && (s.slug.Some? ==> Filter(ts, IsSlugToken)[0] == SlugToken(s.slug.value))
  }

  lemma NoneRefusedSnoc(ts: seq<CreateToken>, t: CreateToken)
    ensures NoneRefused(ts + [t]) <==> NoneRefused(ts) && !Refused(t)
  {
    if NoneRefused(ts + [t]) {
      forall k | 0 <= k < |ts| ensures !Refused(ts[k]) {
        assert ts[k] == (ts + [t])[k];
      }
      assert (ts + [t])[|ts|] == t;
    }
  }

  /** Admissibility only shrinks as options are added. */
  lemma AdmissibleInit(ts: seq<CreateToken>, t: CreateToken)
    requires Admissible(ts + [t])
    ensures Admissible(ts)
  {
    NoneRefusedSnoc(ts, t);
    FilterSnoc(ts, t, IsDescriptionToken);
    FilterSnoc(ts, t, IsNameToken);
    FilterSnoc(ts, t, IsSlugToken);
  }

  /** Reading one more option that is not refused, after options that can all be taken. */
  lemma ScanMeaningStepOk(ts: seq<CreateToken>, t: CreateToken, s: CreateScan)
    requires Scan(ts) == Ok(s) && Admissible(ts) && Records(ts, s)
    requires !Refused(t)
    ensures Scan(ts + [t]).Ok? <==> Admissible(ts + [t])
    ensures Scan(ts + [t]).Ok? ==> Records(ts + [t], Scan(ts + [t]).value)
  {
    ScanSnoc(ts, t);
    NoneRefusedSnoc(ts, t);
    FilterSnoc(ts, t, IsDescriptionToken);
    FilterSnoc(ts, t, IsNameToken);
    FilterSnoc(ts, t, IsSlugToken);
    assert forall x :: x in ts + [t] <==> x in ts || x == t;
    match t
    case SwitchToken(w) =>
      StepSwitch(ts, t, s);
    case ValueToken(Description, v) =>
      StepDescription(ts, t, s);
    case ValueToken(Name, v) =>
      StepName(ts, t, s);
    case SlugToken(x) =>
      StepSlug(ts, t, s);
  }

  /** What the step lemmas share: the options read so far, one more option, and where it goes. */
  ghost predicate StepFacts(ts: seq<CreateToken>, t: CreateToken, s: CreateScan)
  {
    && Scan(ts) == Ok(s) && Admissible(ts) && Records(ts, s) && !Refused(t)
    && Scan(ts + [t]) == ScanStep(s, t)
    && (NoneRefused(ts + [t]) <==> NoneRefused(ts) && !Refused(t))
    && Filter(ts + [t], IsDescriptionToken)
       == Filter(ts, IsDescriptionToken) + (if IsDescriptionToken(t) then [t] else [])
    && Filter(ts + [t], IsNameToken) == Filter(ts, IsNameToken) + (if IsNameToken(t) then [t] else [])
    && Filter(ts + [t], IsSlugToken) == Filter(ts, IsSlugToken) + (if IsSlugToken(t) then [t] else [])
    && (forall x :: x in ts + [t] <==> x in ts || x == t)
  }

  lemma StepSwitch(ts: seq<CreateToken>, t: CreateToken, s: CreateScan)
    requires StepFacts(ts, t, s) && t.SwitchToken?
    ensures Scan(ts + [t]).Ok? && Admissible(ts + [t]) && Records(ts + [t], Scan(ts + [t]).value)
  {
    assert Filter(ts + [t], IsDescriptionToken) == Filter(ts, IsDescriptionToken);
    assert Filter(ts + [t], IsNameToken) == Filter(ts, IsNameToken);
    assert Filter(ts + [t], IsSlugToken) == Filter(ts, IsSlugToken);
    var s' := Scan(ts + [t]).value;
    assert s'.description == s.description && s'.name == s.name && s'.slug == s.slug;
    assert SwitchToken(Verbose) in ts + [t] <==> SwitchToken(Verbose) in ts || t == SwitchToken(Verbose);
    assert SwitchToken(AllowExisting) in ts + [t]
       <==> SwitchToken(AllowExisting) in ts || t == SwitchToken(AllowExisting);
    assert SwitchToken(AllowLowercase) in ts + [t]
       <==> SwitchToken(AllowLowercase) in ts || t == SwitchToken(AllowLowercase);
  }

  lemma StepDescription(ts: seq<CreateToken>, t: CreateToken, s: CreateScan)
    requires StepFacts(ts, t, s) && t.ValueToken? && t.option == Description
    ensures Scan(ts + [t]).Ok? <==> Admissible(ts + [t])
    ensures Scan(ts + [t]).Ok? ==> Records(ts + [t], Scan(ts + [t]).value)
  {
    var ds := Filter(ts, IsDescriptionToken);
    if |ds| == 0 {
      assert Filter(ts + [t], IsDescriptionToken) == [t];
    } else {
      assert s.description.Some?;
    }
  }

  lemma StepName(ts: seq<CreateToken>, t: CreateToken, s: CreateScan)
    requires StepFacts(ts, t, s) && t.ValueToken? && t.option == Name
    ensures Scan(ts + [t]).Ok? <==> Admissible(ts + [t])
    ensures Scan(ts + [t]).Ok? ==> Records(ts + [t], Scan(ts + [t]).value)
  {
    var ns := Filter(ts, IsNameToken);
    if |ns| == 0 {
      assert Filter(ts + [t], IsNameToken) == [t];
    } else {
      assert s.name.Some?;
    }
  }

  lemma StepSlug(ts: seq<CreateToken>, t: CreateToken, s: CreateScan)
    requires StepFacts(ts, t, s) && t.SlugToken?
    ensures Scan(ts + [t]).Ok? <==> Admissible(ts + [t])
    ensures Scan(ts + [t]).Ok? ==> Records(ts + [t], Scan(ts + [t]).value)
  {
    var ss := Filter(ts, IsSlugToken);
    if |ss| == 0 {
      assert Filter(ts + [t], IsSlugToken) == [t];
    } else {
      assert s.slug.Some?;
    }
  }

  lemma ScanMeaningStep(ts: seq<CreateToken>, t: CreateToken)
    requires Scan(ts).Ok? <==> Admissible(ts)
    requires Scan(ts).Ok? ==> Records(ts, Scan(ts).value)
    ensures Scan(ts + [t]).Ok? <==> Admissible(ts + [t])
    ensures Scan(ts + [t]).Ok? ==> Records(ts + [t], Scan(ts + [t]).value)
  {
    ScanSnoc(ts, t);
    if Scan(ts).Err? {
      if Admissible(ts + [t]) {
        AdmissibleInit(ts, t);
      }
    } else if Refused(t) {
      NoneRefusedSnoc(ts, t);
    } else {
      ScanMeaningStepOk(ts, t, Scan(ts).value);
    }
  }

  /**
   * Reading the options in order succeeds exactly when none is refused and
   * `-d`, `-n` and the slug each appear at most once, and then holds what
   * they say.
   */
  lemma {:induction false} ScanMeaning(ts: seq<CreateToken>)
    ensures Scan(ts).Ok? <==> Admissible(ts)
    ensures Scan(ts).Ok? ==> Records(ts, Scan(ts).value)
    decreases |ts|
  {
    if ts != [] {
      var init := ts[..|ts| - 1];
      ScanMeaning(init);
      ScanMeaningStep(init, ts[|ts| - 1]);
      assert init + [ts[|ts| - 1]] == ts;
    }
  }

  /** What the options of `project create` come to: the usage code, or what to create. */
  function CreateOutcome(args: seq<string>): Result<CreateArgs, int>
  {
    match Scan(CreateTokens(args))
    case Err(c) => Err(c)
    case Ok(s) =>
      if s.slug.None? then Err(UsageExitCode)
      else Ok(CreateArgs(s.verbose, s.allowExisting, s.allowLowercase, s.slug.value, s.description, s.name))
  }

  /**
   * `project create` ends with the usage code exactly when an option is
   * refused (`--help`, an unknown `-` argument, `-d` or `-n` without a
   * value that does not start with `-`), `-d` or `-n` is given twice, or
   * there is not exactly one slug; otherwise it holds the switches given,
   * the slug, and the description and name given.
   */
  lemma CreateOutcomeMeaning(args: seq<string>)
    ensures var ts := CreateTokens(args);
            var r := CreateOutcome(args);
            && (r.Err? ==> r.error == UsageExitCode)
            && (r.Ok? <==> Admissible(ts) && |Filter(ts, IsSlugToken)| == 1)
            && (r.Ok? ==>
                  && r.value.verbose == (SwitchToken(Verbose) in ts)
                  && r.value.allowExisting == (SwitchToken(AllowExisting) in ts)
                  && r.value.allowLowercase == (SwitchToken(AllowLowercase) in ts)
                  && [SlugToken(r.value.slug)] == Filter(ts, IsSlugToken)
                  && (r.value.description.Some? <==> |Filter(ts, IsDescriptionToken)| == 1)
                  && (r.value.description.Some? ==>
                        Filter(ts, IsDescriptionToken) == [ValueToken(Description, r.value.description)])
                  && (r.value.name.Some? <==> |Filter(ts, IsNameToken)| == 1)
                  && (r.value.name.Some? ==> Filter(ts, IsNameToken) == [ValueToken(Name, r.value.name)]))
  {
    ScanMeaning(CreateTokens(args));
  }

  /** An option that ends the command ends the whole of `project create` with the usage code. */
  lemma CreateOutcomeStops(args: seq<string>, a: seq<CreateToken>, b: seq<CreateToken>)
    requires CreateTokens(args) == a + b && Scan(a).Err?
    ensures CreateOutcome(args) == Err(UsageExitCode)
  {
    ScanStops(a, b);
  }

  /** When every option is read, the slug decides between the usage code and what to create. */
  lemma CreateOutcomeOf(args: seq<string>, done: seq<CreateToken>, s: CreateScan)
    requires ReadSoFar(args, |args|, done, s)
    ensures CreateOutcome(args)
         == if s.slug.None? then Err(UsageExitCode)
            else Ok(CreateArgs(s.verbose, s.allowExisting, s.allowLowercase, s.slug.value, s.description, s.name))
  {
    assert CreateTokens(args) == done;
  }

  /** Moving the first element of `b` over to the end of `a` keeps the concatenation. */
  lemma MoveFirst<T>(a: seq<T>, b: seq<T>)
    requires b != []
    ensures a + b == (a + [b[0]]) + b[1..]
  {
    assert b == [b[0]] + b[1..];
  }

  /** The arguments before `i` are read as the options `done`, which leave `s`. */
  ghost predicate ReadSoFar(args: seq<string>, i: nat, done: seq<CreateToken>, s: CreateScan)
  {
    i <= |args| && CreateTokens(args) == done + TokensFrom(args, i) && Scan(done) == Ok(s)
  }

  /**
   * Reading the option at argument `i`: the usage code if it ends the
   * command, and otherwise the options read so far grown by it.
   */
  lemma CreateStep(args: seq<string>, i: nat, done: seq<CreateToken>, s: CreateScan)
    requires i < |args| && ReadSoFar(args, i, done, s)
    ensures var (t, j) := OptionAt(args, i);
            && (ScanStep(s, t).Err? ==> CreateOutcome(args) == Err(UsageExitCode))
            && (ScanStep(s, t).Ok? ==> ReadSoFar(args, j, done + [t], ScanStep(s, t).value))
  {
    var (t, j) := OptionAt(args, i);
    var rest := TokensFrom(args, i);
    assert rest == [t] + TokensFrom(args, j);
    MoveFirst(done, rest);
    ScanSnoc(done, t);
    if ScanStep(s, t).Err? {
      CreateOutcomeStops(args, done + [t], TokensFrom(args, j));
    }
  }

  /** Reads the option at argument `i`: the usage code, or the options updated and where the next one starts. */
  method ReadCreateOption(args: seq<string>, i: nat, st: CreateScan) returns (r: Result<(CreateScan, nat), int>)
    requires i < |args|
    ensures var (t, j) := OptionAt(args, i);
            r == match ScanStep(st, t) case Err(c) => Err(c) case Ok(next) => Ok((next, j))
  {
    var arg := args[i];
    match CreateArgKindOf(arg) {
      case HelpArg =>
        return Err(UsageExitCode);
      case SwitchArg(Verbose) =>
        return Ok((st.(verbose := true), i + 1));
      case SwitchArg(AllowExisting) =>
        return Ok((st.(allowExisting := true), i + 1));
      case SwitchArg(AllowLowercase) =>
        return Ok((st.(allowLowercase := true), i + 1));
      case ValueArg(Description) =>
        if st.description.Some? || i + 1 == |args| || Dash(args[i + 1]) {
          return Err(UsageExitCode);
        }
        return Ok((st.(description := Some(args[i + 1])), i + 2));
      case ValueArg(Name) =>
        if st.name.Some? || i + 1 == |args| || Dash(args[i + 1]) {
          return Err(UsageExitCode);
        }
        return Ok((st.(name := Some(args[i + 1])), i + 2));
      case UnknownArg =>
        return Err(UsageExitCode);
      case SlugArg =>
        if st.slug.Some? {
          return Err(UsageExitCode);
        }
        return Ok((st.(slug := Some(arg)), i + 1));
    }
  }

  /** Reads the options of `project create`, in order. */
  method ParseCreateArgs(args: seq<string>) returns (r: Result<CreateArgs, int>)
    ensures r == CreateOutcome(args)
  {
    var st := CreateScan(false, false, false, None, None, None);
    ghost var done: seq<CreateToken> := [];
    var i: nat := 0;
    while i < |args|
      invariant ReadSoFar(args, i, done, st)
      decreases |args| - i
    {
      CreateStep(args, i, done, st);
      ghost var t := OptionAt(args, i).0;
      var step := ReadCreateOption(args, i, st);
      match step {
        case Err(c) =>
          return Err(c);
        case Ok((next, j)) =>
          st, i, done := next, j, done + [t];
      }
    }
    CreateOutcomeOf(args, done, st);
    if st.slug.None? {
      return Err(UsageExitCode);
    }
    return Ok(CreateArgs(st.verbose, st.allowExisting, st.allowLowercase, st.slug.value, st.description, st.name));
  }

  // ---------------------------------------------------------------------
  // Project slugs

  predicate IsAsciiLower(c: char) { 'a' <= c <= 'z' }

  predicate IsAsciiUpper(c: char) { 'A' <= c <= 'Z' }

  predicate IsAsciiDigit(c: char) { '0' <= c <= '9' }

  predicate IsAsciiAlphanumeric(c: char) { IsAsciiLower(c) || IsAsciiUpper(c) || IsAsciiDigit(c) }

  /**
   * Whether `project create` refuses a slug: for a lowercase letter,
   * unless lowercase is allowed, or for any character that is not an
   * ASCII letter or digit.
   */
  function SlugRefused(slug: string, allowLowercase: bool): (refused: bool)
    ensures !refused <==>
              forall i :: 0 <= i < |slug| ==>
                IsAsciiUpper(slug[i]) || IsAsciiDigit(slug[i]) || (allowLowercase && IsAsciiLower(slug[i]))
  {
    || (!allowLowercase && exists i :: 0 <= i < |slug| && IsAsciiLower(slug[i]))
    || (exists i :: 0 <= i < |slug| && !IsAsciiAlphanumeric(slug[i]))
  }

  // ---------------------------------------------------------------------
  // Dispatch

  /** A subcommand with its options read, ready to open the workspace. */
  datatype Command =
    | WorkspaceName(meta: MetaArgs)
    | WorkspaceDescription(meta: MetaArgs)
    | ProjectCreate(create: CreateArgs)

  /** How an invocation ends before the workspace is opened: an exit code, or a command to run. */
  datatype Invocation = Exit(code: int) | Run(command: Command)

  /** `workspace name` or `workspace description` with the given arguments. */
  ghost function MetaInvocation(args: seq<string>, description: bool): Invocation
  {
    match MetaSpec(args)
    case Err(c) => Exit(c)
    case Ok(a) => Run(if description then WorkspaceDescription(a) else WorkspaceName(a))
  }

  /** `workspace` with the given arguments: anything but `name` or `description` is a usage error. */
  ghost function WorkspaceSpec(args: seq<string>): Invocation
  {
    if |args| > 0 && args[0] == "name" then MetaInvocation(args[1..], false)
    else if |args| > 0 && args[0] == "description" then MetaInvocation(args[1..], true)
    else Exit(UsageExitCode)
  }

  /** `project create` with the given arguments, up to opening the workspace. */
  function CreateInvocation(args: seq<string>): Invocation
  {
    match CreateOutcome(args)
    case Err(c) => Exit(c)
    case Ok(a) => if SlugRefused(a.slug, a.allowLowercase) then Exit(UsageExitCode) else Run(ProjectCreate(a))
  }

  /** `project` with the given arguments: anything but `create` is a usage error. */
  function ProjectSpec(args: seq<string>): Invocation
  {
    if |args| > 0 && args[0] == "create" then CreateInvocation(args[1..])
    else Exit(UsageExitCode)
  }

  /** The subcommand, if any, with its arguments: an unknown or missing one is a usage error. */
  ghost function DispatchSpec(subcommand: Option<string>, args: seq<string>): Invocation
  {
    match subcommand
    case Some(c) =>
      if c == "workspace" then WorkspaceSpec(args)
      else if c == "project" then ProjectSpec(args)
      else Exit(UsageExitCode)
    case None => Exit(UsageExitCode)
  }

  /** The pre-command options `e[..n]` handled, then the subcommand at `e[n]` dispatched. */
  ghost function AfterSplit(e: seq<string>, n: nat, chdir: string -> bool): Invocation
    requires n <= |e|
  {
    match PrecommandVerdict(e[..n], chdir)
    case Some(code) => Exit(code)
    case None =>
      if n < |e| then DispatchSpec(Some(e[n]), e[n + 1..]) else DispatchSpec(None, [])
  }

  /**
   * The whole command line, after the program name: expanded, split into
   * pre-command options, subcommand and arguments; the pre-command
   * options handled; then the subcommand dispatched.
   */
  ghost function PmainSpec(argv: seq<string>, chdir: string -> bool): Invocation
  {
    var e := ExpandedAll(argv);
    AfterSplit(e, PrecommandCount(e), chdir)
  }

  /** The directories the whole command line changes into before it ends or runs its command. */
  ghost function PmainDirs(argv: seq<string>, chdir: string -> bool): seq<string>
  {
    var e := ExpandedAll(argv);
    DirsEntered(e[..PrecommandCount(e)], chdir)
  }

  method CmdProjectCreate(args: seq<string>) returns (inv: Invocation)
    ensures inv == CreateInvocation(args)
  {
    var parsed := ParseCreateArgs(args);
    match parsed {
      case Err(c) => return Exit(c);
      case Ok(a) =>
        if !a.allowLowercase && exists i :: 0 <= i < |a.slug| && IsAsciiLower(a.slug[i]) {
          return Exit(UsageExitCode);
        }
        if exists i :: 0 <= i < |a.slug| && !IsAsciiAlphanumeric(a.slug[i]) {
          return Exit(UsageExitCode);
        }
        return Run(ProjectCreate(a));
    }
  }

  method CmdWorkspace(args: seq<string>) returns (inv: Invocation)
    ensures inv == WorkspaceSpec(args)
  {
    if |args| == 0 {
      return Exit(UsageExitCode);
    }
    var subcommand := args[0];
    if subcommand == "name" || subcommand == "description" {
      var parsed := ParseMetaArgs(args[1..]);
      match parsed {
        case Err(c) => return Exit(c);
        case Ok(a) => return Run(if subcommand == "description" then WorkspaceDescription(a) else WorkspaceName(a));
      }
    }
    return Exit(UsageExitCode);
  }

  method CmdProject(args: seq<string>) returns (inv: Invocation)
    ensures inv == ProjectSpec(args)
  {
    if |args| > 0 && args[0] == "create" {
      inv := CmdProjectCreate(args[1..]);
      return;
    }
    return Exit(UsageExitCode);
  }

  /**
   * The program up to opening the workspace; a change of directory answers
   * whether it succeeded, and `dirs` are the directories entered, in order.
   */
  method Pmain(argv: seq<string>, chdir: string -> bool) returns (inv: Invocation, dirs: seq<string>)
    ensures inv == PmainSpec(argv, chdir)
    ensures dirs == PmainDirs(argv, chdir)
  {
    var args := ExpandArgs(argv);
    var pre, subcommand, rest := SplitPrecommand(args);
    var verdict;
    verdict, dirs := HandlePrecommand(pre, chdir);
    if verdict.Some? {
      return Exit(verdict.value), dirs;
    }
    match subcommand {
      case Some(c) =>
        if c == "workspace" {
          inv := CmdWorkspace(rest);
        } else if c == "project" {
          inv := CmdProject(rest);
        } else {
          inv := Exit(UsageExitCode);
        }
      case None =>
        inv := Exit(UsageExitCode);
    }
  }

  // ---------------------------------------------------------------------
  // Properties of the whole command line

  /** An argument that is a single word passes through expansion unchanged. */
  lemma ExpandedAllCons(arg: string, tail: seq<string>)
    requires Expansion(arg) == [arg]
    ensures ExpandedAll([arg] + tail) == [arg] + ExpandedAll(tail)
  {
    ExpandedAllAppend([arg], tail);
    assert ExpandedAll([arg]) == ExpandedAll([arg][..0]) + Expansion(arg);
  }

  /** A first word that does not start with `-` is the subcommand, given the rest expanded. */
  lemma PmainNoPrecommand(argv: seq<string>, chdir: string -> bool)
    requires |argv| > 0 && !Dash(argv[0])
    ensures PmainSpec(argv, chdir) == DispatchSpec(Some(argv[0]), ExpandedAll(argv[1..]))
  {
    var e := ExpandedAll(argv);
    ExpandedAllWord(argv);
    assert PrecommandCount(e) == 0 by {
      assert !Dash(e[0]);
    }
    assert e[..0] == [] && e[1..] == ExpandedAll(argv[1..]);
  }

  /** A leading `--help`, `--version` or `--` ends with the usage code, whatever follows. */
  lemma PmainUsageFirst(flag: string, tail: seq<string>, chdir: string -> bool)
    requires flag == "--help" || flag == "--version" || flag == "--"
    ensures PmainSpec([flag] + tail, chdir) == Exit(UsageExitCode)
  {
    var e := ExpandedAll([flag] + tail);
    UsageFlagExpanded(flag, tail);
    assert e[0] == flag && Dash(flag);
    AfterSplitUsage(e, PrecommandCount(e), chdir);
  }

  lemma UsageFlagExpanded(flag: string, tail: seq<string>)
    requires flag == "--help" || flag == "--version" || flag == "--"
    ensures ExpandedAll([flag] + tail) == [flag] + ExpandedAll(tail)
  {
    ExpansionMeaning(flag);
    ExpandedAllCons(flag, tail);
  }

  lemma AfterSplitUsage(e: seq<string>, n: nat, chdir: string -> bool)
    requires 0 < n <= |e| && (e[0] == "--help" || e[0] == "--version" || e[0] == "--")
    ensures AfterSplit(e, n, chdir) == Exit(UsageExitCode)
  {
    assert e[..n][0] == e[0];
    assert e[0] != "-C" by {
      assert |e[0]| == 2 ==> e[0][1] == '-';
    }
  }

  /** A lone `-C` ends with code 1. */
  lemma PmainChdirAlone(chdir: string -> bool)
    ensures PmainSpec(["-C"], chdir) == Exit(ChdirExitCode)
  {
    ChdirAloneExpanded();
    ChdirAloneSplit(chdir);
  }

  lemma ChdirAloneExpanded()
    ensures ExpandedAll(["-C"]) == ["-C"]
  {
    ExpansionShortFlag("-C");
    ExpandedAllCons("-C", []);
    assert ["-C"] + [] == ["-C"];
  }

  lemma ChdirAloneSplit(chdir: string -> bool)
    ensures AfterSplit(["-C"], PrecommandCount(["-C"]), chdir) == Exit(ChdirExitCode)
  {
    assert ["-C"][..1] == ["-C"];
  }


  /** With no subcommand at all the usage code is returned. */
  lemma PmainEmpty(chdir: string -> bool)
    ensures PmainSpec([], chdir) == Exit(UsageExitCode)
  {
    assert ExpandedAll([]) == [];
  }

  /** `name -vf Acme` expands `-vf` into its two flags. */
  lemma ScenarioNameExpanded()
    ensures ExpandedAll(["name", "-vf", "Acme"]) == ["name", "-v", "-f", "Acme"]
  {
    assert Expansion("-vf") == ["-v", "-f"];
    assert ExpandedAll(["name", "-vf"]) == ExpandedAll(["name"]) + Expansion("-vf") by {
      assert ["name", "-vf"][..1] == ["name"];
    }
    assert ExpandedAll(["name", "-vf", "Acme"]) == ExpandedAll(["name", "-vf"]) + Expansion("Acme") by {
      assert ["name", "-vf", "Acme"][..2] == ["name", "-vf"];
    }
  }

  /** `-v -f Acme`: verbose, forced, setting `Acme`. */
  lemma ScenarioNameOptions()
    ensures MetaSpec(["-v", "-f", "Acme"]) == Ok(MetaArgs(true, false, Some("Acme")))
  {
    var args := ["-v", "-f", "Acme"];
    assert Positionals(args) == ["Acme"] by {
      FilterSnoc([], "-v", IsPositional);
      FilterSnoc(["-v"], "-f", IsPositional);
      FilterSnoc(["-v", "-f"], "Acme", IsPositional);
      assert [] + ["-v"] == ["-v"] && ["-v"] + ["-f"] == ["-v", "-f"] && ["-v", "-f"] + ["Acme"] == args;
    }
  }

  /** `workspace name -vf Acme`: verbose, forced, setting `Acme`. */
  lemma PmainWorkspaceName(chdir: string -> bool)
    ensures PmainSpec(["workspace", "name", "-vf", "Acme"], chdir)
         == Run(WorkspaceName(MetaArgs(true, false, Some("Acme"))))
  {
    var argv := ["workspace", "name", "-vf", "Acme"];
    PmainNoPrecommand(argv, chdir);
    assert argv[1..] == ["name", "-vf", "Acme"];
    ScenarioNameExpanded();
    ScenarioNameOptions();
    assert ["name", "-v", "-f", "Acme"][1..] == ["-v", "-f", "Acme"];
  }

  /** `create alpha` and `create -l alpha`: the slug, and whether lowercase is allowed. */
  lemma ScenarioCreateOptions()
    ensures CreateOutcome(["alpha"]) == Ok(CreateArgs(false, false, false, "alpha", None, None))
    ensures CreateOutcome(["-l", "alpha"]) == Ok(CreateArgs(false, false, true, "alpha", None, None))
  {
    ScenarioTokens();
    ScenarioScans();
  }

  lemma ScenarioTokens()
    ensures CreateTokens(["alpha"]) == [SlugToken("alpha")]
    ensures CreateTokens(["-l", "alpha"]) == [SwitchToken(AllowLowercase), SlugToken("alpha")]
  {
    assert CreateArgKindOf("alpha") == SlugArg;
    assert CreateArgKindOf("-l") == SwitchArg(AllowLowercase);
    assert ["alpha"][1..] == [];
    var args := ["-l", "alpha"];
    assert args[1..] == ["alpha"];
  }

  lemma ScenarioScans()
    ensures Scan([SlugToken("alpha")]) == Ok(CreateScan(false, false, false, Some("alpha"), None, None))
    ensures Scan([SwitchToken(AllowLowercase), SlugToken("alpha")])
         == Ok(CreateScan(false, false, true, Some("alpha"), None, None))
  {
    ScanSnoc([], SlugToken("alpha"));
    ScanSnoc([], SwitchToken(AllowLowercase));
    ScanSnoc([SwitchToken(AllowLowercase)], SlugToken("alpha"));
    assert [SwitchToken(AllowLowercase)] + [SlugToken("alpha")] == [SwitchToken(AllowLowercase), SlugToken("alpha")];
  }

  /** `project create` with a slug: whatever the options say, up to opening the workspace. */
  lemma PmainProjectCreate(argv: seq<string>, chdir: string -> bool)
    requires |argv| >= 2 && argv[0] == "project" && argv[1] == "create"
    ensures PmainSpec(argv, chdir) == CreateInvocation(ExpandedAll(argv[2..]))
  {
    PmainNoPrecommand(argv, chdir);
    ExpandedAllWord(argv[1..]);
    assert argv[1..][0] == "create" && argv[1..][1..] == argv[2..];
    DispatchCreate(ExpandedAll(argv[1..]));
  }

  /** A first argument that does not start with `-` stays first and whole through expansion. */
  lemma ExpandedAllWord(args: seq<string>)
    requires |args| > 0 && !Dash(args[0])
    ensures ExpandedAll(args) == [args[0]] + ExpandedAll(args[1..])
  {
    ExpansionWord(args[0]);
    ExpandedAllCons(args[0], args[1..]);
    assert [args[0]] + args[1..] == args;
  }

  lemma DispatchCreate(args: seq<string>)
    requires |args| > 0 && args[0] == "create"
    ensures DispatchSpec(Some("project"), args) == CreateInvocation(args[1..])
  {
  }

  /** The slug `alpha` is refused without `-l` and taken with it. */
  lemma ScenarioCreateInvocations()
    ensures CreateInvocation(["alpha"]) == Exit(UsageExitCode)
    ensures CreateInvocation(["-l", "alpha"]) == Run(ProjectCreate(CreateArgs(false, false, true, "alpha", None, None)))
  {
    ScenarioCreateOptions();
    assert IsAsciiLower("alpha"[0]);
    assert !SlugRefused("alpha", true);
  }

  lemma ScenarioCreateExpanded()
    ensures ExpandedAll(["alpha"]) == ["alpha"]
    ensures ExpandedAll(["-l", "alpha"]) == ["-l", "alpha"]
  {
    var w := ["alpha"];
    assert ExpandedAll(w) == w by {
      ExpandedAllPlain(w);
    }
    assert ExpandedAll(["-l"] + w) == ["-l"] + w by {
      ExpansionShortFlag("-l");
      ExpandedAllCons("-l", w);
    }
    assert ["-l"] + w == ["-l", "alpha"];
  }

  /** `project create alpha` ends with the usage code: the slug is lowercase. */
  lemma PmainLowercaseRefused(chdir: string -> bool)
    ensures PmainSpec(["project", "create", "alpha"], chdir) == Exit(UsageExitCode)
  {
    var argv := ["project", "create", "alpha"];
    PmainProjectCreate(argv, chdir);
    assert argv[2..] == ["alpha"];
    ScenarioCreateExpanded();
    ScenarioCreateInvocations();
  }

  /** `project create -l alpha` runs: `-l` admits the lowercase slug. */
  lemma PmainLowercaseAllowed(chdir: string -> bool)
    ensures PmainSpec(["project", "create", "-l", "alpha"], chdir)
         == Run(ProjectCreate(CreateArgs(false, false, true, "alpha", None, None)))
  {
    var argv := ["project", "create", "-l", "alpha"];
    PmainProjectCreate(argv, chdir);
    assert argv[2..] == ["-l", "alpha"];
    ScenarioCreateExpanded();
    ScenarioCreateInvocations();
  }

  // ---------------------------------------------------------------------
  // `-C` with an ordinary directory: the split as written, against the
  // corrected split that the rest of this module uses

  /**
   * The pre-command split as written: the leading arguments starting with
   * `-`, up to and including a `--`; the argument after `-C` is not taken
   * along unless it too starts with `-`.
   */
  function PrecommandCountAsWritten(args: seq<string>): (n: nat)
    ensures n <= |args|
    decreases |args|
  {
    if args == [] || !Dash(args[0]) then 0
    else if args[0] == "--" then 1
    else 1 + PrecommandCountAsWritten(args[1..])
  }

  /**
   * The split takes a run of arguments starting with `-`, none but the last
   * of them `--`, and stops at the end, at an argument not starting with
   * `-`, or just after a `--`.
   */
  lemma {:induction false} PrecommandCountAsWrittenMeaning(args: seq<string>)
    ensures var n := PrecommandCountAsWritten(args);
            && (forall i :: 0 <= i < n ==> Dash(args[i]))
            && (forall i :: 0 <= i < n - 1 ==> args[i] != "--")
            && (n == |args| || !Dash(args[n]) || (n > 0 && args[n - 1] == "--"))
    decreases |args|
  {
    if args != [] && Dash(args[0]) && args[0] != "--" {
      PrecommandCountAsWrittenMeaning(args[1..]);
      var m := PrecommandCountAsWritten(args[1..]);
      assert forall i :: 1 <= i < 1 + m ==> args[i] == args[1..][i - 1];
    }
  }

  /** The whole command line with the split as written. */
  ghost function PmainAsWritten(argv: seq<string>, chdir: string -> bool): Invocation
  {
    var e := ExpandedAll(argv);
    AfterSplit(e, PrecommandCountAsWritten(e), chdir)
  }

  /** The directories entered with the split as written. */
  ghost function PmainDirsAsWritten(argv: seq<string>, chdir: string -> bool): seq<string>
  {
    var e := ExpandedAll(argv);
    DirsEntered(e[..PrecommandCountAsWritten(e)], chdir)
  }

  /**
   * As written, `-C` followed by a directory that does not start with `-`
   * never changes directory: the split stops at the directory, which
   * becomes the subcommand, and `-C` is left without its argument.
   */
  lemma PmainChdirPathIgnored(dir: string, tail: seq<string>, chdir: string -> bool)
    requires !Dash(dir)
    ensures PmainAsWritten(["-C", dir] + tail, chdir) == Exit(ChdirExitCode)
    ensures PmainDirsAsWritten(["-C", dir] + tail, chdir) == []
  {
    var e := ExpandedAll(["-C", dir] + tail);
    assert PrecommandCountAsWritten(e) == 1 && e[..1] == ["-C"] by {
      ChdirPathExpanded(dir, tail);
      assert PrecommandCountAsWritten(e[1..]) == 0;
    }
    assert PrecommandVerdict(["-C"], chdir) == Some(ChdirExitCode);
    assert DirsEntered(["-C"], chdir) == [];
  }

  /** `-C` and a plain directory stay two arguments through expansion. */
  lemma ChdirPathExpanded(dir: string, tail: seq<string>)
    requires !Dash(dir)
    ensures ExpandedAll(["-C", dir] + tail) == ["-C", dir] + ExpandedAll(tail)
  {
    var x := [dir] + tail;
    var y := ExpandedAll(tail);
    assert ExpandedAll(x) == [dir] + y by {
      ExpansionWord(dir);
      ExpandedAllCons(dir, tail);
    }
    assert ExpandedAll(["-C"] + x) == ["-C"] + ExpandedAll(x) by {
      ExpansionShortFlag("-C");
      ExpandedAllCons("-C", x);
    }
    assert ["-C"] + x == ["-C", dir] + tail;
    assert ["-C"] + ([dir] + y) == ["-C", dir] + y;
  }

  /**
   * With the corrected split, `-C dir` changes to `dir` first and goes on as
   * if it had not been there, and ends with code 1, in the directory it
   * started in, when the change fails.
   */
  lemma PmainChdirPath(dir: string, tail: seq<string>, chdir: string -> bool)
    requires !Dash(dir)
    ensures chdir(dir) ==> PmainSpec(["-C", dir] + tail, chdir) == PmainSpec(tail, chdir)
    ensures chdir(dir) ==> PmainDirs(["-C", dir] + tail, chdir) == [dir] + PmainDirs(tail, chdir)
    ensures !chdir(dir) ==> PmainSpec(["-C", dir] + tail, chdir) == Exit(ChdirExitCode)
    ensures !chdir(dir) ==> PmainDirs(["-C", dir] + tail, chdir) == []
  {
    var t := ExpandedAll(tail);
    var m := PrecommandCount(t);
    ChdirPathExpanded(dir, tail);
    SplitChdir(dir, t);
    AfterSplitChdir(dir, t, m, chdir);
    assert (["-C", dir] + t)[..2 + m][2..] == t[..m];
  }

  /** Handling `-C dir` before the options of `t` changes to `dir`, then goes on with `t`. */
  lemma AfterSplitChdir(dir: string, t: seq<string>, m: nat, chdir: string -> bool)
    requires m <= |t|
    ensures chdir(dir) ==> AfterSplit(["-C", dir] + t, 2 + m, chdir) == AfterSplit(t, m, chdir)
    ensures !chdir(dir) ==> AfterSplit(["-C", dir] + t, 2 + m, chdir) == Exit(ChdirExitCode)
  {
    var e := ["-C", dir] + t;
    assert e[..2 + m][2..] == t[..m];
    if 2 + m < |e| {
      assert e[2 + m] == t[m] && e[2 + m + 1..] == t[m + 1..];
    }
  }

  /** The corrected split takes `-C dir` and then splits the rest as before. */
  lemma SplitChdir(dir: string, t: seq<string>)
    ensures PrecommandCount(["-C", dir] + t) == 2 + PrecommandCount(t)
  {
    var e := ["-C", dir] + t;
    assert e[0] == "-C" && e[0][1] != "--"[1];
    assert e[2..] == t;
  }

  /** Where no `-C` occurs, the corrected split is the split as written. */
  lemma {:induction false} SplitsAgree(args: seq<string>)
    requires forall i :: 0 <= i < |args| ==> args[i] != "-C"
    ensures PrecommandCount(args) == PrecommandCountAsWritten(args)
    decreases |args|
  {
    if args != [] && Dash(args[0]) && args[0] != "--" {
      assert forall i :: 0 <= i < |args| - 1 ==> args[1..][i] == args[i + 1];
      SplitsAgree(args[1..]);
    }
  }
}
