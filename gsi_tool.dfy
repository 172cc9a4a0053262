/** gsi_tool, the command-line client of the GSI service: the parsing of
    install's options, each command's decisions on the service's replies,
    and main's dispatch with its root rule.  The service is reached over
    binder; here its replies are an input (Replies) and what the tool asks
    of it is recorded in order (Run.calls). */
module Tool {
  import opened Common

  /** Exit codes of sysexits.h, and success. */
  const ExOk: int := 0
  const ExUsage: int := 64
  const ExSoftware: int := 70
  const ExNoPerm: int := 77

  /** The uid of root. */
  const RootUid: int := 0

  // ---------------------------------------------------------------------
  // Integers on the command line

  /** android::base::ParseInt into an int64_t: an optional sign, at least
      one decimal digit and nothing after them, within the int64_t range. */
  function ParseInt(s: string): (r: Option<int>)
    ensures r.Some? ==> IsInt64(r.value)
    ensures r.Some? ==> s != [] && (IsDigit(s[0]) || s[0] == '-' || s[0] == '+')
    ensures r.Some? ==> forall i :: 1 <= i < |s| ==> IsDigit(s[i])
    ensures r.Some? && r.value < 0 ==> s[0] == '-'
  {
    var signed := |s| > 0 && (s[0] == '-' || s[0] == '+');
    var digits := if signed then s[1..] else s;
    if digits == [] || !(forall i :: 0 <= i < |digits| ==> IsDigit(digits[i])) then None
    else
      var magnitude: int := DigitsValue(digits);
      var v: int := if s[0] == '-' then -magnitude else magnitude;
      assert forall i :: 1 <= i < |s| ==> s[i] == digits[i - (if signed then 1 else 0)];
      if IsInt64(v) then Some(v) else None
  }

  function DigitChar(d: nat): (c: char)
    requires d < 10
    ensures IsDigit(c) && c as int - '0' as int == d
  {
    ('0' as int + d) as char
  }

  /** The decimal digits of n, most significant first. */
  function Decimal(n: nat): (s: string)
    ensures s != [] && forall i :: 0 <= i < |s| ==> IsDigit(s[i])
    ensures DigitsValue(s) == n
    decreases n
  {
    if n < 10 then
      var s := [DigitChar(n)];
      assert s[..0] == [];
      s
    else
      var high := Decimal(n / 10);
      var s := high + [DigitChar(n % 10)];
      assert s[..|s| - 1] == high;
      s
  }

  /** Every int64_t written in decimal, with a '-' when negative, parses back to itself. */
  lemma ParseIntDecimal(n: int)
    requires IsInt64(n)
    ensures ParseInt(if n < 0 then "-" + Decimal(-n) else Decimal(n)) == Some(n)
  {
    if n < 0 {
      var s := "-" + Decimal(-n);
      assert s[1..] == Decimal(-n);
    } else {
      var s := Decimal(n);
      assert IsDigit(s[0]);
    }
  }

  // ---------------------------------------------------------------------
  // install's options

  /** install's long options. */
  datatype LongOption = GsiSizeOption | NoRebootOption | UserdataSizeOption | WipeOption

  function OptionName(o: LongOption): string
  {
    match o
    case GsiSizeOption => "gsi-size"
    case NoRebootOption => "no-reboot"
    case UserdataSizeOption => "userdata-size"
    case WipeOption => "wipe"
  }

  /** gsi-size and userdata-size take a required argument; the others none. */
  predicate TakesArgument(o: LongOption)
  {
    o == GsiSizeOption || o == UserdataSizeOption
  }

  /** getopt's match of a name: the option it names or abbreviates.  The four
      names begin with different letters, so no prefix is ambiguous. */
  function Lookup(name: string): (r: Option<LongOption>)
    ensures r.Some? ==> name != [] && StartsWith(OptionName(r.value), name)
    ensures forall o :: name != [] && StartsWith(OptionName(o), name) ==> r == Some(o)
  {
    if name == [] then None
    else
      assert forall o :: StartsWith(OptionName(o), name) ==> OptionName(o)[0] == OptionName(o)[..|name|][0] == name[0];
      if StartsWith("gsi-size", name) then Some(GsiSizeOption)
    else if StartsWith("no-reboot", name) then Some(NoRebootOption)
    else if StartsWith("userdata-size", name) then Some(UserdataSizeOption)
    else if StartsWith("wipe", name) then Some(WipeOption)
    else None
  }

  /** What getopt_long_only hands to install's switch, in order: an option
      and its argument, a flag, or '?' for an element it cannot match. */
  datatype InstallOption = GsiSize(arg: string) | NoReboot | UserdataSize(arg: string) | Wipe | Unrecognized

  function WithArgument(o: LongOption, arg: string): InstallOption
    requires TakesArgument(o)
  {
    if o == GsiSizeOption then GsiSize(arg) else UserdataSize(arg)
  }

  function Flag(o: LongOption): InstallOption
    requires !TakesArgument(o)
  {
    if o == NoRebootOption then NoReboot else Wipe
  }

  /** The position of the first c in s, or |s| when there is none. */
  function IndexOf(s: string, c: char): (k: nat)
    ensures k <= |s|
    ensures forall i :: 0 <= i < k ==> s[i] != c
    ensures k < |s| ==> s[k] == c
    decreases |s|
  {
    if s == [] then 0
    else if s[0] == c then 0
    else 1 + IndexOf(s[1..], c)
  }

  /** getopt_long_only over install's arguments.  An element that does not
      start with '-', and a lone "-", is an operand and skipped; "--" ends
      the options; any other element is "-name" or "--name", optionally
      followed by "=value".  A required argument is the "=value" or else the
      next element; an option that lacks one, a flag given a value and a
      name that matches no option are each a '?'. */
  function Tokenize(args: seq<string>): (tokens: seq<InstallOption>)
    ensures |tokens| <= |args|
    decreases |args|
  {
    if args == [] then []
    else
      var a := args[0];
      if a == "--" then []
      else if |a| < 2 || a[0] != '-' then Tokenize(args[1..])
      else
        var body := if a[1] == '-' then a[2..] else a[1..];
        var k := IndexOf(body, '=');
        var value := if k < |body| then Some(body[k + 1..]) else None;
        match Lookup(body[..k])
        case None => [Unrecognized] + Tokenize(args[1..])
        case Some(o) =>
          if !TakesArgument(o) then
            (if value.Some? then [Unrecognized] else [Flag(o)]) + Tokenize(args[1..])
          else if value.Some? then [WithArgument(o, value.value)] + Tokenize(args[1..])
          else if |args| > 1 then [WithArgument(o, args[1])] + Tokenize(args[2..])
          else [Unrecognized]
  }

  /** An option written out as one "--name[=value]" element. */
  function Render(o: InstallOption): string
  {
    match o
    case GsiSize(v) => "--" + OptionName(GsiSizeOption) + "=" + v
    case NoReboot => "--" + OptionName(NoRebootOption)
    case UserdataSize(v) => "--" + OptionName(UserdataSizeOption) + "=" + v
    case Wipe => "--" + OptionName(WipeOption)
    case Unrecognized => "--"
  }

  function RenderAll(opts: seq<InstallOption>): (args: seq<string>)
    ensures |args| == |opts|
    ensures forall i :: 0 <= i < |opts| ==> args[i] == Render(opts[i])
  {
    seq(|opts|, i requires 0 <= i < |opts| => Render(opts[i]))
  }

  lemma IndexOfAfter(p: string, c: char, rest: string)
    requires forall i :: 0 <= i < |p| ==> p[i] != c
    ensures IndexOf(p + [c] + rest, c) == |p|
  {
    var s := p + [c] + rest;
    assert forall i :: 0 <= i < |p| ==> s[i] == p[i];
    assert s[|p|] == c;
  }

  /** No option name holds an '='. */
  lemma NameHasNoEquals(o: LongOption)
    ensures forall i :: 0 <= i < |OptionName(o)| ==> OptionName(o)[i] != '='
  {
  }

  /** "--name=value" is read back as the option with that argument. */
  lemma TokenizeArgument(o: LongOption, v: string, tail: seq<string>)
    requires TakesArgument(o)
    ensures Tokenize(["--" + OptionName(o) + "=" + v] + tail) == [WithArgument(o, v)] + Tokenize(tail)
  {
    var a := "--" + OptionName(o) + "=" + v;
    var name := OptionName(o);
    assert ([a] + tail)[1..] == tail;
    assert a[2..] == name + ['='] + v;
    NameHasNoEquals(o);
    IndexOfAfter(name, '=', v);
    assert a[2..][..|name|] == name && a[2..][|name| + 1..] == v;
    assert StartsWith(name, name);
  }

  /** "--name" is read back as the flag. */
  lemma TokenizeFlag(o: LongOption, tail: seq<string>)
    requires !TakesArgument(o)
    ensures Tokenize(["--" + OptionName(o)] + tail) == [Flag(o)] + Tokenize(tail)
  {
    var a := "--" + OptionName(o);
    var name := OptionName(o);
    assert ([a] + tail)[1..] == tail;
    assert a[2..] == name;
    NameHasNoEquals(o);
    assert IndexOf(name, '=') == |name|;
    assert name[..|name|] == name;
    assert StartsWith(name, name);
  }

  /** One rendered option is read back as itself. */
  lemma TokenizeOne(o: InstallOption, tail: seq<string>)
    requires !o.Unrecognized?
    ensures Tokenize([Render(o)] + tail) == [o] + Tokenize(tail)
  {
    match o
    case GsiSize(v) => TokenizeArgument(GsiSizeOption, v, tail);
    case UserdataSize(v) => TokenizeArgument(UserdataSizeOption, v, tail);
    case NoReboot => TokenizeFlag(NoRebootOption, tail);
    case Wipe => TokenizeFlag(WipeOption, tail);
  }

  /** Options written as "--name[=value]" are read back unchanged. */
  lemma {:induction false} TokenizeRender(opts: seq<InstallOption>)
    requires forall i :: 0 <= i < |opts| ==> !opts[i].Unrecognized?
    ensures Tokenize(RenderAll(opts)) == opts
    decreases |opts|
  {
    if opts != [] {
      var args := RenderAll(opts);
      assert args == [Render(opts[0])] + RenderAll(opts[1..]);
      TokenizeOne(opts[0], RenderAll(opts[1..]));
      TokenizeRender(opts[1..]);
      assert opts == [opts[0]] + opts[1..];
    }
  }

  /** What install goes on with: its four locals. */
  datatype InstallArgs = InstallArgs(gsiSize: int, userdataSize: int, wipe: bool, reboot: bool)

  /** The locals' initial values. */
  const Defaults: InstallArgs := InstallArgs(0, 0, false, true)

  /** A size that stops install with EX_USAGE: a gsi size that does not parse
      or is not positive, a userdata size that does not parse or is negative. */
  predicate BadSize(o: InstallOption)
  {
    match o
    case GsiSize(arg) => ParseInt(arg).None? || ParseInt(arg).value <= 0
    case UserdataSize(arg) => ParseInt(arg).None? || ParseInt(arg).value < 0
    case _ => false
  }

  /** One pass of install's switch; None is EX_USAGE.  A '?' changes nothing. */
  function ApplyOption(a: InstallArgs, o: InstallOption): (r: Option<InstallArgs>)
    ensures r.None? <==> BadSize(o)
  {
    match o
    case GsiSize(arg) =>
      var n := ParseInt(arg);
      if n.None? || n.value <= 0 then None else Some(a.(gsiSize := n.value))
    case UserdataSize(arg) =>
      var n := ParseInt(arg);
      if n.None? || n.value < 0 then None else Some(a.(userdataSize := n.value))
    case Wipe => Some(a.(wipe := true))
    case NoReboot => Some(a.(reboot := false))
    case Unrecognized => Some(a)
  }

  /** The switch applied to each option in turn, stopping at the first bad size. */
  function ApplyOptions(a: InstallArgs, opts: seq<InstallOption>): Option<InstallArgs>
    decreases |opts|
  {
    if opts == [] then Some(a)
    else
      match ApplyOption(a, opts[0])
      case None => None
      case Some(b) => ApplyOptions(b, opts[1..])
  }

  /** install's arguments after the option loop and the check that a gsi
      size was given; None is EX_USAGE. */
  function InstallArguments(opts: seq<InstallOption>): Option<InstallArgs>
  {
    match ApplyOptions(Defaults, opts)
    case None => None
    case Some(a) => if a.gsiSize <= 0 then None else Some(a)
  }

  /** The option loop stops exactly when some size is bad. */
  lemma {:induction false} ApplyOptionsStops(a: InstallArgs, opts: seq<InstallOption>)
    ensures ApplyOptions(a, opts).None? <==> exists i :: 0 <= i < |opts| && BadSize(opts[i])
    decreases |opts|
  {
    if opts != [] {
      match ApplyOption(a, opts[0])
      case None =>
      case Some(b) =>
        ApplyOptionsStops(b, opts[1..]);
        assert forall i :: 1 <= i < |opts| ==> opts[i] == opts[1..][i - 1];
    }
  }

  /** --wipe anywhere sets the wipe flag and --no-reboot anywhere clears the reboot flag. */
  lemma {:induction false} ApplyOptionsFlags(a: InstallArgs, opts: seq<InstallOption>)
    requires ApplyOptions(a, opts).Some?
    ensures ApplyOptions(a, opts).value.wipe == (a.wipe || exists i :: 0 <= i < |opts| && opts[i] == Wipe)
    ensures ApplyOptions(a, opts).value.reboot == (a.reboot && forall i :: 0 <= i < |opts| ==> opts[i] != NoReboot)
    decreases |opts|
  {
    if opts != [] {
      var b := ApplyOption(a, opts[0]).value;
      ApplyOptionsFlags(b, opts[1..]);
      assert forall i :: 1 <= i < |opts| ==> opts[i] == opts[1..][i - 1];
    }
  }

  /** The option that sets the gsi size (gsi) or the userdata size (!gsi). */
  predicate Sets(o: InstallOption, gsi: bool)
  {
    if gsi then o.GsiSize? else o.UserdataSize?
  }

  function Size(a: InstallArgs, gsi: bool): int
  {
    if gsi then a.gsiSize else a.userdataSize
  }

  /** Option i is the last one that sets the size. */
  predicate LastSets(opts: seq<InstallOption>, i: int, gsi: bool)
  {
    0 <= i < |opts| && Sets(opts[i], gsi) && forall j :: i < j < |opts| ==> !Sets(opts[j], gsi)
  }

  /** No option sets the size. */
  predicate NoneSets(opts: seq<InstallOption>, gsi: bool)
  {
    forall i :: 0 <= i < |opts| ==> !Sets(opts[i], gsi)
  }

  lemma LastSetsTail(opts: seq<InstallOption>, i: int, gsi: bool)
    requires 0 < i && LastSets(opts, i, gsi)
    ensures LastSets(opts[1..], i - 1, gsi) && opts[1..][i - 1] == opts[i]
  {
    forall j | i - 1 < j < |opts| - 1
      ensures !Sets(opts[1..][j], gsi)
    {
      assert opts[1..][j] == opts[j + 1];
    }
  }

  lemma NoneSetsTail(opts: seq<InstallOption>, gsi: bool)
    requires opts != [] && (NoneSets(opts, gsi) || LastSets(opts, 0, gsi))
    ensures NoneSets(opts[1..], gsi)
  {
    forall j | 0 <= j < |opts| - 1
      ensures !Sets(opts[1..][j], gsi)
    {
      assert opts[1..][j] == opts[j + 1];
    }
  }

  /** The last option that sets a size wins; without one the size is kept. */
  lemma {:induction false} ApplyOptionsSize(a: InstallArgs, opts: seq<InstallOption>, gsi: bool)
    requires ApplyOptions(a, opts).Some?
    ensures forall i :: LastSets(opts, i, gsi) ==> ParseInt(opts[i].arg) == Some(Size(ApplyOptions(a, opts).value, gsi))
    ensures NoneSets(opts, gsi) ==> Size(ApplyOptions(a, opts).value, gsi) == Size(a, gsi)
    decreases |opts|
  {
    if opts != [] {
      var b := ApplyOption(a, opts[0]).value;
      var r := ApplyOptions(a, opts).value;
      assert ApplyOptions(b, opts[1..]) == Some(r);
      ApplyOptionsSize(b, opts[1..], gsi);
      forall i | LastSets(opts, i, gsi)
        ensures ParseInt(opts[i].arg) == Some(Size(r, gsi))
      {
        if i == 0 {
          NoneSetsTail(opts, gsi);
          assert ParseInt(opts[0].arg) == Some(Size(b, gsi));
        } else {
          LastSetsTail(opts, i, gsi);
        }
      }
      if NoneSets(opts, gsi) {
        NoneSetsTail(opts, gsi);
        assert !Sets(opts[0], gsi);
        assert Size(b, gsi) == Size(a, gsi);
      }
    }
  }

  /** Some option sets the size: then there is a last one. */
  lemma LastSetting(opts: seq<InstallOption>, gsi: bool) returns (k: nat)
    requires !NoneSets(opts, gsi)
    ensures LastSets(opts, k, gsi)
  {
    k := |opts| - 1;
    while !Sets(opts[k], gsi)
      invariant k < |opts|
      invariant forall j :: k < j < |opts| ==> !Sets(opts[j], gsi)
      invariant exists i :: 0 <= i <= k && Sets(opts[i], gsi)
      decreases k
    {
      k := k - 1;
    }
  }

  /** install returns EX_USAGE exactly when a size is bad or no gsi size is given. */
  lemma InstallUsageCases(opts: seq<InstallOption>)
    ensures InstallArguments(opts).None? <==>
              (exists i :: 0 <= i < |opts| && BadSize(opts[i])) || (forall i :: 0 <= i < |opts| ==> !opts[i].GsiSize?)
  {
    ApplyOptionsStops(Defaults, opts);
    if ApplyOptions(Defaults, opts).Some? {
      ApplyOptionsSize(Defaults, opts, true);
      if !NoneSets(opts, true) {
        var k := LastSetting(opts, true);
        assert !BadSize(opts[k]);
      }
    }
  }

  /** What install goes on with: a positive gsi size and a userdata size that
      is not negative, each from the last option that gives it (the userdata
      size 0 when none does), wipe when --wipe appears, reboot unless
      --no-reboot does. */
  lemma InstallArgumentsMeaning(opts: seq<InstallOption>)
    requires InstallArguments(opts).Some?
    ensures var a := InstallArguments(opts).value;
      && a.gsiSize > 0 && a.userdataSize >= 0
      && (forall i :: LastSets(opts, i, true) ==> ParseInt(opts[i].arg) == Some(a.gsiSize))
      && (forall i :: LastSets(opts, i, false) ==> ParseInt(opts[i].arg) == Some(a.userdataSize))
      && (NoneSets(opts, false) ==> a.userdataSize == 0)
      && (a.wipe <==> exists i :: 0 <= i < |opts| && opts[i] == Wipe)
      && (a.reboot <==> forall i :: 0 <= i < |opts| ==> opts[i] != NoReboot)
  {
    ApplyOptionsStops(Defaults, opts);
    ApplyOptionsFlags(Defaults, opts);
    ApplyOptionsSize(Defaults, opts, true);
    ApplyOptionsSize(Defaults, opts, false);
    if !NoneSets(opts, false) {
      var k := LastSetting(opts, false);
      assert !BadSize(opts[k]);
    }
  }

  /** install's getopt loop over its locals; usage is the EX_USAGE return. */
  method ParseInstallOptions(opts: seq<InstallOption>) returns (args: InstallArgs, usage: bool)
    ensures usage <==> InstallArguments(opts).None?
    ensures !usage ==> InstallArguments(opts) == Some(args)
  {
    var gsiSize, userdataSize, wipe, reboot := 0, 0, false, true;
    var i := 0;
    while i < |opts|
      invariant 0 <= i <= |opts|
      invariant ApplyOptions(InstallArgs(gsiSize, userdataSize, wipe, reboot), opts[i..]) == ApplyOptions(Defaults, opts)
    {
      assert opts[i..][1..] == opts[i + 1..];
      match opts[i] {
        case GsiSize(arg) =>
          var n := ParseInt(arg);
          if n.None? || n.value <= 0 {
            return InstallArgs(gsiSize, userdataSize, wipe, reboot), true;
          }
          gsiSize := n.value;
        case UserdataSize(arg) =>
          var n := ParseInt(arg);
          if n.None? || n.value < 0 {
            return InstallArgs(gsiSize, userdataSize, wipe, reboot), true;
          }
          userdataSize := n.value;
        case Wipe =>
          wipe := true;
        case NoReboot =>
          reboot := false;
        case Unrecognized =>
      }
      i := i + 1;
    }
    assert opts[i..] == [];
    args := InstallArgs(gsiSize, userdataSize, wipe, reboot);
    usage := gsiSize <= 0;
  }

  // ---------------------------------------------------------------------
  // The commands

  /** The service's answers as the tool receives them; None where the binder
      call itself fails. */
  datatype Replies = Replies(
    running: Option<bool>,
    installed: Option<bool>,
    installing: Option<bool>,
    startStatus: Option<InstallStatus>,
    committed: Option<bool>,
    bootableStatus: Option<InstallStatus>,
    removed: Option<bool>,
    disabled: Option<bool>,
    /** dup(1) of the descriptor the image is read from succeeds. */
    dupOk: bool,
    /** Setting the reboot property succeeds. */
    rebootOk: bool)

  /** What the tool asks of the service, and the reboot request. */
  datatype Call =
    | IsGsiRunning
    | IsGsiInstalled
    | IsGsiInstallInProgress
    | StartGsiInstall(gsiSize: int, userdataSize: int, wipe: bool)
    | CommitGsiChunkFromStream(size: int)
    | SetGsiBootable
    | RemoveGsiInstall
    | DisableGsiInstall
    | Reboot

  /** A call that changes nothing. */
  predicate IsQuery(c: Call)
  {
    c.IsGsiRunning? || c.IsGsiInstalled? || c.IsGsiInstallInProgress?
  }

  /** A run of a command: its exit code, its calls in order, and the status word it printed ("" for none). */
  datatype Run = Run(code: int, calls: seq<Call>, word: string)

  /** Install: the option loop, then a refusal within a live GSI, then the
      install, the streamed image, the bootable flag and the reboot; every
      failure after the options is EX_SOFTWARE.  A failed running query
      reads as not running, a failed commit as not committed. */
  function InstallCommand(argv: seq<string>, r: Replies): (run: Run)
    requires |argv| >= 1
    ensures run.code in {ExOk, ExUsage, ExSoftware} && run.word == ""
    ensures run.calls != [] ==> run.calls[0] == IsGsiRunning
    ensures Reboot in run.calls ==> run.code != ExUsage && SetGsiBootable in run.calls
  {
    match InstallArguments(Tokenize(argv[1..]))
    case None => Run(ExUsage, [], "")
    case Some(a) =>
      if r.running.GetOr(false) || !r.dupOk then Run(ExSoftware, [IsGsiRunning], "")
      else
        var started := [IsGsiRunning, StartGsiInstall(a.gsiSize, a.userdataSize, a.wipe)];
        if r.startStatus != Some(InstallOk) then Run(ExSoftware, started, "")
        else
          var committed := started + [CommitGsiChunkFromStream(a.gsiSize)];
          if !r.committed.GetOr(false) then Run(ExSoftware, committed, "")
          else
            var bootable := committed + [SetGsiBootable];
            if r.bootableStatus != Some(InstallOk) then Run(ExSoftware, bootable, "")
            else if a.reboot then Run(if r.rebootOk then ExOk else ExSoftware, bootable + [Reboot], "")
            else Run(ExOk, bootable, "")
  }

  /** install's exit code is EX_USAGE exactly when its options are rejected, and then nothing is asked of the service. */
  lemma InstallUsage(argv: seq<string>, r: Replies)
    requires |argv| >= 1
    ensures InstallCommand(argv, r).code == ExUsage <==> InstallArguments(Tokenize(argv[1..])).None?
    ensures InstallCommand(argv, r).code == ExUsage ==> InstallCommand(argv, r).calls == []
  {
  }

  /** Within a live GSI install is refused before any install is started. */
  lemma InstallRefusedWhenRunning(argv: seq<string>, r: Replies)
    requires |argv| >= 1 && r.running == Some(true)
    ensures InstallCommand(argv, r).code in {ExUsage, ExSoftware}
    ensures forall c :: c in InstallCommand(argv, r).calls ==> IsQuery(c)
  {
  }

  /** A successful install started with the parsed sizes and wipe flag,
      streamed exactly the gsi size, made the image bootable and rebooted
      unless told not to; and with every reply a success it is successful. */
  lemma InstallSucceeds(argv: seq<string>, r: Replies)
    requires |argv| >= 1
    ensures var run := InstallCommand(argv, r);
      run.code == ExOk <==>
        && InstallArguments(Tokenize(argv[1..])).Some?
        && r.running != Some(true) && r.dupOk && r.startStatus == Some(InstallOk) && r.committed == Some(true)
        && r.bootableStatus == Some(InstallOk) && (InstallArguments(Tokenize(argv[1..])).value.reboot ==> r.rebootOk)
    ensures var run := InstallCommand(argv, r);
      run.code == ExOk ==>
        var a := InstallArguments(Tokenize(argv[1..])).value;
        run.calls == [IsGsiRunning, StartGsiInstall(a.gsiSize, a.userdataSize, a.wipe), CommitGsiChunkFromStream(a.gsiSize), SetGsiBootable]
                     + (if a.reboot then [Reboot] else [])
  {
  }

  /** Wipe: removes the installation; extra arguments are EX_USAGE. */
  function WipeCommand(argc: int, r: Replies): (run: Run)
    ensures run.code == ExOk <==> argc <= 1 && r.removed == Some(true)
    ensures run.code == ExUsage <==> argc > 1
    ensures run.calls == if argc > 1 then [] else [RemoveGsiInstall]
  {
    if argc > 1 then Run(ExUsage, [], "")
    else if r.removed != Some(true) then Run(ExSoftware, [RemoveGsiInstall], "")
    else Run(ExOk, [RemoveGsiInstall], "")
  }

  /** Status: "running" if a GSI is running, else "installed" if one is
      installed, else "normal"; a failed query is EX_SOFTWARE and extra
      arguments are EX_USAGE. */
  function StatusCommand(argc: int, r: Replies): (run: Run)
    ensures run.code in {ExOk, ExUsage, ExSoftware}
    ensures run.word != "" ==> run.code == ExOk && run.calls != [] && run.calls[0] == IsGsiRunning
  {
    if argc > 1 then Run(ExUsage, [], "")
    else
      match r.running
      case None => Run(ExSoftware, [IsGsiRunning], "")
      case Some(true) => Run(ExOk, [IsGsiRunning], "running")
      case Some(false) =>
        match r.installed
        case None => Run(ExSoftware, [IsGsiRunning, IsGsiInstalled], "")
        case Some(installed) => Run(ExOk, [IsGsiRunning, IsGsiInstalled], if installed then "installed" else "normal")
  }

  /** status only asks; it succeeds exactly when it prints one of its three
      words, and which word follows the order running, installed, normal. */
  lemma StatusReports(argc: int, r: Replies)
    ensures var run := StatusCommand(argc, r); forall c :: c in run.calls ==> IsQuery(c)
    ensures var run := StatusCommand(argc, r); run.code == ExUsage <==> argc > 1
    ensures var run := StatusCommand(argc, r); run.code == ExOk <==> run.word in {"running", "installed", "normal"}
    ensures var run := StatusCommand(argc, r); run.word == "running" <==> argc <= 1 && r.running == Some(true)
    ensures var run := StatusCommand(argc, r); run.word == "installed" <==> argc <= 1 && r.running == Some(false) && r.installed == Some(true)
    ensures var run := StatusCommand(argc, r); run.word == "normal" <==> argc <= 1 && r.running == Some(false) && r.installed == Some(false)
  {
  }

  /** Enable: needs an installed GSI and no install in progress, then sets it
      bootable.  Failed queries read as not installed and not installing. */
  function EnableCommand(argc: int, r: Replies): (run: Run)
    ensures run.code in {ExOk, ExUsage, ExSoftware} && run.word == ""
    ensures run.calls != [] ==> run.calls[0] == IsGsiInstalled
    ensures SetGsiBootable in run.calls ==> run.calls == [IsGsiInstalled, IsGsiInstallInProgress, SetGsiBootable]
  {
    if argc > 1 then Run(ExUsage, [], "")
    else if !r.installed.GetOr(false) then Run(ExSoftware, [IsGsiInstalled], "")
    else if r.installing.GetOr(false) then Run(ExSoftware, [IsGsiInstalled, IsGsiInstallInProgress], "")
    else
      var calls := [IsGsiInstalled, IsGsiInstallInProgress, SetGsiBootable];
      Run(if r.bootableStatus == Some(InstallOk) then ExOk else ExSoftware, calls, "")
  }

  /** Disable: needs no install in progress, then disables the GSI. */
  function DisableCommand(argc: int, r: Replies): (run: Run)
    ensures run.code in {ExOk, ExUsage, ExSoftware} && run.word == ""
    ensures run.calls != [] ==> run.calls[0] == IsGsiInstallInProgress
    ensures DisableGsiInstall in run.calls ==> run.calls == [IsGsiInstallInProgress, DisableGsiInstall]
  {
    if argc > 1 then Run(ExUsage, [], "")
    else if r.installing.GetOr(false) then Run(ExSoftware, [IsGsiInstallInProgress], "")
    else Run(if r.disabled.GetOr(false) then ExOk else ExSoftware, [IsGsiInstallInProgress, DisableGsiInstall], "")
  }

  /** enable sets a GSI bootable only when one is installed and none is being
      installed; disable disables only when none is being installed; each
      succeeds exactly when that call does. */
  lemma EnableDisableGuards(argc: int, r: Replies)
    ensures SetGsiBootable in EnableCommand(argc, r).calls <==> argc <= 1 && r.installed == Some(true) && r.installing != Some(true)
    ensures EnableCommand(argc, r).code == ExOk <==> SetGsiBootable in EnableCommand(argc, r).calls && r.bootableStatus == Some(InstallOk)
    ensures DisableGsiInstall in DisableCommand(argc, r).calls <==> argc <= 1 && r.installing != Some(true)
    ensures DisableCommand(argc, r).code == ExOk <==> DisableGsiInstall in DisableCommand(argc, r).calls && r.disabled == Some(true)
    ensures EnableCommand(argc, r).code == ExUsage <==> argc > 1
    ensures DisableCommand(argc, r).code == ExUsage <==> argc > 1
  {
  }

  /** The commands main knows. */
  predicate IsCommand(command: string)
  {
    command in {"disable", "enable", "install", "wipe", "status"}
  }

  /** main: the service is looked up (None: it never appeared); a command is
      expected; every command but status needs root; an unknown command is
      EX_USAGE; otherwise the command runs on argv from the command on. */
  function GsiTool(argv: seq<string>, uid: int, service: Option<Replies>): (run: Run)
    ensures run.code in {ExOk, ExUsage, ExSoftware, ExNoPerm}
    ensures run.word in {"", "running", "installed", "normal"}
    ensures run.word != "" ==> |argv| > 1 && argv[1] == "status"
  {
    if service.None? then Run(ExNoPerm, [], "")
    else if |argv| <= 1 then Run(ExUsage, [], "")
    else
      var command := argv[1];
      if command != "status" && uid != RootUid then Run(ExNoPerm, [], "")
      else
        var args := argv[1..];
        var r := service.value;
        if command == "disable" then DisableCommand(|args|, r)
        else if command == "enable" then EnableCommand(|args|, r)
        else if command == "install" then InstallCommand(args, r)
        else if command == "wipe" then WipeCommand(|args|, r)
        else if command == "status" then StatusCommand(|args|, r)
        else Run(ExUsage, [], "")
  }

  /** main's rules: no service is EX_NOPERM, no command EX_USAGE, an unknown
      command EX_USAGE (EX_NOPERM first when not root), and a user other than
      root can run status only, so it never changes anything. */
  lemma GsiToolRules(argv: seq<string>, uid: int, service: Option<Replies>)
    ensures service.None? ==> GsiTool(argv, uid, service).code == ExNoPerm
    ensures service.Some? && |argv| <= 1 ==> GsiTool(argv, uid, service).code == ExUsage
    ensures service.Some? && |argv| > 1 && !IsCommand(argv[1]) ==>
              GsiTool(argv, uid, service).code == (if uid == RootUid then ExUsage else ExNoPerm)
    ensures uid != RootUid ==>
              && (forall c :: c in GsiTool(argv, uid, service).calls ==> IsQuery(c))
              && (GsiTool(argv, uid, service).code == ExNoPerm <== service.Some? && |argv| > 1 && argv[1] != "status")
    ensures service.Some? && |argv| > 1 && (argv[1] == "status" || uid == RootUid) && IsCommand(argv[1]) ==>
              GsiTool(argv, uid, service).calls != [] || GsiTool(argv, uid, service).code == ExUsage
  {
    if service.Some? && |argv| > 1 && argv[1] == "status" {
      StatusReports(|argv[1..]|, service.value);
    }
  }
}
