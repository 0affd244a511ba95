/**
 * The argument checks of the three subcommands `cmd_extract`, `cmd_inspect`
 * and `cmd_embed`: each declares its options, runs `parse_options` over its
 * arguments (not skipping the first, stopping at the first argument it does
 * not recognise), and then either exits with a status or hands the input
 * path and the option values to the operation the command performs.
 */
module Commands {
  import opened Common
  import opened ParseOptions

  // ---------------------------------------------------------------------------
  // cmd_extract
  // ---------------------------------------------------------------------------

  /** `-o`/`--output <file>`, `--hexdump`, `-h`/`--help`. */
  const ExtractOptions: seq<Opt> := [
    Opt('o', Some("output"), "file", StringT, true),
    Opt('\0', Some("hexdump"), "", BoolT, true),
    Opt('h', Some("help"), "", BoolT, true)
  ]

  /** How `cmd_extract` ends: an exit status after usage, or a call of `extract`. */
  datatype ExtractAction =
    | ExtractExit(status: int)
    | RunExtract(input: string, output: Option<string>, hexdump: bool)

  /** What `cmd_extract` does with its arguments. */
  function ExtractCommand(args: seq<string>, parseInt: IntParser): (a: ExtractAction)
    ensures a.ExtractExit? ==> a.status == 0 || a.status == 1
    ensures a.RunExtract? ==> |args| > 0 && a.input == args[|args| - 1]
  {
    var p := Parse(args, ExtractOptions, parseInt, false, true);
    StopLeavesTail(args, ExtractOptions, parseInt, []);
    if FlagSet(p.effects, 2) then ExtractExit(0)
    else if |p.args| != 1 then ExtractExit(1)
    else RunExtract(p.args[0], LastString(p.effects, 0), FlagSet(p.effects, 1))
  }

  /** `cmd_extract`: parse the options in place, then check what is left. */
  method CmdExtract(argc: nat, argv: array<Option<string>>, parseInt: IntParser, ghost args: seq<string>)
      returns (a: ExtractAction)
    requires argc == |args| && ArgvHolds(argv[..], args)
    modifies argv
    ensures a == ExtractCommand(args, parseInt)
    ensures ArgvHolds(argv[..], Parse(args, ExtractOptions, parseInt, false, true).args)
  {
    var newLen, effects, failure := ParseOptions.ParseOptions(argc, argv, ExtractOptions, parseInt, false, true, args);
    if SetFlag(2) in effects {
      return ExtractExit(0);
    }
    if newLen > 1 {
      return ExtractExit(1);
    }
    if newLen < 1 {
      return ExtractExit(1);
    }
    return RunExtract(argv[0].value, LastString(effects, 0), SetFlag(1) in effects);
  }

  // ---------------------------------------------------------------------------
  // cmd_inspect
  // ---------------------------------------------------------------------------

  /** `-i`/`--interactive`, `--hexdump`, `--filter <chunk type>` (repeatable), `--critical`, `--ancillary`, `-h`/`--help`. */
  const InspectOptions: seq<Opt> := [
    Opt('i', Some("interactive"), "", BoolT, true),
    Opt('\0', Some("hexdump"), "", BoolT, true),
    Opt('\0', Some("filter"), "chunk type", StringListT, true),
    Opt('\0', Some("critical"), "", BoolT, true),
    Opt('\0', Some("ancillary"), "", BoolT, true),
    Opt('h', Some("help"), "", BoolT, true)
  ]

  /**
   * How `cmd_inspect` ends: an exit status after usage, the interactive
   * inspector (which is not part of this model) on the input, or
   * `print_png_summary` with the filter list and flags.
   */
  datatype InspectAction =
    | InspectExit(status: int)
    | RunInteractive(input: string)
    | RunSummary(input: string, filters: seq<string>, hexdump: bool, critical: bool, ancillary: bool)

  /** What `cmd_inspect` does with its arguments. */
  function InspectCommand(args: seq<string>, parseInt: IntParser): (a: InspectAction)
    ensures a.InspectExit? ==> a.status == 0 || a.status == 1
    ensures !a.InspectExit? ==> |args| > 0 && a.input == args[|args| - 1]
  {
    var p := Parse(args, InspectOptions, parseInt, false, true);
    StopLeavesTail(args, InspectOptions, parseInt, []);
    if FlagSet(p.effects, 5) then InspectExit(0)
    else if |p.args| != 1 then InspectExit(1)
    else if FlagSet(p.effects, 0) then RunInteractive(p.args[0])
    else RunSummary(p.args[0], Pushed(p.effects, 2), FlagSet(p.effects, 1), FlagSet(p.effects, 3), FlagSet(p.effects, 4))
  }

  /** `cmd_inspect`: parse the options in place, then check what is left. */
  method CmdInspect(argc: nat, argv: array<Option<string>>, parseInt: IntParser, ghost args: seq<string>)
      returns (a: InspectAction)
    requires argc == |args| && ArgvHolds(argv[..], args)
    modifies argv
    ensures a == InspectCommand(args, parseInt)
    ensures ArgvHolds(argv[..], Parse(args, InspectOptions, parseInt, false, true).args)
  {
    var newLen, effects, failure := ParseOptions.ParseOptions(argc, argv, InspectOptions, parseInt, false, true, args);
    if SetFlag(5) in effects {
      return InspectExit(0);
    }
    if newLen > 1 {
      return InspectExit(1);
    }
    if newLen < 1 {
      return InspectExit(1);
    }
    if SetFlag(0) in effects {
      return RunInteractive(argv[0].value);
    }
    return RunSummary(argv[0].value, Pushed(effects, 2), SetFlag(1) in effects, SetFlag(3) in effects, SetFlag(4) in effects);
  }

  // ---------------------------------------------------------------------------
  // cmd_embed
  // ---------------------------------------------------------------------------

  /** `-m`/`--message <message>`, `-f`/`--file <file>`, `-o`/`--output <file>`, `-q`/`--quiet`, `-h`/`--help`. */
  const EmbedOptions: seq<Opt> := [
    Opt('m', Some("message"), "message", StringT, true),
    Opt('f', Some("file"), "file", StringT, true),
    Opt('o', Some("output"), "file", StringT, true),
    Opt('q', Some("quiet"), "", BoolT, true),
    Opt('h', Some("help"), "", BoolT, true)
  ]

  /**
   * How `cmd_embed` ends: an exit status after usage, `embed_file`, or
   * `embed_message` (with no message, the message is read from standard
   * input). Both operations resolve the output path the same way.
   */
  datatype EmbedAction =
    | EmbedExit(status: int)
    | RunEmbedFile(input: string, outputPath: string, fileToEmbed: string, quiet: bool)
    | RunEmbedMessage(input: string, outputPath: string, message: Option<string>, quiet: bool)

  /** What `cmd_embed` does with its arguments. */
  function EmbedCommand(args: seq<string>, parseInt: IntParser): (a: EmbedAction)
    ensures a.EmbedExit? ==> a.status == 0 || a.status == 1
    ensures !a.EmbedExit? ==> |args| > 0 && a.input == args[|args| - 1]
  {
    var p := Parse(args, EmbedOptions, parseInt, false, true);
    StopLeavesTail(args, EmbedOptions, parseInt, []);
    var message, file, output, quiet := LastString(p.effects, 0), LastString(p.effects, 1), LastString(p.effects, 2), FlagSet(p.effects, 3);
    if FlagSet(p.effects, 4) then EmbedExit(0)
    else if |p.args| != 1 then EmbedExit(1)
    else if file.Some? && message.Some? then EmbedExit(1)
    else if file.Some? then RunEmbedFile(p.args[0], OutputPath(p.args[0], output, ".steg"), file.value, quiet)
    else RunEmbedMessage(p.args[0], OutputPath(p.args[0], output, ".steg"), message, quiet)
  }

  /** `cmd_embed`: parse the options in place, then check what is left. */
  method CmdEmbed(argc: nat, argv: array<Option<string>>, parseInt: IntParser, ghost args: seq<string>)
      returns (a: EmbedAction)
    requires argc == |args| && ArgvHolds(argv[..], args)
    modifies argv
    ensures a == EmbedCommand(args, parseInt)
    ensures ArgvHolds(argv[..], Parse(args, EmbedOptions, parseInt, false, true).args)
  {
    var newLen, effects, failure := ParseOptions.ParseOptions(argc, argv, EmbedOptions, parseInt, false, true, args);
    var message, file, output := LastString(effects, 0), LastString(effects, 1), LastString(effects, 2);
    var quiet := SetFlag(3) in effects;
    if SetFlag(4) in effects {
      return EmbedExit(0);
    }
    if newLen != 1 {
      return EmbedExit(1);
    }
    if file.Some? && message.Some? {
      return EmbedExit(1);
    }
    if file.Some? {
      return RunEmbedFile(argv[0].value, OutputPath(argv[0].value, output, ".steg"), file.value, quiet);
    }
    return RunEmbedMessage(argv[0].value, OutputPath(argv[0].value, output, ".steg"), message, quiet);
  }

  // ---------------------------------------------------------------------------
  // How the parse treats the argument lists the commands meet
  // ---------------------------------------------------------------------------

  /** None of the commands declares a subcommand. */
  lemma {:induction false} NoSubcommand(arg: string, options: seq<Opt>)
    requires forall m :: 0 <= m < |options| ==> options[m].otype != CommandT
    ensures SubcommandFrom(arg, options, 0).None?
  {
  }

  /**
   * An argument that is not an option ends the parse: it and everything
   * after it are left, after the writes already made.
   */
  lemma StopsAtOperand(args: seq<string>, i: nat, options: seq<Opt>, parseInt: IntParser, effects: seq<Effect>)
    requires i < |args| && !IsDashed(args[i])
    requires forall m :: 0 <= m < |options| ==> options[m].otype != CommandT
    ensures ParseFrom(args, options, parseInt, true, i, effects) == Parsed(args, effects)
  {
    NoSubcommand(args[i], options);
    StopAtOperand(args, options, parseInt, true, i, effects);
  }

  /** `-c value` for a string descriptor removes both arguments, stores the value, and the loop goes on. */
  lemma ShortValueStep(c: char, v: string, rest: seq<string>, options: seq<Opt>, parseInt: IntParser, effects: seq<Effect>)
    requires c != '-' && FirstLetter(options, c, 0).Some?
    requires options[FirstLetter(options, c, 0).value].otype == StringT
    ensures ParseFrom([['-', c], v] + rest, options, parseInt, true, 0, effects)
         == ParseFrom(rest, options, parseInt, true, 0, effects + [SetString(FirstLetter(options, c, 0).value, v)])
  {
    var args := [['-', c], v] + rest;
    ShortSeparateValue(args, 0, options, parseInt, c);
    ParseFromStep(args, options, parseInt, true, 0, effects);
    assert Shift(args, 0, 2) == rest;
  }

  /** `-c` for a boolean descriptor removes the argument, sets the flag, and the loop goes on. */
  lemma ShortFlagStep(c: char, rest: seq<string>, options: seq<Opt>, parseInt: IntParser, effects: seq<Effect>)
    requires c != '-' && FirstLetter(options, c, 0).Some?
    requires options[FirstLetter(options, c, 0).value].otype == BoolT
    ensures ParseFrom([['-', c]] + rest, options, parseInt, true, 0, effects)
         == ParseFrom(rest, options, parseInt, true, 0, effects + [SetFlag(FirstLetter(options, c, 0).value)])
  {
    var args := [['-', c]] + rest;
    assert args[0][1] == c;
    assert AllBools(options, args[0], 1);
    assert BoolEffects(options, args[0], 2) == [];
    assert BoolEffects(options, args[0], 1) == [SetFlag(FirstLetter(options, c, 0).value)];
    ShortCombinedBools(args, 0, options, parseInt);
    ParseFromStep(args, options, parseInt, true, 0, effects);
    assert Shift(args, 0, 1) == rest;
  }

  /** `--name` for a boolean descriptor removes the argument, sets the flag, and the loop goes on. */
  lemma LongFlagStep(name: string, rest: seq<string>, options: seq<Opt>, parseInt: IntParser, k: nat, effects: seq<Effect>)
    requires name != "" && k < |options| && options[k].otype == BoolT && options[k].lFlag == Some(name)
    requires forall m :: 0 <= m < k ==> LongUnrelated(options, m, name)
    ensures ParseFrom(["--" + name] + rest, options, parseInt, true, 0, effects)
         == ParseFrom(rest, options, parseInt, true, 0, effects + [SetFlag(k)])
  {
    var args := ["--" + name] + rest;
    LongBoolFlag(args, 0, options, parseInt, k, name);
    ParseFromStep(args, options, parseInt, true, 0, effects);
    assert Shift(args, 0, 1) == rest;
  }

  /** `--name value` for a list descriptor removes both arguments, pushes the value, and the loop goes on. */
  lemma LongListStep(name: string, v: string, rest: seq<string>, options: seq<Opt>, parseInt: IntParser, k: nat, effects: seq<Effect>)
    requires name != "" && k < |options| && options[k].otype == StringListT && options[k].lFlag == Some(name)
    requires forall m :: 0 <= m < k ==> LongUnrelated(options, m, name)
    ensures ParseFrom(["--" + name, v] + rest, options, parseInt, true, 0, effects)
         == ParseFrom(rest, options, parseInt, true, 0, effects + [PushString(k, v)])
  {
    var args := ["--" + name, v] + rest;
    LongSeparateValue(args, 0, options, parseInt, k, name);
    ParseFromStep(args, options, parseInt, true, 0, effects);
    assert Shift(args, 0, 2) == rest;
  }

  /** A boolean `--name` given first is among the writes of the whole parse, whatever follows it. */
  lemma LongFlagFirst(name: string, rest: seq<string>, options: seq<Opt>, parseInt: IntParser, k: nat)
    requires name != "" && k < |options| && options[k].otype == BoolT && options[k].lFlag == Some(name)
    requires forall m :: 0 <= m < k ==> LongUnrelated(options, m, name)
    ensures FlagSet(Parse(["--" + name] + rest, options, parseInt, false, true).effects, k)
  {
    LongFlagStep(name, rest, options, parseInt, k, []);
    assert [] + [SetFlag(k)] == [SetFlag(k)];
    var e := Parse(["--" + name] + rest, options, parseInt, false, true).effects;
    assert e[0] == SetFlag(k);
  }

  /** Proof helper: names that differ in their first letter are not prefixes of each other. */
  lemma NotPrefix(a: string, b: string)
    requires |a| > 0 && |b| > 0 && a[0] != b[0]
    ensures !(a <= b)
  {
  }

  // ---------------------------------------------------------------------------
  // Properties of cmd_extract
  // ---------------------------------------------------------------------------

  lemma ExtractHasNoSubcommand()
    ensures forall m :: 0 <= m < |ExtractOptions| ==> ExtractOptions[m].otype != CommandT
  {
  }

  /** No arguments at all: usage, status 1. */
  lemma ExtractNothing(parseInt: IntParser)
    ensures ExtractCommand([], parseInt) == ExtractExit(1)
  {
  }

  /** A lone file: extract it to the default path, without a hexdump. */
  lemma ExtractLoneFile(f: string, parseInt: IntParser)
    requires !IsDashed(f)
    ensures ExtractCommand([f], parseInt) == RunExtract(f, None, false)
  {
    ExtractHasNoSubcommand();
    StopsAtOperand([f], 0, ExtractOptions, parseInt, []);
  }

  /** Anything after the file, options included, is an unknown option: usage, status 1. */
  lemma ExtractFileThenMore(f: string, rest: seq<string>, parseInt: IntParser)
    requires !IsDashed(f) && rest != []
    ensures ExtractCommand([f] + rest, parseInt) == ExtractExit(1)
  {
    ExtractHasNoSubcommand();
    StopsAtOperand([f] + rest, 0, ExtractOptions, parseInt, []);
  }

  /** `--help` first: usage, status 0, whatever follows. */
  lemma ExtractHelp(rest: seq<string>, parseInt: IntParser)
    ensures ExtractCommand(["--help"] + rest, parseInt) == ExtractExit(0)
  {
    NotPrefix("output", "help");
    assert LongUnrelated(ExtractOptions, 1, "help");
    assert "--" + "help" == "--help";
    assert ["--help"] + rest == ["--" + "help"] + rest;
    LongFlagFirst("help", rest, ExtractOptions, parseInt, 2);
  }

  /** `--hexdump <file>`: extract with a hexdump and no output path given. */
  lemma ExtractHexdump(f: string, parseInt: IntParser)
    requires !IsDashed(f)
    ensures ExtractCommand(["--hexdump", f], parseInt) == RunExtract(f, None, true)
  {
    NotPrefix("output", "hexdump");
    assert "--" + "hexdump" == "--hexdump";
    assert ["--hexdump", f] == ["--" + "hexdump"] + [f];
    LongFlagStep("hexdump", [f], ExtractOptions, parseInt, 1, []);
    assert [] + [SetFlag(1)] == [SetFlag(1)];
    ExtractHasNoSubcommand();
    StopsAtOperand([f], 0, ExtractOptions, parseInt, [SetFlag(1)]);
    assert Parse(["--hexdump", f], ExtractOptions, parseInt, false, true) == Parsed([f], [SetFlag(1)]);
  }

  /** `-o <path> <file>`: extract to the given path. */
  lemma ExtractOutput(o: string, f: string, parseInt: IntParser)
    requires !IsDashed(f)
    ensures ExtractCommand(["-o", o, f], parseInt) == RunExtract(f, Some(o), false)
  {
    assert FirstLetter(ExtractOptions, 'o', 0) == Some(0);
    assert ["-o", o, f] == [['-', 'o'], o] + [f];
    ShortValueStep('o', o, [f], ExtractOptions, parseInt, []);
    assert [] + [SetString(0, o)] == [SetString(0, o)];
    ExtractHasNoSubcommand();
    StopsAtOperand([f], 0, ExtractOptions, parseInt, [SetString(0, o)]);
    assert Parse(["-o", o, f], ExtractOptions, parseInt, false, true) == Parsed([f], [SetString(0, o)]);
  }

  // ---------------------------------------------------------------------------
  // Properties of cmd_inspect
  // ---------------------------------------------------------------------------

  lemma InspectHasNoSubcommand()
    ensures forall m :: 0 <= m < |InspectOptions| ==> InspectOptions[m].otype != CommandT
  {
  }

  /** No arguments at all: usage, status 1. */
  lemma InspectNothing(parseInt: IntParser)
    ensures InspectCommand([], parseInt) == InspectExit(1)
  {
  }

  /** A lone file: the summary of every chunk, without hexdumps. */
  lemma InspectLoneFile(f: string, parseInt: IntParser)
    requires !IsDashed(f)
    ensures InspectCommand([f], parseInt) == RunSummary(f, [], false, false, false)
  {
    InspectHasNoSubcommand();
    StopsAtOperand([f], 0, InspectOptions, parseInt, []);
  }

  /** Anything after the file is an unknown option: usage, status 1. */
  lemma InspectFileThenMore(f: string, rest: seq<string>, parseInt: IntParser)
    requires !IsDashed(f) && rest != []
    ensures InspectCommand([f] + rest, parseInt) == InspectExit(1)
  {
    InspectHasNoSubcommand();
    StopsAtOperand([f] + rest, 0, InspectOptions, parseInt, []);
  }

  /** `--help` first: usage, status 0, whatever follows. */
  lemma InspectHelp(rest: seq<string>, parseInt: IntParser)
    ensures InspectCommand(["--help"] + rest, parseInt) == InspectExit(0)
  {
    NotPrefix("interactive", "help");
    NotPrefix("filter", "help");
    NotPrefix("critical", "help");
    NotPrefix("ancillary", "help");
    assert LongUnrelated(InspectOptions, 1, "help");
    assert "--" + "help" == "--help";
    assert ["--help"] + rest == ["--" + "help"] + rest;
    LongFlagFirst("help", rest, InspectOptions, parseInt, 5);
  }

  /** `-i <file>`: the interactive inspector instead of the summary. */
  lemma InspectInteractive(f: string, parseInt: IntParser)
    requires !IsDashed(f)
    ensures InspectCommand(["-i", f], parseInt) == RunInteractive(f)
  {
    assert FirstLetter(InspectOptions, 'i', 0) == Some(0);
    assert ["-i", f] == [['-', 'i']] + [f];
    ShortFlagStep('i', [f], InspectOptions, parseInt, []);
    assert [] + [SetFlag(0)] == [SetFlag(0)];
    InspectHasNoSubcommand();
    StopsAtOperand([f], 0, InspectOptions, parseInt, [SetFlag(0)]);
    assert Parse(["-i", f], InspectOptions, parseInt, false, true) == Parsed([f], [SetFlag(0)]);
  }

  /** `--filter <type> <file>`: the summary restricted to that chunk type. */
  lemma InspectFilter(t: string, f: string, parseInt: IntParser)
    requires !IsDashed(f)
    ensures InspectCommand(["--filter", t, f], parseInt) == RunSummary(f, [t], false, false, false)
  {
    InspectFilterParse(t, f, parseInt);
    assert Pushed([PushString(2, t)], 2) == [t];
  }

  /** The parse behind `InspectFilter`: the type pushed, the file left. */
  lemma InspectFilterParse(t: string, f: string, parseInt: IntParser)
    requires !IsDashed(f)
    ensures Parse(["--filter", t, f], InspectOptions, parseInt, false, true) == Parsed([f], [PushString(2, t)])
  {
    NotPrefix("interactive", "filter");
    NotPrefix("hexdump", "filter");
    assert "--" + "filter" == "--filter";
    assert ["--filter", t, f] == ["--" + "filter", t] + [f];
    LongListStep("filter", t, [f], InspectOptions, parseInt, 2, []);
    assert [] + [PushString(2, t)] == [PushString(2, t)];
    InspectHasNoSubcommand();
    StopsAtOperand([f], 0, InspectOptions, parseInt, [PushString(2, t)]);
  }

  /** `--critical <file>`: the summary of the critical chunks only. */
  lemma InspectCritical(f: string, parseInt: IntParser)
    requires !IsDashed(f)
    ensures InspectCommand(["--critical", f], parseInt) == RunSummary(f, [], false, true, false)
  {
    InspectCriticalParse(f, parseInt);
    assert Pushed([SetFlag(3)], 2) == [];
  }

  /** The parse behind `InspectCritical`: the flag written, the file left. */
  lemma InspectCriticalParse(f: string, parseInt: IntParser)
    requires !IsDashed(f)
    ensures Parse(["--critical", f], InspectOptions, parseInt, false, true) == Parsed([f], [SetFlag(3)])
  {
    NotPrefix("interactive", "critical");
    NotPrefix("hexdump", "critical");
    NotPrefix("filter", "critical");
    assert "--" + "critical" == "--critical";
    assert ["--critical", f] == ["--" + "critical"] + [f];
    LongFlagStep("critical", [f], InspectOptions, parseInt, 3, []);
    assert [] + [SetFlag(3)] == [SetFlag(3)];
    InspectHasNoSubcommand();
    StopsAtOperand([f], 0, InspectOptions, parseInt, [SetFlag(3)]);
  }

  // ---------------------------------------------------------------------------
  // Properties of cmd_embed
  // ---------------------------------------------------------------------------

  lemma EmbedHasNoSubcommand()
    ensures forall m :: 0 <= m < |EmbedOptions| ==> EmbedOptions[m].otype != CommandT
  {
  }

  /** No arguments at all: usage, status 1. */
  lemma EmbedNothing(parseInt: IntParser)
    ensures EmbedCommand([], parseInt) == EmbedExit(1)
  {
  }

  /** A lone file: embed the message read from standard input into `<file>.steg`. */
  lemma EmbedLoneFile(f: string, parseInt: IntParser)
    requires !IsDashed(f)
    ensures EmbedCommand([f], parseInt) == RunEmbedMessage(f, f + ".steg", None, false)
  {
    EmbedHasNoSubcommand();
    StopsAtOperand([f], 0, EmbedOptions, parseInt, []);
  }

  /** Anything after the file is an unknown option: usage, status 1. */
  lemma EmbedFileThenMore(f: string, rest: seq<string>, parseInt: IntParser)
    requires !IsDashed(f) && rest != []
    ensures EmbedCommand([f] + rest, parseInt) == EmbedExit(1)
  {
    EmbedHasNoSubcommand();
    StopsAtOperand([f] + rest, 0, EmbedOptions, parseInt, []);
  }

  /** `--help` first: usage, status 0, whatever follows. */
  lemma EmbedHelp(rest: seq<string>, parseInt: IntParser)
    ensures EmbedCommand(["--help"] + rest, parseInt) == EmbedExit(0)
  {
    NotPrefix("message", "help");
    NotPrefix("file", "help");
    NotPrefix("output", "help");
    NotPrefix("quiet", "help");
    assert "--" + "help" == "--help";
    assert ["--help"] + rest == ["--" + "help"] + rest;
    LongFlagFirst("help", rest, EmbedOptions, parseInt, 4);
  }

  /** `-m <message> <file>`: embed the message into `<file>.steg`. */
  lemma EmbedMessageOption(m: string, f: string, parseInt: IntParser)
    requires !IsDashed(f)
    ensures EmbedCommand(["-m", m, f], parseInt) == RunEmbedMessage(f, f + ".steg", Some(m), false)
  {
    assert FirstLetter(EmbedOptions, 'm', 0) == Some(0);
    assert ["-m", m, f] == [['-', 'm'], m] + [f];
    ShortValueStep('m', m, [f], EmbedOptions, parseInt, []);
    assert [] + [SetString(0, m)] == [SetString(0, m)];
    EmbedHasNoSubcommand();
    StopsAtOperand([f], 0, EmbedOptions, parseInt, [SetString(0, m)]);
    assert Parse(["-m", m, f], EmbedOptions, parseInt, false, true) == Parsed([f], [SetString(0, m)]);
  }

  /** `-f <path> <file>`: embed the contents of `<path>` into `<file>.steg`. */
  lemma EmbedFileOption(g: string, f: string, parseInt: IntParser)
    requires !IsDashed(f)
    ensures EmbedCommand(["-f", g, f], parseInt) == RunEmbedFile(f, f + ".steg", g, false)
  {
    assert FirstLetter(EmbedOptions, 'f', 0) == Some(1);
    assert ["-f", g, f] == [['-', 'f'], g] + [f];
    ShortValueStep('f', g, [f], EmbedOptions, parseInt, []);
    assert [] + [SetString(1, g)] == [SetString(1, g)];
    EmbedHasNoSubcommand();
    StopsAtOperand([f], 0, EmbedOptions, parseInt, [SetString(1, g)]);
    assert Parse(["-f", g, f], EmbedOptions, parseInt, false, true) == Parsed([f], [SetString(1, g)]);
  }

  /** `-f <path> -m <message> <file>`: the two sources cannot be mixed; usage, status 1. */
  lemma EmbedFileAndMessage(g: string, m: string, f: string, parseInt: IntParser)
    requires !IsDashed(f)
    ensures EmbedCommand(["-f", g, "-m", m, f], parseInt) == EmbedExit(1)
  {
    EmbedFileAndMessageParse(g, m, f, parseInt);
    var e := [SetString(1, g), SetString(0, m)];
    assert SetString(1, g) in e && SetString(0, m) in e;
  }

  /** The parse behind `EmbedFileAndMessage`: both values written, the file left. */
  lemma EmbedFileAndMessageParse(g: string, m: string, f: string, parseInt: IntParser)
    requires !IsDashed(f)
    ensures Parse(["-f", g, "-m", m, f], EmbedOptions, parseInt, false, true) == Parsed([f], [SetString(1, g), SetString(0, m)])
  {
    assert FirstLetter(EmbedOptions, 'f', 0) == Some(1);
    assert FirstLetter(EmbedOptions, 'm', 0) == Some(0);
    assert ["-f", g, "-m", m, f] == [['-', 'f'], g] + ["-m", m, f];
    ShortValueStep('f', g, ["-m", m, f], EmbedOptions, parseInt, []);
    assert [] + [SetString(1, g)] == [SetString(1, g)];
    assert ["-m", m, f] == [['-', 'm'], m] + [f];
    ShortValueStep('m', m, [f], EmbedOptions, parseInt, [SetString(1, g)]);
    assert [SetString(1, g)] + [SetString(0, m)] == [SetString(1, g), SetString(0, m)];
    EmbedHasNoSubcommand();
    StopsAtOperand([f], 0, EmbedOptions, parseInt, [SetString(1, g), SetString(0, m)]);
    assert ParseFrom(["-f", g, "-m", m, f], EmbedOptions, parseInt, true, 0, [])
        == ParseFrom(["-m", m, f], EmbedOptions, parseInt, true, 0, [SetString(1, g)]);
  }

  /** `-o <path> -m <message> <file>`: the given output path replaces the default. */
  lemma EmbedOutput(o: string, m: string, f: string, parseInt: IntParser)
    requires !IsDashed(f)
    ensures EmbedCommand(["-o", o, "-m", m, f], parseInt) == RunEmbedMessage(f, o, Some(m), false)
  {
    EmbedOutputParse(o, m, f, parseInt);
    var e := [SetString(2, o), SetString(0, m)];
    assert LastString(e, 0) == Some(m) && LastString(e, 2) == Some(o) && LastString(e, 1) == None;
  }

  /** The parse behind `EmbedOutput`: both values written, the file left. */
  lemma EmbedOutputParse(o: string, m: string, f: string, parseInt: IntParser)
    requires !IsDashed(f)
    ensures Parse(["-o", o, "-m", m, f], EmbedOptions, parseInt, false, true) == Parsed([f], [SetString(2, o), SetString(0, m)])
  {
    assert FirstLetter(EmbedOptions, 'o', 0) == Some(2);
    assert FirstLetter(EmbedOptions, 'm', 0) == Some(0);
    assert ["-o", o, "-m", m, f] == [['-', 'o'], o] + ["-m", m, f];
    ShortValueStep('o', o, ["-m", m, f], EmbedOptions, parseInt, []);
    assert [] + [SetString(2, o)] == [SetString(2, o)];
    assert ["-m", m, f] == [['-', 'm'], m] + [f];
    ShortValueStep('m', m, [f], EmbedOptions, parseInt, [SetString(2, o)]);
    assert [SetString(2, o)] + [SetString(0, m)] == [SetString(2, o), SetString(0, m)];
    EmbedHasNoSubcommand();
    StopsAtOperand([f], 0, EmbedOptions, parseInt, [SetString(2, o), SetString(0, m)]);
    assert ParseFrom(["-o", o, "-m", m, f], EmbedOptions, parseInt, true, 0, [])
        == ParseFrom(["-m", m, f], EmbedOptions, parseInt, true, 0, [SetString(2, o)]);
  }
}
