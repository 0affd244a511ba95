/**
 * The command-line option parser of `parse-options.c`: it walks the argument
 * vector, removes every argument (and attached value) that matches an option
 * descriptor by shifting the rest of the vector left, writes the option's
 * value through the descriptor, and returns how many arguments are left.
 *
 * The argument vector is an array of optional strings (`None` is the NULL
 * pointer); its first `argc` entries are strings and entry `argc` is NULL.
 * Every write through a descriptor's `arg_value` pointer is recorded, in
 * order, as an `Effect` naming the descriptor by its index. `strtol` with
 * base 0 is the parameter `parseInt`, which yields a value exactly when the
 * conversion consumes the whole string.
 */
module ParseOptions {
  import opened Common

  /** The descriptor types of `enum opt_type`; the `OPTION_END` terminator is the end of the sequence. */
  datatype OptType = BoolT | IntT | StringT | StringListT | CommandT | GroupT

  /**
   * A `struct command_option`: short flag (`'\0'` for none), long flag,
   * value name (the subcommand name for a command), type, and whether
   * `arg_value` is non-NULL. The help text is left out.
   */
  datatype Opt = Opt(sFlag: char, lFlag: Option<string>, strName: string, otype: OptType, hasValue: bool)

  /** One write through the `arg_value` pointer of descriptor `op`. */
  datatype Effect =
    | SetFlag(op: nat)                   // `*(int *) arg_value = 1`
    | SetInt(op: nat, number: int)        // `*(long *) arg_value = value`
    | SetString(op: nat, value: string)  // `*(char **) arg_value = value`
    | PushString(op: nat, value: string) // `str_array_push(arg_value, value, NULL)`

  /** What a single option parser did: how many arguments it removed and what it wrote. */
  datatype Outcome = Outcome(shifted: nat, effects: seq<Effect>)

  /** The arguments left in the vector and every write made, in order. */
  datatype Parsed = Parsed(args: seq<string>, effects: seq<Effect>)

  /** `strtol(s, &end, 0)` with `end` at the end of `s`: the value, or None. */
  type IntParser = string -> Option<int>

  /**
   * Descriptors whose type makes the parser write through `arg_value`
   * (everything but commands and groups) carry a non-NULL pointer; a command
   * may have none.
   */
  predicate ValidOptions(options: seq<Opt>) {
    forall k :: 0 <= k < |options| ==>
      options[k].otype in {BoolT, IntT, StringT, StringListT} ==> options[k].hasValue
  }

  // ---------------------------------------------------------------------------
  // The argument vector and `array_shift`
  // ---------------------------------------------------------------------------

  /** `argv` holds the strings `args` followed by the NULL terminator. */
  predicate ArgvHolds(argv: seq<Option<string>>, args: seq<string>) {
    |args| < |argv| && argv[|args|] == None &&
    forall j :: 0 <= j < |args| ==> argv[j] == Some(args[j])
  }

  /** The arguments with the `n` at index `i` removed. */
  function Shift(args: seq<string>, i: nat, n: nat): (r: seq<string>)
    requires i + n <= |args|
    ensures |r| == |args| - n
  {
    args[..i] + args[i + n..]
  }

  /**
   * The whole vector after `array_shift(argv, i, &len, count)`: unchanged
   * when `len <= 0` or `i >= len`; otherwise entry `j` for `i <= j < len - count`
   * is the old entry `j + count`, entry `len - count` is NULL and every other
   * entry keeps its old value.
   */
  ghost function Shifted(a: seq<Option<string>>, i: nat, len: int, count: nat): (r: seq<Option<string>>)
    requires len < |a|
    requires len <= 0 || i >= len || count <= len
    ensures |r| == |a|
  {
    if len <= 0 || i >= len then a
    else
      seq(|a|, j requires 0 <= j < |a| =>
        if i <= j < len - count then a[j + count]
        else if j == len - count then None
        else a[j])
  }

  /** Shifting a vector that holds `args` leaves one that holds `args` without the removed ones. */
  lemma ShiftedHolds(a: seq<Option<string>>, args: seq<string>, i: nat, count: nat)
    requires ArgvHolds(a, args) && i < |args| && i + count <= |args|
    ensures ArgvHolds(Shifted(a, i, |args|, count), Shift(args, i, count))
  {
    var r, s := Shifted(a, i, |args|, count), Shift(args, i, count);
    forall j | 0 <= j < |s|
      ensures r[j] == Some(s[j])
    {
      if j >= i {
        assert s[j] == args[j + count];
      }
    }
  }

  /**
   * `array_shift`: removes `count` entries at `argIndex` and NULL-terminates
   * the shorter vector, or does nothing when `len <= 0` or `argIndex >= len`.
   */
  method ArrayShift(argv: array<Option<string>>, argIndex: nat, len: int, count: nat) returns (newLen: int)
    requires len < argv.Length
    requires len <= 0 || argIndex >= len || count <= len
    modifies argv
    ensures newLen == (if len <= 0 || argIndex >= len then len else len - count)
    ensures argv[..] == Shifted(old(argv[..]), argIndex, len, count)
  {
    if len <= 0 || argIndex >= len {
      return len;
    }
    ghost var a := argv[..];
    newLen := len - count;
    var index := argIndex;
    ghost var hi := if argIndex <= newLen then newLen else argIndex;
    while index < newLen
      invariant argIndex <= index <= hi
      invariant forall j :: argIndex <= j < index ==> argv[j] == a[j + count]
      invariant forall j :: 0 <= j < argIndex ==> argv[j] == a[j]
      invariant forall j :: index <= j < argv.Length ==> argv[j] == a[j]
    {
      argv[index] := argv[index + count];
      index := index + 1;
    }
    argv[newLen] := None;
    ghost var r := Shifted(a, argIndex, len, count);
    assert forall j :: 0 <= j < argv.Length ==> argv[j] == r[j];
  }

  // ---------------------------------------------------------------------------
  // Long options: `--name`, `--name value`, `--name=value`
  // ---------------------------------------------------------------------------

  /**
   * How a value-taking descriptor `k` consumes the value `v`, removing `n`
   * arguments: an integer only when it parses in full, a string or a list
   * entry always; None when nothing is consumed.
   */
  function TakeValue(op: Opt, k: nat, v: string, n: nat, parseInt: IntParser): (r: Option<Outcome>)
    ensures r.Some? ==> r.value.shifted == n && |r.value.effects| == 1 && r.value.effects[0].op == k
    ensures r.Some? <==> op.otype in {StringT, StringListT} || (op.otype == IntT && parseInt(v).Some?)
  {
    match op.otype
    case IntT => if parseInt(v).Some? then Some(Outcome(n, [SetInt(k, parseInt(v).value)])) else None
    case StringT => Some(Outcome(n, [SetString(k, v)]))
    case StringListT => Some(Outcome(n, [PushString(k, v)]))
    case _ => None
  }

  /**
   * What descriptor `k` makes of the long argument `args[i]` when the text
   * it compares against is `cur`: None when the scan moves on.
   */
  function LongStep(args: seq<string>, i: nat, options: seq<Opt>, parseInt: IntParser, k: nat, cur: string): (r: Option<Outcome>)
    requires i < |args| && k < |options|
    ensures r.Some? ==> options[k].lFlag.Some? && options[k].lFlag.value <= cur
    ensures r.Some? ==> 1 <= r.value.shifted <= 2 && (r.value.shifted == 2 ==> i + 1 < |args|)
    ensures r.Some? ==> |r.value.effects| == 1 && r.value.effects[0].op == k
  {
    var op := options[k];
    if op.lFlag.None? then None
    else
      var flag := op.lFlag.value;
      if op.otype == BoolT && cur == flag then Some(Outcome(1, [SetFlag(k)]))
      else if !(flag <= cur) then None
      else if |cur| == |flag| then
        if i + 1 >= |args| then None else TakeValue(op, k, args[i + 1], 2, parseInt)
      else if cur[|flag|] == '=' then TakeValue(op, k, cur[|flag| + 1..], 1, parseInt)
      else None
  }

  /**
   * `parse_long_option` from descriptor `k` on, every descriptor comparing
   * its flag with the argument's own text `cur` (the text after `--`).
   */
  function LongFrom(args: seq<string>, i: nat, options: seq<Opt>, parseInt: IntParser, k: nat, cur: string): (r: Outcome)
    requires i < |args| && k <= |options|
    ensures r.shifted <= 2 && (r.shifted == 2 ==> i + 1 < |args|)
    ensures r.shifted == 0 <==> r.effects == []
    ensures r.shifted > 0 ==> |r.effects| == 1 && k <= r.effects[0].op < |options|
    ensures r.shifted > 0 ==> var op := options[r.effects[0].op]; op.lFlag.Some? && op.lFlag.value <= cur
    decreases |options| - k
  {
    if k == |options| then Outcome(0, [])
    else match LongStep(args, i, options, parseInt, k, cur)
      case Some(o) => o
      case None => LongFrom(args, i, options, parseInt, k + 1, cur)
  }

  /** `parse_long_option` for `args[i]`, which starts with `--`. */
  function LongOption(args: seq<string>, i: nat, options: seq<Opt>, parseInt: IntParser): (r: Outcome)
    requires i < |args| && |args[i]| >= 2
    ensures r.shifted <= 2 && (r.shifted == 2 ==> i + 1 < |args|)
  {
    LongFrom(args, i, options, parseInt, 0, args[i][2..])
  }

  /**
   * `parse_long_option`: the first descriptor with a long flag that claims
   * the argument removes it (and a separate value) and records its write;
   * when none does, nothing changes.
   */
  method ParseLongOption(argc: nat, argv: array<Option<string>>, argIndex: nat, options: seq<Opt>,
                         parseInt: IntParser, ghost args: seq<string>)
      returns (shifted: nat, effects: seq<Effect>)
    requires argc == |args| && ArgvHolds(argv[..], args) && argIndex < argc && |args[argIndex]| >= 2
    modifies argv
    ensures Outcome(shifted, effects) == LongOption(args, argIndex, options, parseInt)
    ensures shifted == 0 ==> argv[..] == old(argv[..])
    ensures shifted > 0 ==> argv[..] == Shifted(old(argv[..]), argIndex, argc, shifted)
  {
    var arg := argv[argIndex].value[2..];
    var k := 0;
    while k < |options|
      invariant k <= |options|
      invariant LongOption(args, argIndex, options, parseInt) == LongFrom(args, argIndex, options, parseInt, k, arg)
    {
      var op := options[k];
      if op.lFlag.None? {
        k := k + 1;
        continue;
      }
      var flag := op.lFlag.value;
      if op.otype == BoolT && arg == flag {
        var _ := ArrayShift(argv, argIndex, argc, 1);
        return 1, [SetFlag(k)];
      }
      if !(flag <= arg) {
        k := k + 1;
        continue;
      }
      var value: Option<string> := None;
      var n := 0;
      if |arg| == |flag| {
        if argIndex + 1 < argc {
          value, n := argv[argIndex + 1], 2;
        }
      } else if arg[|flag|] == '=' {
        value, n := Some(arg[|flag| + 1..]), 1;
      }
      if value.Some? {
        var v := value.value;
        if op.otype == IntT {
          var parsed := parseInt(v);
          if parsed.Some? {
            var _ := ArrayShift(argv, argIndex, argc, n);
            return n, [SetInt(k, parsed.value)];
          }
        } else if op.otype == StringT {
          var _ := ArrayShift(argv, argIndex, argc, n);
          return n, [SetString(k, v)];
        } else if op.otype == StringListT {
          var _ := ArrayShift(argv, argIndex, argc, n);
          return n, [PushString(k, v)];
        }
      }
      k := k + 1;
    }
    return 0, [];
  }

  // ---------------------------------------------------------------------------
  // Short options: `-a`, `-abc`, `-ovalue` is not accepted, `-o value`, `-n9`
  // ---------------------------------------------------------------------------

  /**
   * The integer flag that is the last letter of `args[i]` takes its value
   * from the next argument; when there is none nothing is consumed.
   */
  function ShortIntNext(args: seq<string>, i: nat, k: nat, parseInt: IntParser): (r: Outcome)
    requires i < |args|
    ensures r.shifted == 2 <==> i + 1 < |args| && parseInt(args[i + 1]).Some?
    ensures r.shifted == 2 ==> r.effects == [SetInt(k, parseInt(args[i + 1]).value)]
    ensures r.shifted != 2 ==> r == Outcome(0, [])
  {
    if i + 1 >= |args| then Outcome(0, [])
    else match parseInt(args[i + 1])
      case Some(v) => Outcome(2, [SetInt(k, v)])
      case None => Outcome(0, [])
  }

  /**
   * `parse_short_option` from letter `j` of `args[i]` on, with `effects`
   * already written by the boolean letters before it.
   */
  function ShortFrom(args: seq<string>, i: nat, options: seq<Opt>, parseInt: IntParser, j: nat, effects: seq<Effect>): (r: Outcome)
    requires i < |args| && 1 <= j <= |args[i]|
    ensures r.shifted <= 2 && (r.shifted == 2 ==> i + 1 < |args|)
    ensures effects <= r.effects
    decreases |args[i]| - j, |options| + 1
  {
    if j == |args[i]| then Outcome(1, effects)
    else ShortOps(args, i, options, parseInt, j, 0, effects)
  }

  /** Letter `j` of `args[i]` against descriptors `k` onwards. */
  function ShortOps(args: seq<string>, i: nat, options: seq<Opt>, parseInt: IntParser, j: nat, k: nat, effects: seq<Effect>): (r: Outcome)
    requires i < |args| && 1 <= j < |args[i]| && k <= |options|
    ensures r.shifted <= 2 && (r.shifted == 2 ==> i + 1 < |args|)
    ensures effects <= r.effects
    decreases |args[i]| - j, |options| - k
  {
    if k == |options| then ShortFrom(args, i, options, parseInt, j + 1, effects)
    else
      var op, c, last := options[k], args[i][j], j + 1 == |args[i]|;
      if !(op.sFlag != '\0' && op.sFlag == c) then
        if k + 1 == |options| then Outcome(0, effects)
        else ShortOps(args, i, options, parseInt, j, k + 1, effects)
      else match op.otype
        case BoolT => ShortFrom(args, i, options, parseInt, j + 1, effects + [SetFlag(k)])
        case StringT =>
          if !last || i + 1 >= |args| then Outcome(0, effects)
          else Outcome(2, effects + [SetString(k, args[i + 1])])
        case StringListT =>
          if !last || i + 1 >= |args| then Outcome(0, effects)
          else Outcome(2, effects + [PushString(k, args[i + 1])])
        case IntT =>
          if !last then
            match parseInt(args[i][j + 1..])
            case Some(v) => Outcome(1, effects + [SetInt(k, v)])
            case None => Outcome(0, effects)
          else
            var o := ShortIntNext(args, i, k, parseInt);
            Outcome(o.shifted, effects + o.effects)
        case _ => ShortOps(args, i, options, parseInt, j, k + 1, effects)
  }

  /** `parse_short_option` for `args[i]`, which starts with `-`. */
  function ShortOption(args: seq<string>, i: nat, options: seq<Opt>, parseInt: IntParser): (r: Outcome)
    requires i < |args| && |args[i]| >= 1
    ensures r.shifted <= 2 && (r.shifted == 2 ==> i + 1 < |args|)
  {
    ShortFrom(args, i, options, parseInt, 1, [])
  }

  /**
   * `parse_short_option`: each letter is looked up among the descriptors; a
   * boolean is set and the scan goes on, an unknown letter stops with nothing
   * removed, a value-taking flag takes the rest of the argument (integers) or
   * the next argument and stops; when every letter was a boolean the
   * argument is removed.
   */
  method ParseShortOption(argc: nat, argv: array<Option<string>>, argIndex: nat, options: seq<Opt>,
                          parseInt: IntParser, ghost args: seq<string>)
      returns (shifted: nat, effects: seq<Effect>)
    requires argc == |args| && ArgvHolds(argv[..], args) && argIndex < argc && |args[argIndex]| >= 1
    modifies argv
    ensures Outcome(shifted, effects) == ShortOption(args, argIndex, options, parseInt)
    ensures shifted == 0 ==> argv[..] == old(argv[..])
    ensures shifted > 0 ==> argv[..] == Shifted(old(argv[..]), argIndex, argc, shifted)
  {
    var arg := argv[argIndex].value;
    effects := [];
    var j := 1;
    while j < |arg|
      invariant 1 <= j <= |arg| && argv[..] == old(argv[..])
      invariant ShortOption(args, argIndex, options, parseInt) == ShortFrom(args, argIndex, options, parseInt, j, effects)
    {
      var k := 0;
      while k < |options|
        invariant k <= |options| && argv[..] == old(argv[..])
        invariant ShortOption(args, argIndex, options, parseInt) == ShortOps(args, argIndex, options, parseInt, j, k, effects)
      {
        var op := options[k];
        if !(op.sFlag != '\0' && op.sFlag == arg[j]) {
          if k + 1 == |options| {
            return 0, effects;
          }
          k := k + 1;
          continue;
        }
        if op.otype == BoolT {
          effects := effects + [SetFlag(k)];
          break;
        }
        var last := j + 1 == |arg|;
        if op.otype == StringT || op.otype == StringListT {
          if !last || argIndex + 1 >= argc {
            return 0, effects;
          }
        }
        if op.otype == IntT {
          if !last {
            var parsed := parseInt(arg[j + 1..]);
            if parsed.Some? {
              var _ := ArrayShift(argv, argIndex, argc, 1);
              return 1, effects + [SetInt(k, parsed.value)];
            }
          } else if argIndex + 1 < argc {
            var parsed := parseInt(argv[argIndex + 1].value);
            if parsed.Some? {
              var _ := ArrayShift(argv, argIndex, argc, 2);
              return 2, effects + [SetInt(k, parsed.value)];
            }
          }
          return 0, effects;
        }
        if op.otype == StringT {
          var value := argv[argIndex + 1].value;
          var _ := ArrayShift(argv, argIndex, argc, 2);
          return 2, effects + [SetString(k, value)];
        }
        if op.otype == StringListT {
          var value := argv[argIndex + 1].value;
          var _ := ArrayShift(argv, argIndex, argc, 2);
          return 2, effects + [PushString(k, value)];
        }
        k := k + 1;
      }
      assert ShortOption(args, argIndex, options, parseInt) == ShortFrom(args, argIndex, options, parseInt, j + 1, effects);
      j := j + 1;
    }
    var _ := ArrayShift(argv, argIndex, argc, 1);
    shifted := 1;
  }

  // ---------------------------------------------------------------------------
  // Subcommands
  // ---------------------------------------------------------------------------

  /** `parse_subcommand` from descriptor `k` on: the writes of the first command named `arg`, or None. */
  function SubcommandFrom(arg: string, options: seq<Opt>, k: nat): (r: Option<seq<Effect>>)
    requires k <= |options|
    ensures r.Some? <==> exists m :: k <= m < |options| && options[m].otype == CommandT && options[m].strName == arg
    ensures r.Some? ==> |r.value| <= 1
    ensures r.Some? ==> forall e :: e in r.value ==>
      (e.SetFlag? && k <= e.op < |options| && options[e.op].otype == CommandT &&
       options[e.op].strName == arg && options[e.op].hasValue)
    decreases |options| - k
  {
    if k == |options| then None
    else if options[k].otype == CommandT && options[k].strName == arg then
      Some(if options[k].hasValue then [SetFlag(k)] else [])
    else SubcommandFrom(arg, options, k + 1)
  }

  /**
   * `parse_subcommand`: whether `argv[argIndex]` names a command descriptor,
   * setting that command's flag when it has one.
   */
  method ParseSubcommand(argv: array<Option<string>>, argIndex: nat, options: seq<Opt>)
      returns (found: bool, effects: seq<Effect>)
    requires argIndex < argv.Length && argv[argIndex].Some?
    ensures var s := SubcommandFrom(argv[argIndex].value, options, 0);
            found == s.Some? && (found ==> effects == s.value) && (!found ==> effects == [])
  {
    var arg := argv[argIndex].value;
    for k := 0 to |options|
      invariant SubcommandFrom(arg, options, 0) == SubcommandFrom(arg, options, k)
    {
      var op := options[k];
      if op.otype != CommandT {
        continue;
      }
      if arg == op.strName {
        effects := if op.hasValue then [SetFlag(k)] else [];
        return true, effects;
      }
    }
    return false, [];
  }

  // ---------------------------------------------------------------------------
  // The whole parse
  // ---------------------------------------------------------------------------

  /** The argument is exactly `--`. */
  predicate IsSeparator(arg: string) {
    arg == "--"
  }

  /** The argument starts with `--` (and so is a long option unless it is the separator). */
  predicate IsLong(arg: string) {
    |arg| >= 2 && arg[..2] == "--"
  }

  /** The argument starts with `-`. */
  predicate IsDashed(arg: string) {
    |arg| >= 1 && arg[0] == '-'
  }

  /** What the option parsers do with `args[idx]`, which is neither `--` nor a subcommand. */
  function OptionStep(args: seq<string>, idx: nat, options: seq<Opt>, parseInt: IntParser): (r: Outcome)
    requires idx < |args|
    ensures idx + r.shifted <= |args|
  {
    if IsLong(args[idx]) then LongOption(args, idx, options, parseInt)
    else if IsDashed(args[idx]) then ShortOption(args, idx, options, parseInt)
    else Outcome(0, [])
  }

  /**
   * The loop of `parse_options` from index `idx` of the remaining arguments
   * `args`, with `effects` written so far.
   */
  function ParseFrom(args: seq<string>, options: seq<Opt>, parseInt: IntParser, stopOnUnknown: bool,
                     idx: nat, effects: seq<Effect>): (r: Parsed)
    requires idx <= |args|
    ensures |r.args| <= |args|
    ensures effects <= r.effects
    decreases |args| - idx
  {
    if idx == |args| then Parsed(args, effects)
    else if IsSeparator(args[idx]) then Parsed(Shift(args, idx, 1), effects)
    else if !IsDashed(args[idx]) && SubcommandFrom(args[idx], options, 0).Some? then
      Parsed(args, effects + SubcommandFrom(args[idx], options, 0).value)
    else
      var o := OptionStep(args, idx, options, parseInt);
      if o.shifted == 0 && stopOnUnknown then Parsed(args, effects + o.effects)
      else if o.shifted == 0 then ParseFrom(args, options, parseInt, stopOnUnknown, idx + 1, effects + o.effects)
      else
        var rest := Shift(args, idx, o.shifted);
        ParseFrom(rest, options, parseInt, stopOnUnknown, idx, effects + o.effects)
  }

  /** The loop never touches the arguments before the current one and never adds an argument. */
  lemma {:induction false} ParseKeepsPassed(args: seq<string>, options: seq<Opt>, parseInt: IntParser, stopOnUnknown: bool,
                                            idx: nat, effects: seq<Effect>)
    requires idx <= |args|
    ensures var r := ParseFrom(args, options, parseInt, stopOnUnknown, idx, effects);
            idx <= |r.args| <= |args| && r.args[..idx] == args[..idx]
    decreases |args| - idx, 2
  {
    var r := ParseFrom(args, options, parseInt, stopOnUnknown, idx, effects);
    if idx == |args| {
      assert r.args == args;
    } else if IsSeparator(args[idx]) {
      assert r.args == Shift(args, idx, 1);
      assert Shift(args, idx, 1)[..idx] == args[..idx];
    } else if !IsDashed(args[idx]) && SubcommandFrom(args[idx], options, 0).Some? {
      assert r.args == args;
    } else {
      KeepsPassedStep(args, options, parseInt, stopOnUnknown, idx, effects);
    }
  }

  /** `ParseKeepsPassed` for an argument the loop treats as an option. */
  lemma {:induction false} KeepsPassedStep(args: seq<string>, options: seq<Opt>, parseInt: IntParser, stopOnUnknown: bool,
                                           idx: nat, effects: seq<Effect>)
    requires idx < |args| && !IsSeparator(args[idx])
    requires IsDashed(args[idx]) || SubcommandFrom(args[idx], options, 0).None?
    ensures var r := ParseFrom(args, options, parseInt, stopOnUnknown, idx, effects);
            idx <= |r.args| <= |args| && r.args[..idx] == args[..idx]
    decreases |args| - idx, 1
  {
    var o := OptionStep(args, idx, options, parseInt);
    if o.shifted > 0 {
      KeepsPassedShifted(args, options, parseInt, stopOnUnknown, idx, effects);
    } else if !stopOnUnknown {
      KeepsPassedSkipped(args, options, parseInt, stopOnUnknown, idx, effects);
    } else {
      ParseFromStep(args, options, parseInt, stopOnUnknown, idx, effects);
    }
  }

  /** `ParseKeepsPassed` when the option removes arguments from the current position on. */
  lemma {:induction false} KeepsPassedShifted(args: seq<string>, options: seq<Opt>, parseInt: IntParser, stopOnUnknown: bool,
                                              idx: nat, effects: seq<Effect>)
    requires idx < |args| && !IsSeparator(args[idx])
    requires IsDashed(args[idx]) || SubcommandFrom(args[idx], options, 0).None?
    requires OptionStep(args, idx, options, parseInt).shifted > 0
    ensures var r := ParseFrom(args, options, parseInt, stopOnUnknown, idx, effects);
            idx <= |r.args| <= |args| && r.args[..idx] == args[..idx]
    decreases |args| - idx, 0
  {
    var o := OptionStep(args, idx, options, parseInt);
    ParseFromStep(args, options, parseInt, stopOnUnknown, idx, effects);
    var rest := Shift(args, idx, o.shifted);
    ParseKeepsPassed(rest, options, parseInt, stopOnUnknown, idx, effects + o.effects);
    assert rest[..idx] == args[..idx];
  }

  /** `ParseKeepsPassed` when an unknown argument is stepped over. */
  lemma {:induction false} KeepsPassedSkipped(args: seq<string>, options: seq<Opt>, parseInt: IntParser, stopOnUnknown: bool,
                                              idx: nat, effects: seq<Effect>)
    requires idx < |args| && !IsSeparator(args[idx]) && !stopOnUnknown
    requires IsDashed(args[idx]) || SubcommandFrom(args[idx], options, 0).None?
    requires OptionStep(args, idx, options, parseInt).shifted == 0
    ensures var r := ParseFrom(args, options, parseInt, stopOnUnknown, idx, effects);
            idx <= |r.args| <= |args| && r.args[..idx] == args[..idx]
    decreases |args| - idx, 0
  {
    var o := OptionStep(args, idx, options, parseInt);
    ParseFromStep(args, options, parseInt, stopOnUnknown, idx, effects);
    ParseKeepsPassed(args, options, parseInt, stopOnUnknown, idx + 1, effects + o.effects);
    var r := ParseFrom(args, options, parseInt, stopOnUnknown, idx + 1, effects + o.effects);
    assert r.args[..idx] == r.args[..idx + 1][..idx];
  }

  /** `parse_options` on the strings of the vector, after dropping the program name when asked to. */
  function Parse(args: seq<string>, options: seq<Opt>, parseInt: IntParser, skipFirst: bool, stopOnUnknown: bool): (r: Parsed)
    ensures |r.args| <= |args|
    ensures skipFirst && |args| > 0 ==> |r.args| < |args|
  {
    var start := if skipFirst && |args| > 0 then args[1..] else args;
    ParseFrom(start, options, parseInt, stopOnUnknown, 0, [])
  }

  /** One turn of the loop for an argument that is neither `--` nor a known subcommand. */
  lemma ParseFromStep(args: seq<string>, options: seq<Opt>, parseInt: IntParser, stopOnUnknown: bool,
                      idx: nat, effects: seq<Effect>)
    requires idx < |args| && !IsSeparator(args[idx])
    requires IsDashed(args[idx]) || SubcommandFrom(args[idx], options, 0).None?
    ensures var o := OptionStep(args, idx, options, parseInt);
            var r := ParseFrom(args, options, parseInt, stopOnUnknown, idx, effects);
            (o.shifted > 0 ==> r == ParseFrom(Shift(args, idx, o.shifted), options, parseInt, stopOnUnknown, idx, effects + o.effects)) &&
            (o.shifted == 0 && stopOnUnknown ==> r == Parsed(args, effects + o.effects)) &&
            (o.shifted == 0 && !stopOnUnknown ==> r == ParseFrom(args, options, parseInt, stopOnUnknown, idx + 1, effects + o.effects))
  {
  }

  /**
   * The body of the `parse_options` loop for an argument other than `--`:
   * a long option, a short option, or else a possible subcommand, which ends
   * the parse when found.
   */
  method ParseArgument(argc: nat, argv: array<Option<string>>, argIndex: nat, options: seq<Opt>,
                       parseInt: IntParser, ghost args: seq<string>)
      returns (found: bool, shifted: nat, written: seq<Effect>)
    requires argc == |args| && ArgvHolds(argv[..], args) && argIndex < argc && !IsSeparator(args[argIndex])
    modifies argv
    ensures found <==> !IsDashed(args[argIndex]) && SubcommandFrom(args[argIndex], options, 0).Some?
    ensures found ==> shifted == 0 && written == SubcommandFrom(args[argIndex], options, 0).value
    ensures !found ==> Outcome(shifted, written) == OptionStep(args, argIndex, options, parseInt)
    ensures shifted == 0 ==> argv[..] == old(argv[..])
    ensures shifted > 0 ==> argv[..] == Shifted(old(argv[..]), argIndex, argc, shifted)
  {
    var arg := argv[argIndex].value;
    found, shifted, written := false, 0, [];
    if |arg| >= 2 && arg[..2] == "--" {
      shifted, written := ParseLongOption(argc, argv, argIndex, options, parseInt, args);
    } else if |arg| >= 1 && arg[0] == '-' {
      shifted, written := ParseShortOption(argc, argv, argIndex, options, parseInt, args);
    } else {
      found, written := ParseSubcommand(argv, argIndex, options);
    }
  }

  /**
   * `parse_options`: a negative `argc` is a BUG; otherwise the vector ends
   * up holding the arguments `Parse` leaves, NULL-terminated, `newLen` is
   * their number and `effects` are the writes made, in order.
   */
  method ParseOptions(argc: int, argv: array<Option<string>>, options: seq<Opt>, parseInt: IntParser,
                      skipFirst: bool, stopOnUnknown: bool, ghost args: seq<string>)
      returns (newLen: int, effects: seq<Effect>, failure: Option<Failure>)
    requires argc >= 0 ==> argc == |args| && ArgvHolds(argv[..], args)
    modifies argv
    ensures argc < 0 ==> failure == Some(Bug("parse_options argument vector length is negative"))
    ensures argc < 0 ==> argv[..] == old(argv[..])
    ensures argc >= 0 ==>
      var p := Parse(args, options, parseInt, skipFirst, stopOnUnknown);
      failure == None && newLen == |p.args| && ArgvHolds(argv[..], p.args) && effects == p.effects
  {
    effects := [];
    if argc < 0 {
      return argc, effects, Some(Bug("parse_options argument vector length is negative"));
    }
    failure := None;
    newLen := argc;
    ghost var cur := args;
    if skipFirst && argc > 0 {
      newLen := ArrayShift(argv, 0, newLen, 1);
      ShiftedHolds(old(argv[..]), args, 0, 1);
      cur := Shift(args, 0, 1);
      assert cur == args[1..];
    }
    var argIndex := 0;
    while argIndex < newLen
      invariant 0 <= argIndex <= newLen == |cur| && ArgvHolds(argv[..], cur)
      invariant Parse(args, options, parseInt, skipFirst, stopOnUnknown)
                == ParseFrom(cur, options, parseInt, stopOnUnknown, argIndex, effects)
      decreases newLen - argIndex
    {
      var stop, len', index', written;
      stop, len', index', written, cur := ParseTurn(newLen, argv, argIndex, options, parseInt, stopOnUnknown, cur, effects);
      newLen, argIndex, effects := len', index', effects + written;
      if stop {
        return;
      }
    }
  }

  /**
   * One turn of the `parse_options` loop: `--` is removed and ends the
   * loop, a subcommand ends it, an option is handled and removed, and an
   * argument that is neither ends the loop or is stepped over.
   */
  method ParseTurn(len: nat, argv: array<Option<string>>, argIndex: nat, options: seq<Opt>, parseInt: IntParser,
                   stopOnUnknown: bool, ghost cur: seq<string>, ghost effects: seq<Effect>)
      returns (stop: bool, newLen: nat, nextIndex: nat, written: seq<Effect>, ghost next: seq<string>)
    requires len == |cur| && ArgvHolds(argv[..], cur) && argIndex < len
    modifies argv
    ensures newLen == |next| && ArgvHolds(argv[..], next)
    ensures stop ==> ParseFrom(cur, options, parseInt, stopOnUnknown, argIndex, effects) == Parsed(next, effects + written)
    ensures !stop ==> nextIndex <= newLen && newLen - nextIndex < len - argIndex
    ensures !stop ==> ParseFrom(cur, options, parseInt, stopOnUnknown, argIndex, effects)
                      == ParseFrom(next, options, parseInt, stopOnUnknown, nextIndex, effects + written)
  {
    var arg := argv[argIndex].value;
    assert arg == cur[argIndex];
    ghost var before := argv[..];
    if arg == "--" {
      var shiftedLen := ArrayShift(argv, argIndex, len, 1);
      ShiftedHolds(before, cur, argIndex, 1);
      assert effects + [] == effects;
      return true, shiftedLen, argIndex, [], Shift(cur, argIndex, 1);
    }
    var found, shifted;
    found, shifted, written := ParseArgument(len, argv, argIndex, options, parseInt, cur);
    if found {
      return true, len, argIndex, written, cur;
    }
    ParseFromStep(cur, options, parseInt, stopOnUnknown, argIndex, effects);
    if shifted > 0 {
      ShiftedHolds(before, cur, argIndex, shifted);
      return false, len - shifted, argIndex, written, Shift(cur, argIndex, shifted);
    }
    return stopOnUnknown, len, argIndex + 1, written, cur;
  }

  // ---------------------------------------------------------------------------
  // The values the parse leaves behind
  // ---------------------------------------------------------------------------

  /** The `int` flag of descriptor `k` ends up set. */
  predicate FlagSet(effects: seq<Effect>, k: nat) {
    SetFlag(k) in effects
  }

  /** The string last stored through descriptor `k`, or None when it was never written. */
  function LastString(effects: seq<Effect>, k: nat): (r: Option<string>)
    ensures r.Some? ==> exists i :: 0 <= i < |effects| && effects[i] == SetString(k, r.value) && NoStringAfter(effects, i, k)
    ensures r.None? ==> forall v :: SetString(k, v) !in effects
  {
    if effects == [] then None
    else
      var e := effects[|effects| - 1];
      if e.SetString? && e.op == k then
        assert NoStringAfter(effects, |effects| - 1, k);
        Some(e.value)
      else
        var r := LastString(effects[..|effects| - 1], k);
        assert effects == effects[..|effects| - 1] + [e];
        assert r.Some? ==> exists i :: 0 <= i < |effects| && effects[i] == SetString(k, r.value) && NoStringAfter(effects, i, k) by {
          if r.Some? {
            var i :| 0 <= i < |effects| - 1 && effects[..|effects| - 1][i] == SetString(k, r.value)
                     && NoStringAfter(effects[..|effects| - 1], i, k);
            assert effects[i] == SetString(k, r.value) && NoStringAfter(effects, i, k);
          }
        }
        r
  }

  /** No effect after index `i` stores a string through descriptor `k`. */
  predicate NoStringAfter(effects: seq<Effect>, i: nat, k: nat) {
    forall j :: i < j < |effects| ==> !effects[j].SetString? || effects[j].op != k
  }

  /** The strings pushed onto the list of descriptor `k`, in order. */
  function Pushed(effects: seq<Effect>, k: nat): (r: seq<string>)
    ensures forall v :: v in r <==> PushString(k, v) in effects
  {
    if effects == [] then []
    else
      (if effects[0].PushString? && effects[0].op == k then [effects[0].value] else [])
      + Pushed(effects[1..], k)
  }

  /** One effect pushes its value onto the list of its own descriptor, and onto no other list. */
  lemma PushedOne(e: Effect, k: nat)
    ensures Pushed([e], k) == if e.PushString? && e.op == k then [e.value] else []
  {
    assert [e][1..] == [];
  }

  /** The list grows in the order of the writes: pushes made later come later, none is lost or repeated. */
  lemma {:induction false} PushedAppend(a: seq<Effect>, b: seq<Effect>, k: nat)
    ensures Pushed(a + b, k) == Pushed(a, k) + Pushed(b, k)
    decreases |a|
  {
    if a == [] {
      assert a + b == b;
    } else {
      assert (a + b)[1..] == a[1..] + b;
      PushedAppend(a[1..], b, k);
    }
  }

  // ---------------------------------------------------------------------------
  // Properties of long options
  // ---------------------------------------------------------------------------

  /** Descriptor `m` has no long flag that begins the text `cur`. */
  predicate LongUnrelated(options: seq<Opt>, m: nat, cur: string)
    requires m < |options|
  {
    options[m].lFlag.None? || !(options[m].lFlag.value <= cur)
  }

  /** Descriptors whose long flag does not begin the argument are passed over. */
  lemma {:induction false} LongSkipsUnrelated(args: seq<string>, i: nat, options: seq<Opt>, parseInt: IntParser,
                                              k: nat, k': nat, cur: string)
    requires i < |args| && k <= k' <= |options|
    requires forall m :: k <= m < k' ==> LongUnrelated(options, m, cur)
    ensures LongFrom(args, i, options, parseInt, k, cur) == LongFrom(args, i, options, parseInt, k', cur)
    decreases k' - k
  {
    if k < k' {
      assert LongUnrelated(options, k, cur);
      LongSkipsUnrelated(args, i, options, parseInt, k + 1, k', cur);
    }
  }

  /** `--name` for a boolean descriptor `k` sets its flag and removes the one argument. */
  lemma LongBoolFlag(args: seq<string>, i: nat, options: seq<Opt>, parseInt: IntParser, k: nat, name: string)
    requires i < |args| && k < |options| && args[i] == "--" + name
    requires options[k].otype == BoolT && options[k].lFlag == Some(name)
    requires forall m :: 0 <= m < k ==> LongUnrelated(options, m, name)
    ensures LongOption(args, i, options, parseInt) == Outcome(1, [SetFlag(k)])
  {
    assert args[i][2..] == name;
    LongSkipsUnrelated(args, i, options, parseInt, 0, k, name);
  }

  /**
   * `--name=value` for a value-taking descriptor `k` removes the one
   * argument and stores `value` (an integer only when it parses in full).
   */
  lemma LongAttachedValue(args: seq<string>, i: nat, options: seq<Opt>, parseInt: IntParser, k: nat,
                          name: string, value: string)
    requires i < |args| && k < |options| && args[i] == "--" + name + "=" + value
    requires options[k].lFlag == Some(name) && TakeValue(options[k], k, value, 1, parseInt).Some?
    requires forall m :: 0 <= m < k ==> LongUnrelated(options, m, name + "=" + value)
    ensures LongOption(args, i, options, parseInt) == TakeValue(options[k], k, value, 1, parseInt).value
    ensures options[k].otype == StringT ==> LongOption(args, i, options, parseInt) == Outcome(1, [SetString(k, value)])
  {
    var cur := name + "=" + value;
    assert args[i][2..] == cur;
    assert name <= cur && cur[|name|] == '=' && cur[|name| + 1..] == value;
    LongSkipsUnrelated(args, i, options, parseInt, 0, k, cur);
  }

  /**
   * `--name value` for a value-taking descriptor `k` removes both arguments
   * and stores the next argument (an integer only when it parses in full).
   */
  lemma LongSeparateValue(args: seq<string>, i: nat, options: seq<Opt>, parseInt: IntParser, k: nat, name: string)
    requires i + 1 < |args| && k < |options| && args[i] == "--" + name
    requires options[k].lFlag == Some(name) && TakeValue(options[k], k, args[i + 1], 2, parseInt).Some?
    requires forall m :: 0 <= m < k ==> LongUnrelated(options, m, name)
    ensures LongOption(args, i, options, parseInt) == TakeValue(options[k], k, args[i + 1], 2, parseInt).value
    ensures options[k].otype == StringListT ==> LongOption(args, i, options, parseInt) == Outcome(2, [PushString(k, args[i + 1])])
  {
    assert args[i][2..] == name;
    assert options[k].otype != BoolT;
    LongSkipsUnrelated(args, i, options, parseInt, 0, k, name);
  }

  /**
   * A long option that takes a value but is the last argument, and that no
   * boolean descriptor claims, removes nothing and writes nothing.
   */
  lemma {:induction false} LongValueMissing(args: seq<string>, i: nat, options: seq<Opt>, parseInt: IntParser, k: nat)
    requires i + 1 == |args| && |args[i]| >= 2 && k <= |options|
    requires forall m :: k <= m < |options| && options[m].lFlag.Some? && options[m].lFlag.value <= args[i][2..] ==>
               options[m].lFlag.value == args[i][2..] && options[m].otype != BoolT
    ensures LongFrom(args, i, options, parseInt, k, args[i][2..]) == Outcome(0, [])
    decreases |options| - k
  {
    if k < |options| {
      LongValueMissing(args, i, options, parseInt, k + 1);
    }
  }

  // ---------------------------------------------------------------------------
  // Properties of short options
  // ---------------------------------------------------------------------------

  /** Descriptor `m` has the short flag `c`. */
  predicate Letter(options: seq<Opt>, m: nat, c: char)
    requires m < |options|
  {
    options[m].sFlag != '\0' && options[m].sFlag == c
  }

  /** The first descriptor from `k` on that acts on the letter `c` (commands and groups do not). */
  function FirstLetter(options: seq<Opt>, c: char, k: nat): (r: Option<nat>)
    requires k <= |options|
    ensures r.Some? ==> k <= r.value < |options| && Letter(options, r.value, c) &&
                        options[r.value].otype !in {CommandT, GroupT}
    ensures r.Some? ==> forall m :: k <= m < r.value ==> !Letter(options, m, c) || options[m].otype in {CommandT, GroupT}
    ensures r.None? ==> forall m :: k <= m < |options| ==> !Letter(options, m, c) || options[m].otype in {CommandT, GroupT}
    decreases |options| - k
  {
    if k == |options| then None
    else if Letter(options, k, c) && options[k].otype !in {CommandT, GroupT} then Some(k)
    else FirstLetter(options, c, k + 1)
  }

  /** The scan for letter `j` reaches, unchanged, the first descriptor that acts on it. */
  lemma {:induction false} ShortReachesFirst(args: seq<string>, i: nat, options: seq<Opt>, parseInt: IntParser,
                                             j: nat, k: nat, effects: seq<Effect>)
    requires i < |args| && 1 <= j < |args[i]| && k <= |options|
    requires FirstLetter(options, args[i][j], k).Some?
    ensures ShortOps(args, i, options, parseInt, j, k, effects)
            == ShortOps(args, i, options, parseInt, j, FirstLetter(options, args[i][j], k).value, effects)
    decreases |options| - k
  {
    if FirstLetter(options, args[i][j], k).value != k {
      ShortReachesFirst(args, i, options, parseInt, j, k + 1, effects);
    }
  }

  /** A letter no descriptor has stops the scan with nothing removed. */
  lemma {:induction false} ShortUnknownLetter(args: seq<string>, i: nat, options: seq<Opt>, parseInt: IntParser,
                                              j: nat, k: nat, effects: seq<Effect>)
    requires i < |args| && 1 <= j < |args[i]| && k < |options|
    requires forall m :: k <= m < |options| ==> !Letter(options, m, args[i][j])
    ensures ShortOps(args, i, options, parseInt, j, k, effects) == Outcome(0, effects)
    decreases |options| - k
  {
    assert !Letter(options, k, args[i][j]);
    if k + 1 < |options| {
      ShortUnknownLetter(args, i, options, parseInt, j, k + 1, effects);
    }
  }

  /** Every letter from `j` on belongs to a boolean descriptor. */
  predicate AllBools(options: seq<Opt>, arg: string, j: nat)
    requires j <= |arg|
  {
    forall l :: j <= l < |arg| ==>
      FirstLetter(options, arg[l], 0).Some? && options[FirstLetter(options, arg[l], 0).value].otype == BoolT
  }

  /** The flags the boolean letters from `j` on set, in order. */
  function BoolEffects(options: seq<Opt>, arg: string, j: nat): (r: seq<Effect>)
    requires j <= |arg| && AllBools(options, arg, j)
    ensures |r| == |arg| - j
    ensures forall l :: j <= l < |arg| ==> r[l - j] == SetFlag(FirstLetter(options, arg[l], 0).value)
    decreases |arg| - j
  {
    if j == |arg| then [] else [SetFlag(FirstLetter(options, arg[j], 0).value)] + BoolEffects(options, arg, j + 1)
  }

  lemma {:induction false} ShortBoolsFrom(args: seq<string>, i: nat, options: seq<Opt>, parseInt: IntParser,
                                          j: nat, effects: seq<Effect>)
    requires i < |args| && 1 <= j <= |args[i]| && AllBools(options, args[i], j)
    ensures ShortFrom(args, i, options, parseInt, j, effects) == Outcome(1, effects + BoolEffects(options, args[i], j))
    decreases |args[i]| - j
  {
    if j < |args[i]| {
      var m := FirstLetter(options, args[i][j], 0).value;
      ShortReachesFirst(args, i, options, parseInt, j, 0, effects);
      ShortBoolsFrom(args, i, options, parseInt, j + 1, effects + [SetFlag(m)]);
      SeqAssoc(effects, [SetFlag(m)], BoolEffects(options, args[i], j + 1));
    }
  }

  /** `-abc` whose letters are all boolean flags sets each of them, in order, and removes the argument. */
  lemma ShortCombinedBools(args: seq<string>, i: nat, options: seq<Opt>, parseInt: IntParser)
    requires i < |args| && |args[i]| >= 1 && AllBools(options, args[i], 1)
    ensures ShortOption(args, i, options, parseInt) == Outcome(1, BoolEffects(options, args[i], 1))
  {
    ShortBoolsFrom(args, i, options, parseInt, 1, []);
  }

  /**
   * A string or list letter that is not the last one of its argument, or
   * that has no argument after it, removes nothing: the scan stops with
   * only the flags of the boolean letters before it written.
   */
  lemma ShortValueRefused(args: seq<string>, i: nat, options: seq<Opt>, parseInt: IntParser, j: nat, effects: seq<Effect>)
    requires i < |args| && 1 <= j < |args[i]| && FirstLetter(options, args[i][j], 0).Some?
    requires options[FirstLetter(options, args[i][j], 0).value].otype in {StringT, StringListT}
    requires j + 1 < |args[i]| || i + 1 == |args|
    ensures ShortOps(args, i, options, parseInt, j, 0, effects) == Outcome(0, effects)
  {
    ShortReachesFirst(args, i, options, parseInt, j, 0, effects);
  }

  /** `-o value` for a string descriptor removes both arguments and stores the value. */
  lemma ShortSeparateValue(args: seq<string>, i: nat, options: seq<Opt>, parseInt: IntParser, c: char)
    requires i + 1 < |args| && args[i] == ['-', c] && FirstLetter(options, c, 0).Some?
    requires options[FirstLetter(options, c, 0).value].otype == StringT
    ensures ShortOption(args, i, options, parseInt) == Outcome(2, [SetString(FirstLetter(options, c, 0).value, args[i + 1])])
  {
    ShortReachesFirst(args, i, options, parseInt, 1, 0, []);
  }

  /**
   * `-nDIGITS` for an integer descriptor removes the argument and stores the
   * number when `strtol` reads all of DIGITS, and removes nothing otherwise.
   */
  lemma ShortAttachedInt(args: seq<string>, i: nat, options: seq<Opt>, parseInt: IntParser, c: char, digits: string)
    requires i < |args| && args[i] == ['-', c] + digits && |digits| >= 1 && FirstLetter(options, c, 0).Some?
    requires options[FirstLetter(options, c, 0).value].otype == IntT
    ensures var m := FirstLetter(options, c, 0).value;
            ShortOption(args, i, options, parseInt)
            == if parseInt(digits).Some? then Outcome(1, [SetInt(m, parseInt(digits).value)]) else Outcome(0, [])
  {
    assert args[i][2..] == digits;
    ShortReachesFirst(args, i, options, parseInt, 1, 0, []);
  }

  /**
   * A single value-taking letter (string, list or integer) as the last
   * argument removes nothing and writes nothing.
   */
  lemma ShortValueMissing(args: seq<string>, i: nat, options: seq<Opt>, parseInt: IntParser, c: char)
    requires i + 1 == |args| && args[i] == ['-', c] && FirstLetter(options, c, 0).Some?
    requires options[FirstLetter(options, c, 0).value].otype in {StringT, StringListT, IntT}
    ensures ShortOption(args, i, options, parseInt) == Outcome(0, [])
  {
    ShortReachesFirst(args, i, options, parseInt, 1, 0, []);
  }

  // ---------------------------------------------------------------------------
  // Properties of the whole parse
  // ---------------------------------------------------------------------------

  /** `a` is `b` with some elements left out, the rest in their order. */
  predicate SubseqOf(a: seq<string>, b: seq<string>)
    decreases |b|
  {
    a == [] || (b != [] && ((a[0] == b[0] && SubseqOf(a[1..], b[1..])) || SubseqOf(a, b[1..])))
  }

  lemma {:induction false} SubseqRefl(a: seq<string>)
    ensures SubseqOf(a, a)
    decreases |a|
  {
    if a != [] {
      SubseqRefl(a[1..]);
    }
  }

  lemma {:induction false} SubseqTrans(a: seq<string>, b: seq<string>, c: seq<string>)
    requires SubseqOf(a, b) && SubseqOf(b, c)
    ensures SubseqOf(a, c)
    decreases |c|
  {
    if a != [] {
      if SubseqOf(b, c[1..]) {
        SubseqTrans(a, b, c[1..]);
      } else if a[0] == b[0] && SubseqOf(a[1..], b[1..]) {
        SubseqTrans(a[1..], b[1..], c[1..]);
      } else {
        SubseqTrans(a, b[1..], c[1..]);
      }
    }
  }

  /** Removing `n` elements at `i` leaves a subsequence. */
  lemma {:induction false} ShiftIsSubseq(args: seq<string>, i: nat, n: nat)
    requires i + n <= |args|
    ensures SubseqOf(Shift(args, i, n), args)
    decreases |args|
  {
    if i > 0 {
      ShiftIsSubseq(args[1..], i - 1, n);
      assert Shift(args, i, n)[1..] == Shift(args[1..], i - 1, n);
    } else if n > 0 {
      ShiftIsSubseq(args[1..], 0, n - 1);
      assert Shift(args[1..], 0, n - 1) == Shift(args, 0, n);
    } else {
      assert Shift(args, 0, 0) == args;
      SubseqRefl(args);
    }
  }

  /** The arguments the parse leaves are arguments it was given, in their original order. */
  lemma {:induction false} ParseKeepsOrder(args: seq<string>, options: seq<Opt>, parseInt: IntParser, stopOnUnknown: bool,
                                           idx: nat, effects: seq<Effect>)
    requires idx <= |args|
    ensures SubseqOf(ParseFrom(args, options, parseInt, stopOnUnknown, idx, effects).args, args)
    decreases |args| - idx
  {
    var r := ParseFrom(args, options, parseInt, stopOnUnknown, idx, effects);
    if idx == |args| || (!IsDashed(args[idx]) && SubcommandFrom(args[idx], options, 0).Some?) {
      SubseqRefl(args);
    } else if IsSeparator(args[idx]) {
      ShiftIsSubseq(args, idx, 1);
    } else {
      var o := OptionStep(args, idx, options, parseInt);
      if o.shifted == 0 && stopOnUnknown {
        SubseqRefl(args);
      } else if o.shifted == 0 {
        ParseKeepsOrder(args, options, parseInt, stopOnUnknown, idx + 1, effects + o.effects);
      } else {
        var rest := Shift(args, idx, o.shifted);
        ParseKeepsOrder(rest, options, parseInt, stopOnUnknown, idx, effects + o.effects);
        ShiftIsSubseq(args, idx, o.shifted);
        SubseqTrans(r.args, rest, args);
      }
    }
  }

  /**
   * When the parse stops at the first unknown argument, what is left is the
   * untouched tail of the input: options are only ever removed from its front.
   */
  lemma {:induction false} StopLeavesTail(args: seq<string>, options: seq<Opt>, parseInt: IntParser, effects: seq<Effect>)
    ensures var r := ParseFrom(args, options, parseInt, true, 0, effects);
            |r.args| <= |args| && r.args == args[|args| - |r.args|..]
    decreases |args|
  {
    var r := ParseFrom(args, options, parseInt, true, 0, effects);
    if args == [] || (!IsSeparator(args[0]) && !IsDashed(args[0]) && SubcommandFrom(args[0], options, 0).Some?) {
      assert r.args == args;
    } else if IsSeparator(args[0]) {
      assert r.args == Shift(args, 0, 1) == args[1..];
    } else {
      var o := OptionStep(args, 0, options, parseInt);
      ParseFromStep(args, options, parseInt, true, 0, effects);
      if o.shifted > 0 {
        var rest := Shift(args, 0, o.shifted);
        StopLeavesTail(rest, options, parseInt, effects + o.effects);
        TailOfTail(args, o.shifted, rest, r.args);
      } else {
        assert r.args == args;
      }
    }
  }

  /** A tail of the arguments after the first `n` is a tail of the arguments. */
  lemma TailOfTail(args: seq<string>, n: nat, rest: seq<string>, t: seq<string>)
    requires n <= |args| && rest == Shift(args, 0, n)
    requires |t| <= |rest| && t == rest[|rest| - |t|..]
    ensures |t| <= |args| && t == args[|args| - |t|..]
  {
    assert rest == args[n..];
  }

  /** `parse_options` with stop-on-unknown leaves a tail of the arguments (after the program name). */
  lemma ParseWithStopLeavesTail(args: seq<string>, options: seq<Opt>, parseInt: IntParser, skipFirst: bool)
    ensures var start := if skipFirst && |args| > 0 then args[1..] else args;
            var r := Parse(args, options, parseInt, skipFirst, true);
            |r.args| <= |start| && r.args == start[|start| - |r.args|..]
  {
    var start := if skipFirst && |args| > 0 then args[1..] else args;
    assert Parse(args, options, parseInt, skipFirst, true) == ParseFrom(start, options, parseInt, true, 0, []);
    StopLeavesTail(start, options, parseInt, []);
  }

  /**
   * Whenever the loop reaches `--`, that one argument is removed, the parse
   * ends, and everything after it is left as it is with nothing more written.
   */
  lemma SeparatorStops(args: seq<string>, options: seq<Opt>, parseInt: IntParser, stopOnUnknown: bool,
                       idx: nat, effects: seq<Effect>)
    requires idx < |args| && IsSeparator(args[idx])
    ensures var r := ParseFrom(args, options, parseInt, stopOnUnknown, idx, effects);
            r.effects == effects && |r.args| == |args| - 1 &&
            r.args[..idx] == args[..idx] && r.args[idx..] == args[idx + 1..]
  {
    var r := ParseFrom(args, options, parseInt, stopOnUnknown, idx, effects);
    assert r.args == args[..idx] + args[idx + 1..];
    assert r.args[idx..] == args[idx + 1..];
  }

  /**
   * Whenever the loop reaches a plain argument that names a command, the
   * first such descriptor decides: its flag is set when it has one, the parse
   * ends, and every argument is left in place, whether or not stop-on-unknown
   * is set.
   */
  lemma SubcommandStops(args: seq<string>, options: seq<Opt>, parseInt: IntParser, stopOnUnknown: bool,
                        idx: nat, effects: seq<Effect>, k: nat)
    requires idx < |args| && !IsDashed(args[idx])
    requires k < |options| && options[k].otype == CommandT && options[k].strName == args[idx]
    requires forall m :: 0 <= m < k ==> options[m].otype != CommandT || options[m].strName != args[idx]
    ensures ParseFrom(args, options, parseInt, stopOnUnknown, idx, effects)
         == Parsed(args, effects + (if options[k].hasValue then [SetFlag(k)] else []))
  {
    assert !IsSeparator(args[idx]);
    assert SubcommandFrom(args[idx], options, 0) == SubcommandFrom(args[idx], options, k) by {
      SubcommandSkips(args[idx], options, 0, k);
    }
  }

  lemma {:induction false} SubcommandSkips(name: string, options: seq<Opt>, k: nat, k': nat)
    requires k <= k' <= |options|
    requires forall m :: k <= m < k' ==> options[m].otype != CommandT || options[m].strName != name
    ensures SubcommandFrom(name, options, k) == SubcommandFrom(name, options, k')
    decreases k' - k
  {
    if k < k' {
      SubcommandSkips(name, options, k + 1, k');
    }
  }

  /**
   * Whenever the loop reaches a plain argument that is not a command, nothing
   * is written for it: with stop-on-unknown the parse ends with every argument
   * left in place, and without it the loop steps over the argument.
   */
  lemma StopAtOperand(args: seq<string>, options: seq<Opt>, parseInt: IntParser, stopOnUnknown: bool,
                      idx: nat, effects: seq<Effect>)
    requires idx < |args| && !IsDashed(args[idx]) && SubcommandFrom(args[idx], options, 0).None?
    ensures stopOnUnknown ==> ParseFrom(args, options, parseInt, stopOnUnknown, idx, effects) == Parsed(args, effects)
    ensures !stopOnUnknown ==>
              ParseFrom(args, options, parseInt, stopOnUnknown, idx, effects)
              == ParseFrom(args, options, parseInt, stopOnUnknown, idx + 1, effects)
  {
    assert !IsSeparator(args[idx]);
    ParseFromStep(args, options, parseInt, stopOnUnknown, idx, effects);
    assert effects + [] == effects;
  }

  // ---------------------------------------------------------------------------
  // Findings
  // ---------------------------------------------------------------------------

  /**
   * The text `parse_long_option` compares the NEXT descriptor against, as
   * written: once a descriptor's flag begins the argument, `arg` is
   * reassigned to the value (the next argument, or the text after `=`) and
   * stays reassigned when that descriptor does not take the value.
   */
  function LongCarried(args: seq<string>, i: nat, options: seq<Opt>, k: nat, cur: string): (r: string)
    requires i < |args| && k < |options|
    ensures r == cur || (i + 1 < |args| && r == args[i + 1]) || (|r| < |cur| && r == cur[|cur| - |r|..])
    ensures options[k].lFlag.None? || !(options[k].lFlag.value <= cur) ==> r == cur
  {
    var op := options[k];
    if op.lFlag.None? || (op.otype == BoolT && cur == op.lFlag.value) || !(op.lFlag.value <= cur) then cur
    else if |cur| == |op.lFlag.value| then (if i + 1 >= |args| then cur else args[i + 1])
    else if cur[|op.lFlag.value|] == '=' then cur[|op.lFlag.value| + 1..]
    else cur
  }

  /** `parse_long_option` as written, carrying the reassigned `arg` from one descriptor to the next. */
  function LongFromAsWritten(args: seq<string>, i: nat, options: seq<Opt>, parseInt: IntParser, k: nat, cur: string): (r: Outcome)
    requires i < |args| && k <= |options|
    ensures r.shifted <= 2 && (r.shifted == 2 ==> i + 1 < |args|)
    decreases |options| - k
  {
    if k == |options| then Outcome(0, [])
    else match LongStep(args, i, options, parseInt, k, cur)
      case Some(o) => o
      case None => LongFromAsWritten(args, i, options, parseInt, k + 1, LongCarried(args, i, options, k, cur))
  }

  /**
   * With boolean options `--quiet` and `--help`, the argument `--quiet=help`
   * is taken by the code as written as `--help`: the help flag is set and
   * the argument removed. Comparing every descriptor with the argument's own
   * text leaves it unconsumed.
   */
  lemma LongReassignSetsOtherFlag(parseInt: IntParser)
    ensures var options := [Opt('\0', Some("quiet"), "", BoolT, true), Opt('\0', Some("help"), "", BoolT, true)];
            var args := ["--quiet=help"];
            LongFromAsWritten(args, 0, options, parseInt, 0, args[0][2..]) == Outcome(1, [SetFlag(1)]) &&
            LongOption(args, 0, options, parseInt) == Outcome(0, [])
  {
    var options := [Opt('\0', Some("quiet"), "", BoolT, true), Opt('\0', Some("help"), "", BoolT, true)];
    var args := ["--quiet=help"];
    var cur := args[0][2..];
    assert cur == "quiet=help";
    assert "quiet" <= cur && cur[5] == '=' && cur[6..] == "help";
    assert LongCarried(args, 0, options, 0, cur) == "help";
    assert !("help" <= cur) by { assert cur[0] != 'h'; }
  }

  /**
   * Lines 194-203 as written: an integer letter that ends its argument takes
   * `argv[i + 1]` with no bounds check, and for the last argument that is the
   * NULL terminator handed to `strtol` (None: no defined outcome).
   */
  function ShortIntNextAsWritten(argv: seq<Option<string>>, i: nat, k: nat, parseInt: IntParser): (r: Option<Outcome>)
    requires i + 1 < |argv|
    ensures r.None? <==> argv[i + 1].None?
    ensures r.Some? ==> r.value.shifted == 0 || r.value.shifted == 2
  {
    match argv[i + 1]
    case None => None
    case Some(v) => Some(if parseInt(v).Some? then Outcome(2, [SetInt(k, parseInt(v).value)]) else Outcome(0, []))
  }

  /**
   * The as-written integer branch agrees with the checked one whenever an
   * argument follows, and reads the NULL terminator exactly when none does.
   */
  lemma ShortIntNextReadsTerminator(argv: seq<Option<string>>, args: seq<string>, i: nat, k: nat, parseInt: IntParser)
    requires ArgvHolds(argv, args) && i < |args|
    ensures i + 1 < |args| ==> ShortIntNextAsWritten(argv, i, k, parseInt) == Some(ShortIntNext(args, i, k, parseInt))
    ensures i + 1 == |args| ==> ShortIntNextAsWritten(argv, i, k, parseInt).None?
  {
  }
}
