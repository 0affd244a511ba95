/**
 * The argument matchers of `usage.c`, from the revision whose `main` walks
 * its arguments by hand: whether one argument names one option descriptor,
 * and whether an argument is acceptable against a whole descriptor table.
 * Strings stand for C strings and so hold no NUL character.
 */
module Usage {
  import opened Common

  /** `enum opt_type` of this revision (it has no string-list type); `EndT` is the table terminator. */
  datatype DescType = BoolT | IntT | StringT | CommandT | GroupT | EndT

  /** A `struct option_description`: short flag (`'\0'` for none), long flag, name, type; the help text is left out. */
  datatype Desc = Desc(sFlag: char, lFlag: Option<string>, strName: string, dtype: DescType)

  /** `strchr(s, c) != NULL`: the search includes the terminating NUL, so `'\0'` is always found. */
  predicate StrChr(s: string, c: char) {
    c == '\0' || c in s
  }

  /**
   * `argument_matches_option` with the combined-flag test for booleans
   * looking only at the argument's letters: a group or the terminator is a
   * BUG; a command matches its exact name; otherwise only an argument of at
   * least two characters starting with `-` can match, `--name` by the long
   * flag, `-x` by the short flag, and `-xyz` by any letter for a boolean
   * or by the last letter for an option that takes a value.
   */
  function ArgumentMatchesOption(arg: string, d: Desc): (r: Result<bool>)
    ensures r.Err? <==> d.dtype in {GroupT, EndT}
    ensures r.Err? ==> r.failure.Bug?
    ensures d.dtype == CommandT ==> r == Ok(arg == d.strName)
    ensures r == Ok(true) && d.dtype != CommandT ==> |arg| >= 2 && arg[0] == '-'
  {
    if d.dtype == GroupT then Err(Bug("cannot match argument against type 'OPTION_GROUP_T'"))
    else if d.dtype == EndT then Err(Bug("cannot match argument against type 'OPTION_END'"))
    else if d.dtype == CommandT then Ok(arg == d.strName)
    else if |arg| <= 1 || arg[0] != '-' then Ok(false)
    else if arg[1] == '-' then Ok(d.lFlag == Some(arg[2..]))
    else if |arg| > 2 then
      if d.dtype == BoolT then Ok(d.sFlag != '\0' && d.sFlag in arg[1..])
      else Ok(arg[|arg| - 1] == d.sFlag)
    else Ok(arg[1] == d.sFlag)
  }

  /** `--name` matches exactly the descriptors whose long flag is `name`. */
  lemma MatchesLong(name: string, d: Desc)
    requires d.dtype !in {CommandT, GroupT, EndT}
    ensures ArgumentMatchesOption("--" + name, d) == Ok(d.lFlag == Some(name))
  {
    assert ("--" + name)[2..] == name;
  }

  /** Anything shorter than two characters or not starting with `-` matches no flag descriptor. */
  lemma MatchesOnlyDashed(arg: string, d: Desc)
    requires d.dtype !in {CommandT, GroupT, EndT}
    requires |arg| <= 1 || arg[0] != '-'
    ensures ArgumentMatchesOption(arg, d) == Ok(false)
  {
  }

  /**
   * In `-xyz` a boolean matches when its short flag is one of the letters and
   * any other flag descriptor only when its short flag is the last letter.
   */
  lemma MatchesCombined(arg: string, d: Desc)
    requires |arg| > 2 && arg[0] == '-' && arg[1] != '-'
    requires d.dtype !in {CommandT, GroupT, EndT}
    ensures d.dtype == BoolT ==>
      (ArgumentMatchesOption(arg, d) == Ok(true) <==> d.sFlag != '\0' && exists l :: 1 <= l < |arg| && arg[l] == d.sFlag)
    ensures d.dtype != BoolT ==> (ArgumentMatchesOption(arg, d) == Ok(true) <==> arg[|arg| - 1] == d.sFlag)
  {
    if d.dtype == BoolT && d.sFlag in arg[1..] {
      var l :| 0 <= l < |arg[1..]| && arg[1..][l] == d.sFlag;
      assert arg[l + 1] == d.sFlag;
    }
    if d.dtype == BoolT && (exists l :: 1 <= l < |arg| && arg[l] == d.sFlag) {
      var l :| 1 <= l < |arg| && arg[l] == d.sFlag;
      assert arg[1..][l - 1] == d.sFlag;
    }
  }

  // ---------------------------------------------------------------------------
  // is_valid_argument
  // ---------------------------------------------------------------------------

  /**
   * Letter `l` of a combined short argument is accepted: some descriptor
   * other than a command or group has it as short flag, and is a boolean
   * unless the letter is the last one.
   */
  predicate LetterAccepted(arg: string, descs: seq<Desc>, l: nat)
    requires l < |arg|
  {
    exists k :: 0 <= k < |descs| && descs[k].dtype !in {CommandT, GroupT} && arg[l] == descs[k].sFlag &&
      (l == |arg| - 1 || descs[k].dtype == BoolT)
  }

  /**
   * The arguments `is_valid_argument` accepts: any non-empty argument not
   * starting with `-`; `-xyz` when every letter is accepted; `-x` when some
   * descriptor has short flag `x`; `--name` when some descriptor has long
   * flag `name`. The empty argument, `-` and `--` are rejected.
   */
  predicate ValidArgument(arg: string, descs: seq<Desc>) {
    if |arg| == 0 then false
    else if arg[0] != '-' then true
    else if |arg| > 2 && arg[1] != '-' then forall l :: 1 <= l < |arg| ==> LetterAccepted(arg, descs, l)
    else if |arg| == 2 && arg[1] != '-' then exists k :: 0 <= k < |descs| && descs[k].sFlag == arg[1]
    else if |arg| > 2 then exists k :: 0 <= k < |descs| && descs[k].lFlag == Some(arg[2..])
    else false
  }

  /**
   * `is_valid_argument` over the descriptors before the table's terminator:
   * scans the letters of a combined argument one by one, each against the
   * whole table, and the table once for a single letter or a long flag.
   */
  method IsValidArgument(arg: string, descs: seq<Desc>) returns (valid: bool)
    requires forall k :: 0 <= k < |descs| ==> descs[k].dtype != EndT
    ensures valid == ValidArgument(arg, descs)
  {
    if |arg| == 0 {
      return false;
    }
    if arg[0] != '-' {
      return true;
    }
    if |arg| > 2 && arg[1] != '-' {
      var flag := 1;
      while flag < |arg|
        invariant 1 <= flag <= |arg|
        invariant forall l :: 1 <= l < flag ==> LetterAccepted(arg, descs, l)
      {
        var found := false;
        var k := 0;
        while k < |descs|
          invariant k <= |descs|
          invariant forall m :: 0 <= m < k && descs[m].dtype !in {CommandT, GroupT} && arg[flag] == descs[m].sFlag ==>
                      !(flag == |arg| - 1 || descs[m].dtype == BoolT)
          invariant found ==> LetterAccepted(arg, descs, flag)
        {
          var desc := descs[k];
          if desc.dtype == CommandT || desc.dtype == GroupT {
            k := k + 1;
            continue;
          }
          if flag + 1 == |arg| && arg[flag] == desc.sFlag {
            found := true;
            break;
          }
          if desc.dtype == BoolT && arg[flag] == desc.sFlag {
            found := true;
            break;
          }
          k := k + 1;
        }
        if !found {
          assert !LetterAccepted(arg, descs, flag);
          return false;
        }
        flag := flag + 1;
      }
      return true;
    }
    if |arg| == 2 && arg[1] != '-' {
      for k := 0 to |descs|
        invariant forall m :: 0 <= m < k ==> descs[m].sFlag != arg[1]
      {
        if descs[k].sFlag == arg[1] {
          return true;
        }
      }
      return false;
    }
    if |arg| > 2 && arg[1] == '-' {
      var name := arg[2..];
      for k := 0 to |descs|
        invariant forall m :: 0 <= m < k ==> descs[m].lFlag != Some(name)
      {
        if descs[k].lFlag.Some? && descs[k].lFlag.value == name {
          return true;
        }
      }
      return false;
    }
    return false;
  }

  /** A single-letter argument that a flag descriptor of the table matches is valid against the table. */
  lemma ShortMatchIsValid(arg: string, descs: seq<Desc>, k: nat)
    requires |arg| == 2 && arg[1] != '-' && k < |descs| && descs[k].dtype !in {CommandT, GroupT, EndT}
    requires ArgumentMatchesOption(arg, descs[k]) == Ok(true)
    ensures ValidArgument(arg, descs)
  {
  }

  /** A long argument is valid against a table exactly when some flag descriptor of the table matches it. */
  lemma LongValidIffMatch(arg: string, descs: seq<Desc>)
    requires |arg| > 2 && arg[0] == '-' && arg[1] == '-'
    requires forall k :: 0 <= k < |descs| ==> descs[k].dtype !in {CommandT, GroupT, EndT}
    ensures ValidArgument(arg, descs) <==> exists k :: 0 <= k < |descs| && ArgumentMatchesOption(arg, descs[k]) == Ok(true)
  {
  }

  /**
   * Every letter of a valid combined argument is matched by a descriptor of
   * the table: a boolean for the letters before the last.
   */
  lemma CombinedValidLetters(arg: string, descs: seq<Desc>, l: nat)
    requires |arg| > 2 && arg[0] == '-' && arg[1] != '-' && 1 <= l < |arg| - 1 && arg[l] != '-'
    requires ValidArgument(arg, descs)
    ensures exists k :: 0 <= k < |descs| && descs[k].dtype == BoolT && ArgumentMatchesOption(['-', arg[l]], descs[k]) == Ok(true)
  {
    assert LetterAccepted(arg, descs, l);
    var k :| 0 <= k < |descs| && descs[k].dtype !in {CommandT, GroupT} && arg[l] == descs[k].sFlag &&
              (l == |arg| - 1 || descs[k].dtype == BoolT);
    assert ArgumentMatchesOption(['-', arg[l]], descs[k]) == Ok(true);
  }

  // ---------------------------------------------------------------------------
  // Finding: the combined-flag test for booleans as written
  // ---------------------------------------------------------------------------

  /**
   * `argument_matches_option` as written: for a boolean and a combined short
   * argument it tests `strchr(arg_name, s_flag) != NULL`, which holds for a
   * descriptor without a short flag (`s_flag == 0`) whatever the letters.
   */
  function ArgumentMatchesOptionAsWritten(arg: string, d: Desc): (r: Result<bool>)
    ensures r.Err? <==> ArgumentMatchesOption(arg, d).Err?
    ensures ArgumentMatchesOption(arg, d) == Ok(true) ==> r == Ok(true)
  {
    if d.dtype == BoolT && |arg| > 2 && arg[0] == '-' && arg[1] != '-' then Ok(StrChr(arg[1..], d.sFlag))
    else ArgumentMatchesOption(arg, d)
  }

  /**
   * The two agree except on a long-only boolean and a combined short
   * argument, which the code as written always reports as a match: `-qx`
   * "matches" `--embed`.
   */
  lemma LongOnlyBoolMatchesAnyCombined(arg: string, d: Desc)
    requires d.dtype == BoolT && d.sFlag == '\0'
    requires |arg| > 2 && arg[0] == '-' && arg[1] != '-'
    ensures ArgumentMatchesOptionAsWritten(arg, d) == Ok(true)
    ensures ArgumentMatchesOption(arg, d) == Ok(false)
  {
  }

  /** Apart from that case the code as written and the corrected matcher agree. */
  lemma AsWrittenAgreesOtherwise(arg: string, d: Desc)
    requires !(d.dtype == BoolT && d.sFlag == '\0' && |arg| > 2 && arg[0] == '-' && arg[1] != '-')
    ensures ArgumentMatchesOptionAsWritten(arg, d) == ArgumentMatchesOption(arg, d)
  {
  }

  /** The corrected matcher never lets a descriptor without a short flag match a short argument. */
  lemma NoShortFlagNoShortMatch(arg: string, d: Desc)
    requires d.sFlag == '\0' && d.dtype !in {CommandT, GroupT, EndT} && '\0' !in arg
    requires |arg| >= 2 && arg[0] == '-' && arg[1] != '-'
    ensures ArgumentMatchesOption(arg, d) == Ok(false)
  {
    if |arg| > 2 && d.dtype != BoolT {
      assert arg[|arg| - 1] in arg;
    }
    if |arg| == 2 {
      assert arg[1] in arg;
    }
  }
}
