/**
 * Label validation (`validate_label` in src/validate.rs): a fixed sequence
 * of checks, each failing with its own error value and position, after
 * which the label gets its type: Emoji, ASCII or the name of its script
 * group. `validate_name` first rejects a label that holds a disallowed
 * character, then validates it.
 *
 * The error positions are indices into the label's code points
 * (`IterCps`), as in the source.
 */
module Validate {
  import opened Wrappers
  import opened Utils
  import opened Seqs
  import opened Constants
  import opened CodePointTypes
  import opened TokenTypes
  import opened Specs
  import opened Labels
  import opened Errors
  import opened ScriptGroups

  /** A label that passed validation, with the type it was given. */
  datatype ValidatedLabel = ValidatedLabel(tokenized: TokenizedLabel, labelType: GroupName)

  /** The error every currable check raises: a kind, a position and the offending code points. */
  function CurrableAt(kind: CurrableError, index: nat, cps: seq<CodePoint>): ProcessError
  {
    Currable(kind, index, Cps2Str(cps), Some(""))
  }

  /** A single character's code point prints as that character. */
  lemma Cps2StrOne(cp: CodePoint)
    requires IsScalarValue(cp)
    ensures Cps2Str([cp]) == [cp as char]
  {
    assert [cp][1..] == [];
  }

  // ---- non_empty ----

  function IsNotIgnored(t: EnsNameToken): bool
  {
    !t.Ignored?
  }

  /** `non_empty`: a label made only of ignored tokens (or of none) is empty. */
  function NonEmpty(lab: TokenizedLabel): (r: Result<(), ProcessError>)
    ensures r.Err? <==> forall i :: 0 <= i < |lab.tokens| ==> lab.tokens[i].Ignored?
    ensures r.Err? ==> r.error == ProcessError.Disallowed(EmptyLabel)
  {
    var k := FirstWhere(lab.tokens, IsNotIgnored);
    assert k == |lab.tokens| ==> lab.tokens[..k] == lab.tokens;
    if k == |lab.tokens| then Err(ProcessError.Disallowed(EmptyLabel)) else Ok(())
  }

  // ---- underscore_only_at_beginning ----

  function IsUnderscore(cp: CodePoint): bool
  {
    cp == CP_UNDERSCORE
  }

  function NotUnderscore(cp: CodePoint): bool
  {
    cp != CP_UNDERSCORE
  }

  /** The underscore at `j` has some other code point before it. */
  predicate UnderscoreInMiddleAt(cps: seq<CodePoint>, j: nat)
    requires j < |cps|
  {
    cps[j] == CP_UNDERSCORE && exists i :: 0 <= i < j && cps[i] != CP_UNDERSCORE
  }

  /** Where the scan of `underscore_only_at_beginning` stops: the first underscore after the leading ones. */
  function UnderscoreScanEnd(cps: seq<CodePoint>): nat
  {
    var leading := FirstWhere(cps, NotUnderscore);
    leading + FirstWhere(cps[leading..], IsUnderscore)
  }

  /**
   * `underscore_only_at_beginning`: skip the leading underscores, then
   * report the first underscore after them.
   */
  function UnderscoreOnlyAtBeginning(lab: TokenizedLabel): Result<(), ProcessError>
  {
    var k := UnderscoreScanEnd(IterCps(lab));
    if k < |IterCps(lab)| then Err(CurrableAt(UnderscoreInMiddle, k, [CP_UNDERSCORE])) else Ok(())
  }

  /** Before the scan's end no underscore has another code point in front of it. */
  lemma UnderscoreScanBefore(cps: seq<CodePoint>)
    ensures forall j :: 0 <= j < UnderscoreScanEnd(cps) && j < |cps| ==> !UnderscoreInMiddleAt(cps, j)
  {
    var leading := FirstWhere(cps, NotUnderscore);
    var rest := cps[leading..];
    var m := FirstWhere(rest, IsUnderscore);
    assert forall i :: 0 <= i < leading ==> cps[..leading][i] == cps[i];
    assert forall i :: 0 <= i < m ==> rest[..m][i] == cps[leading + i];
    forall j | 0 <= j < leading + m && j < |cps|
      ensures !UnderscoreInMiddleAt(cps, j)
    {
      if j < leading {
        assert forall i :: 0 <= i < j ==> cps[i] == CP_UNDERSCORE;
      } else {
        assert cps[j] == rest[..m][j - leading];
      }
    }
  }

  /** Where the scan stops inside the sequence, there is an underscore after some other code point. */
  lemma UnderscoreScanFound(cps: seq<CodePoint>)
    requires UnderscoreScanEnd(cps) < |cps|
    ensures UnderscoreInMiddleAt(cps, UnderscoreScanEnd(cps))
  {
    var leading := FirstWhere(cps, NotUnderscore);
    var rest := cps[leading..];
    var m := FirstWhere(rest, IsUnderscore);
    assert cps[leading + m] == rest[m];
    assert cps[leading] != CP_UNDERSCORE;
    if m == 0 {
      assert false;
    }
  }

  /**
   * The check fails exactly when an underscore follows some other code
   * point; it reports the first such underscore, as "_".
   */
  lemma UnderscoreInMiddleFirst(lab: TokenizedLabel)
    ensures UnderscoreOnlyAtBeginning(lab).Err? <==>
      exists j :: 0 <= j < |IterCps(lab)| && UnderscoreInMiddleAt(IterCps(lab), j)
    ensures UnderscoreOnlyAtBeginning(lab).Err? ==> (
      var e := UnderscoreOnlyAtBeginning(lab).error;
      e.Currable? && e.kind == UnderscoreInMiddle && e.sequence == "_" && e.maybeSuggest == Some("") &&
      e.index < |IterCps(lab)| && UnderscoreInMiddleAt(IterCps(lab), e.index) &&
      forall j :: 0 <= j < e.index ==> !UnderscoreInMiddleAt(IterCps(lab), j))
  {
    var cps := IterCps(lab);
    UnderscoreScanBefore(cps);
    if UnderscoreScanEnd(cps) < |cps| {
      UnderscoreScanFound(cps);
      Cps2StrOne(CP_UNDERSCORE);
    }
  }

  // ---- no_hyphen_at_second_and_third ----

  /** `slice::get`. */
  function Get(cps: seq<CodePoint>, i: nat): (r: Option<CodePoint>)
    ensures r.Some? <==> i < |cps|
    ensures r.Some? ==> r.value == cps[i]
  {
    if i < |cps| then Some(cps[i]) else None
  }

  /**
   * `no_hyphen_at_second_and_third`: the third and fourth code points must
   * not both be HYPHEN-MINUS (section 4.2.3.1 of RFC 5891); reported at
   * index 2 as "--".
   */
  function NoHyphenAtSecondAndThird(lab: TokenizedLabel): (r: Result<(), ProcessError>)
    ensures r.Err? <==> |IterCps(lab)| >= 4 && IterCps(lab)[2..4] == [CP_HYPHEN, CP_HYPHEN]
    ensures r.Err? ==> r.error == Currable(HyphenAtSecondAndThird, 2, "--", Some(""))
  {
    var cps := IterCps(lab);
    if Get(cps, 2) == Some(CP_HYPHEN) && Get(cps, 3) == Some(CP_HYPHEN) then
      assert Cps2Str([CP_HYPHEN, CP_HYPHEN]) == "--" by {
        assert [CP_HYPHEN, CP_HYPHEN][1..] == [CP_HYPHEN];
        Cps2StrOne(CP_HYPHEN);
      }
      Err(CurrableAt(HyphenAtSecondAndThird, 2, [CP_HYPHEN, CP_HYPHEN]))
    else
      assert |cps| >= 4 ==> cps[2..4] == [cps[2], cps[3]];
      Ok(())
  }

  /** The label of `cps` as plain Valid tokens, one per code point. */
  function PlainLabel(cps: seq<CodePoint>): (lab: TokenizedLabel)
    ensures IterCps(lab) == cps
    decreases |cps|
  {
    if |cps| == 0 then TokenizedLabel([])
    else
      var rest := PlainLabel(cps[1..]);
      assert IterCps(TokenizedLabel([Valid([cps[0]])] + rest.tokens)) == [cps[0]] + IterCps(rest) by {
        assert ([Valid([cps[0]])] + rest.tokens)[1..] == rest.tokens;
      }
      TokenizedLabel([Valid([cps[0]])] + rest.tokens)
  }

  /** "ab-c" and "---a" pass; "xn--" and "----" do not (the examples of src/validate.rs). */
  lemma HyphenExamples()
    ensures NoHyphenAtSecondAndThird(PlainLabel(['a' as int, 'b' as int, CP_HYPHEN, 'c' as int])).Ok?
    ensures NoHyphenAtSecondAndThird(PlainLabel([CP_HYPHEN, CP_HYPHEN, CP_HYPHEN, 'a' as int])).Ok?
    ensures NoHyphenAtSecondAndThird(PlainLabel(['x' as int, 'n' as int, CP_HYPHEN, CP_HYPHEN])).Err?
    ensures NoHyphenAtSecondAndThird(PlainLabel([CP_HYPHEN, CP_HYPHEN, CP_HYPHEN, CP_HYPHEN])).Err?
  {
    var l1 := ['a' as int, 'b' as int, CP_HYPHEN, 'c' as int];
    var l2 := [CP_HYPHEN, CP_HYPHEN, CP_HYPHEN, 'a' as int];
    var l3 := ['x' as int, 'n' as int, CP_HYPHEN, CP_HYPHEN];
    var l4 := [CP_HYPHEN, CP_HYPHEN, CP_HYPHEN, CP_HYPHEN];
    assert l1[2..4] != [CP_HYPHEN, CP_HYPHEN] by { assert l1[2..4][1] == 'c' as int; }
    assert l2[2..4] != [CP_HYPHEN, CP_HYPHEN] by { assert l2[2..4][1] == 'a' as int; }
    assert l3[2..4] == [CP_HYPHEN, CP_HYPHEN];
    assert l4[2..4] == [CP_HYPHEN, CP_HYPHEN];
  }

  // ---- check_fenced ----

  /** The window starting at `i` holds two fenced code points. */
  function FencedPairAt(specs: CodePointsSpecs, cps: seq<CodePoint>): nat -> bool
  {
    (i: nat) => i + 1 < |cps| && IsFenced(specs, cps[i]) && IsFenced(specs, cps[i + 1])
  }

  /**
   * `check_fenced`: a fenced code point first, then one last, then the
   * first window of two fenced code points.
   */
  function CheckFenced(lab: TokenizedLabel, specs: CodePointsSpecs): Result<(), ProcessError>
  {
    var cps := IterCps(lab);
    if |cps| > 0 && IsFenced(specs, cps[0]) then
      Err(CurrableAt(FencedLeading, 0, [cps[0]]))
    else if |cps| > 0 && IsFenced(specs, cps[|cps| - 1]) then
      Err(CurrableAt(FencedTrailing, |cps| - 1, [cps[|cps| - 1]]))
    else
      var k := FirstIndexFrom(FencedPairAt(specs, cps), 0, |cps|);
      if k < |cps| then Err(CurrableAt(FencedConsecutive, k, [cps[k], cps[k + 1]])) else Ok(())
  }

  /** The check fails exactly when a fenced code point starts or ends the label or two of them touch. */
  lemma CheckFencedFails(lab: TokenizedLabel, specs: CodePointsSpecs)
    ensures CheckFenced(lab, specs).Err? <==> (|IterCps(lab)| > 0 && (
      IsFenced(specs, IterCps(lab)[0]) || IsFenced(specs, IterCps(lab)[|IterCps(lab)| - 1]) ||
      exists i :: 0 <= i < |IterCps(lab)| - 1 && IsFenced(specs, IterCps(lab)[i]) && IsFenced(specs, IterCps(lab)[i + 1])))
  {
    var cps := IterCps(lab);
    var p := FencedPairAt(specs, cps);
    var k := FirstIndexFrom(p, 0, |cps|);
    if k < |cps| {
      assert p(k);
      assert k < |cps| - 1 && IsFenced(specs, cps[k]) && IsFenced(specs, cps[k + 1]);
    } else {
      forall i | 0 <= i < |cps| - 1
        ensures !(IsFenced(specs, cps[i]) && IsFenced(specs, cps[i + 1]))
      {
        assert !p(i);
      }
    }
  }

  /**
   * Leading comes before trailing, trailing before consecutive, and a
   * consecutive pair is reported at its first window.
   */
  lemma CheckFencedOrder(lab: TokenizedLabel, specs: CodePointsSpecs)
    ensures CheckFenced(lab, specs).Err? ==> CheckFenced(lab, specs).error.Currable?
    ensures CheckFenced(lab, specs).Err? && CheckFenced(lab, specs).error.kind == FencedTrailing ==>
      !IsFenced(specs, IterCps(lab)[0]) && CheckFenced(lab, specs).error.index == |IterCps(lab)| - 1
    ensures CheckFenced(lab, specs).Err? && CheckFenced(lab, specs).error.kind == FencedConsecutive ==> (
      var i := CheckFenced(lab, specs).error.index;
      !IsFenced(specs, IterCps(lab)[0]) && !IsFenced(specs, IterCps(lab)[|IterCps(lab)| - 1]) &&
      i < |IterCps(lab)| - 1 && IsFenced(specs, IterCps(lab)[i]) && IsFenced(specs, IterCps(lab)[i + 1]) &&
      forall j :: 0 <= j < i ==> !(IsFenced(specs, IterCps(lab)[j]) && IsFenced(specs, IterCps(lab)[j + 1])))
  {
    var cps := IterCps(lab);
    var p := FencedPairAt(specs, cps);
    var k := FirstIndexFrom(p, 0, |cps|);
    if k < |cps| {
      assert p(k);
      forall j | 0 <= j < k
        ensures !(IsFenced(specs, cps[j]) && IsFenced(specs, cps[j + 1]))
      {
        assert !p(j);
      }
    }
  }

  // ---- check_cm_leading_emoji ----

  /**
   * Token `i` is text that starts with a combining mark and stands at the
   * start of the label or right after an emoji.
   */
  predicate CmViolation(specs: CodePointsSpecs, ts: seq<EnsNameToken>, i: nat)
    requires i < |ts|
  {
    IsText(ts[i]) && |Cps(ts[i])| > 0 && IsCm(specs, Cps(ts[i])[0]) && (i == 0 || IsEmoji(ts[i - 1]))
  }

  function CmAt(specs: CodePointsSpecs, ts: seq<EnsNameToken>): nat -> bool
  {
    (i: nat) => i < |ts| && CmViolation(specs, ts, i)
  }

  /**
   * What `check_cm_leading_emoji` decides: the first violating token is
   * reported at the number of code points of the tokens before it, as
   * `CmStart` when it is the first token and `CmAfterEmoji` otherwise.
   */
  function CmVerdict(specs: CodePointsSpecs, ts: seq<EnsNameToken>): Result<(), ProcessError>
  {
    var k := FirstIndexFrom(CmAt(specs, ts), 0, |ts|);
    if k == |ts| then Ok(())
    else Err(CurrableAt(if k == 0 then CmStart else CmAfterEmoji, |TokensCps(ts[..k])|, [Cps(ts[k])[0]]))
  }

  lemma TokensCpsSnoc(ts: seq<EnsNameToken>, i: nat)
    requires i < |ts|
    ensures TokensCps(ts[..i + 1]) == TokensCps(ts[..i]) + Cps(ts[i])
  {
    assert ts[..i + 1] == ts[..i] + [ts[i]];
    TokensCpsAppend(ts[..i], [ts[i]]);
    assert TokensCps([ts[i]]) == Cps(ts[i]) + TokensCps([]);
  }

  /** `check_cm_leading_emoji`: the running `index` counts the code points of the tokens passed. */
  method CheckCmLeadingEmoji(lab: TokenizedLabel, specs: CodePointsSpecs) returns (r: Result<(), ProcessError>)
    ensures r == CmVerdict(specs, lab.tokens)
  {
    var ts := lab.tokens;
    var index: nat := 0;
    for i := 0 to |ts|
      invariant index == |TokensCps(ts[..i])|
      invariant forall j :: 0 <= j < i ==> !CmAt(specs, ts)(j)
    {
      var token := ts[i];
      if IsText(token) {
        var cps := Cps(token);
        if |cps| > 0 {
          var cp := cps[0];
          if IsCm(specs, cp) {
            if i == 0 {
              FirstIndexFromIs(CmAt(specs, ts), 0, |ts|, i);
              return Err(CurrableAt(CmStart, index, [cp]));
            } else if IsEmoji(ts[i - 1]) {
              FirstIndexFromIs(CmAt(specs, ts), 0, |ts|, i);
              return Err(CurrableAt(CmAfterEmoji, index, [cp]));
            }
          }
        }
      }
      TokensCpsSnoc(ts, i);
      index := index + Size(token);
    }
    FirstIndexFromIs(CmAt(specs, ts), 0, |ts|, |ts|);
    return Ok(());
  }

  /**
   * The check fails exactly when some token violates the rule, and the
   * reported index points at that token's combining mark within the
   * label's code points.
   */
  lemma CmVerdictPoints(lab: TokenizedLabel, specs: CodePointsSpecs)
    ensures CmVerdict(specs, lab.tokens).Err? <==>
      exists i :: 0 <= i < |lab.tokens| && CmViolation(specs, lab.tokens, i)
    ensures CmVerdict(specs, lab.tokens).Err? ==> (
      var e := CmVerdict(specs, lab.tokens).error;
      e.Currable? && e.index < |IterCps(lab)| && IsCm(specs, IterCps(lab)[e.index]) &&
      (e.kind == CmStart <==> CmViolation(specs, lab.tokens, 0)))
  {
    var ts := lab.tokens;
    var k := FirstIndexFrom(CmAt(specs, ts), 0, |ts|);
    if k < |ts| {
      assert CmAt(specs, ts)(k);
      assert ts == ts[..k] + ts[k..];
      TokensCpsAppend(ts[..k], ts[k..]);
      assert TokensCps(ts[k..]) == Cps(ts[k]) + TokensCps(ts[k + 1..]) by {
        assert ts[k..][1..] == ts[k + 1..];
      }
      assert IterCps(lab)[|TokensCps(ts[..k])|] == Cps(ts[k])[0];
      if k > 0 {
        assert !CmAt(specs, ts)(0);
      }
    } else {
      forall i | 0 <= i < |ts|
        ensures !CmViolation(specs, ts, i)
      {
        assert !CmAt(specs, ts)(i);
      }
    }
  }

  // ---- validate_label ----

  /**
   * What `validate_label` decides: empty labels fail first, fully emoji
   * labels pass as Emoji, and every other label goes on to `TextLabelOf`.
   */
  function ValidatedLabelOf(lab: TokenizedLabel, specs: CodePointsSpecs): Result<ValidatedLabel, ProcessError>
    requires SelfKeyed(specs)
  {
    match NonEmpty(lab)
    case Err(e) => Err(e)
    case Ok(_) =>
      if IsFullyEmoji(lab) then Ok(ValidatedLabel(lab, GroupName.Emoji)) else TextLabelOf(lab, specs)
  }

  /**
   * A label that is not fully emoji: the underscore check, then fully ASCII
   * labels go to `AsciiLabelOf` and the others to `ScriptLabelOf`.
   */
  function TextLabelOf(lab: TokenizedLabel, specs: CodePointsSpecs): Result<ValidatedLabel, ProcessError>
    requires SelfKeyed(specs)
  {
    match UnderscoreOnlyAtBeginning(lab)
    case Err(e) => Err(e)
    case Ok(_) => if IsFullyAscii(lab) then AsciiLabelOf(lab) else ScriptLabelOf(lab, specs)
  }

  /** A fully ASCII label is of type ASCII unless it fails the hyphen check. */
  function AsciiLabelOf(lab: TokenizedLabel): Result<ValidatedLabel, ProcessError>
  {
    match NoHyphenAtSecondAndThird(lab)
    case Err(e) => Err(e)
    case Ok(_) => Ok(ValidatedLabel(lab, Ascii))
  }

  /** Any other label must pass the fenced, combining mark and script group checks and takes its group's name. */
  function ScriptLabelOf(lab: TokenizedLabel, specs: CodePointsSpecs): Result<ValidatedLabel, ProcessError>
    requires SelfKeyed(specs)
  {
    match CheckFenced(lab, specs)
    case Err(e) => Err(e)
    case Ok(_) =>
      match CmVerdict(specs, lab.tokens)
      case Err(e) => Err(e)
      case Ok(_) =>
        match LabelGroup(lab, specs)
        case Err(e) => Err(e)
        case Ok(group) => Ok(ValidatedLabel(lab, group.name))
  }

  /** `validate_label`. */
  method ValidateLabel(lab: TokenizedLabel, specs: CodePointsSpecs) returns (r: Result<ValidatedLabel, ProcessError>)
    requires SelfKeyed(specs) && NamesResolve(specs)
    ensures r == ValidatedLabelOf(lab, specs)
  {
    var nonEmpty := NonEmpty(lab);
    if nonEmpty.Err? {
      return Err(nonEmpty.error);
    }
    if IsFullyEmoji(lab) {
      return Ok(ValidatedLabel(lab, GroupName.Emoji));
    }
    var underscore := UnderscoreOnlyAtBeginning(lab);
    if underscore.Err? {
      return Err(underscore.error);
    }
    if IsFullyAscii(lab) {
      var hyphen := NoHyphenAtSecondAndThird(lab);
      if hyphen.Err? {
        return Err(hyphen.error);
      }
      return Ok(ValidatedLabel(lab, Ascii));
    }
    var fenced := CheckFenced(lab, specs);
    if fenced.Err? {
      return Err(fenced.error);
    }
    var cm := CheckCmLeadingEmoji(lab, specs);
    if cm.Err? {
      return Err(cm.error);
    }
    var group := CheckAndGetGroup(lab, specs);
    if group.Err? {
      return Err(group.error);
    }
    return Ok(ValidatedLabel(lab, group.value.name));
  }

  /** The empty check comes first: a label of ignored tokens only is empty, whatever else holds. */
  lemma ValidateEmptyFirst(lab: TokenizedLabel, specs: CodePointsSpecs)
    requires SelfKeyed(specs)
    ensures (forall i :: 0 <= i < |lab.tokens| ==> lab.tokens[i].Ignored?) <==>
      ValidatedLabelOf(lab, specs) == Err(ProcessError.Disallowed(EmptyLabel))
  {
    if NonEmpty(lab).Ok? && !IsFullyEmoji(lab) {
      TextLabelSequenceErrors(lab, specs);
    }
  }

  /**
   * The checks after the first report a disallowed sequence only for the
   * NSM scan: never an empty label and never a disallowed character.
   */
  lemma TextLabelSequenceErrors(lab: TokenizedLabel, specs: CodePointsSpecs)
    requires SelfKeyed(specs)
    ensures TextLabelOf(lab, specs).Err? && TextLabelOf(lab, specs).error.Disallowed? ==>
      TextLabelOf(lab, specs).error.sequenceError in {NsmTooMany, NsmRepeated}
  {
    UnderscoreInMiddleFirst(lab);
    if UnderscoreOnlyAtBeginning(lab).Ok? && !IsFullyAscii(lab) {
      CheckFencedOrder(lab, specs);
      CmVerdictPoints(lab, specs);
      LabelGroupSequenceErrors(lab, specs);
    }
  }

  /** The script group checks report a disallowed sequence only for the NSM scan. */
  lemma LabelGroupSequenceErrors(lab: TokenizedLabel, specs: CodePointsSpecs)
    requires SelfKeyed(specs)
    ensures LabelGroup(lab, specs).Err? && LabelGroup(lab, specs).error.Disallowed? ==>
      LabelGroup(lab, specs).error.sequenceError in {NsmTooMany, NsmRepeated}
  {
    var cps := TextCps(lab.tokens);
    var u := Dedup(cps);
    if DetermineGroup(u, specs).Ok? {
      var g := DetermineGroup(u, specs).value;
      if GroupVerdict(g, cps, specs).Err? && GroupVerdict(g, cps, specs).error.Disallowed? {
        NsmVerdictErrors(specs, specs.nfdCps(cps));
      }
    }
  }

  /** The NSM scan reports only its two errors. */
  lemma NsmVerdictErrors(specs: CodePointsSpecs, d: seq<CodePoint>)
    ensures NsmVerdict(specs, d).Err? ==>
      NsmVerdict(specs, d).error in {ProcessError.Disallowed(NsmTooMany), ProcessError.Disallowed(NsmRepeated)}
  {
  }

  /** A non-empty, fully emoji label is an Emoji label, with no further check. */
  lemma ValidateFullyEmoji(lab: TokenizedLabel, specs: CodePointsSpecs)
    requires SelfKeyed(specs)
    requires |lab.tokens| > 0 && IsFullyEmoji(lab)
    ensures ValidatedLabelOf(lab, specs) == Ok(ValidatedLabel(lab, GroupName.Emoji))
  {
    assert lab.tokens[0].Emoji?;
  }

  /**
   * A non-empty, fully ASCII label that is not fully emoji and passes the
   * underscore check is an ASCII label exactly when it passes the hyphen
   * check, and fails with the hyphen error otherwise.
   */
  lemma ValidateAscii(lab: TokenizedLabel, specs: CodePointsSpecs)
    requires SelfKeyed(specs)
    requires NonEmpty(lab).Ok? && !IsFullyEmoji(lab) && UnderscoreOnlyAtBeginning(lab).Ok? && IsFullyAscii(lab)
    ensures ValidatedLabelOf(lab, specs) ==
      if |IterCps(lab)| >= 4 && IterCps(lab)[2..4] == [CP_HYPHEN, CP_HYPHEN]
      then Err(Currable(HyphenAtSecondAndThird, 2, "--", Some("")))
      else Ok(ValidatedLabel(lab, Ascii))
  {
  }

  /**
   * A label that passes has passed every check on its path, keeps its
   * tokens, and a label that is neither fully emoji nor fully ASCII is
   * typed by the group `check_and_get_group` found.
   */
  lemma ValidatedPassedChecks(lab: TokenizedLabel, specs: CodePointsSpecs)
    requires SelfKeyed(specs)
    requires ValidatedLabelOf(lab, specs).Ok?
    ensures ValidatedLabelOf(lab, specs).value.tokenized == lab
    ensures NonEmpty(lab).Ok?
    ensures IsFullyEmoji(lab) ==> ValidatedLabelOf(lab, specs).value.labelType == GroupName.Emoji
    ensures !IsFullyEmoji(lab) ==> UnderscoreOnlyAtBeginning(lab).Ok?
    ensures !IsFullyEmoji(lab) && IsFullyAscii(lab) ==>
      NoHyphenAtSecondAndThird(lab).Ok? && ValidatedLabelOf(lab, specs).value.labelType == Ascii
    ensures !IsFullyEmoji(lab) && !IsFullyAscii(lab) ==>
      CheckFenced(lab, specs).Ok? && CmVerdict(specs, lab.tokens).Ok? && LabelGroup(lab, specs).Ok? &&
      ValidatedLabelOf(lab, specs).value.labelType == LabelGroup(lab, specs).value.name
  {
  }

  /**
   * The type of a label that is neither fully emoji nor fully ASCII is the
   * name of the first group in table order that holds all its text code
   * points.
   */
  lemma ValidatedGroupHoldsText(lab: TokenizedLabel, specs: CodePointsSpecs)
    requires SelfKeyed(specs)
    requires ValidatedLabelOf(lab, specs).Ok? && !IsFullyEmoji(lab) && !IsFullyAscii(lab)
    ensures exists k :: (0 <= k < |specs.groups| &&
      ValidatedLabelOf(lab, specs).value.labelType == specs.groups[k].name &&
      ContainsAllCps(specs.groups[k], TextCps(lab.tokens)) &&
      forall j :: 0 <= j < k ==> !ContainsAllCps(specs.groups[j], TextCps(lab.tokens)))
  {
    ValidatedPassedChecks(lab, specs);
    LabelGroupIsFirst(lab, specs);
  }

  // ---- the disallowed check of validate_name ----

  /** A label that holds a Disallowed token. */
  predicate HasDisallowed(lab: TokenizedLabel)
  {
    exists i :: 0 <= i < |lab.tokens| && lab.tokens[i].Disallowed?
  }

  /** An error that reports a disallowed character. */
  predicate IsInvalidError(e: ProcessError)
  {
    e.Disallowed? && e.sequenceError.Invalid?
  }

  /** The index of the first Disallowed token, or the length when there is none. */
  function FirstDisallowed(ts: seq<EnsNameToken>): (k: nat)
    ensures k <= |ts|
    ensures forall j :: 0 <= j < k ==> !ts[j].Disallowed?
    ensures k < |ts| ==> ts[k].Disallowed?
    decreases |ts|
  {
    if |ts| == 0 || ts[0].Disallowed? then 0 else 1 + FirstDisallowed(ts[1..])
  }

  /**
   * A label that holds a Disallowed token is rejected with the character of
   * the first one; labels without one pass.
   */
  function CheckDisallowed(lab: TokenizedLabel): (r: Result<(), ProcessError>)
    ensures r.Err? <==> HasDisallowed(lab)
    ensures r.Err? ==> exists k :: (0 <= k < |lab.tokens| && lab.tokens[k].Disallowed? &&
      (forall j :: 0 <= j < k ==> !lab.tokens[j].Disallowed?) &&
      r.error == ProcessError.Disallowed(Invalid(Cps2Str([lab.tokens[k].cp]))))
  {
    var k := FirstDisallowed(lab.tokens);
    if k < |lab.tokens| then Err(ProcessError.Disallowed(Invalid(Cps2Str([lab.tokens[k].cp])))) else Ok(())
  }

  /** One label as `validate_name` checks it: the disallowed check, then `validate_label`. */
  function NameLabelOf(lab: TokenizedLabel, specs: CodePointsSpecs): Result<ValidatedLabel, ProcessError>
    requires SelfKeyed(specs)
  {
    match CheckDisallowed(lab)
    case Err(e) => Err(e)
    case Ok(_) => ValidatedLabelOf(lab, specs)
  }

  /** `validate_label` itself never reports a disallowed character. */
  lemma ValidatedLabelNotInvalid(lab: TokenizedLabel, specs: CodePointsSpecs)
    requires SelfKeyed(specs)
    ensures ValidatedLabelOf(lab, specs).Err? ==> !IsInvalidError(ValidatedLabelOf(lab, specs).error)
  {
    if NonEmpty(lab).Ok? && !IsFullyEmoji(lab) {
      TextLabelSequenceErrors(lab, specs);
    }
  }

  /**
   * A label fails the name check with a disallowed character exactly when
   * it holds a Disallowed token, and then with the first one's character,
   * before any check of `validate_label`.
   */
  lemma NameLabelInvalid(lab: TokenizedLabel, specs: CodePointsSpecs)
    requires SelfKeyed(specs)
    ensures (NameLabelOf(lab, specs).Err? && IsInvalidError(NameLabelOf(lab, specs).error)) <==> HasDisallowed(lab)
    ensures HasDisallowed(lab) ==> NameLabelOf(lab, specs) == Err(CheckDisallowed(lab).error)
    ensures !HasDisallowed(lab) ==> NameLabelOf(lab, specs) == ValidatedLabelOf(lab, specs)
    ensures HasDisallowed(lab) ==> NonEmpty(lab).Ok?
  {
    ValidatedLabelNotInvalid(lab, specs);
  }

  // ---- validating every label of a name ----

  /** One label's step of `validate_name`, as a total function, for a table that meets its expectations. */
  function Validator(specs: CodePointsSpecs): TokenizedLabel -> Result<ValidatedLabel, ProcessError>
    requires SelfKeyed(specs)
  {
    (lab: TokenizedLabel) => NameLabelOf(lab, specs)
  }

  /**
   * Validating every label in order, stopping at the first failure: the
   * first label that fails decides the error, otherwise every label's
   * validated form, in order.
   */
  function ValidatedLabelsOf(labels: seq<TokenizedLabel>, specs: CodePointsSpecs): Result<seq<ValidatedLabel>, ProcessError>
    requires SelfKeyed(specs)
  {
    CollectResults(labels, Validator(specs))
  }

  /** Success validates every label in order; failure is the first failing label's error. */
  lemma ValidatedLabelsShape(labels: seq<TokenizedLabel>, specs: CodePointsSpecs)
    requires SelfKeyed(specs)
    ensures ValidatedLabelsOf(labels, specs).Ok? ==> (|ValidatedLabelsOf(labels, specs).value| == |labels| &&
      forall j :: 0 <= j < |labels| ==> NameLabelOf(labels[j], specs) == Ok(ValidatedLabelsOf(labels, specs).value[j]))
    ensures ValidatedLabelsOf(labels, specs).Err? ==> exists k :: (0 <= k < |labels| &&
      NameLabelOf(labels[k], specs) == Err(ValidatedLabelsOf(labels, specs).error) &&
      forall j :: 0 <= j < k ==> NameLabelOf(labels[j], specs).Ok?)
  {
    CollectResultsShape(labels, Validator(specs));
    var r := ValidatedLabelsOf(labels, specs);
    if r.Err? {
      var k :| 0 <= k < |labels| && Validator(specs)(labels[k]) == Err(r.error) &&
        forall j :: 0 <= j < k ==> Validator(specs)(labels[j]).Ok?;
      assert forall j :: 0 <= j < k ==> NameLabelOf(labels[j], specs).Ok? by {
        assert forall j :: 0 <= j < k ==> Validator(specs)(labels[j]) == NameLabelOf(labels[j], specs);
      }
    }
  }

  /**
   * The labels fail with a disallowed character exactly when some label
   * holds a Disallowed token and every earlier label passes; the error is
   * then that label's first disallowed character.
   */
  lemma ValidatedLabelsInvalid(labels: seq<TokenizedLabel>, specs: CodePointsSpecs)
    requires SelfKeyed(specs)
    ensures (ValidatedLabelsOf(labels, specs).Err? && IsInvalidError(ValidatedLabelsOf(labels, specs).error)) <==>
      exists k :: 0 <= k < |labels| && HasDisallowed(labels[k]) && forall j :: 0 <= j < k ==> NameLabelOf(labels[j], specs).Ok?
    ensures forall k :: (0 <= k < |labels| && HasDisallowed(labels[k]) &&
      (forall j :: 0 <= j < k ==> NameLabelOf(labels[j], specs).Ok?)) ==>
      ValidatedLabelsOf(labels, specs) == Err(CheckDisallowed(labels[k]).error)
  {
    ValidatedLabelsShape(labels, specs);
    var r := ValidatedLabelsOf(labels, specs);
    if r.Err? && IsInvalidError(r.error) {
      var k :| 0 <= k < |labels| && NameLabelOf(labels[k], specs) == Err(r.error) &&
        forall j :: 0 <= j < k ==> NameLabelOf(labels[j], specs).Ok?;
      NameLabelInvalid(labels[k], specs);
    }
    forall k | 0 <= k < |labels| && HasDisallowed(labels[k]) && (forall j :: 0 <= j < k ==> NameLabelOf(labels[j], specs).Ok?)
      ensures r == Err(CheckDisallowed(labels[k]).error)
    {
      NameLabelInvalid(labels[k], specs);
      assert forall j :: 0 <= j < k ==> Validator(specs)(labels[j]).Ok?;
      CollectResultsErr(labels, Validator(specs), k);
    }
  }

  /** The tokens of `vitalik .eth`: the letters, the space (disallowed), FULL STOP, the letters. */
  function SpacedNameTokens(): seq<EnsNameToken>
  {
    [EnsNameToken.Valid(Str2Cps("vitalik")), EnsNameToken.Disallowed(0x20),
     EnsNameToken.Stop(CP_STOP), EnsNameToken.Valid(Str2Cps("eth"))]
  }

  /** Its first label is the letters and the space. */
  lemma SpacedNameFirstLabel()
    ensures IterLabels(TokenizedName("vitalik .eth", SpacedNameTokens()))[0].tokens == SpacedNameTokens()[..2]
  {
    var ts := SpacedNameTokens();
    assert FirstWhere(ts, IsStopToken) == 2 by {
      assert !IsStopToken(ts[0]) && !IsStopToken(ts[1]) && IsStopToken(ts[2]);
      assert ts[..2] == [ts[0], ts[1]];
      assert ts[0] in ts[..2] && ts[1] in ts[..2];
    }
  }

  /** The first label is rejected with the space. */
  lemma SpacedLabelRejected()
    ensures CheckDisallowed(TokenizedLabel(SpacedNameTokens()[..2])) == Err(ProcessError.Disallowed(Invalid(" ")))
  {
    var lab := TokenizedLabel(SpacedNameTokens()[..2]);
    assert lab.tokens == [EnsNameToken.Valid(Str2Cps("vitalik")), EnsNameToken.Disallowed(0x20)];
    assert FirstDisallowed(lab.tokens) == 1 by {
      assert !lab.tokens[0].Disallowed?;
      assert lab.tokens[1..][0].Disallowed?;
    }
    Cps2StrOne(0x20);
  }

  /**
   * The name `vitalik .eth` is rejected with the space in its first label,
   * whatever the tables, as the program's own examples expect.
   */
  lemma SpacedNameRejected(specs: CodePointsSpecs)
    requires SelfKeyed(specs)
    ensures ValidatedLabelsOf(IterLabels(TokenizedName("vitalik .eth", SpacedNameTokens())), specs) ==
      Err(ProcessError.Disallowed(Invalid(" ")))
  {
    var labels := IterLabels(TokenizedName("vitalik .eth", SpacedNameTokens()));
    SpacedNameFirstLabel();
    SpacedLabelRejected();
    assert HasDisallowed(labels[0]);
    ValidatedLabelsInvalid(labels, specs);
  }

  /** The labels validated one after another, stopping at the first failure. */
  method ValidateLabels(labels: seq<TokenizedLabel>, specs: CodePointsSpecs) returns (r: Result<seq<ValidatedLabel>, ProcessError>)
    requires SelfKeyed(specs) && NamesResolve(specs)
    ensures r == ValidatedLabelsOf(labels, specs)
    decreases |labels|
  {
    if |labels| == 0 {
      return Ok([]);
    }
    var disallowed := CheckDisallowed(labels[0]);
    if disallowed.Err? {
      return Err(disallowed.error);
    }
    var v := ValidateLabel(labels[0], specs);
    assert Validator(specs)(labels[0]) == v;
    if v.Err? {
      return Err(v.error);
    }
    var rest := ValidateLabels(labels[1..], specs);
    if rest.Err? {
      return Err(rest.error);
    }
    return Ok([v.value] + rest.value);
  }

  /** `validate_name`: every label of a name validated, in order. */
  method ValidateName(name: TokenizedName, specs: CodePointsSpecs) returns (r: Result<seq<ValidatedLabel>, ProcessError>)
    requires SelfKeyed(specs) && NamesResolve(specs)
    ensures r == ValidatedLabelsOf(IterLabels(name), specs)
  {
    r := ValidateLabels(IterLabels(name), specs);
  }
}
