/**
 * The older table object built directly from the loaded data
 * (src/code_points/inspector.rs). Groups stay in their loaded form; the
 * emoji list is kept as a set next to the FE0F-free lookup.
 */
module Inspector {
  import opened Wrappers
  import opened Utils
  import opened Seqs
  import opened Constants
  import opened CodePointTypes
  import opened Specs

  datatype CodePointsInspector = CodePointsInspector(
    cm: set<CodePoint>,
    emoji: set<seq<CodePoint>>,
    ignored: set<CodePoint>,
    mapped: map<CodePoint, seq<CodePoint>>,
    nfcCheck: set<CodePoint>,
    fenced: map<CodePoint, string>,
    groups: seq<Group>,
    valid: set<CodePoint>,
    nsm: set<CodePoint>,
    nsmMax: CodePoint,
    emojiNoFe0fToPretty: map<seq<CodePoint>, seq<CodePoint>>,
    decomp: map<CodePoint, seq<CodePoint>>,
    nfc: string -> string)

  /** The loaded groups with their membership sets built. */
  function ParseGroups(groups: seq<Group>): (r: seq<ParsedGroup>)
    ensures |r| == |groups|
    ensures forall i :: 0 <= i < |groups| ==> r[i] == ParseGroup(groups[i])
  {
    seq(|groups|, i requires 0 <= i < |groups| => ParseGroup(groups[i]))
  }

  /** `CodePointsInspector::new`. */
  function New(spec: Spec, nf: Nf, nfc: string -> string): (s: CodePointsInspector)
    ensures s.emoji == SetOf(spec.emoji)
    ensures s.emojiNoFe0fToPretty == PrettyMap(spec.emoji)
    ensures s.groups == spec.groups
    ensures s.valid == ValidOf(UnionPps(ParseGroups(spec.groups)), s.decomp)
  {
    var decomp := MapOfPairs(nf.decomp);
    CodePointsInspector(
      SetOf(spec.cm),
      SetOf(spec.emoji),
      SetOf(spec.ignored),
      MapOfPairs(spec.mapped),
      SetOf(spec.nfcCheck),
      MapOfPairs(spec.fenced),
      spec.groups,
      ValidOf(UnionPps(ParseGroups(spec.groups)), decomp),
      SetOf(spec.nsm),
      spec.nsmMax,
      PrettyMap(spec.emoji),
      decomp,
      nfc)
  }

  function GetMapping(ins: CodePointsInspector, cp: CodePoint): (r: Option<seq<CodePoint>>)
    ensures r.Some? <==> cp in ins.mapped
    ensures r.Some? ==> r.value == ins.mapped[cp]
  {
    if cp in ins.mapped then Some(ins.mapped[cp]) else None
  }

  /** The same lookup as `GetMapping`. */
  function MaybeNormalize(ins: CodePointsInspector, cp: CodePoint): (r: Option<seq<CodePoint>>)
    ensures r == GetMapping(ins, cp)
  {
    if cp in ins.mapped then Some(ins.mapped[cp]) else None
  }

  /** `cps_is_emoji`: an emoji as listed, or the FE0F-free form of one. */
  function CpsIsEmoji(ins: CodePointsInspector, cps: seq<CodePoint>): (b: bool)
    ensures b <==> cps in ins.emoji || cps in ins.emojiNoFe0fToPretty
  {
    cps in ins.emoji || cps in ins.emojiNoFe0fToPretty
  }

  /**
   * For tables built by `New`, a sequence counts as an emoji exactly when it
   * is one of the listed emoji or the FE0F-free form of one.
   */
  lemma CpsIsEmojiBuilt(spec: Spec, nf: Nf, nfc: string -> string, cps: seq<CodePoint>)
    ensures CpsIsEmoji(New(spec, nf, nfc), cps) <==>
            exists i :: 0 <= i < |spec.emoji| && (cps == spec.emoji[i] || cps == FilterFe0f(spec.emoji[i]))
  {
    var ins := New(spec, nf, nfc);
    if cps in ins.emojiNoFe0fToPretty {
      PrettyMapValues(spec.emoji, cps);
      var e := PrettyMap(spec.emoji)[cps];
      var i :| 0 <= i < |spec.emoji| && spec.emoji[i] == e;
      assert cps == FilterFe0f(spec.emoji[i]);
    }
    if exists i :: 0 <= i < |spec.emoji| && (cps == spec.emoji[i] || cps == FilterFe0f(spec.emoji[i])) {
      var i :| 0 <= i < |spec.emoji| && (cps == spec.emoji[i] || cps == FilterFe0f(spec.emoji[i]));
      if cps != spec.emoji[i] {
        PrettyMapKeys(spec.emoji, i);
      }
    }
  }

  function CpsRequiresCheck(ins: CodePointsInspector, cps: seq<CodePoint>): (b: bool)
    ensures b <==> exists i :: 0 <= i < |cps| && cps[i] in ins.nfcCheck
  {
    ContainsAny(cps, ins.nfcCheck)
  }

  /** The pretty form of an FE0F-free emoji, or the empty sequence when there is none. */
  function CpsEmojiNoFe0fToPretty(ins: CodePointsInspector, cps: seq<CodePoint>): (r: seq<CodePoint>)
    ensures cps in ins.emojiNoFe0fToPretty ==> r == ins.emojiNoFe0fToPretty[cps]
    ensures cps !in ins.emojiNoFe0fToPretty ==> r == []
  {
    if cps in ins.emojiNoFe0fToPretty then ins.emojiNoFe0fToPretty[cps] else []
  }

  predicate IsValid(ins: CodePointsInspector, cp: CodePoint) { cp in ins.valid }
  predicate IsIgnored(ins: CodePointsInspector, cp: CodePoint) { cp in ins.ignored }

  function IsStop(ins: CodePointsInspector, cp: CodePoint): (b: bool)
    ensures b <==> cp == 0x2E
  {
    cp == CP_STOP
  }

  /**
   * `compute_valid` over the loaded groups: their primary and secondary
   * lists, then the decompositions of everything collected. The result is
   * the valid set of the parsed groups.
   */
  method ComputeValid(groups: seq<Group>, decomp: map<CodePoint, seq<CodePoint>>) returns (valid: set<CodePoint>)
    ensures valid == ValidOf(UnionPps(ParseGroups(groups)), decomp)
  {
    var parsed := ParseGroups(groups);
    valid := {};
    for i := 0 to |groups|
      invariant valid == UnionPps(parsed[..i])
    {
      assert parsed[..i + 1][..i] == parsed[..i];
      assert parsed[i].primaryPlusSecondary == SetOf(groups[i].primary) + SetOf(groups[i].secondary);
      valid := valid + SetOf(groups[i].primary) + SetOf(groups[i].secondary);
    }
    assert parsed[..|groups|] == parsed;
    valid := ExtendWithDecompositions(valid, decomp);
  }

  /** Both table objects built from the same data agree on what is valid. */
  lemma ValidAgrees(spec: Spec, nf: Nf, nfc: string -> string,
                    emojiRegex: string -> seq<EmojiMatch>, nfdCps: seq<CodePoint> -> seq<CodePoint>)
    requires WholeMapLoads(spec.wholeMap)
    ensures New(spec, nf, nfc).valid == Specs.New(spec, nf, emojiRegex, nfc, nfdCps).valid
  {
    var a := ParseGroups(spec.groups);
    var b := Specs.New(spec, nf, emojiRegex, nfc, nfdCps).groups;
    assert a == b;
  }
}
