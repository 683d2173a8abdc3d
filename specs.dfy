/**
 * The code-point tables and their lookups (src/code_points/specs.rs).
 *
 * The Unicode data are abstract sets and maps. Three foreign functions are
 * parameters of the tables: the emoji regular expression (`emojiRegex`,
 * which stands for the `regex` crate's `find_iter` on the pattern built
 * from the emoji list), Unicode NFC on strings (`nfc`) and NFD on code
 * points (`nfdCps`).
 */
module Specs {
  import opened Wrappers
  import opened Utils
  import opened Seqs
  import opened Constants
  import opened CodePointTypes

  /** A match of the emoji expression, as character positions `[start, end)`. */
  datatype EmojiMatch = EmojiMatch(start: nat, end: nat)

  /** The table as it is loaded (the fields the model uses). */
  datatype Spec = Spec(
    emoji: seq<seq<CodePoint>>,
    ignored: seq<CodePoint>,
    mapped: seq<(CodePoint, seq<CodePoint>)>,
    fenced: seq<(CodePoint, string)>,
    cm: seq<CodePoint>,
    nsm: seq<CodePoint>,
    nsmMax: CodePoint,
    groups: seq<Group>,
    nfcCheck: seq<CodePoint>,
    wholeMap: seq<(string, WholeValueJson)>)

  /** The normalisation data: one-level decompositions. */
  datatype Nf = Nf(decomp: seq<(CodePoint, seq<CodePoint>)>)

  datatype CodePointsSpecs = CodePointsSpecs(
    cm: set<CodePoint>,
    ignored: set<CodePoint>,
    mapped: map<CodePoint, seq<CodePoint>>,
    nfcCheck: set<CodePoint>,
    wholeMap: map<CodePoint, ParsedWholeValue>,
    fenced: map<CodePoint, string>,
    groups: seq<ParsedGroup>,
    groupNameToIndex: map<GroupName, nat>,
    valid: set<CodePoint>,
    nsm: set<CodePoint>,
    nsmMax: CodePoint,
    emojiNoFe0fToPretty: map<seq<CodePoint>, seq<CodePoint>>,
    decomp: map<CodePoint, seq<CodePoint>>,
    emojiRegex: string -> seq<EmojiMatch>,
    nfc: string -> string,
    nfdCps: seq<CodePoint> -> seq<CodePoint>)

  // ---- Construction ----

  /** Each emoji's FE0F-free form paired with the emoji itself. */
  function PrettyMap(emoji: seq<seq<CodePoint>>): map<seq<CodePoint>, seq<CodePoint>>
  {
    MapOfPairs(seq(|emoji|, i requires 0 <= i < |emoji| => (FilterFe0f(emoji[i]), emoji[i])))
  }

  /** The pretty map has a key for the FE0F-free form of every emoji. */
  lemma PrettyMapKeys(emoji: seq<seq<CodePoint>>, i: nat)
    requires i < |emoji|
    ensures FilterFe0f(emoji[i]) in PrettyMap(emoji)
  {
    var pairs := seq(|emoji|, i requires 0 <= i < |emoji| => (FilterFe0f(emoji[i]), emoji[i]));
    assert pairs[i].0 == FilterFe0f(emoji[i]);
  }

  /** Each value of the pretty map is an emoji whose FE0F-free form is its key. */
  lemma PrettyMapValues(emoji: seq<seq<CodePoint>>, k: seq<CodePoint>)
    requires k in PrettyMap(emoji)
    ensures PrettyMap(emoji)[k] in emoji && FilterFe0f(PrettyMap(emoji)[k]) == k
  {
    var pairs := seq(|emoji|, i requires 0 <= i < |emoji| => (FilterFe0f(emoji[i]), emoji[i]));
    MapOfPairsSource(pairs, k);
    var i :| 0 <= i < |pairs| && pairs[i].0 == k && pairs[i].1 == PrettyMap(emoji)[k];
    assert pairs[i] == (FilterFe0f(emoji[i]), emoji[i]);
  }

  /** An emoji that shares its FE0F-free form with no other emoji is the value stored for that form. */
  lemma PrettyMapUnique(emoji: seq<seq<CodePoint>>, i: nat)
    requires i < |emoji|
    requires forall j :: 0 <= j < |emoji| && FilterFe0f(emoji[j]) == FilterFe0f(emoji[i]) ==> emoji[j] == emoji[i]
    ensures FilterFe0f(emoji[i]) in PrettyMap(emoji) && PrettyMap(emoji)[FilterFe0f(emoji[i])] == emoji[i]
  {
    PrettyMapKeys(emoji, i);
    PrettyMapValues(emoji, FilterFe0f(emoji[i]));
    var v := PrettyMap(emoji)[FilterFe0f(emoji[i])];
    var j :| 0 <= j < |emoji| && emoji[j] == v;
  }

  /** The position of each group, by name; a later group overrides an earlier one of the same name. */
  function IndexByName(groups: seq<ParsedGroup>): map<GroupName, nat>
  {
    MapOfPairs(seq(|groups|, i requires 0 <= i < |groups| => (groups[i].name, i as nat)))
  }

  /** The primary and secondary code points of all groups. */
  function UnionPps(groups: seq<ParsedGroup>): set<CodePoint>
    decreases |groups|
  {
    if |groups| == 0 then {}
    else UnionPps(groups[..|groups| - 1]) + groups[|groups| - 1].primaryPlusSecondary
  }

  /** A code point is in the union exactly when some group lists it as primary or secondary. */
  lemma {:induction false} UnionPpsMembers(groups: seq<ParsedGroup>, cp: CodePoint)
    ensures cp in UnionPps(groups) <==> exists i :: 0 <= i < |groups| && cp in groups[i].primaryPlusSecondary
    decreases |groups|
  {
    if |groups| > 0 {
      var n := |groups| - 1;
      var front := groups[..n];
      UnionPpsMembers(front, cp);
      assert forall i :: 0 <= i < n ==> front[i] == groups[i];
      if cp in groups[n].primaryPlusSecondary {
        assert 0 <= n < |groups| && cp in groups[n].primaryPlusSecondary;
      }
    }
  }

  /** The one-level decompositions of the code points in `base`. */
  function Decompositions(base: set<CodePoint>, decomp: map<CodePoint, seq<CodePoint>>): set<CodePoint>
  {
    set cp, d | cp in base && cp in decomp && d in decomp[cp] :: d
  }

  /** The valid set: the given code points together with their one-level decompositions. */
  function ValidOf(base: set<CodePoint>, decomp: map<CodePoint, seq<CodePoint>>): set<CodePoint>
  {
    base + Decompositions(base, decomp)
  }

  lemma DecompositionsAdd(base: set<CodePoint>, cp: CodePoint, decomp: map<CodePoint, seq<CodePoint>>)
    ensures Decompositions(base + {cp}, decomp) ==
            Decompositions(base, decomp) + (if cp in decomp then SetOf(decomp[cp]) else {})
  {
    var lhs := Decompositions(base + {cp}, decomp);
    var rhs := Decompositions(base, decomp) + (if cp in decomp then SetOf(decomp[cp]) else {});
    forall d | d in lhs
      ensures d in rhs
    {
      var c :| c in base + {cp} && c in decomp && d in decomp[c];
      if c !in base {
        var k :| 0 <= k < |decomp[cp]| && decomp[cp][k] == d;
      }
    }
    forall d | d in rhs
      ensures d in lhs
    {
      if d !in Decompositions(base, decomp) {
        var k :| 0 <= k < |decomp[cp]| && decomp[cp][k] == d;
        assert d in decomp[cp];
      }
    }
  }

  /** Once every code point of `base` has been visited, the collected decompositions complete the valid set. */
  lemma DecompositionsDone(base: set<CodePoint>, rest: set<CodePoint>, done: set<CodePoint>,
                           ndf: set<CodePoint>, decomp: map<CodePoint, seq<CodePoint>>)
    requires rest == {} && done == base - rest && ndf == Decompositions(done, decomp)
    ensures base + ndf == ValidOf(base, decomp)
  {
    assert done == base;
  }

  /**
   * The second half of `compute_valid`: visit the collected code points,
   * gather what each one decomposes into, and add all of that.
   */
  method ExtendWithDecompositions(base: set<CodePoint>, decomp: map<CodePoint, seq<CodePoint>>) returns (valid: set<CodePoint>)
    ensures valid == ValidOf(base, decomp)
  {
    var ndf: set<CodePoint> := {};
    var rest := base;
    ghost var done: set<CodePoint> := {};
    while rest != {}
      invariant rest <= base && done == base - rest
      invariant ndf == Decompositions(done, decomp)
      decreases |rest|
    {
      var cp :| cp in rest;
      DecompositionsAdd(done, cp, decomp);
      if cp in decomp {
        ndf := ndf + SetOf(decomp[cp]);
      }
      rest := rest - {cp};
      done := done + {cp};
    }
    DecompositionsDone(base, rest, done, ndf, decomp);
    valid := base + ndf;
  }

  /**
   * `compute_valid`: first every group's primary and secondary code points,
   * then everything those decompose into.
   */
  method ComputeValid(groups: seq<ParsedGroup>, decomp: map<CodePoint, seq<CodePoint>>) returns (valid: set<CodePoint>)
    ensures valid == ValidOf(UnionPps(groups), decomp)
  {
    valid := {};
    for i := 0 to |groups|
      invariant valid == UnionPps(groups[..i])
    {
      assert groups[..i + 1][..i] == groups[..i];
      valid := valid + groups[i].primaryPlusSecondary;
    }
    assert groups[..|groups|] == groups;
    valid := ExtendWithDecompositions(valid, decomp);
  }

  /** A code point is valid exactly when some group lists it or it is a decomposition of one that a group lists. */
  lemma ValidMembers(groups: seq<ParsedGroup>, decomp: map<CodePoint, seq<CodePoint>>, x: CodePoint)
    ensures x in ValidOf(UnionPps(groups), decomp) <==>
            (exists i :: 0 <= i < |groups| && x in groups[i].primaryPlusSecondary) ||
            (exists i, cp :: 0 <= i < |groups| && cp in groups[i].primaryPlusSecondary && cp in decomp && x in decomp[cp])
  {
    forall cp: CodePoint
      ensures cp in UnionPps(groups) <==> exists i :: 0 <= i < |groups| && cp in groups[i].primaryPlusSecondary
    {
      UnionPpsMembers(groups, cp);
    }
  }

  /** The whole-script map with its keys and values parsed. */
  predicate WholeMapLoads(entries: seq<(string, WholeValueJson)>)
  {
    forall i :: 0 <= i < |entries| ==> ParseU32(entries[i].0).Some? && ParseWholeValue(entries[i].1).Ok?
  }

  /** `compute_whole_map`; both parses are unwrapped, so the table must parse. */
  function ComputeWholeMap(entries: seq<(string, WholeValueJson)>): (m: map<CodePoint, ParsedWholeValue>)
    requires WholeMapLoads(entries)
    ensures forall i :: 0 <= i < |entries| ==> ParseU32(entries[i].0).value in m
    ensures forall k :: k in m ==> exists i :: 0 <= i < |entries| && ParseU32(entries[i].0).value == k
  {
    var pairs := seq(|entries|, i requires 0 <= i < |entries| =>
      (ParseU32(entries[i].0).value, ParseWholeValue(entries[i].1).value));
    assert forall i :: 0 <= i < |entries| ==> pairs[i].0 == ParseU32(entries[i].0).value;
    MapOfPairs(pairs)
  }

  /** `CodePointsSpecs::new`. */
  function New(
    spec: Spec, nf: Nf,
    emojiRegex: string -> seq<EmojiMatch>, nfc: string -> string, nfdCps: seq<CodePoint> -> seq<CodePoint>): (s: CodePointsSpecs)
    requires WholeMapLoads(spec.wholeMap)
    ensures |s.groups| == |spec.groups|
    ensures forall i :: 0 <= i < |spec.groups| ==> s.groups[i] == ParseGroup(spec.groups[i])
    ensures s.valid == ValidOf(UnionPps(s.groups), s.decomp)
    ensures s.emojiNoFe0fToPretty == PrettyMap(spec.emoji)
    ensures s.groupNameToIndex == IndexByName(s.groups)
  {
    var groups := seq(|spec.groups|, i requires 0 <= i < |spec.groups| => ParseGroup(spec.groups[i]));
    var decomp := MapOfPairs(nf.decomp);
    CodePointsSpecs(
      SetOf(spec.cm),
      SetOf(spec.ignored),
      MapOfPairs(spec.mapped),
      SetOf(spec.nfcCheck),
      ComputeWholeMap(spec.wholeMap),
      MapOfPairs(spec.fenced),
      groups,
      IndexByName(groups),
      ValidOf(UnionPps(groups), decomp),
      SetOf(spec.nsm),
      spec.nsmMax,
      PrettyMap(spec.emoji),
      decomp,
      emojiRegex, nfc, nfdCps)
  }

  // ---- Lookups ----

  function GetMapping(specs: CodePointsSpecs, cp: CodePoint): (r: Option<seq<CodePoint>>)
    ensures r.Some? <==> cp in specs.mapped
    ensures r.Some? ==> r.value == specs.mapped[cp]
  {
    if cp in specs.mapped then Some(specs.mapped[cp]) else None
  }

  /** The same lookup as `GetMapping`. */
  function MaybeNormalize(specs: CodePointsSpecs, cp: CodePoint): (r: Option<seq<CodePoint>>)
    ensures r == GetMapping(specs, cp)
  {
    if cp in specs.mapped then Some(specs.mapped[cp]) else None
  }

  function FindEmoji(specs: CodePointsSpecs, s: string): seq<EmojiMatch>
  {
    specs.emojiRegex(s)
  }

  /** `cps_is_emoji`: the first emoji match in the string spans all of it. */
  function CpsIsEmoji(specs: CodePointsSpecs, cps: seq<CodePoint>): (b: bool)
    ensures b <==> (|FindEmoji(specs, Cps2Str(cps))| > 0 &&
                    FindEmoji(specs, Cps2Str(cps))[0] == EmojiMatch(0, |Cps2Str(cps)|))
  {
    var s := Cps2Str(cps);
    var ms := FindEmoji(specs, s);
    |ms| > 0 && ms[0].start == 0 && ms[0].end == |s|
  }

  /** True when some code point needs the NFC check. */
  function CpsRequiresCheck(specs: CodePointsSpecs, cps: seq<CodePoint>): (b: bool)
    ensures b <==> exists i :: 0 <= i < |cps| && cps[i] in specs.nfcCheck
  {
    ContainsAny(cps, specs.nfcCheck)
  }

  function CpsEmojiNoFe0fToPretty(specs: CodePointsSpecs, cps: seq<CodePoint>): (r: Option<seq<CodePoint>>)
    ensures r.Some? <==> cps in specs.emojiNoFe0fToPretty
    ensures r.Some? ==> r.value == specs.emojiNoFe0fToPretty[cps]
  {
    if cps in specs.emojiNoFe0fToPretty then Some(specs.emojiNoFe0fToPretty[cps]) else None
  }

  predicate IsValid(specs: CodePointsSpecs, cp: CodePoint) { cp in specs.valid }
  predicate IsIgnored(specs: CodePointsSpecs, cp: CodePoint) { cp in specs.ignored }
  predicate IsFenced(specs: CodePointsSpecs, cp: CodePoint) { cp in specs.fenced }
  predicate IsCm(specs: CodePointsSpecs, cp: CodePoint) { cp in specs.cm }
  predicate IsNsm(specs: CodePointsSpecs, cp: CodePoint) { cp in specs.nsm }

  /** Only FULL STOP separates labels. */
  function IsStop(specs: CodePointsSpecs, cp: CodePoint): (b: bool)
    ensures b <==> cp == 0x2E
  {
    cp == CP_STOP
  }

  function Decompose(specs: CodePointsSpecs, cp: CodePoint): (r: Option<seq<CodePoint>>)
    ensures r.Some? <==> cp in specs.decomp
    ensures r.Some? ==> r.value == specs.decomp[cp]
  {
    if cp in specs.decomp then Some(specs.decomp[cp]) else None
  }

  function WholeMap(specs: CodePointsSpecs, cp: CodePoint): (r: Option<ParsedWholeValue>)
    ensures r.Some? <==> cp in specs.wholeMap
    ensures r.Some? ==> r.value == specs.wholeMap[cp]
  {
    if cp in specs.wholeMap then Some(specs.wholeMap[cp]) else None
  }

  predicate ContainsAllOf(cps: seq<CodePoint>, g: ParsedGroup)
  {
    ContainsAllCps(g, cps)
  }

  /** `groups_for_cps`: the groups holding every one of `cps`, in table order. */
  function GroupsForCps(specs: CodePointsSpecs, cps: seq<CodePoint>): (r: seq<ParsedGroup>)
    ensures forall i :: 0 <= i < |r| ==> r[i] in specs.groups && ContainsAllCps(r[i], cps)
    ensures forall i :: 0 <= i < |specs.groups| && ContainsAllCps(specs.groups[i], cps) ==> specs.groups[i] in r
    ensures |r| > 0 ==> FirstWhere(specs.groups, g => ContainsAllOf(cps, g)) < |specs.groups| &&
                        r[0] == specs.groups[FirstWhere(specs.groups, g => ContainsAllOf(cps, g))]
    ensures |r| == 0 <==> forall i :: 0 <= i < |specs.groups| ==> !ContainsAllCps(specs.groups[i], cps)
  {
    var p := g => ContainsAllOf(cps, g);
    FilterHead(specs.groups, p);
    FilterMembers(specs.groups, p);
    Filter(specs.groups, p)
  }

  /** `group_by_name`: the group at the position recorded for `name`. */
  function GroupByName(specs: CodePointsSpecs, name: GroupName): (r: Option<ParsedGroup>)
    ensures r.Some? ==> name in specs.groupNameToIndex && specs.groupNameToIndex[name] < |specs.groups| &&
                        r.value == specs.groups[specs.groupNameToIndex[name]]
  {
    if name in specs.groupNameToIndex && specs.groupNameToIndex[name] < |specs.groups|
    then Some(specs.groups[specs.groupNameToIndex[name]])
    else None
  }

  /**
   * With the index built by enumerating the groups, a name finds a group
   * exactly when some group has that name, and the group found has it.
   */
  lemma GroupByNameIndexed(specs: CodePointsSpecs, name: GroupName)
    requires specs.groupNameToIndex == IndexByName(specs.groups)
    ensures GroupByName(specs, name).Some? <==> exists i :: 0 <= i < |specs.groups| && specs.groups[i].name == name
    ensures GroupByName(specs, name).Some? ==> GroupByName(specs, name).value.name == name
  {
    var groups := specs.groups;
    var pairs := seq(|groups|, i requires 0 <= i < |groups| => (groups[i].name, i as nat));
    if name in specs.groupNameToIndex {
      MapOfPairsSource(pairs, name);
      var i :| 0 <= i < |pairs| && pairs[i].0 == name && pairs[i].1 == specs.groupNameToIndex[name];
      assert pairs[i] == (groups[i].name, i as nat);
    }
    if exists i :: 0 <= i < |groups| && groups[i].name == name {
      var i :| 0 <= i < |groups| && groups[i].name == name;
      assert pairs[i].0 == name;
    }
  }
}
