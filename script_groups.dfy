/**
 * The script-group checks of label validation (src/validate.rs): choosing
 * the label's group, checking every text code point against it, limiting
 * runs of non-spacing marks, and the whole-script confusable check.
 *
 * `check_and_get_group` dedups the text code points through a `HashSet`;
 * the model keeps them in first-occurrence order (`Dedup`). The group
 * chosen and the verdict of every check depend only on which code points
 * occur; only which of several confusable groups an error names can
 * depend on the order.
 */
module ScriptGroups {
  import opened Wrappers
  import opened Utils
  import opened Seqs
  import opened CodePointTypes
  import opened Specs
  import opened Labels
  import opened Errors

  // ---- determine_group ----

  /** Asking about the distinct code points is asking about all of them. */
  lemma ContainsAllDedup(g: ParsedGroup, cps: seq<CodePoint>)
    ensures ContainsAllCps(g, Dedup(cps)) <==> ContainsAllCps(g, cps)
  {
    var u := Dedup(cps);
    if ContainsAllCps(g, u) {
      forall i | 0 <= i < |cps|
        ensures ContainsCp(g, cps[i])
      {
        assert cps[i] in u;
      }
    }
    if ContainsAllCps(g, cps) {
      forall i | 0 <= i < |u|
        ensures ContainsCp(g, u[i])
      {
        assert u[i] in cps;
      }
    }
  }

  /** `determine_group`: the first group, in table order, that holds every one of the code points. */
  function DetermineGroup(uniqueCps: seq<CodePoint>, specs: CodePointsSpecs): (r: Result<ParsedGroup, ProcessError>)
    ensures r.Err? <==> forall i :: 0 <= i < |specs.groups| ==> !ContainsAllCps(specs.groups[i], uniqueCps)
    ensures r.Err? ==> r.error == Confused(NoGroupFor(uniqueCps))
    ensures r.Ok? ==> exists k :: (0 <= k < |specs.groups| && r.value == specs.groups[k] &&
      ContainsAllCps(r.value, uniqueCps) &&
      forall j :: 0 <= j < k ==> !ContainsAllCps(specs.groups[j], uniqueCps))
  {
    var gs := GroupsForCps(specs, uniqueCps);
    if |gs| == 0 then Err(Confused(NoGroupFor(uniqueCps)))
    else
      var k := FirstWhere(specs.groups, g => ContainsAllOf(uniqueCps, g));
      assert forall j :: 0 <= j < k ==> specs.groups[j] == specs.groups[..k][j];
      Ok(gs[0])
  }

  // ---- check_group: membership ----

  function Outside(g: ParsedGroup): CodePoint -> bool
  {
    (cp: CodePoint) => !ContainsCp(g, cp)
  }

  // ---- check_group: runs of non-spacing marks ----

  /**
   * Where the run of non-spacing marks holding position `j` starts, as the
   * scan sees it: the scan begins at index 1, so a run never starts at 0.
   */
  function RunStart(specs: CodePointsSpecs, d: seq<CodePoint>, j: nat): (s: nat)
    requires 1 <= j < |d|
    ensures 1 <= s <= j
    ensures s == 1 || !IsNsm(specs, d[s - 1])
    ensures IsNsm(specs, d[j]) ==> forall k :: s <= k <= j ==> IsNsm(specs, d[k])
    decreases j
  {
    if j == 1 || !IsNsm(specs, d[j - 1]) then j else RunStart(specs, d, j - 1)
  }

  /** A mark in a run that is already longer than allowed, or that repeats an earlier mark of its run. */
  predicate NsmBad(specs: CodePointsSpecs, d: seq<CodePoint>, j: nat)
    requires 1 <= j < |d|
  {
    var s := RunStart(specs, d, j);
    IsNsm(specs, d[j]) && s < j && (j - s + 1 > specs.nsmMax || d[j] in d[s..j])
  }

  /** The first bad position at or after `from`, or `|d|`. */
  function FirstNsmBad(specs: CodePointsSpecs, d: seq<CodePoint>, from: nat): (k: nat)
    requires 1 <= from <= |d|
    ensures from <= k <= |d|
    ensures forall j :: from <= j < k ==> !NsmBad(specs, d, j)
    ensures k < |d| ==> NsmBad(specs, d, k)
    decreases |d| - from
  {
    if from == |d| then |d|
    else if NsmBad(specs, d, from) then from
    else FirstNsmBad(specs, d, from + 1)
  }

  lemma {:induction false} FirstNsmBadIs(specs: CodePointsSpecs, d: seq<CodePoint>, from: nat, k: nat)
    requires 1 <= from <= k <= |d|
    requires forall j :: from <= j < k ==> !NsmBad(specs, d, j)
    requires k < |d| ==> NsmBad(specs, d, k)
    ensures FirstNsmBad(specs, d, from) == k
    decreases k - from
  {
    if from < k {
      FirstNsmBadIs(specs, d, from + 1, k);
    }
  }

  /** The error a bad position reports: too many marks is checked before a repeated one. */
  function NsmError(specs: CodePointsSpecs, d: seq<CodePoint>, j: nat): DisallowedSequence
    requires 1 <= j < |d|
  {
    if j - RunStart(specs, d, j) + 1 > specs.nsmMax then NsmTooMany else NsmRepeated
  }

  /**
   * The verdict of the mark scan over decomposed code points: no run of
   * marks longer than `nsm_max` and no mark repeated within its run, with
   * the first offending position deciding the error.
   */
  function NsmVerdict(specs: CodePointsSpecs, d: seq<CodePoint>): (r: Result<(), ProcessError>)
    ensures r.Ok? <==> forall j :: 1 <= j < |d| ==> !NsmBad(specs, d, j)
    ensures r.Err? ==> exists j :: (1 <= j < |d| && NsmBad(specs, d, j) && r.error == ProcessError.Disallowed(NsmError(specs, d, j)) &&
      forall i :: 1 <= i < j ==> !NsmBad(specs, d, i))
  {
    if |d| == 0 then Ok(())
    else
      var k := FirstNsmBad(specs, d, 1);
      if k == |d| then Ok(()) else Err(ProcessError.Disallowed(NsmError(specs, d, k)))
  }

  /** A run longer than `nsm_max` is always rejected. */
  lemma NsmTooLongRejected(specs: CodePointsSpecs, d: seq<CodePoint>, s: nat, n: nat)
    requires 1 <= s && s + n <= |d| && n > specs.nsmMax && n >= 2
    requires s == 1 || !IsNsm(specs, d[s - 1])
    requires forall k :: s <= k < s + n ==> IsNsm(specs, d[k])
    ensures NsmVerdict(specs, d).Err?
  {
    var j := s + specs.nsmMax;
    if specs.nsmMax == 0 {
      j := s + 1;
    }
    RunStartWithin(specs, d, s, j);
    assert NsmBad(specs, d, j);
  }

  /** Inside a run that starts at `s`, every position's run starts at `s`. */
  lemma {:induction false} RunStartWithin(specs: CodePointsSpecs, d: seq<CodePoint>, s: nat, j: nat)
    requires 1 <= s <= j < |d|
    requires s == 1 || !IsNsm(specs, d[s - 1])
    requires forall k :: s <= k <= j ==> IsNsm(specs, d[k])
    ensures RunStart(specs, d, j) == s
    decreases j
  {
    if j > s {
      RunStartWithin(specs, d, s, j - 1);
    }
  }

  /** The innermost loop: does the mark at `j` occur earlier in its run `[i, j)`? */
  method RepeatsWithin(d: seq<CodePoint>, i: nat, j: nat) returns (found: bool)
    requires i <= j < |d|
    ensures found <==> d[j] in d[i..j]
  {
    for k := i to j
      invariant forall m :: i <= m < k ==> d[m] != d[j]
    {
      if d[k] == d[j] {
        assert d[i..j][k - i] == d[j];
        return true;
      }
    }
    return false;
  }

  /**
   * The inner `while` loop of `check_group`: from the start `i` of a run,
   * scan its marks until the run ends or one of them is bad.
   */
  method ScanNsmRun(specs: CodePointsSpecs, decomposed: seq<CodePoint>, i: nat) returns (err: Option<DisallowedSequence>, j: nat)
    requires 1 <= i < |decomposed| && IsNsm(specs, decomposed[i])
    requires i == 1 || !IsNsm(specs, decomposed[i - 1])
    ensures i < j <= |decomposed|
    ensures forall k :: i <= k < j ==> !NsmBad(specs, decomposed, k)
    ensures err.None? ==> j == |decomposed| || !IsNsm(specs, decomposed[j])
    ensures err.Some? ==> j < |decomposed| && NsmBad(specs, decomposed, j) && err.value == NsmError(specs, decomposed, j)
  {
    var e := |decomposed|;
    j := i + 1;
    assert RunStart(specs, decomposed, i) == i;
    while j < e && IsNsm(specs, decomposed[j])
      invariant i < j <= e
      invariant forall k :: i <= k < j ==> IsNsm(specs, decomposed[k])
      invariant forall k :: i <= k < j ==> !NsmBad(specs, decomposed, k)
      decreases e - j
    {
      RunStartWithin(specs, decomposed, i, j);
      if j - i + 1 > specs.nsmMax {
        return Some(NsmTooMany), j;
      }
      var repeated := RepeatsWithin(decomposed, i, j);
      if repeated {
        return Some(NsmRepeated), j;
      }
      j := j + 1;
    }
    return None, j;
  }

  /** The outer `while` loop of `check_group` over the decomposed code points. */
  method CheckNsm(specs: CodePointsSpecs, decomposed: seq<CodePoint>) returns (r: Result<(), ProcessError>)
    ensures r == NsmVerdict(specs, decomposed)
  {
    var i := 1;
    var e := |decomposed|;
    while i < e
      invariant 1 <= i
      invariant i == 1 || i > e || !IsNsm(specs, decomposed[i - 1])
      invariant forall k :: 1 <= k < i && k < e ==> !NsmBad(specs, decomposed, k)
      decreases e + 1 - i
    {
      if IsNsm(specs, decomposed[i]) {
        var err, j := ScanNsmRun(specs, decomposed, i);
        if err.Some? {
          FirstNsmBadIs(specs, decomposed, 1, j);
          return Err(ProcessError.Disallowed(err.value));
        }
        i := j;
      }
      i := i + 1;
    }
    if e > 0 {
      FirstNsmBadIs(specs, decomposed, 1, e);
    }
    return Ok(());
  }

  /**
   * What `check_group` decides: the first code point outside the group is
   * reported; otherwise, for a group without combining marks, the mark
   * scan runs over the NFD decomposition.
   */
  function GroupVerdict(group: ParsedGroup, cps: seq<CodePoint>, specs: CodePointsSpecs): (r: Result<(), ProcessError>)
    ensures (exists m :: 0 <= m < |cps| && !ContainsCp(group, cps[m])) ==>
      exists m :: 0 <= m < |cps| && !ContainsCp(group, cps[m]) &&
        (forall i :: 0 <= i < m ==> ContainsCp(group, cps[i])) &&
        r == Err(Confused(SymbolNotInGroup(cps[m], group.name)))
    ensures ContainsAllCps(group, cps) ==>
      r == (if group.cmAbsent then NsmVerdict(specs, specs.nfdCps(cps)) else Ok(()))
  {
    var k := FirstWhere(cps, Outside(group));
    assert forall i :: 0 <= i < k ==> cps[i] == cps[..k][i];
    if k < |cps| then Err(Confused(SymbolNotInGroup(cps[k], group.name)))
    else if group.cmAbsent then NsmVerdict(specs, specs.nfdCps(cps))
    else Ok(())
  }

  /** `check_group`. */
  method CheckGroup(group: ParsedGroup, cps: seq<CodePoint>, specs: CodePointsSpecs) returns (r: Result<(), ProcessError>)
    ensures r == GroupVerdict(group, cps, specs)
  {
    for k := 0 to |cps|
      invariant forall m :: 0 <= m < k ==> ContainsCp(group, cps[m])
    {
      if !ContainsCp(group, cps[k]) {
        FirstWhereIs(cps, Outside(group), k);
        return Err(Confused(SymbolNotInGroup(cps[k], group.name)));
      }
    }
    FirstWhereIs(cps, Outside(group), |cps|);
    if group.cmAbsent {
      var decomposed := specs.nfdCps(cps);
      r := CheckNsm(specs, decomposed);
      return;
    }
    return Ok(());
  }

  // ---- Whole-script confusables ----

  predicate HasNumber(specs: CodePointsSpecs, cp: CodePoint)
  {
    cp in specs.wholeMap && specs.wholeMap[cp].Number?
  }

  predicate HasWholeObject(specs: CodePointsSpecs, cp: CodePoint)
  {
    cp in specs.wholeMap && specs.wholeMap[cp].WholeObject?
  }

  function IsWholeObjectOf(specs: CodePointsSpecs): CodePoint -> bool
  {
    (cp: CodePoint) => HasWholeObject(specs, cp)
  }

  function HasNoWhole(specs: CodePointsSpecs): CodePoint -> bool
  {
    (cp: CodePoint) => cp !in specs.wholeMap
  }

  /** Every whole object lists its own code point in `M` (the first `expect` of the scan). */
  predicate SelfKeyed(specs: CodePointsSpecs)
  {
    forall cp :: cp in specs.wholeMap && specs.wholeMap[cp].WholeObject? ==> cp in specs.wholeMap[cp].obj.m
  }

  /** Every group name so listed names a group (the `expect` of `check_whole`). */
  predicate NamesResolve(specs: CodePointsSpecs)
    requires SelfKeyed(specs)
  {
    forall cp, n :: cp in specs.wholeMap && specs.wholeMap[cp].WholeObject? && n in specs.wholeMap[cp].obj.m[cp] ==>
      GroupByName(specs, GroupNameFromString(n)).Some?
  }

  /** The groups a code point with a whole object may be confused with. */
  function ConfusedNames(specs: CodePointsSpecs, cp: CodePoint): seq<string>
    requires SelfKeyed(specs) && HasWholeObject(specs, cp)
  {
    specs.wholeMap[cp].obj.m[cp]
  }

  /** Group names listed by every code point of `cps` that has a whole object. */
  function InAllNameSets(specs: CodePointsSpecs, cps: seq<CodePoint>): string -> bool
    requires SelfKeyed(specs)
  {
    n => forall k :: 0 <= k < |cps| && HasWholeObject(specs, cps[k]) ==> n in ConfusedNames(specs, cps[k])
  }

  function InNames(names: seq<string>): string -> bool
  {
    n => n in names
  }

  /**
   * `get_groups_candidates_and_shared_cps`: nothing when some code point has
   * a number entry; otherwise the names listed by every code point with a
   * whole object (in the order of the first one's list), and the code points
   * without any entry.
   */
  function Candidates(specs: CodePointsSpecs, uniqueCps: seq<CodePoint>): (seq<string>, seq<CodePoint>)
    requires SelfKeyed(specs)
  {
    if exists k :: 0 <= k < |uniqueCps| && HasNumber(specs, uniqueCps[k]) then ([], [])
    else
      var w := FirstWhere(uniqueCps, IsWholeObjectOf(specs));
      var maker := if w == |uniqueCps| then [] else Filter(ConfusedNames(specs, uniqueCps[w]), InAllNameSets(specs, uniqueCps));
      (maker, Filter(uniqueCps, HasNoWhole(specs)))
  }

  /** A candidate name is one that every code point with a whole object lists, there being at least one. */
  lemma CandidatesMembers(specs: CodePointsSpecs, uniqueCps: seq<CodePoint>, n: string)
    requires SelfKeyed(specs)
    requires forall k :: 0 <= k < |uniqueCps| ==> !HasNumber(specs, uniqueCps[k])
    ensures n in Candidates(specs, uniqueCps).0 <==>
      (exists k :: 0 <= k < |uniqueCps| && HasWholeObject(specs, uniqueCps[k])) &&
      forall k :: 0 <= k < |uniqueCps| && HasWholeObject(specs, uniqueCps[k]) ==> n in ConfusedNames(specs, uniqueCps[k])
    ensures forall cp :: cp in Candidates(specs, uniqueCps).1 <==> cp in uniqueCps && cp !in specs.wholeMap
  {
    var w := FirstWhere(uniqueCps, IsWholeObjectOf(specs));
    var shared := Filter(uniqueCps, HasNoWhole(specs));
    FilterMembers(uniqueCps, HasNoWhole(specs));
    forall cp | cp in shared
      ensures cp in uniqueCps && cp !in specs.wholeMap
    {
      var i :| 0 <= i < |shared| && shared[i] == cp;
    }
    forall cp | cp in uniqueCps && cp !in specs.wholeMap
      ensures cp in shared
    {
      var i :| 0 <= i < |uniqueCps| && uniqueCps[i] == cp;
    }
    if w < |uniqueCps| {
      var names := ConfusedNames(specs, uniqueCps[w]);
      var all := InAllNameSets(specs, uniqueCps);
      FilterMembers(names, all);
      if n in Filter(names, all) {
        var i :| 0 <= i < |Filter(names, all)| && Filter(names, all)[i] == n;
      }
      if all(n) {
        assert n in names;
        var i :| 0 <= i < |names| && names[i] == n;
      }
    } else {
      assert forall k :: 0 <= k < |uniqueCps| ==> !HasWholeObject(specs, uniqueCps[k]) by {
        assert NoneOf(uniqueCps[..w], IsWholeObjectOf(specs));
        assert uniqueCps[..w] == uniqueCps;
      }
    }
  }

  /** The step of the scan for one more code point with a whole object. */
  lemma CandidatesRetain(specs: CodePointsSpecs, uniqueCps: seq<CodePoint>, i: nat)
    requires SelfKeyed(specs)
    requires i < |uniqueCps| && HasWholeObject(specs, uniqueCps[i])
    requires FirstWhere(uniqueCps, IsWholeObjectOf(specs)) < i
    ensures Filter(Filter(ConfusedNames(specs, uniqueCps[FirstWhere(uniqueCps, IsWholeObjectOf(specs))]), InAllNameSets(specs, uniqueCps[..i])),
                   InNames(ConfusedNames(specs, uniqueCps[i]))) ==
            Filter(ConfusedNames(specs, uniqueCps[FirstWhere(uniqueCps, IsWholeObjectOf(specs))]), InAllNameSets(specs, uniqueCps[..i + 1]))
  {
    var before := InAllNameSets(specs, uniqueCps[..i]);
    var after := InAllNameSets(specs, uniqueCps[..i + 1]);
    var here := InNames(ConfusedNames(specs, uniqueCps[i]));
    forall n
      ensures after(n) == (before(n) && here(n))
    {
      InAllNameSetsStep(specs, uniqueCps, i, n);
    }
    var w := FirstWhere(uniqueCps, IsWholeObjectOf(specs));
    FilterRefine(ConfusedNames(specs, uniqueCps[w]), before, here, after);
  }

  /** A name is listed by all of the first `i + 1` code points when it is listed by the first `i` and by the next one. */
  lemma InAllNameSetsStep(specs: CodePointsSpecs, uniqueCps: seq<CodePoint>, i: nat, n: string)
    requires SelfKeyed(specs)
    requires i < |uniqueCps| && HasWholeObject(specs, uniqueCps[i])
    ensures InAllNameSets(specs, uniqueCps[..i + 1])(n) ==
      (InAllNameSets(specs, uniqueCps[..i])(n) && n in ConfusedNames(specs, uniqueCps[i]))
  {
    var pre, ext := uniqueCps[..i], uniqueCps[..i + 1];
    assert forall k :: 0 <= k < i ==> ext[k] == pre[k];
    assert ext[i] == uniqueCps[i];
    if InAllNameSets(specs, ext)(n) {
      forall k | 0 <= k < |pre| && HasWholeObject(specs, pre[k])
        ensures n in ConfusedNames(specs, pre[k])
      {
        assert ext[k] == pre[k];
      }
    }
  }

  /** The step of the scan for a code point without a whole object. */
  lemma CandidatesSkip(specs: CodePointsSpecs, uniqueCps: seq<CodePoint>, names: seq<string>, i: nat)
    requires SelfKeyed(specs)
    requires i < |uniqueCps| && !HasWholeObject(specs, uniqueCps[i])
    ensures Filter(names, InAllNameSets(specs, uniqueCps[..i])) == Filter(names, InAllNameSets(specs, uniqueCps[..i + 1]))
  {
    forall n
      ensures InAllNameSets(specs, uniqueCps[..i])(n) == InAllNameSets(specs, uniqueCps[..i + 1])(n)
    {
      assert forall k :: 0 <= k < i ==> uniqueCps[..i + 1][k] == uniqueCps[..i][k];
      assert uniqueCps[..i + 1][i] == uniqueCps[i];
    }
    FilterSame(names, InAllNameSets(specs, uniqueCps[..i]), InAllNameSets(specs, uniqueCps[..i + 1]));
  }

  /** The step of the scan for the first code point with a whole object. */
  lemma CandidatesStart(specs: CodePointsSpecs, uniqueCps: seq<CodePoint>, i: nat)
    requires SelfKeyed(specs)
    requires i < |uniqueCps| && HasWholeObject(specs, uniqueCps[i])
    requires forall k :: 0 <= k < i ==> !HasWholeObject(specs, uniqueCps[k])
    ensures FirstWhere(uniqueCps, IsWholeObjectOf(specs)) == i
    ensures Filter(ConfusedNames(specs, uniqueCps[i]), InAllNameSets(specs, uniqueCps[..i + 1])) == ConfusedNames(specs, uniqueCps[i])
  {
    FirstWhereIs(uniqueCps, IsWholeObjectOf(specs), i);
    var names := ConfusedNames(specs, uniqueCps[i]);
    forall m | 0 <= m < |names|
      ensures InAllNameSets(specs, uniqueCps[..i + 1])(names[m])
    {
      assert forall k :: 0 <= k < i + 1 ==> uniqueCps[..i + 1][k] == uniqueCps[k];
    }
    FilterAll(names, InAllNameSets(specs, uniqueCps[..i + 1]));
  }

  /** What the scan of the first `i` code points has gathered, when none of them has a number entry. */
  ghost predicate Scanned(specs: CodePointsSpecs, uniqueCps: seq<CodePoint>, i: nat,
                          maybeGroups: Option<seq<string>>, shared: seq<CodePoint>)
    requires SelfKeyed(specs)
  {
    var w := FirstWhere(uniqueCps, IsWholeObjectOf(specs));
    i <= |uniqueCps| &&
    (forall k :: 0 <= k < i ==> !HasNumber(specs, uniqueCps[k])) &&
    shared == Filter(uniqueCps[..i], HasNoWhole(specs)) &&
    (maybeGroups.None? <==> forall k :: 0 <= k < i ==> !HasWholeObject(specs, uniqueCps[k])) &&
    (maybeGroups.Some? ==> (w < i &&
      maybeGroups.value == Filter(ConfusedNames(specs, uniqueCps[w]), InAllNameSets(specs, uniqueCps[..i]))))
  }

  lemma SharedStep(specs: CodePointsSpecs, uniqueCps: seq<CodePoint>, i: nat, shared: seq<CodePoint>)
    requires i < |uniqueCps| && shared == Filter(uniqueCps[..i], HasNoWhole(specs))
    ensures Filter(uniqueCps[..i + 1], HasNoWhole(specs)) ==
      shared + (if uniqueCps[i] in specs.wholeMap then [] else [uniqueCps[i]])
  {
    assert uniqueCps[..i + 1] == uniqueCps[..i] + [uniqueCps[i]];
    FilterAppend(uniqueCps[..i], [uniqueCps[i]], HasNoWhole(specs));
    assert Filter([uniqueCps[i]], HasNoWhole(specs)) ==
      (if uniqueCps[i] in specs.wholeMap then [] else [uniqueCps[i]]) + Filter([uniqueCps[i]][1..], HasNoWhole(specs));
  }

  /** A code point without a whole entry joins the shared ones. */
  lemma ScannedNoEntry(specs: CodePointsSpecs, uniqueCps: seq<CodePoint>, i: nat,
                       maybeGroups: Option<seq<string>>, shared: seq<CodePoint>)
    requires SelfKeyed(specs) && Scanned(specs, uniqueCps, i, maybeGroups, shared)
    requires i < |uniqueCps| && uniqueCps[i] !in specs.wholeMap
    ensures Scanned(specs, uniqueCps, i + 1, maybeGroups, shared + [uniqueCps[i]])
  {
    SharedStep(specs, uniqueCps, i, shared);
    if maybeGroups.Some? {
      CandidatesSkip(specs, uniqueCps, ConfusedNames(specs, uniqueCps[FirstWhere(uniqueCps, IsWholeObjectOf(specs))]), i);
    }
  }

  /** The first code point with a whole object starts the candidate list with its names. */
  lemma ScannedFirstObject(specs: CodePointsSpecs, uniqueCps: seq<CodePoint>, i: nat, shared: seq<CodePoint>)
    requires SelfKeyed(specs) && Scanned(specs, uniqueCps, i, None, shared)
    requires i < |uniqueCps| && HasWholeObject(specs, uniqueCps[i])
    ensures Scanned(specs, uniqueCps, i + 1, Some(ConfusedNames(specs, uniqueCps[i])), shared)
  {
    SharedStep(specs, uniqueCps, i, shared);
    CandidatesStart(specs, uniqueCps, i);
  }

  /** A later code point with a whole object keeps only the candidates it lists too. */
  lemma ScannedNextObject(specs: CodePointsSpecs, uniqueCps: seq<CodePoint>, i: nat, groups: seq<string>, shared: seq<CodePoint>)
    requires SelfKeyed(specs) && Scanned(specs, uniqueCps, i, Some(groups), shared)
    requires i < |uniqueCps| && HasWholeObject(specs, uniqueCps[i])
    ensures Scanned(specs, uniqueCps, i + 1, Some(Filter(groups, InNames(ConfusedNames(specs, uniqueCps[i])))), shared)
  {
    SharedStep(specs, uniqueCps, i, shared);
    CandidatesRetain(specs, uniqueCps, i);
  }

  /** After the whole scan, the gathered lists are the candidates. */
  lemma ScannedDone(specs: CodePointsSpecs, uniqueCps: seq<CodePoint>, maybeGroups: Option<seq<string>>, shared: seq<CodePoint>)
    requires SelfKeyed(specs) && Scanned(specs, uniqueCps, |uniqueCps|, maybeGroups, shared)
    ensures ((if maybeGroups.Some? then maybeGroups.value else []), shared) == Candidates(specs, uniqueCps)
  {
    assert uniqueCps[..|uniqueCps|] == uniqueCps;
    if maybeGroups.None? {
      FirstWhereIs(uniqueCps, IsWholeObjectOf(specs), |uniqueCps|);
    }
  }

  /** The scan of `get_groups_candidates_and_shared_cps`. */
  method GetGroupsCandidatesAndSharedCps(uniqueCps: seq<CodePoint>, specs: CodePointsSpecs)
    returns (maker: seq<string>, shared: seq<CodePoint>)
    requires SelfKeyed(specs)
    ensures (maker, shared) == Candidates(specs, uniqueCps)
  {
    var maybeGroups: Option<seq<string>> := None;
    shared := [];
    for i := 0 to |uniqueCps|
      invariant Scanned(specs, uniqueCps, i, maybeGroups, shared)
    {
      var cp := uniqueCps[i];
      var entry := WholeMap(specs, cp);
      if entry.Some? && entry.value.Number? {
        return [], [];
      } else if entry.Some? {
        var confusedGroupsNames := entry.value.obj.m[cp];
        if maybeGroups.Some? {
          ScannedNextObject(specs, uniqueCps, i, maybeGroups.value, shared);
          maybeGroups := Some(Filter(maybeGroups.value, InNames(confusedGroupsNames)));
        } else {
          ScannedFirstObject(specs, uniqueCps, i, shared);
          maybeGroups := Some(confusedGroupsNames);
        }
      } else {
        ScannedNoEntry(specs, uniqueCps, i, maybeGroups, shared);
        shared := shared + [cp];
      }
    }
    ScannedDone(specs, uniqueCps, maybeGroups, shared);
    maker := if maybeGroups.Some? then maybeGroups.value else [];
  }

  /** The group a listed name resolves to (the `expect` of `check_whole`). */
  function Confuses(specs: CodePointsSpecs, shared: seq<CodePoint>): string -> bool
  {
    n => GroupByName(specs, GroupNameFromString(n)).Some? &&
         ContainsAllCps(GroupByName(specs, GroupNameFromString(n)).value, shared)
  }

  /**
   * What `check_whole` decides: the first candidate group that holds every
   * code point without a whole entry is reported as confusable.
   */
  function WholeVerdict(group: ParsedGroup, uniqueCps: seq<CodePoint>, specs: CodePointsSpecs): (r: Result<(), ProcessError>)
    requires SelfKeyed(specs)
  {
    var (maker, shared) := Candidates(specs, uniqueCps);
    var k := FirstWhere(maker, Confuses(specs, shared));
    if k < |maker| then
      Err(ConfusedGroups(GroupNameToString(group.name),
                         GroupNameToString(GroupByName(specs, GroupNameFromString(maker[k])).value.name)))
    else Ok(())
  }

  predicate NoNumber(specs: CodePointsSpecs, uniqueCps: seq<CodePoint>)
  {
    forall k :: 0 <= k < |uniqueCps| ==> !HasNumber(specs, uniqueCps[k])
  }

  predicate SomeWholeObject(specs: CodePointsSpecs, uniqueCps: seq<CodePoint>)
  {
    exists k :: 0 <= k < |uniqueCps| && HasWholeObject(specs, uniqueCps[k])
  }

  /** A group every code point with a whole object lists, and that holds all of `shared`. */
  predicate ConfusableName(specs: CodePointsSpecs, uniqueCps: seq<CodePoint>, shared: seq<CodePoint>, n: string)
    requires SelfKeyed(specs)
  {
    InAllNameSets(specs, uniqueCps)(n) && Confuses(specs, shared)(n)
  }

  /** A reported confusion comes from a listed group that holds all shared code points. */
  lemma WholeVerdictErrOnlyIf(group: ParsedGroup, uniqueCps: seq<CodePoint>, specs: CodePointsSpecs)
    requires SelfKeyed(specs)
    requires WholeVerdict(group, uniqueCps, specs).Err?
    ensures NoNumber(specs, uniqueCps) && SomeWholeObject(specs, uniqueCps)
    ensures exists n :: ConfusableName(specs, uniqueCps, Candidates(specs, uniqueCps).1, n)
    ensures WholeVerdict(group, uniqueCps, specs).error.ConfusedGroups? &&
      WholeVerdict(group, uniqueCps, specs).error.group1 == GroupNameToString(group.name)
  {
    var (maker, shared) := Candidates(specs, uniqueCps);
    var k := FirstWhere(maker, Confuses(specs, shared));
    assert k < |maker|;
    CandidatesMembers(specs, uniqueCps, maker[k]);
    assert ConfusableName(specs, uniqueCps, shared, maker[k]);
  }

  /** Any listed group that holds all shared code points makes the check fail. */
  lemma WholeVerdictErrIf(group: ParsedGroup, uniqueCps: seq<CodePoint>, specs: CodePointsSpecs, n: string)
    requires SelfKeyed(specs)
    requires NoNumber(specs, uniqueCps) && SomeWholeObject(specs, uniqueCps)
    requires ConfusableName(specs, uniqueCps, Candidates(specs, uniqueCps).1, n)
    ensures WholeVerdict(group, uniqueCps, specs).Err?
  {
    var (maker, shared) := Candidates(specs, uniqueCps);
    var p := Confuses(specs, shared);
    CandidatesMembers(specs, uniqueCps, n);
    var m :| 0 <= m < |maker| && maker[m] == n;
    assert p(maker[m]);
    FirstWhereAtMost(maker, p, m);
  }

  /**
   * The whole-script check fails exactly when no code point has a number
   * entry, some have whole objects, and some group that all of those list
   * holds every code point without an entry. (With every listed name
   * resolving, a confusable name is one that all of them list and whose
   * group holds the shared code points.)
   */
  lemma WholeVerdictConfused(group: ParsedGroup, uniqueCps: seq<CodePoint>, specs: CodePointsSpecs)
    requires SelfKeyed(specs)
    ensures WholeVerdict(group, uniqueCps, specs).Err? <==>
      NoNumber(specs, uniqueCps) && SomeWholeObject(specs, uniqueCps) &&
      exists n :: ConfusableName(specs, uniqueCps, Candidates(specs, uniqueCps).1, n)
  {
    if WholeVerdict(group, uniqueCps, specs).Err? {
      WholeVerdictErrOnlyIf(group, uniqueCps, specs);
    } else if NoNumber(specs, uniqueCps) && SomeWholeObject(specs, uniqueCps) &&
              exists n :: ConfusableName(specs, uniqueCps, Candidates(specs, uniqueCps).1, n) {
      var n :| ConfusableName(specs, uniqueCps, Candidates(specs, uniqueCps).1, n);
      WholeVerdictErrIf(group, uniqueCps, specs, n);
    }
  }

  /** Every candidate names a group, when every listed name does. */
  lemma CandidatesResolve(specs: CodePointsSpecs, uniqueCps: seq<CodePoint>, k: nat)
    requires SelfKeyed(specs) && NamesResolve(specs)
    requires k < |Candidates(specs, uniqueCps).0|
    ensures GroupByName(specs, GroupNameFromString(Candidates(specs, uniqueCps).0[k])).Some?
  {
    var n := Candidates(specs, uniqueCps).0[k];
    assert NoNumber(specs, uniqueCps);
    CandidatesMembers(specs, uniqueCps, n);
    var j :| 0 <= j < |uniqueCps| && HasWholeObject(specs, uniqueCps[j]);
    assert n in ConfusedNames(specs, uniqueCps[j]);
  }

  /** `check_whole`: the candidates, then the first one that holds all shared code points. */
  method CheckWhole(group: ParsedGroup, uniqueCps: seq<CodePoint>, specs: CodePointsSpecs) returns (r: Result<(), ProcessError>)
    requires SelfKeyed(specs) && NamesResolve(specs)
    ensures r == WholeVerdict(group, uniqueCps, specs)
  {
    var maker, shared := GetGroupsCandidatesAndSharedCps(uniqueCps, specs);
    for k := 0 to |maker|
      invariant forall m :: 0 <= m < k ==> !Confuses(specs, shared)(maker[m])
    {
      var candidate := GroupByName(specs, GroupNameFromString(maker[k]));
      assert candidate.Some? by {
        CandidatesResolve(specs, uniqueCps, k);
      }
      if ContainsAllCps(candidate.value, shared) {
        FirstWhereIs(maker, Confuses(specs, shared), k);
        return Err(ConfusedGroups(GroupNameToString(group.name), GroupNameToString(candidate.value.name)));
      }
    }
    FirstWhereIs(maker, Confuses(specs, shared), |maker|);
    return Ok(());
  }

  // ---- check_and_get_group ----

  /** What `check_and_get_group` decides. */
  function LabelGroup(lab: TokenizedLabel, specs: CodePointsSpecs): Result<ParsedGroup, ProcessError>
    requires SelfKeyed(specs)
  {
    var cps := GetCpsOfNotIgnoredText(lab);
    var uniqueCps := Dedup(cps);
    match DetermineGroup(uniqueCps, specs)
    case Err(e) => Err(e)
    case Ok(group) =>
      match GroupVerdict(group, cps, specs)
      case Err(e) => Err(e)
      case Ok(_) =>
        match WholeVerdict(group, uniqueCps, specs)
        case Err(e) => Err(e)
        case Ok(_) => Ok(group)
  }

  /** The group `check_and_get_group` returns is the one `determine_group` picks, and its failure is passed on. */
  lemma LabelGroupDetermined(lab: TokenizedLabel, specs: CodePointsSpecs)
    requires SelfKeyed(specs)
    ensures DetermineGroup(Dedup(TextCps(lab.tokens)), specs).Err? ==>
      LabelGroup(lab, specs) == Err(DetermineGroup(Dedup(TextCps(lab.tokens)), specs).error)
    ensures LabelGroup(lab, specs).Ok? ==> (DetermineGroup(Dedup(TextCps(lab.tokens)), specs).Ok? &&
      LabelGroup(lab, specs).value == DetermineGroup(Dedup(TextCps(lab.tokens)), specs).value)
  {
  }

  /**
   * The group of a label is the first group in table order that holds all
   * of its text code points, and there is none exactly when no group does.
   */
  lemma LabelGroupIsFirst(lab: TokenizedLabel, specs: CodePointsSpecs)
    requires SelfKeyed(specs)
    ensures (forall i :: 0 <= i < |specs.groups| ==> !ContainsAllCps(specs.groups[i], TextCps(lab.tokens))) ==>
      LabelGroup(lab, specs) == Err(Confused(NoGroupFor(Dedup(TextCps(lab.tokens)))))
    ensures LabelGroup(lab, specs).Ok? ==> exists k :: (0 <= k < |specs.groups| &&
      LabelGroup(lab, specs).value == specs.groups[k] &&
      ContainsAllCps(specs.groups[k], TextCps(lab.tokens)) &&
      forall j :: 0 <= j < k ==> !ContainsAllCps(specs.groups[j], TextCps(lab.tokens)))
  {
    var cps := TextCps(lab.tokens);
    forall i | 0 <= i < |specs.groups|
      ensures ContainsAllCps(specs.groups[i], Dedup(cps)) <==> ContainsAllCps(specs.groups[i], cps)
    {
      ContainsAllDedup(specs.groups[i], cps);
    }
    LabelGroupDetermined(lab, specs);
  }

  /** `check_and_get_group`. */
  method CheckAndGetGroup(lab: TokenizedLabel, specs: CodePointsSpecs) returns (r: Result<ParsedGroup, ProcessError>)
    requires SelfKeyed(specs) && NamesResolve(specs)
    ensures r == LabelGroup(lab, specs)
  {
    var cps := GetCpsOfNotIgnoredText(lab);
    var uniqueCps := Dedup(cps);
    var group := DetermineGroup(uniqueCps, specs);
    if group.Err? {
      return Err(group.error);
    }
    var checked := CheckGroup(group.value, cps, specs);
    if checked.Err? {
      return Err(checked.error);
    }
    var whole := CheckWhole(group.value, uniqueCps, specs);
    if whole.Err? {
      return Err(whole.error);
    }
    return Ok(group.value);
  }
}
