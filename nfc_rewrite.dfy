/**
 * The NFC rewrite of Valid/Mapped runs (`perform_nfc_transform` in
 * src/tokens/tokenize.rs; the same loop is `Tokenizer::normalize` in
 * src/tokens/tokenizer.rs).
 *
 * A run starts at a Valid or Mapped token whose code points need the NFC
 * check, reaching back over an immediately preceding stretch of Valid,
 * Mapped and Ignored tokens. Its end is found by the inner loop, which
 * tests the code points of the token that started the run rather than
 * those of the token it is looking at: once a run starts it therefore
 * extends over every following Valid, Mapped or Ignored token. The model
 * keeps that behaviour, passing the starting token's check into `RunEnd`.
 */
module NfcRewrite {
  import opened Utils
  import opened Seqs
  import opened TokenTypes

  predicate IsVm(t: EnsNameToken)
  {
    t.Valid? || t.Mapped?
  }

  /** Tokens a run may cover. */
  predicate InRun(t: EnsNameToken)
  {
    t.Valid? || t.Mapped? || t.Ignored?
  }

  /** Tokens the rewrite never touches. */
  predicate Untouched(t: EnsNameToken)
  {
    t.Disallowed? || t.Stop? || t.Emoji?
  }

  /**
   * The inner loop of the rewrite, from position `pos` with the run so far
   * ending at `end`: a Valid or Mapped token extends the run when
   * `outerNeedsCheck` holds (and stops it otherwise), an Ignored token is
   * passed over, anything else stops it.
   */
  function RunEnd(ts: seq<EnsNameToken>, outerNeedsCheck: bool, pos: nat, end: nat): (e: nat)
    requires end <= pos <= |ts|
    ensures end <= e <= |ts|
    ensures forall k :: pos <= k < e ==> InRun(ts[k])
    ensures e == end || IsVm(ts[e - 1])
    decreases |ts| - pos
  {
    if pos == |ts| then end
    else if IsVm(ts[pos]) then
      if !outerNeedsCheck then end else RunEnd(ts, outerNeedsCheck, pos + 1, pos + 1)
    else if ts[pos].Ignored? then RunEnd(ts, outerNeedsCheck, pos + 1, end)
    else end
  }

  /** The code points of the Valid and Mapped tokens, in order. */
  function VmCps(ts: seq<EnsNameToken>): seq<CodePoint>
    decreases |ts|
  {
    if |ts| == 0 then [] else (if IsVm(ts[0]) then Cps(ts[0]) else []) + VmCps(ts[1..])
  }

  lemma {:induction false} VmCpsAppend(a: seq<EnsNameToken>, b: seq<EnsNameToken>)
    ensures VmCps(a + b) == VmCps(a) + VmCps(b)
    decreases |a|
  {
    if |a| == 0 {
      assert a + b == b;
    } else {
      assert (a + b)[1..] == a[1..] + b;
      VmCpsAppend(a[1..], b);
    }
  }

  /**
   * One run of the rewrite, at a Valid or Mapped token `i` that needs the
   * check: the run `[s, end)` (reaching back to a pending `start`) is
   * composed; if that changes it, it is replaced by one Nfc token holding
   * the run's Valid/Mapped code points. The result is the new tokens and
   * the position the loop continues from.
   */
  function RunStep(check: set<CodePoint>, nfc: string -> string, ts: seq<EnsNameToken>, i: nat, start: int): (r: (seq<EnsNameToken>, nat))
    requires -1 <= start < i < |ts|
    ensures 0 < r.1 && |r.0| - r.1 < |ts| - i
  {
    var end := RunEnd(ts, ContainsAny(Cps(ts[i]), check), i + 1, i + 1);
    var s := if start < 0 then i else start;
    var cps := VmCps(ts[s..end]);
    var str0 := Cps2Str(cps);
    var str := nfc(str0);
    if str0 == str then (ts, end)
    else (ts[..s] + [Nfc(cps, Str2Cps(str))] + ts[end..], s + 1)
  }

  /**
   * The rewrite loop at token `i`, with `start` the first token of a
   * pending run (or -1). The result is the token sequence at loop exit.
   */
  function NfcLoop(check: set<CodePoint>, nfc: string -> string, ts: seq<EnsNameToken>, i: nat, start: int): seq<EnsNameToken>
    requires -1 <= start < i
    decreases |ts| - i
  {
    if i >= |ts| then ts
    else if IsVm(ts[i]) then
      if ContainsAny(Cps(ts[i]), check) then
        var next := RunStep(check, nfc, ts, i, start);
        NfcLoop(check, nfc, next.0, next.1, -1)
      else NfcLoop(check, nfc, ts, i + 1, i)
    else if ts[i].Ignored? then NfcLoop(check, nfc, ts, i + 1, start)
    else NfcLoop(check, nfc, ts, i + 1, -1)
  }

  /** The rewrite of a whole token sequence. */
  function NfcTransform(check: set<CodePoint>, nfc: string -> string, ts: seq<EnsNameToken>): seq<EnsNameToken>
  {
    NfcLoop(check, nfc, ts, 0, -1)
  }

  /** The inner `for` loop: where the run that starts at `i` ends. */
  method FindRunEnd(ts: seq<EnsNameToken>, i: nat, cps: seq<CodePoint>, check: set<CodePoint>) returns (end: nat)
    requires i < |ts|
    ensures end == RunEnd(ts, ContainsAny(cps, check), i + 1, i + 1)
  {
    ghost var needs := ContainsAny(cps, check);
    end := i + 1;
    var pos := i + 1;
    while pos < |ts|
      invariant end <= pos <= |ts|
      invariant RunEnd(ts, needs, pos, end) == RunEnd(ts, needs, i + 1, i + 1)
      decreases |ts| - pos
    {
      var t := ts[pos];
      if t.Valid? || t.Mapped? {
        if !ContainsAny(cps, check) {
          return;
        }
        end := pos + 1;
      } else if t.Ignored? {
      } else {
        return;
      }
      pos := pos + 1;
    }
  }

  /** The slice loop: the code points of the Valid and Mapped tokens of `slice`. */
  method SliceVmCps(slice: seq<EnsNameToken>) returns (cps: seq<CodePoint>)
    ensures cps == VmCps(slice)
  {
    cps := [];
    for k := 0 to |slice|
      invariant cps == VmCps(slice[..k])
    {
      VmCpsAppend(slice[..k], [slice[k]]);
      assert slice[..k + 1] == slice[..k] + [slice[k]];
      if slice[k].Valid? || slice[k].Mapped? {
        cps := cps + Cps(slice[k]);
      }
    }
    assert slice[..|slice|] == slice;
  }

  /** The step of the rewrite, given where the run ends and the code points it covers. */
  lemma RunStepAt(check: set<CodePoint>, nfc: string -> string, ts: seq<EnsNameToken>, i: nat, start: int,
                  end: nat, cps: seq<CodePoint>)
    requires -1 <= start < i < |ts|
    requires end == RunEnd(ts, ContainsAny(Cps(ts[i]), check), i + 1, i + 1)
    requires cps == VmCps(ts[if start < 0 then i else start..end])
    ensures var s := if start < 0 then i else start;
      RunStep(check, nfc, ts, i, start) ==
        if Cps2Str(cps) == nfc(Cps2Str(cps)) then (ts, end)
        else (ts[..s] + [Nfc(cps, Str2Cps(nfc(Cps2Str(cps))))] + ts[end..], s + 1)
  {
  }

  /** One run of the outer loop body: compose the run at `i` and replace it when NFC changes it. */
  method ComposeRun(check: set<CodePoint>, nfc: string -> string, ts: seq<EnsNameToken>, i: nat, start: int) returns (out: seq<EnsNameToken>, next: nat)
    requires -1 <= start < i < |ts|
    ensures (out, next) == RunStep(check, nfc, ts, i, start)
  {
    var end := FindRunEnd(ts, i, Cps(ts[i]), check);
    var s := if start < 0 then i else start;
    var slice := ts[s..end];
    var sliceCps := SliceVmCps(slice);
    var str0 := Cps2Str(sliceCps);
    var str := nfc(str0);
    RunStepAt(check, nfc, ts, i, start, end, sliceCps);
    if str0 == str {
      out, next := ts, end;
    } else {
      out := ts[..s] + [Nfc(sliceCps, Str2Cps(str))] + ts[end..];
      next := s + 1;
    }
  }

  /** `perform_nfc_transform`, rewriting the token sequence in place. */
  method PerformNfcTransform(check: set<CodePoint>, nfc: string -> string, tokens: seq<EnsNameToken>) returns (out: seq<EnsNameToken>)
    ensures out == NfcTransform(check, nfc, tokens)
  {
    out := tokens;
    var i: nat := 0;
    var start: int := -1;
    while i < |out|
      invariant -1 <= start < i
      invariant NfcLoop(check, nfc, out, i, start) == NfcTransform(check, nfc, tokens)
      decreases |out| - i
    {
      var token := out[i];
      if token.Valid? || token.Mapped? {
        if ContainsAny(Cps(token), check) {
          out, i := ComposeRun(check, nfc, out, i, start);
          start := -1;
        } else {
          start := i;
          i := i + 1;
        }
      } else if token.Ignored? {
        i := i + 1;
      } else {
        start := -1;
        i := i + 1;
      }
    }
  }

  // ---- Properties of the rewrite ----

  /** Leaving every string as it is, NFC changes no token. */
  lemma {:induction false} NfcLoopIdentity(check: set<CodePoint>, nfc: string -> string, ts: seq<EnsNameToken>, i: nat, start: int)
    requires -1 <= start < i
    requires forall s :: nfc(s) == s
    ensures NfcLoop(check, nfc, ts, i, start) == ts
    decreases |ts| - i
  {
    if i < |ts| {
      if IsVm(ts[i]) {
        if ContainsAny(Cps(ts[i]), check) {
          var next := RunStep(check, nfc, ts, i, start);
          NfcLoopIdentity(check, nfc, next.0, next.1, -1);
        } else {
          NfcLoopIdentity(check, nfc, ts, i + 1, i);
        }
      } else if ts[i].Ignored? {
        NfcLoopIdentity(check, nfc, ts, i + 1, start);
      } else {
        NfcLoopIdentity(check, nfc, ts, i + 1, -1);
      }
    }
  }

  lemma NfcTransformIdentity(check: set<CodePoint>, nfc: string -> string, ts: seq<EnsNameToken>)
    requires forall s :: nfc(s) == s
    ensures NfcTransform(check, nfc, ts) == ts
  {
    NfcLoopIdentity(check, nfc, ts, 0, -1);
  }

  /** Without a Valid or Mapped token that needs the check, nothing is rewritten. */
  lemma {:induction false} NfcLoopNoCheck(check: set<CodePoint>, nfc: string -> string, ts: seq<EnsNameToken>, i: nat, start: int)
    requires -1 <= start < i
    requires forall k :: 0 <= k < |ts| && IsVm(ts[k]) ==> !ContainsAny(Cps(ts[k]), check)
    ensures NfcLoop(check, nfc, ts, i, start) == ts
    decreases |ts| - i
  {
    if i < |ts| {
      if IsVm(ts[i]) {
        NfcLoopNoCheck(check, nfc, ts, i + 1, i);
      } else if ts[i].Ignored? {
        NfcLoopNoCheck(check, nfc, ts, i + 1, start);
      } else {
        NfcLoopNoCheck(check, nfc, ts, i + 1, -1);
      }
    }
  }

  lemma NfcTransformNoCheck(check: set<CodePoint>, nfc: string -> string, ts: seq<EnsNameToken>)
    requires forall k :: 0 <= k < |ts| && IsVm(ts[k]) ==> !ContainsAny(Cps(ts[k]), check)
    ensures NfcTransform(check, nfc, ts) == ts
  {
    NfcLoopNoCheck(check, nfc, ts, 0, -1);
  }

  /** The code points a token stood for before the rewrite: an Nfc token stands for its input. */
  function PreNfcCps(t: EnsNameToken): seq<CodePoint>
  {
    match t
    case Valid(cps) => cps
    case Mapped(_, cps) => cps
    case Nfc(input, _) => input
    case _ => []
  }

  function TokensPreNfc(ts: seq<EnsNameToken>): seq<CodePoint>
    decreases |ts|
  {
    if |ts| == 0 then [] else PreNfcCps(ts[0]) + TokensPreNfc(ts[1..])
  }

  lemma {:induction false} TokensPreNfcAppend(a: seq<EnsNameToken>, b: seq<EnsNameToken>)
    ensures TokensPreNfc(a + b) == TokensPreNfc(a) + TokensPreNfc(b)
    decreases |a|
  {
    if |a| == 0 {
      assert a + b == b;
    } else {
      assert (a + b)[1..] == a[1..] + b;
      TokensPreNfcAppend(a[1..], b);
    }
  }

  /** Over a stretch a run may cover, the pre-rewrite code points are the Valid/Mapped ones, and no token is untouched. */
  lemma {:induction false} RunContents(ts: seq<EnsNameToken>)
    requires forall k :: 0 <= k < |ts| ==> InRun(ts[k])
    ensures TokensPreNfc(ts) == VmCps(ts)
    ensures Filter(ts, Untouched) == []
    decreases |ts|
  {
    if |ts| > 0 {
      RunContents(ts[1..]);
    }
  }

  /** Replacing a run keeps the untouched tokens. */
  lemma ReplaceRunFilter(pre: seq<EnsNameToken>, run: seq<EnsNameToken>, post: seq<EnsNameToken>, n: EnsNameToken)
    requires forall k :: 0 <= k < |run| ==> InRun(run[k])
    requires !Untouched(n)
    ensures Filter(pre + [n] + post, Untouched) == Filter(pre + run + post, Untouched)
  {
    RunContents(run);
    FilterAppend(pre + run, post, Untouched);
    FilterAppend(pre, run, Untouched);
    FilterAppend(pre + [n], post, Untouched);
    FilterAppend(pre, [n], Untouched);
    assert Filter([n], Untouched) == [];
  }

  lemma TokensPreNfc3(a: seq<EnsNameToken>, b: seq<EnsNameToken>, c: seq<EnsNameToken>)
    ensures TokensPreNfc(a + b + c) == TokensPreNfc(a) + TokensPreNfc(b) + TokensPreNfc(c)
  {
    TokensPreNfcAppend(a + b, c);
    TokensPreNfcAppend(a, b);
  }

  lemma TokensPreNfcSingle(n: EnsNameToken)
    ensures TokensPreNfc([n]) == PreNfcCps(n)
  {
    assert [n][1..] == [];
  }

  /** Replacing a run by a token that stands for its Valid/Mapped code points keeps the pre-rewrite code points. */
  lemma ReplaceRunPre(pre: seq<EnsNameToken>, run: seq<EnsNameToken>, post: seq<EnsNameToken>, n: EnsNameToken)
    requires forall k :: 0 <= k < |run| ==> InRun(run[k])
    requires PreNfcCps(n) == VmCps(run)
    ensures TokensPreNfc(pre + [n] + post) == TokensPreNfc(pre + run + post)
  {
    RunContents(run);
    TokensPreNfcSingle(n);
    TokensPreNfc3(pre, [n], post);
    TokensPreNfc3(pre, run, post);
  }

  lemma RunSlice(ts: seq<EnsNameToken>, s: nat, end: nat)
    requires s <= end <= |ts|
    requires forall k :: s <= k < end ==> InRun(ts[k])
    ensures forall k :: 0 <= k < |ts[s..end]| ==> InRun(ts[s..end][k])
  {
    forall k | 0 <= k < end - s
      ensures InRun(ts[s..end][k])
    {
      assert ts[s..end][k] == ts[s + k];
    }
  }

  /** Replacing the run `[s, end)` of `ts` by `n`. */
  lemma ReplaceRun(ts: seq<EnsNameToken>, s: nat, end: nat, n: EnsNameToken)
    requires s <= end <= |ts|
    requires forall k :: s <= k < end ==> InRun(ts[k])
    requires !Untouched(n) && PreNfcCps(n) == VmCps(ts[s..end])
    ensures Filter(ts[..s] + [n] + ts[end..], Untouched) == Filter(ts, Untouched)
    ensures TokensPreNfc(ts[..s] + [n] + ts[end..]) == TokensPreNfc(ts)
  {
    var run := ts[s..end];
    RunSlice(ts, s, end);
    SliceThree(ts, s, end);
    ReplaceRunFilter(ts[..s], run, ts[end..], n);
    ReplaceRunPre(ts[..s], run, ts[end..], n);
  }

  /** The tokens from `start` up to `i` belong to a run in preparation. */
  predicate PendingRun(ts: seq<EnsNameToken>, i: nat, start: int)
  {
    start >= 0 ==> forall k :: start <= k < i && k < |ts| ==> InRun(ts[k])
  }

  /** The run composed at `i` is made of tokens a run may cover. */
  lemma RunCovered(ts: seq<EnsNameToken>, needs: bool, i: nat, start: int, s: nat, end: nat)
    requires -1 <= start < i < |ts| && IsVm(ts[i])
    requires PendingRun(ts, i, start)
    requires s == (if start < 0 then i else start) && end == RunEnd(ts, needs, i + 1, i + 1)
    ensures forall k :: s <= k < end ==> InRun(ts[k])
  {
  }

  lemma RunStepKeeps(check: set<CodePoint>, nfc: string -> string, ts: seq<EnsNameToken>, i: nat, start: int)
    requires -1 <= start < i < |ts| && IsVm(ts[i])
    requires PendingRun(ts, i, start)
    ensures Filter(RunStep(check, nfc, ts, i, start).0, Untouched) == Filter(ts, Untouched)
    ensures TokensPreNfc(RunStep(check, nfc, ts, i, start).0) == TokensPreNfc(ts)
  {
    var end := RunEnd(ts, ContainsAny(Cps(ts[i]), check), i + 1, i + 1);
    var s := if start < 0 then i else start;
    var cps := VmCps(ts[s..end]);
    var str := nfc(Cps2Str(cps));
    RunStepAt(check, nfc, ts, i, start, end, cps);
    if Cps2Str(cps) != str {
      RunCovered(ts, ContainsAny(Cps(ts[i]), check), i, start, s, end);
      ReplaceRun(ts, s, end, Nfc(cps, Str2Cps(str)));
    }
  }

  lemma {:induction false} NfcLoopKeeps(check: set<CodePoint>, nfc: string -> string, ts: seq<EnsNameToken>, i: nat, start: int)
    requires -1 <= start < i
    requires PendingRun(ts, i, start)
    ensures Filter(NfcLoop(check, nfc, ts, i, start), Untouched) == Filter(ts, Untouched)
    ensures TokensPreNfc(NfcLoop(check, nfc, ts, i, start)) == TokensPreNfc(ts)
    decreases |ts| - i
  {
    if i < |ts| {
      if IsVm(ts[i]) {
        if ContainsAny(Cps(ts[i]), check) {
          var next := RunStep(check, nfc, ts, i, start);
          RunStepKeeps(check, nfc, ts, i, start);
          NfcLoopKeeps(check, nfc, next.0, next.1, -1);
        } else {
          NfcLoopKeeps(check, nfc, ts, i + 1, i);
        }
      } else if ts[i].Ignored? {
        NfcLoopKeeps(check, nfc, ts, i + 1, start);
      } else {
        NfcLoopKeeps(check, nfc, ts, i + 1, -1);
      }
    }
  }

  /**
   * The rewrite keeps every Disallowed, Stop and Emoji token in order, and
   * the code points the text tokens stood for before it: each new Nfc
   * token's input is exactly the Valid/Mapped code points it replaced.
   */
  lemma NfcTransformKeeps(check: set<CodePoint>, nfc: string -> string, ts: seq<EnsNameToken>)
    ensures Filter(NfcTransform(check, nfc, ts), Untouched) == Filter(ts, Untouched)
    ensures TokensPreNfc(NfcTransform(check, nfc, ts)) == TokensPreNfc(ts)
  {
    NfcLoopKeeps(check, nfc, ts, 0, -1);
  }

  /**
   * Once a run has started it covers the next Valid token even when that
   * token does not need the check: `a` needs it, `b` does not, and the two
   * are composed together.
   */
  lemma RunCoversLaterTokens(check: set<CodePoint>, nfc: string -> string, a: CodePoint, b: CodePoint)
    requires a in check && b !in check
    requires nfc(Cps2Str([a, b])) != Cps2Str([a, b])
    ensures NfcTransform(check, nfc, [Valid([a]), Valid([b])]) == [Nfc([a, b], Str2Cps(nfc(Cps2Str([a, b]))))]
  {
    var ts := [Valid([a]), Valid([b])];
    assert Cps(ts[0]) == [a] && Cps(ts[0])[0] in check;
    assert ContainsAny(Cps(ts[0]), check);
    var needs := ContainsAny(Cps(ts[0]), check);
    assert RunEnd(ts, needs, 2, 2) == 2;
    assert RunEnd(ts, needs, 1, 1) == 2;
    assert ts[0..2] == ts;
    assert ts[1..][1..] == [];
    assert VmCps(ts[1..]) == [b] + VmCps(ts[1..][1..]);
    assert VmCps(ts) == [a] + VmCps(ts[1..]);
    var n := Nfc([a, b], Str2Cps(nfc(Cps2Str([a, b]))));
    assert ts[..0] + [n] + ts[2..] == [n];
    assert VmCps(ts[0..2]) == [a, b];
    assert Cps2Str(VmCps(ts[0..2])) != nfc(Cps2Str(VmCps(ts[0..2])));
    assert RunStep(check, nfc, ts, 0, -1) == ([n], 1);
    assert NfcLoop(check, nfc, [n], 1, -1) == [n];
    assert NfcLoop(check, nfc, ts, 0, -1) == NfcLoop(check, nfc, [n], 1, -1);
  }
}
