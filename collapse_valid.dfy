/**
 * Merging of adjacent Valid tokens (`collapse_valid_tokens`, present in
 * both src/tokens/tokenize.rs and src/tokens/tokenizer.rs).
 */
module CollapseValid {
  import opened Utils
  import opened Seqs
  import opened TokenTypes

  /** The length of the run of Valid tokens that `ts` starts with. */
  function ValidRun(ts: seq<EnsNameToken>): (k: nat)
    ensures k <= |ts|
    ensures forall i :: 0 <= i < k ==> ts[i].Valid?
    ensures k < |ts| ==> !ts[k].Valid?
    decreases |ts|
  {
    if |ts| == 0 || !ts[0].Valid? then 0 else 1 + ValidRun(ts[1..])
  }

  lemma {:induction false} ValidRunExact(ts: seq<EnsNameToken>, j: nat)
    requires j <= |ts|
    requires forall i :: 0 <= i < j ==> ts[i].Valid?
    requires j == |ts| || !ts[j].Valid?
    ensures ValidRun(ts) == j
    decreases j
  {
    if j > 0 {
      ValidRunExact(ts[1..], j - 1);
    }
  }

  /** Every maximal run of Valid tokens replaced by one Valid token holding the run's code points. */
  function Collapsed(ts: seq<EnsNameToken>): seq<EnsNameToken>
    decreases |ts|
  {
    if |ts| == 0 then []
    else if ts[0].Valid? then
      var k := ValidRun(ts);
      [Valid(TokensCps(ts[..k]))] + Collapsed(ts[k..])
    else [ts[0]] + Collapsed(ts[1..])
  }

  predicate NoAdjacentValid(ts: seq<EnsNameToken>)
  {
    forall i :: 0 <= i < |ts| - 1 ==> !(ts[i].Valid? && ts[i + 1].Valid?)
  }

  predicate NotValid(t: EnsNameToken)
  {
    !t.Valid?
  }

  /** One step of `Collapsed` at a run of `j` Valid tokens. */
  lemma CollapsedRunStep(s: seq<EnsNameToken>, j: nat, cps: seq<CodePoint>)
    requires 0 < j <= |s|
    requires forall k :: 0 <= k < j ==> s[k].Valid?
    requires j == |s| || !s[j].Valid?
    requires cps == TokensCps(s[..j])
    ensures Collapsed(s) == [Valid(cps)] + Collapsed(s[j..])
  {
    ValidRunExact(s, j);
  }

  /** One step of `Collapsed` at a token that is not Valid. */
  lemma CollapsedOtherStep(s: seq<EnsNameToken>)
    requires |s| > 0 && !s[0].Valid?
    ensures Collapsed(s) == [s[0]] + Collapsed(s[1..])
  {
  }

  /** Splicing one token over `[i, j)` and moving past it keeps the loop's account of the result. */
  lemma SpliceStep(out: seq<EnsNameToken>, i: nat, j: nat, t: EnsNameToken)
    requires i < j <= |out|
    requires Collapsed(out[i..]) == [t] + Collapsed(out[j..])
    ensures (out[..i] + [t] + out[j..])[..i + 1] + Collapsed((out[..i] + [t] + out[j..])[i + 1..]) ==
            out[..i] + Collapsed(out[i..])
  {
    var next := out[..i] + [t] + out[j..];
    assert next[..i + 1] == out[..i] + [t];
    assert next[i + 1..] == out[j..];
  }

  /** Extending a run by the Valid token at `j` adds that token's code points. */
  lemma RunCpsStep(ts: seq<EnsNameToken>, i: nat, j: nat)
    requires i <= j < |ts| && ts[j].Valid?
    ensures TokensCps(ts[i..j + 1]) == TokensCps(ts[i..j]) + ts[j].cps
  {
    assert ts[i..j + 1] == ts[i..j] + [ts[j]];
    TokensCpsAppend(ts[i..j], [ts[j]]);
    assert TokensCps([ts[j]]) == Cps(ts[j]) + TokensCps([]);
  }

  /** The inner loop of `collapse_valid_tokens`: the end of the Valid run starting at `i`, and its code points. */
  method GatherValidRun(ts: seq<EnsNameToken>, i: nat) returns (j: nat, cps: seq<CodePoint>)
    requires i < |ts| && ts[i].Valid?
    ensures i < j <= |ts|
    ensures forall k :: i <= k < j ==> ts[k].Valid?
    ensures j == |ts| || !ts[j].Valid?
    ensures cps == TokensCps(ts[i..j])
  {
    j := i + 1;
    cps := ts[i].cps;
    assert ts[i..i + 1] == [ts[i]];
    while j < |ts| && ts[j].Valid?
      invariant i < j <= |ts|
      invariant forall k :: i <= k < j ==> ts[k].Valid?
      invariant cps == TokensCps(ts[i..j])
      decreases |ts| - j
    {
      RunCpsStep(ts, i, j);
      cps := cps + ts[j].cps;
      j := j + 1;
    }
  }

  /**
   * `collapse_valid_tokens`: walk the tokens; at a Valid token, gather the
   * following Valid tokens and splice the whole run into one token.
   */
  method CollapseValidTokens(tokens: seq<EnsNameToken>) returns (out: seq<EnsNameToken>)
    ensures out == Collapsed(tokens)
  {
    out := tokens;
    var i := 0;
    while i < |out|
      invariant 0 <= i <= |out|
      invariant out[..i] + Collapsed(out[i..]) == Collapsed(tokens)
      decreases |out| - i
    {
      if out[i].Valid? {
        var j, cps := GatherValidRun(out, i);
        assert out[i..][..j - i] == out[i..j];
        assert out[i..][j - i..] == out[j..];
        CollapsedRunStep(out[i..], j - i, cps);
        SpliceStep(out, i, j, Valid(cps));
        out := out[..i] + [Valid(cps)] + out[j..];
      } else {
        CollapsedOtherStep(out[i..]);
        assert out[i..][1..] == out[i + 1..];
        SpliceStep(out, i, i + 1, out[i]);
        assert out[..i] + [out[i]] + out[i + 1..] == out;
      }
      i := i + 1;
    }
    assert out[..i] == out;
  }

  lemma {:induction false} CollapsedHead(ts: seq<EnsNameToken>)
    requires |ts| > 0
    ensures |Collapsed(ts)| > 0 && (Collapsed(ts)[0].Valid? <==> ts[0].Valid?)
    ensures !ts[0].Valid? ==> Collapsed(ts)[0] == ts[0]
  {
  }

  /** No two Valid tokens are left next to each other. */
  lemma {:induction false} CollapsedNoAdjacentValid(ts: seq<EnsNameToken>)
    ensures NoAdjacentValid(Collapsed(ts))
    decreases |ts|
  {
    if |ts| > 0 {
      var k := if ts[0].Valid? then ValidRun(ts) else 1;
      var rest := Collapsed(ts[k..]);
      CollapsedNoAdjacentValid(ts[k..]);
      if ts[0].Valid? && k < |ts| {
        CollapsedHead(ts[k..]);
      }
      assert Collapsed(ts) == [Collapsed(ts)[0]] + rest;
    }
  }

  /** Tokens other than Valid keep their order, and none is added or lost. */
  lemma {:induction false} CollapsedKeepsOthers(ts: seq<EnsNameToken>)
    ensures Filter(Collapsed(ts), NotValid) == Filter(ts, NotValid)
    decreases |ts|
  {
    if |ts| > 0 {
      var k := if ts[0].Valid? then ValidRun(ts) else 1;
      CollapsedKeepsOthers(ts[k..]);
      assert ts == ts[..k] + ts[k..];
      FilterAppend(ts[..k], ts[k..], NotValid);
      FilterAppend([Collapsed(ts)[0]], Collapsed(ts[k..]), NotValid);
      assert Collapsed(ts) == [Collapsed(ts)[0]] + Collapsed(ts[k..]);
      if ts[0].Valid? {
        AllValidFilter(ts[..k]);
      } else {
        assert ts[..k] == [ts[0]];
      }
    }
  }

  lemma {:induction false} AllValidFilter(ts: seq<EnsNameToken>)
    requires forall i :: 0 <= i < |ts| ==> ts[i].Valid?
    ensures Filter(ts, NotValid) == []
    decreases |ts|
  {
    if |ts| > 0 {
      AllValidFilter(ts[1..]);
    }
  }

  /** The code points of the whole sequence, read in order, do not change. */
  lemma {:induction false} CollapsedKeepsCps(ts: seq<EnsNameToken>)
    ensures TokensCps(Collapsed(ts)) == TokensCps(ts)
    decreases |ts|
  {
    if |ts| > 0 {
      var k := if ts[0].Valid? then ValidRun(ts) else 1;
      CollapsedKeepsCps(ts[k..]);
      assert ts == ts[..k] + ts[k..];
      TokensCpsAppend(ts[..k], ts[k..]);
      assert Collapsed(ts) == [Collapsed(ts)[0]] + Collapsed(ts[k..]);
      TokensCpsAppend([Collapsed(ts)[0]], Collapsed(ts[k..]));
      if !ts[0].Valid? {
        assert ts[..k] == [ts[0]];
      }
    }
  }

  /** A sequence with no adjacent Valid tokens (in particular an empty or one-token sequence) is left as it is. */
  lemma {:induction false} CollapsedUnchanged(ts: seq<EnsNameToken>)
    requires NoAdjacentValid(ts)
    ensures Collapsed(ts) == ts
    decreases |ts|
  {
    if |ts| > 0 {
      assert NoAdjacentValid(ts[1..]) by {
        forall i | 0 <= i < |ts[1..]| - 1
          ensures !(ts[1..][i].Valid? && ts[1..][i + 1].Valid?)
        {
          assert ts[1..][i] == ts[i + 1] && ts[1..][i + 1] == ts[i + 2];
        }
      }
      CollapsedUnchanged(ts[1..]);
      if ts[0].Valid? {
        assert ts[..1] == [ts[0]];
        assert TokensCps(ts[..1]) == Cps(ts[0]) + TokensCps(ts[..1][1..]);
        assert ts[..1][1..] == [];
        CollapsedRunStep(ts, 1, ts[0].cps);
      } else {
        CollapsedOtherStep(ts);
      }
      assert ts == [ts[0]] + ts[1..];
    }
  }

  /** Collapsing twice is the same as collapsing once. */
  lemma CollapsedIdempotent(ts: seq<EnsNameToken>)
    ensures Collapsed(Collapsed(ts)) == Collapsed(ts)
  {
    CollapsedNoAdjacentValid(ts);
    CollapsedUnchanged(Collapsed(ts));
  }
}
