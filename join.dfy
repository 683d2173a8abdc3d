/**
 * `join_labels` and `join_cps` of src/join.rs: the normalised form of a
 * name is the code points its labels keep, with one FULL STOP between
 * two labels, printed as a string.
 */
module Join {
  import opened Utils
  import opened Seqs
  import opened Constants
  import opened TokenTypes
  import opened Labels
  import opened Validate

  /**
   * What `join_labels` keeps of one token: the code points of Valid, Mapped
   * and Nfc tokens, the FE0F-free code points of an emoji, and nothing of
   * Disallowed, Ignored and Stop tokens.
   */
  function NormalizedTokenCps(t: EnsNameToken): seq<CodePoint>
  {
    match t
    case Disallowed(_) => []
    case Ignored(_) => []
    case Stop(_) => []
    case Valid(cps) => cps
    case Mapped(_, cps) => cps
    case Nfc(_, cps) => cps
    case Emoji(e) => e.cps
  }

  /** A label's tokens through `filter_map` and `flatten`, in order. */
  function NormalizedCps(ts: seq<EnsNameToken>): seq<CodePoint>
    decreases |ts|
  {
    if |ts| == 0 then [] else NormalizedTokenCps(ts[0]) + NormalizedCps(ts[1..])
  }

  /** What a label contributes is exactly its code points (`iter_cps`). */
  lemma {:induction false} NormalizedCpsAreTokenCps(ts: seq<EnsNameToken>)
    ensures NormalizedCps(ts) == TokensCps(ts)
    decreases |ts|
  {
    if |ts| > 0 {
      NormalizedCpsAreTokenCps(ts[1..]);
      assert NormalizedTokenCps(ts[0]) == Cps(ts[0]);
    }
  }

  /** The tokens `join_labels` keeps. */
  predicate IsKept(t: EnsNameToken)
  {
    !(t.Disallowed? || t.Ignored? || t.Stop?)
  }

  /** Dropping the Disallowed, Ignored and Stop tokens first changes nothing. */
  lemma {:induction false} NormalizedCpsDropsUnkept(ts: seq<EnsNameToken>)
    ensures NormalizedCps(Filter(ts, IsKept)) == NormalizedCps(ts)
    decreases |ts|
  {
    if |ts| > 0 {
      NormalizedCpsDropsUnkept(ts[1..]);
      if IsKept(ts[0]) {
        assert Filter(ts, IsKept) == [ts[0]] + Filter(ts[1..], IsKept);
        assert ([ts[0]] + Filter(ts[1..], IsKept))[1..] == Filter(ts[1..], IsKept);
      } else {
        assert Filter(ts, IsKept) == Filter(ts[1..], IsKept);
        assert NormalizedTokenCps(ts[0]) == [];
        assert NormalizedCps(ts) == [] + NormalizedCps(ts[1..]);
      }
    }
  }

  /** `join_cps`: the parts with FULL STOP between each two, as a string. */
  function JoinCps(parts: seq<seq<CodePoint>>): string
  {
    Cps2Str(Intersperse(parts, CP_STOP))
  }

  /** The code points of each label, in label order. */
  function NormalizedLabelsCps(labels: seq<ValidatedLabel>): (r: seq<seq<CodePoint>>)
    ensures |r| == |labels|
  {
    seq(|labels|, i requires 0 <= i < |labels| => NormalizedCps(labels[i].tokenized.tokens))
  }

  /** `join_labels`. */
  function JoinLabels(labels: seq<ValidatedLabel>): string
  {
    JoinCps(NormalizedLabelsCps(labels))
  }

  /** No labels join to the empty string, and one label joins without a separator. */
  lemma JoinCpsFew(parts: seq<seq<CodePoint>>)
    ensures |parts| == 0 ==> JoinCps(parts) == ""
    ensures |parts| == 1 ==> JoinCps(parts) == Cps2Str(parts[0])
  {
  }

  function IsStopCp(cp: CodePoint): bool
  {
    cp == CP_STOP
  }

  function IsCharCp(cp: CodePoint): bool
  {
    IsScalarValue(cp)
  }

  /** Every code point of every part is a character. */
  predicate AllScalar(parts: seq<seq<CodePoint>>)
  {
    forall i, j :: 0 <= i < |parts| && 0 <= j < |parts[i]| ==> IsCharCp(parts[i][j])
  }

  /** No part holds a FULL STOP. */
  predicate NoStops(parts: seq<seq<CodePoint>>)
  {
    forall i :: 0 <= i < |parts| ==> NoneOf(parts[i], IsStopCp)
  }

  /** The joined string holds the parts' code points with one FULL STOP between two parts. */
  lemma JoinCpsCps(parts: seq<seq<CodePoint>>)
    requires AllScalar(parts)
    ensures Str2Cps(JoinCps(parts)) == Intersperse(parts, CP_STOP)
  {
    IntersperseAll(parts, CP_STOP, IsCharCp);
    Cps2StrRoundTrip(Intersperse(parts, CP_STOP));
  }

  /**
   * When no part holds a FULL STOP, cutting the joined string at every
   * FULL STOP gives the parts back, in order: there is exactly one
   * separator between two parts and none elsewhere.
   */
  lemma JoinCpsSplits(parts: seq<seq<CodePoint>>)
    requires |parts| >= 1 && AllScalar(parts) && NoStops(parts)
    ensures SplitWhere(Str2Cps(JoinCps(parts)), IsStopCp) == parts
    ensures Count(Str2Cps(JoinCps(parts)), IsStopCp) == |parts| - 1
  {
    JoinCpsCps(parts);
    SplitIntersperse(parts, IsStopCp, CP_STOP);
    SplitWhereCount(Str2Cps(JoinCps(parts)), IsStopCp);
  }

  /** The normalised name holds each label's code points (`iter_cps`), in order, with FULL STOP between. */
  lemma JoinLabelsCps(labels: seq<ValidatedLabel>)
    requires AllScalar(NormalizedLabelsCps(labels))
    ensures Str2Cps(JoinLabels(labels)) ==
      Intersperse(seq(|labels|, i requires 0 <= i < |labels| => IterCps(labels[i].tokenized)), CP_STOP)
  {
    JoinCpsCps(NormalizedLabelsCps(labels));
    forall i | 0 <= i < |labels|
      ensures NormalizedLabelsCps(labels)[i] == IterCps(labels[i].tokenized)
    {
      NormalizedCpsAreTokenCps(labels[i].tokenized.tokens);
    }
    assert NormalizedLabelsCps(labels) == seq(|labels|, i requires 0 <= i < |labels| => IterCps(labels[i].tokenized));
  }

  /**
   * Joining validated forms of a name's labels spells out the name's code
   * points, in order, with FULL STOP where its Stop tokens were.
   */
  lemma JoinLabelsOfName(labels: seq<ValidatedLabel>, name: TokenizedName)
    requires |labels| == |IterLabels(name)|
    requires forall i :: 0 <= i < |labels| ==> labels[i].tokenized == IterLabels(name)[i]
    requires AllScalar(NormalizedLabelsCps(labels))
    ensures Str2Cps(JoinLabels(labels)) == StoppedCps(name.tokens)
  {
    JoinLabelsCps(labels);
    var parts := SplitWhere(name.tokens, IsStopToken);
    PartsCpsIndex(parts);
    assert seq(|labels|, i requires 0 <= i < |labels| => IterCps(labels[i].tokenized)) == PartsCps(parts);
    SplitStoppedCps(name.tokens);
  }
}
