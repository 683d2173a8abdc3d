/**
 * `beautify_labels` and `cps_replaced_greek` of src/beautify.rs: like the
 * normalised form, but emoji keep their fully qualified form and, outside
 * Greek labels, small xi becomes capital xi.
 */
module Beautify {
  import opened Utils
  import opened Seqs
  import opened Constants
  import opened CodePointTypes
  import opened TokenTypes
  import opened Validate
  import opened Join

  /** The code point `cps_replaced_greek` writes in place of `cp`. */
  function XiReplacedCp(cp: CodePoint, labelType: GroupName): CodePoint
  {
    if !IsGreek(labelType) && cp == CP_XI_SMALL then CP_XI_CAPITAL else cp
  }

  /** The code points after `cps_replaced_greek`. */
  function XiReplaced(cps: seq<CodePoint>, labelType: GroupName): (r: seq<CodePoint>)
    ensures |r| == |cps|
  {
    seq(|cps|, i requires 0 <= i < |cps| => XiReplacedCp(cps[i], labelType))
  }

  /** `cps_replaced_greek`: rewrites the vector it owns in place. */
  method CpsReplacedGreek(cps: array<CodePoint>, labelType: GroupName)
    modifies cps
    ensures cps[..] == XiReplaced(old(cps[..]), labelType)
  {
    if !IsGreek(labelType) {
      for i := 0 to cps.Length
        invariant forall j :: 0 <= j < i ==> cps[j] == XiReplacedCp(old(cps[j]), labelType)
        invariant forall j :: i <= j < cps.Length ==> cps[j] == old(cps[j])
      {
        if cps[i] == CP_XI_SMALL {
          cps[i] := CP_XI_CAPITAL;
        }
      }
    }
  }

  /** In a Greek label nothing changes. */
  lemma XiReplacedGreek(cps: seq<CodePoint>, labelType: GroupName)
    requires IsGreek(labelType)
    ensures XiReplaced(cps, labelType) == cps
  {
  }

  /**
   * Outside a Greek label every small xi becomes capital xi, every other
   * code point stays, and no small xi is left.
   */
  lemma XiReplacedNotGreek(cps: seq<CodePoint>, labelType: GroupName)
    requires !IsGreek(labelType)
    ensures forall i :: 0 <= i < |cps| ==>
      XiReplaced(cps, labelType)[i] == if cps[i] == CP_XI_SMALL then CP_XI_CAPITAL else cps[i]
    ensures forall i :: 0 <= i < |cps| ==> XiReplaced(cps, labelType)[i] != CP_XI_SMALL
  {
  }

  lemma XiReplacedAppend(a: seq<CodePoint>, b: seq<CodePoint>, labelType: GroupName)
    ensures XiReplaced(a + b, labelType) == XiReplaced(a, labelType) + XiReplaced(b, labelType)
  {
  }

  /** Replacing twice is replacing once. */
  lemma XiReplacedIdempotent(cps: seq<CodePoint>, labelType: GroupName)
    ensures XiReplaced(XiReplaced(cps, labelType), labelType) == XiReplaced(cps, labelType)
  {
  }

  /**
   * What `beautify_labels` takes from one token: the fully qualified form
   * of an emoji, the xi-replaced code points of Valid, Mapped and Nfc
   * tokens, and nothing of Ignored, Disallowed and Stop tokens.
   */
  function BeautifiedTokenCps(t: EnsNameToken, labelType: GroupName): seq<CodePoint>
  {
    match t
    case Emoji(e) => e.emoji
    case Valid(_) => XiReplaced(Cps(t), labelType)
    case Mapped(_, _) => XiReplaced(Cps(t), labelType)
    case Nfc(_, _) => XiReplaced(Cps(t), labelType)
    case Ignored(_) => []
    case Disallowed(_) => []
    case Stop(_) => []
  }

  /** A label's tokens through `filter_map` and `flatten`, in order. */
  function BeautifiedCps(ts: seq<EnsNameToken>, labelType: GroupName): seq<CodePoint>
    decreases |ts|
  {
    if |ts| == 0 then [] else BeautifiedTokenCps(ts[0], labelType) + BeautifiedCps(ts[1..], labelType)
  }

  /** `beautify_labels`: joined as `join_cps` joins. */
  function BeautifyLabels(labels: seq<ValidatedLabel>): string
  {
    JoinCps(seq(|labels|, i requires 0 <= i < |labels| =>
      BeautifiedCps(labels[i].tokenized.tokens, labels[i].labelType)))
  }

  /**
   * Without emoji, beautifying is normalising followed by the xi
   * replacement; in a Greek label without emoji the two are the same.
   */
  lemma {:induction false} BeautifiedIsNormalizedReplaced(ts: seq<EnsNameToken>, labelType: GroupName)
    requires forall i :: 0 <= i < |ts| ==> !ts[i].Emoji?
    ensures BeautifiedCps(ts, labelType) == XiReplaced(NormalizedCps(ts), labelType)
    ensures IsGreek(labelType) ==> BeautifiedCps(ts, labelType) == NormalizedCps(ts)
    decreases |ts|
  {
    if |ts| > 0 {
      BeautifiedIsNormalizedReplaced(ts[1..], labelType);
      assert BeautifiedTokenCps(ts[0], labelType) == XiReplaced(NormalizedTokenCps(ts[0]), labelType);
      XiReplacedAppend(NormalizedTokenCps(ts[0]), NormalizedCps(ts[1..]), labelType);
    }
  }

  /** Dropping the Ignored, Disallowed and Stop tokens first changes nothing. */
  lemma {:induction false} BeautifiedDropsUnkept(ts: seq<EnsNameToken>, labelType: GroupName)
    ensures BeautifiedCps(Filter(ts, IsKept), labelType) == BeautifiedCps(ts, labelType)
    decreases |ts|
  {
    if |ts| > 0 {
      BeautifiedDropsUnkept(ts[1..], labelType);
      if IsKept(ts[0]) {
        assert Filter(ts, IsKept) == [ts[0]] + Filter(ts[1..], IsKept);
        assert ([ts[0]] + Filter(ts[1..], IsKept))[1..] == Filter(ts[1..], IsKept);
      } else {
        assert Filter(ts, IsKept) == Filter(ts[1..], IsKept);
        assert BeautifiedCps(ts, labelType) == [] + BeautifiedCps(ts[1..], labelType);
      }
    }
  }

  /** An emoji token contributes its fully qualified form; the normalised name takes its FE0F-free form. */
  lemma EmojiForms(e: TokenEmoji, labelType: GroupName)
    ensures BeautifiedCps([EnsNameToken.Emoji(e)], labelType) == e.emoji
    ensures NormalizedCps([EnsNameToken.Emoji(e)]) == e.cps
  {
    assert [EnsNameToken.Emoji(e)][1..] == [];
  }
}
