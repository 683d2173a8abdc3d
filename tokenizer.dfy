/**
 * The `Tokenizer` of src/tokens/tokenizer.rs, built on the inspector
 * tables: the same cursor loop over the input's characters, but an emoji
 * is recognised as the longest prefix that the tables know.
 *
 * Its `normalize` and `collapse_valid_tokens` are the loops of
 * src/tokens/tokenize.rs line for line (with the inspector's check set
 * and NFC function); the model uses `NfcRewrite.PerformNfcTransform` and
 * `CollapseValid.CollapseValidTokens` for both.
 */
module Tokenizer {
  import opened Wrappers
  import opened Utils
  import opened Seqs
  import opened Constants
  import opened TokenTypes
  import opened Inspector
  import opened NfcRewrite
  import opened CollapseValid
  import Specs
  import Tokenize

  /** `Tokenizer::process_one_cp`, with the same order as `Tokenize.ProcessOneCp`. */
  function ProcessOneCp(ins: CodePointsInspector, cp: CodePoint): (t: EnsNameToken)
    ensures cp == CP_STOP ==> t == Stop(cp)
    ensures cp != CP_STOP && cp in ins.valid ==> t == Valid([cp])
    ensures cp != CP_STOP && cp !in ins.valid && cp in ins.ignored ==> t == Ignored(cp)
    ensures cp != CP_STOP && cp !in ins.valid && cp !in ins.ignored && cp in ins.mapped ==>
      t == Mapped(cp, ins.mapped[cp])
    ensures cp != CP_STOP && cp !in ins.valid && cp !in ins.ignored && cp !in ins.mapped ==>
      t == Disallowed(cp)
  {
    if Inspector.IsStop(ins, cp) then Stop(cp)
    else if Inspector.IsValid(ins, cp) then Valid([cp])
    else if Inspector.IsIgnored(ins, cp) then Ignored(cp)
    else match Inspector.MaybeNormalize(ins, cp)
      case Some(normalized) => Mapped(cp, normalized)
      case None => Disallowed(cp)
  }

  /** Over the same valid, ignored and mapped tables both tokenizers classify a code point alike. */
  lemma ProcessOneCpAgrees(ins: CodePointsInspector, specs: Specs.CodePointsSpecs, cp: CodePoint)
    requires ins.valid == specs.valid && ins.ignored == specs.ignored && ins.mapped == specs.mapped
    ensures ProcessOneCp(ins, cp) == Tokenize.ProcessOneCp(specs, cp)
  {
  }

  /** Every classified token remembers the one code point it was made from. */
  lemma ProcessOneCpSource(ins: CodePointsInspector, cp: CodePoint)
    ensures Tokenize.SourceCps(ProcessOneCp(ins, cp)) == [cp]
    ensures !ProcessOneCp(ins, cp).Nfc? && !ProcessOneCp(ins, cp).Emoji?
  {
  }

  /** The emoji token for a prefix the tables recognise. */
  function EmojiToken(ins: CodePointsInspector, input: seq<CodePoint>): (e: TokenEmoji)
    ensures e.input == input && e.cps == FilterFe0f(input)
    ensures e.emoji == Inspector.CpsEmojiNoFe0fToPretty(ins, e.cps)
  {
    var noFe0f := FilterFe0f(input);
    TokenEmoji(input, Inspector.CpsEmojiNoFe0fToPretty(ins, noFe0f), noFe0f)
  }

  /** The longest prefix of `cps` of length at most `n` that is an emoji. */
  function LongestEmojiUpTo(ins: CodePointsInspector, cps: seq<CodePoint>, n: nat): Option<TokenEmoji>
    requires n <= |cps|
  {
    if n == 0 then None
    else if CpsIsEmoji(ins, cps[..n]) then Some(EmojiToken(ins, cps[..n]))
    else LongestEmojiUpTo(ins, cps, n - 1)
  }

  /**
   * The result is the emoji token of the longest prefix, of length between
   * 1 and `n`, that the tables recognise; None when there is none.
   */
  lemma {:induction false} LongestEmojiUpToIsLongest(ins: CodePointsInspector, cps: seq<CodePoint>, n: nat)
    requires n <= |cps|
    ensures LongestEmojiUpTo(ins, cps, n).None? <==> forall j :: 1 <= j <= n ==> !CpsIsEmoji(ins, cps[..j])
    ensures LongestEmojiUpTo(ins, cps, n).Some? ==>
      var e := LongestEmojiUpTo(ins, cps, n).value;
      1 <= |e.input| <= n && e.input == cps[..|e.input|] && CpsIsEmoji(ins, e.input) &&
      e == EmojiToken(ins, e.input) &&
      forall j :: |e.input| < j <= n ==> !CpsIsEmoji(ins, cps[..j])
    decreases n
  {
    if n > 0 && !CpsIsEmoji(ins, cps[..n]) {
      LongestEmojiUpToIsLongest(ins, cps, n - 1);
    }
  }

  /** `maybe_starts_with_emoji`: tries every prefix, keeping the last (longest) one that is an emoji. */
  method MaybeStartsWithEmoji(ins: CodePointsInspector, chars: string) returns (longestMatch: Option<TokenEmoji>)
    ensures longestMatch == LongestEmojiUpTo(ins, Str2Cps(chars), |chars|)
  {
    longestMatch := None;
    var cps := Str2Cps(chars);
    for i := 1 to |chars| + 1
      invariant longestMatch == LongestEmojiUpTo(ins, cps, i - 1)
    {
      var candidate := cps[0..i];
      if CpsIsEmoji(ins, candidate) {
        var input := candidate;
        var cpsNoFe0f := FilterFe0f(input);
        var emoji := Inspector.CpsEmojiNoFe0fToPretty(ins, cpsNoFe0f);
        longestMatch := Some(TokenEmoji(input, emoji, cpsNoFe0f));
      }
    }
  }

  /** One step of `ens_tokenize` at position `i`: the longest emoji there, or else one character's token. */
  function StepAt(ins: CodePointsInspector, chars: string, i: nat): (r: (EnsNameToken, nat))
    requires i < |chars|
    ensures i < r.1 <= |chars|
    ensures Tokenize.SourceCps(r.0) == Str2Cps(chars[i..r.1])
    ensures !r.0.Nfc? && (r.0.Stop? ==> r.0 == Stop(CP_STOP))
  {
    var rest := chars[i..];
    LongestEmojiUpToIsLongest(ins, Str2Cps(rest), |rest|);
    match LongestEmojiUpTo(ins, Str2Cps(rest), |rest|)
    case Some(e) =>
      var n := |e.input|;
      assert rest[..n] == chars[i..i + n];
      Str2CpsPrefix(rest, n);
      (EnsNameToken.Emoji(e), i + n)
    case None =>
      var cp: CodePoint := chars[i] as int;
      ProcessOneCpSource(ins, cp);
      assert Str2Cps(chars[i..i + 1]) == [cp];
      (ProcessOneCp(ins, cp), i + 1)
  }

  /** The tokens `ens_tokenize`'s loop emits from position `i` on. */
  function TokensFrom(ins: CodePointsInspector, chars: string, i: nat): seq<EnsNameToken>
    requires i <= |chars|
    decreases |chars| - i
  {
    if i == |chars| then []
    else
      var step := StepAt(ins, chars, i);
      [step.0] + TokensFrom(ins, chars, step.1)
  }

  /** The loop reads every character exactly once. */
  lemma {:induction false} TokensFromConsume(ins: CodePointsInspector, chars: string, i: nat)
    requires i <= |chars|
    ensures Tokenize.SourceCpsOf(TokensFrom(ins, chars, i)) == Str2Cps(chars[i..])
    decreases |chars| - i
  {
    if i < |chars| {
      var step := StepAt(ins, chars, i);
      var rest := TokensFrom(ins, chars, step.1);
      assert TokensFrom(ins, chars, i) == [step.0] + rest;
      Tokenize.SourceCpsOfCons(step.0, rest);
      TokensFromConsume(ins, chars, step.1);
      SuffixSplit(chars, i, step.1);
      Str2CpsAppend(chars[i..step.1], chars[step.1..]);
    }
  }

  /** `ens_tokenize`'s result. */
  function EnsTokenized(ins: CodePointsInspector, chars: string, normalize: bool): seq<EnsNameToken>
  {
    var raw := TokensFrom(ins, chars, 0);
    Collapsed(if normalize then NfcTransform(ins.nfcCheck, ins.nfc, raw) else raw)
  }

  /** The body of the loop of `ens_tokenize`. */
  method NextToken(ins: CodePointsInspector, chars: string, i: nat) returns (token: EnsNameToken, next: nat)
    requires i < |chars|
    ensures (token, next) == StepAt(ins, chars, i)
  {
    var maybeEmoji := MaybeStartsWithEmoji(ins, chars[i..]);
    if maybeEmoji.Some? {
      var emoji := maybeEmoji.value;
      token := EnsNameToken.Emoji(emoji);
      next := i + |emoji.input|;
    } else {
      token := ProcessOneCp(ins, chars[i] as int);
      next := i + 1;
    }
  }

  /** `Tokenizer::ens_tokenize`. */
  method EnsTokenize(ins: CodePointsInspector, chars: string, normalize: bool) returns (tokens: seq<EnsNameToken>)
    ensures tokens == EnsTokenized(ins, chars, normalize)
  {
    tokens := [];
    var i: nat := 0;
    while i < |chars|
      invariant i <= |chars|
      invariant tokens + TokensFrom(ins, chars, i) == TokensFrom(ins, chars, 0)
      decreases |chars| - i
    {
      var token, next := NextToken(ins, chars, i);
      assert TokensFrom(ins, chars, i) == [token] + TokensFrom(ins, chars, next);
      tokens := tokens + [token];
      i := next;
    }
    assert tokens + [] == tokens;
    if normalize {
      tokens := PerformNfcTransform(ins.nfcCheck, ins.nfc, tokens);
    }
    tokens := CollapseValidTokens(tokens);
  }

  /** Without normalisation the tokens' source code points give back the input. */
  lemma EnsTokenizeKeepsInput(ins: CodePointsInspector, chars: string)
    ensures Tokenize.SourceCpsOf(EnsTokenized(ins, chars, false)) == Str2Cps(chars)
  {
    Tokenize.CollapsedKeepsSource(TokensFrom(ins, chars, 0));
    TokensFromConsume(ins, chars, 0);
    assert chars[0..] == chars;
  }
}
