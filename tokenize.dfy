/**
 * `tokenize_name` and `tokenize_input` of src/tokens/tokenize.rs: cutting
 * the input into tokens, one per character or one per emoji match, then
 * the optional NFC rewrite and the merging of adjacent Valid tokens.
 *
 * Positions are counted in characters. The source's cursor counts UTF-8
 * bytes and the regular expression reports byte offsets; both sides of
 * every comparison use the same unit, so the model uses characters
 * throughout.
 */
module Tokenize {
  import opened Wrappers
  import opened Utils
  import opened Seqs
  import opened Constants
  import opened TokenTypes
  import opened Specs
  import opened Labels
  import opened NfcRewrite
  import opened CollapseValid

  /**
   * `process_one_cp`: FULL STOP first, then a valid code point, then an
   * ignored one, then a mapped one; anything else is disallowed.
   */
  function ProcessOneCp(specs: CodePointsSpecs, cp: CodePoint): (t: EnsNameToken)
    ensures cp == CP_STOP ==> t == Stop(cp)
    ensures cp != CP_STOP && cp in specs.valid ==> t == Valid([cp])
    ensures cp != CP_STOP && cp !in specs.valid && cp in specs.ignored ==> t == Ignored(cp)
    ensures cp != CP_STOP && cp !in specs.valid && cp !in specs.ignored && cp in specs.mapped ==>
      t == Mapped(cp, specs.mapped[cp])
    ensures cp != CP_STOP && cp !in specs.valid && cp !in specs.ignored && cp !in specs.mapped ==>
      t == Disallowed(cp)
  {
    if IsStop(specs, cp) then Stop(cp)
    else if IsValid(specs, cp) then Valid([cp])
    else if Specs.IsIgnored(specs, cp) then Ignored(cp)
    else match MaybeNormalize(specs, cp)
      case Some(normalized) => Mapped(cp, normalized)
      case None => Disallowed(cp)
  }

  /** The code points of the input a token was read from. */
  function SourceCps(t: EnsNameToken): seq<CodePoint>
  {
    match t
    case Valid(cps) => cps
    case Mapped(cp, _) => [cp]
    case Ignored(cp) => [cp]
    case Disallowed(cp) => [cp]
    case Stop(cp) => [cp]
    case Nfc(input, _) => input
    case Emoji(e) => e.input
  }

  function SourceCpsOf(ts: seq<EnsNameToken>): seq<CodePoint>
    decreases |ts|
  {
    if |ts| == 0 then [] else SourceCps(ts[0]) + SourceCpsOf(ts[1..])
  }

  lemma {:induction false} SourceCpsOfAppend(a: seq<EnsNameToken>, b: seq<EnsNameToken>)
    ensures SourceCpsOf(a + b) == SourceCpsOf(a) + SourceCpsOf(b)
    decreases |a|
  {
    if |a| == 0 {
      assert a + b == b;
    } else {
      assert (a + b)[1..] == a[1..] + b;
      SourceCpsOfAppend(a[1..], b);
    }
  }

  lemma SourceCpsOfCons(t: EnsNameToken, rest: seq<EnsNameToken>)
    ensures SourceCpsOf([t] + rest) == SourceCps(t) + SourceCpsOf(rest)
  {
    assert ([t] + rest)[1..] == rest;
  }

  /** Every classified token remembers the one code point it was made from. */
  lemma ProcessOneCpSource(specs: CodePointsSpecs, cp: CodePoint)
    ensures SourceCps(ProcessOneCp(specs, cp)) == [cp]
    ensures !ProcessOneCp(specs, cp).Nfc? && !ProcessOneCp(specs, cp).Emoji?
  {
  }

  // ---- Emoji at the cursor ----

  /**
   * A match the tokenizer can use: it is not empty, lies inside the input,
   * and its FE0F-free form is in the pretty table (the source expects the
   * lookup to succeed).
   */
  predicate MatchWellFormed(specs: CodePointsSpecs, input: string, m: EmojiMatch)
  {
    m.start < m.end <= |input| && FilterFe0f(Str2Cps(input[m.start..m.end])) in specs.emojiNoFe0fToPretty
  }

  predicate MatchesWellFormed(specs: CodePointsSpecs, input: string, ms: seq<EmojiMatch>)
  {
    forall k :: 0 <= k < |ms| ==> MatchWellFormed(specs, input, ms[k])
  }

  /** Index of the first match that starts at `i`, or `|ms|`. */
  function FirstStartingAt(ms: seq<EmojiMatch>, i: nat): (k: nat)
    ensures k <= |ms|
    ensures forall j :: 0 <= j < k ==> ms[j].start != i
    ensures k < |ms| ==> ms[k].start == i
    decreases |ms|
  {
    if |ms| == 0 then 0
    else if ms[0].start == i then 0
    else 1 + FirstStartingAt(ms[1..], i)
  }

  /** The emoji token a match stands for. */
  function EmojiAt(specs: CodePointsSpecs, input: string, m: EmojiMatch): (e: TokenEmoji)
    requires MatchWellFormed(specs, input, m)
    ensures e.input == Str2Cps(input[m.start..m.end]) && |e.input| == m.end - m.start
    ensures e.cps == FilterFe0f(e.input) && e.emoji == specs.emojiNoFe0fToPretty[e.cps]
  {
    var inputCps := Str2Cps(input[m.start..m.end]);
    var noFe0f := FilterFe0f(inputCps);
    TokenEmoji(inputCps, CpsEmojiNoFe0fToPretty(specs, noFe0f).value, noFe0f)
  }

  /** The emoji of a match at `i` spells the input from `i` on. */
  lemma EmojiAtStart(specs: CodePointsSpecs, input: string, m: EmojiMatch, i: nat)
    requires MatchWellFormed(specs, input, m) && m.start == i
    ensures i < i + |EmojiAt(specs, input, m).input| == m.end <= |input|
    ensures EmojiAt(specs, input, m).input == Str2Cps(input[i..i + |EmojiAt(specs, input, m).input|])
  {
  }

  /**
   * `maybe_starts_with_emoji` of tokenize.rs: the first match that starts at
   * the cursor, as an emoji token.
   */
  function MaybeStartsWithEmoji(specs: CodePointsSpecs, i: nat, input: string, ms: seq<EmojiMatch>): (r: Option<TokenEmoji>)
    requires MatchesWellFormed(specs, input, ms)
    ensures r.Some? <==> exists k :: 0 <= k < |ms| && ms[k].start == i
    ensures r.Some? ==> FirstStartingAt(ms, i) < |ms| && ms[FirstStartingAt(ms, i)].end == i + |r.value.input|
    ensures r.Some? ==> i < i + |r.value.input| <= |input|
    ensures r.Some? ==> r.value.input == Str2Cps(input[i..i + |r.value.input|])
    ensures r.Some? ==> r.value.cps == FilterFe0f(r.value.input) && r.value.emoji == specs.emojiNoFe0fToPretty[r.value.cps]
  {
    var k := FirstStartingAt(ms, i);
    if k == |ms| then None
    else
      EmojiAtStart(specs, input, ms[k], i);
      Some(EmojiAt(specs, input, ms[k]))
  }

  // ---- The cursor loop ----

  /**
   * One step of the cursor loop at `cur`: the emoji that starts there, or
   * else the token of the character there, with the position after it.
   */
  function StepAt(specs: CodePointsSpecs, input: string, ms: seq<EmojiMatch>, cur: nat): (r: (EnsNameToken, nat))
    requires MatchesWellFormed(specs, input, ms)
    requires cur < |input|
    ensures cur < r.1 <= |input|
    ensures SourceCps(r.0) == Str2Cps(input[cur..r.1])
    ensures !r.0.Nfc? && (r.0.Stop? ==> r.0 == Stop(CP_STOP))
  {
    match MaybeStartsWithEmoji(specs, cur, input, ms)
    case Some(e) => (EnsNameToken.Emoji(e), cur + |e.input|)
    case None =>
      var cp: CodePoint := input[cur] as int;
      ProcessOneCpSource(specs, cp);
      assert Str2Cps(input[cur..cur + 1]) == [cp];
      (ProcessOneCp(specs, cp), cur + 1)
  }

  /** The tokens the cursor loop emits from position `cur` on. */
  function InputTokensFrom(specs: CodePointsSpecs, input: string, ms: seq<EmojiMatch>, cur: nat): seq<EnsNameToken>
    requires MatchesWellFormed(specs, input, ms)
    requires cur <= |input|
    decreases |input| - cur
  {
    if cur == |input| then []
    else
      var step := StepAt(specs, input, ms, cur);
      [step.0] + InputTokensFrom(specs, input, ms, step.1)
  }

  /** One step of the loop: the token at the cursor, then the tokens after it. */
  lemma InputTokensStep(specs: CodePointsSpecs, input: string, ms: seq<EmojiMatch>, cur: nat)
    requires MatchesWellFormed(specs, input, ms)
    requires cur < |input|
    ensures InputTokensFrom(specs, input, ms, cur) ==
      [StepAt(specs, input, ms, cur).0] + InputTokensFrom(specs, input, ms, StepAt(specs, input, ms, cur).1)
  {
  }

  /** One unfolding of the loop: the first token's source, then the rest's. */
  lemma InputTokensUnfold(specs: CodePointsSpecs, input: string, ms: seq<EmojiMatch>, cur: nat)
    requires MatchesWellFormed(specs, input, ms)
    requires cur < |input|
    ensures SourceCpsOf(InputTokensFrom(specs, input, ms, cur)) ==
      SourceCps(StepAt(specs, input, ms, cur).0) + SourceCpsOf(InputTokensFrom(specs, input, ms, StepAt(specs, input, ms, cur).1))
  {
    var step := StepAt(specs, input, ms, cur);
    var rest := InputTokensFrom(specs, input, ms, step.1);
    assert ([step.0] + rest)[1..] == rest;
  }

  /** The loop consumes the whole input: the tokens' source code points are the input's, in order. */
  lemma {:induction false} InputTokensConsume(specs: CodePointsSpecs, input: string, ms: seq<EmojiMatch>, cur: nat)
    requires MatchesWellFormed(specs, input, ms)
    requires cur <= |input|
    ensures SourceCpsOf(InputTokensFrom(specs, input, ms, cur)) == Str2Cps(input[cur..])
    decreases |input| - cur
  {
    if cur < |input| {
      var step := StepAt(specs, input, ms, cur);
      InputTokensUnfold(specs, input, ms, cur);
      InputTokensConsume(specs, input, ms, step.1);
      SuffixSplit(input, cur, step.1);
      Str2CpsAppend(input[cur..step.1], input[step.1..]);
    }
  }

  /** The loop makes no Nfc token, and each Stop token it makes is FULL STOP. */
  lemma {:induction false} InputTokensKinds(specs: CodePointsSpecs, input: string, ms: seq<EmojiMatch>, cur: nat)
    requires MatchesWellFormed(specs, input, ms)
    requires cur <= |input|
    ensures RawKinds(InputTokensFrom(specs, input, ms, cur))
    decreases |input| - cur
  {
    if cur < |input| {
      var step := StepAt(specs, input, ms, cur);
      var rest := InputTokensFrom(specs, input, ms, step.1);
      InputTokensKinds(specs, input, ms, step.1);
      assert forall k :: 1 <= k < |[step.0] + rest| ==> ([step.0] + rest)[k] == rest[k - 1];
    }
  }

  /** No Nfc token, and every Stop token is FULL STOP. */
  predicate RawKinds(ts: seq<EnsNameToken>)
  {
    forall k :: 0 <= k < |ts| ==> !ts[k].Nfc? && (ts[k].Stop? ==> ts[k] == Stop(CP_STOP))
  }

  /** `tokenize_input`: the cursor loop, the optional NFC rewrite, then the merge of Valid runs. */
  function TokenizedInput(specs: CodePointsSpecs, input: string, applyNfc: bool): seq<EnsNameToken>
    requires MatchesWellFormed(specs, input, FindEmoji(specs, input))
  {
    var raw := InputTokensFrom(specs, input, FindEmoji(specs, input), 0);
    Collapsed(if applyNfc then NfcTransform(specs.nfcCheck, specs.nfc, raw) else raw)
  }

  /** The body of the cursor loop: an emoji at the cursor, or else the token of one character. */
  method NextToken(specs: CodePointsSpecs, input: string, emojis: seq<EmojiMatch>, inputCur: nat) returns (token: EnsNameToken, next: nat)
    requires MatchesWellFormed(specs, input, emojis)
    requires inputCur < |input|
    ensures (token, next) == StepAt(specs, input, emojis, inputCur)
  {
    var maybeEmoji := MaybeStartsWithEmoji(specs, inputCur, input, emojis);
    if maybeEmoji.Some? {
      var emoji := maybeEmoji.value;
      token := EnsNameToken.Emoji(emoji);
      next := inputCur + |emoji.input|;
    } else {
      var cp: CodePoint := input[inputCur] as int;
      token := ProcessOneCp(specs, cp);
      next := inputCur + 1;
    }
  }

  /** The cursor loop of `tokenize_input`. */
  method EmitTokens(specs: CodePointsSpecs, input: string, emojis: seq<EmojiMatch>) returns (tokens: seq<EnsNameToken>)
    requires MatchesWellFormed(specs, input, emojis)
    ensures tokens == InputTokensFrom(specs, input, emojis, 0)
  {
    tokens := [];
    var inputCur: nat := 0;
    while inputCur < |input|
      invariant inputCur <= |input|
      invariant tokens + InputTokensFrom(specs, input, emojis, inputCur) == InputTokensFrom(specs, input, emojis, 0)
      decreases |input| - inputCur
    {
      var token, next := NextToken(specs, input, emojis, inputCur);
      InputTokensStep(specs, input, emojis, inputCur);
      assert tokens + [token] + InputTokensFrom(specs, input, emojis, next) == InputTokensFrom(specs, input, emojis, 0) by {
        assert tokens + [token] + InputTokensFrom(specs, input, emojis, next) ==
          tokens + ([token] + InputTokensFrom(specs, input, emojis, next));
      }
      tokens := tokens + [token];
      inputCur := next;
    }
    assert tokens + [] == tokens;
  }

  method TokenizeInput(specs: CodePointsSpecs, input: string, applyNfc: bool) returns (tokens: seq<EnsNameToken>)
    requires MatchesWellFormed(specs, input, FindEmoji(specs, input))
    ensures tokens == TokenizedInput(specs, input, applyNfc)
  {
    var emojis := FindEmoji(specs, input);
    tokens := EmitTokens(specs, input, emojis);
    if applyNfc {
      tokens := PerformNfcTransform(specs.nfcCheck, specs.nfc, tokens);
    }
    tokens := CollapseValidTokens(tokens);
  }

  /** What `tokenize_name` returns: the empty name has no tokens. */
  function TokenizedNameOf(specs: CodePointsSpecs, name: string, applyNfc: bool): (r: TokenizedName)
    requires |name| > 0 ==> MatchesWellFormed(specs, name, FindEmoji(specs, name))
  {
    if |name| == 0 then TokenizedName("", []) else TokenizedName(name, TokenizedInput(specs, name, applyNfc))
  }

  /** `tokenize_name`. */
  method TokenizeName(specs: CodePointsSpecs, name: string, applyNfc: bool) returns (r: TokenizedName)
    requires |name| > 0 ==> MatchesWellFormed(specs, name, FindEmoji(specs, name))
    ensures r == TokenizedNameOf(specs, name, applyNfc)
  {
    if |name| == 0 {
      return TokenizedName("", []);
    }
    var tokens := TokenizeInput(specs, name, applyNfc);
    r := TokenizedName(name, tokens);
  }

  // ---- Properties of the tokenizer ----

  /**
   * A tokenized name keeps its input; the empty name has no tokens, and
   * without NFC the tokens' source code points spell the name back.
   */
  lemma TokenizeNameKeepsInput(specs: CodePointsSpecs, name: string)
    requires |name| > 0 ==> MatchesWellFormed(specs, name, FindEmoji(specs, name))
    ensures TokenizedNameOf(specs, name, false).input == name
    ensures |name| == 0 ==> TokenizedNameOf(specs, name, false).tokens == []
    ensures SourceCpsOf(TokenizedNameOf(specs, name, false).tokens) == Str2Cps(name)
  {
    if |name| > 0 {
      TokenizeWithoutNfcKeepsInput(specs, name);
    }
  }

  /** Merging Valid runs keeps the source code points. */
  lemma {:induction false} CollapsedKeepsSource(ts: seq<EnsNameToken>)
    ensures SourceCpsOf(Collapsed(ts)) == SourceCpsOf(ts)
    decreases |ts|
  {
    if |ts| > 0 {
      var k := if ts[0].Valid? then ValidRun(ts) else 1;
      CollapsedKeepsSource(ts[k..]);
      assert ts == ts[..k] + ts[k..];
      SourceCpsOfAppend(ts[..k], ts[k..]);
      assert Collapsed(ts) == [Collapsed(ts)[0]] + Collapsed(ts[k..]);
      SourceCpsOfAppend([Collapsed(ts)[0]], Collapsed(ts[k..]));
      assert [Collapsed(ts)[0]][1..] == [];
      if ts[0].Valid? {
        ValidSource(ts[..k]);
      } else {
        assert ts[..k] == [ts[0]];
      }
    }
  }

  lemma {:induction false} ValidSource(ts: seq<EnsNameToken>)
    requires forall i :: 0 <= i < |ts| ==> ts[i].Valid?
    ensures SourceCpsOf(ts) == TokensCps(ts)
    decreases |ts|
  {
    if |ts| > 0 {
      ValidSource(ts[1..]);
    }
  }

  /**
   * Without NFC the tokens account for the whole input: reading their
   * source code points in order gives the input back.
   */
  lemma TokenizeWithoutNfcKeepsInput(specs: CodePointsSpecs, input: string)
    requires MatchesWellFormed(specs, input, FindEmoji(specs, input))
    ensures SourceCpsOf(TokenizedInput(specs, input, false)) == Str2Cps(input)
  {
    var raw := InputTokensFrom(specs, input, FindEmoji(specs, input), 0);
    CollapsedKeepsSource(raw);
    InputTokensConsume(specs, input, FindEmoji(specs, input), 0);
    assert input[0..] == input;
  }

  /** Without NFC no token is an Nfc token. */
  lemma TokenizeWithoutNfcHasNoNfc(specs: CodePointsSpecs, input: string)
    requires MatchesWellFormed(specs, input, FindEmoji(specs, input))
    ensures forall k :: 0 <= k < |TokenizedInput(specs, input, false)| ==> !TokenizedInput(specs, input, false)[k].Nfc?
  {
    var raw := InputTokensFrom(specs, input, FindEmoji(specs, input), 0);
    var out := TokenizedInput(specs, input, false);
    InputTokensKinds(specs, input, FindEmoji(specs, input), 0);
    CollapsedKeepsOthers(raw);
    FilterMembers(out, NotValid);
    FilterMembers(raw, NotValid);
    forall k | 0 <= k < |out|
      ensures !out[k].Nfc?
    {
      if NotValid(out[k]) {
        assert out[k] in Filter(raw, NotValid);
      }
    }
  }

  /**
   * Disallowed, Stop and Emoji tokens come out as the cursor loop made
   * them, in order, with or without NFC.
   */
  lemma TokenizeKeepsUntouched(specs: CodePointsSpecs, input: string, applyNfc: bool)
    requires MatchesWellFormed(specs, input, FindEmoji(specs, input))
    ensures Filter(TokenizedInput(specs, input, applyNfc), Untouched) ==
      Filter(InputTokensFrom(specs, input, FindEmoji(specs, input), 0), Untouched)
  {
    var raw := InputTokensFrom(specs, input, FindEmoji(specs, input), 0);
    var mid := if applyNfc then NfcTransform(specs.nfcCheck, specs.nfc, raw) else raw;
    if applyNfc {
      NfcTransformKeeps(specs.nfcCheck, specs.nfc, raw);
    }
    CollapsedKeepsOthers(mid);
    FilterNarrower(Collapsed(mid), NotValid, Untouched);
    FilterNarrower(mid, NotValid, Untouched);
  }

  /** Every Stop token of a tokenized input is FULL STOP, so its labels join back with it. */
  lemma TokenizeStops(specs: CodePointsSpecs, input: string, applyNfc: bool)
    requires MatchesWellFormed(specs, input, FindEmoji(specs, input))
    ensures forall k :: 0 <= k < |TokenizedInput(specs, input, applyNfc)| && TokenizedInput(specs, input, applyNfc)[k].Stop? ==>
      TokenizedInput(specs, input, applyNfc)[k] == Stop(CP_STOP)
  {
    var raw := InputTokensFrom(specs, input, FindEmoji(specs, input), 0);
    var out := TokenizedInput(specs, input, applyNfc);
    InputTokensKinds(specs, input, FindEmoji(specs, input), 0);
    TokenizeKeepsUntouched(specs, input, applyNfc);
    FilterMembers(out, Untouched);
    FilterMembers(raw, Untouched);
    forall k | 0 <= k < |out| && out[k].Stop?
      ensures out[k] == Stop(CP_STOP)
    {
      assert out[k] in Filter(raw, Untouched);
      assert out[k] in raw;
    }
  }
}
