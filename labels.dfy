/**
 * Tokenized names and labels (`TokenizedName` and `TokenizedLabel` in
 * src/tokens/tokenize.rs): splitting a name into labels at Stop tokens and
 * the per-label views the validator works on.
 */
module Labels {
  import opened Utils
  import opened Seqs
  import opened Constants
  import opened TokenTypes

  /** A whole name: the input and its tokens. */
  datatype TokenizedName = TokenizedName(input: string, tokens: seq<EnsNameToken>)

  /** One label: the tokens between two Stop tokens. */
  datatype TokenizedLabel = TokenizedLabel(tokens: seq<EnsNameToken>)

  predicate IsStopToken(t: EnsNameToken)
  {
    t.Stop?
  }

  /** `iter_labels`: the name's tokens split at every Stop token; even the empty name has one label. */
  function IterLabels(name: TokenizedName): (labels: seq<TokenizedLabel>)
    ensures |labels| >= 1
  {
    var parts := SplitWhere(name.tokens, IsStopToken);
    seq(|parts|, i requires 0 <= i < |parts| => TokenizedLabel(parts[i]))
  }

  function LabelTokens(labels: seq<TokenizedLabel>): seq<seq<EnsNameToken>>
  {
    seq(|labels|, i requires 0 <= i < |labels| => labels[i].tokens)
  }

  lemma IterLabelsParts(name: TokenizedName)
    ensures LabelTokens(IterLabels(name)) == SplitWhere(name.tokens, IsStopToken)
  {
  }

  /** There is one more label than there are Stop tokens. */
  lemma IterLabelsCount(name: TokenizedName)
    ensures |IterLabels(name)| == Count(name.tokens, IsStopToken) + 1
  {
    SplitWhereCount(name.tokens, IsStopToken);
  }

  /** No label holds a Stop token. */
  lemma IterLabelsNoStop(name: TokenizedName)
    ensures forall i, k :: 0 <= i < |IterLabels(name)| && 0 <= k < |IterLabels(name)[i].tokens| ==>
      !IterLabels(name)[i].tokens[k].Stop?
  {
    var parts := SplitWhere(name.tokens, IsStopToken);
    SplitWhereParts(name.tokens, IsStopToken);
    forall i, k | 0 <= i < |IterLabels(name)| && 0 <= k < |IterLabels(name)[i].tokens|
      ensures !IterLabels(name)[i].tokens[k].Stop?
    {
      assert IterLabels(name)[i].tokens == parts[i];
      assert NoneOf(parts[i], IsStopToken);
      assert !IsStopToken(parts[i][k]);
    }
  }

  /** When every Stop token is FULL STOP, joining the labels with it gives the name's tokens back. */
  lemma IterLabelsJoin(name: TokenizedName)
    requires forall i :: 0 <= i < |name.tokens| && name.tokens[i].Stop? ==> name.tokens[i] == Stop(CP_STOP)
    ensures Intersperse(LabelTokens(IterLabels(name)), Stop(CP_STOP)) == name.tokens
  {
    IterLabelsParts(name);
    IntersperseSplit(name.tokens, IsStopToken, Stop(CP_STOP));
  }

  /** The code points of each part, in order. */
  function PartsCps(parts: seq<seq<EnsNameToken>>): (r: seq<seq<CodePoint>>)
    ensures |r| == |parts|
    decreases |parts|
  {
    if |parts| == 0 then [] else [TokensCps(parts[0])] + PartsCps(parts[1..])
  }

  /** Stop tokens carry no code points, so splitting at them loses none. */
  lemma {:induction false} SplitCps(s: seq<EnsNameToken>)
    ensures Flatten(PartsCps(SplitWhere(s, IsStopToken))) == TokensCps(s)
    decreases |s|
  {
    var k := FirstWhere(s, IsStopToken);
    if k == |s| {
      assert s[..k] == s;
      assert PartsCps([s]) == [TokensCps(s)] + PartsCps([]);
      FlattenCons(TokensCps(s), []);
    } else {
      var pre, post := s[..k], s[k + 1..];
      var rest := SplitWhere(post, IsStopToken);
      assert SplitWhere(s, IsStopToken) == [pre] + rest;
      calc {
        Flatten(PartsCps([pre] + rest));
        { assert ([pre] + rest)[1..] == rest; }
        Flatten([TokensCps(pre)] + PartsCps(rest));
        { FlattenCons(TokensCps(pre), PartsCps(rest)); }
        TokensCps(pre) + Flatten(PartsCps(rest));
        { SplitCps(post); }
        TokensCps(pre) + TokensCps(post);
        { TokensCpsAroundStop(s, k); }
        TokensCps(s);
      }
    }
  }

  lemma TokensCpsAroundStop(s: seq<EnsNameToken>, k: nat)
    requires k < |s| && s[k].Stop?
    ensures TokensCps(s) == TokensCps(s[..k]) + TokensCps(s[k + 1..])
  {
    assert s == s[..k] + s[k..];
    TokensCpsAppend(s[..k], s[k..]);
    assert s[k..][0] == s[k] && s[k..][1..] == s[k + 1..];
    assert TokensCps(s[k..]) == TokensCps(s[k + 1..]);
  }

  /** The code points of the tokens, with FULL STOP for every Stop token. */
  function StoppedCps(ts: seq<EnsNameToken>): seq<CodePoint>
    decreases |ts|
  {
    if |ts| == 0 then [] else (if ts[0].Stop? then [CP_STOP] else Cps(ts[0])) + StoppedCps(ts[1..])
  }

  lemma {:induction false} StoppedCpsAppend(a: seq<EnsNameToken>, b: seq<EnsNameToken>)
    ensures StoppedCps(a + b) == StoppedCps(a) + StoppedCps(b)
    decreases |a|
  {
    if |a| == 0 {
      assert a + b == b;
    } else {
      assert (a + b)[1..] == a[1..] + b;
      StoppedCpsAppend(a[1..], b);
    }
  }

  lemma {:induction false} StoppedCpsNoStop(ts: seq<EnsNameToken>)
    requires NoneOf(ts, IsStopToken)
    ensures StoppedCps(ts) == TokensCps(ts)
    decreases |ts|
  {
    if |ts| > 0 {
      assert NoneOf(ts[1..], IsStopToken) by {
        assert forall i :: 0 <= i < |ts| - 1 ==> ts[1..][i] == ts[i + 1];
      }
      StoppedCpsNoStop(ts[1..]);
    }
  }

  /**
   * Joining the labels' code points with FULL STOP gives the name's code
   * points with FULL STOP where the Stop tokens were.
   */
  lemma {:induction false} SplitStoppedCps(s: seq<EnsNameToken>)
    ensures Intersperse(PartsCps(SplitWhere(s, IsStopToken)), CP_STOP) == StoppedCps(s)
    decreases |s|
  {
    var k := FirstWhere(s, IsStopToken);
    if k == |s| {
      assert s[..k] == s;
      StoppedCpsNoStop(s);
      assert PartsCps([s]) == [TokensCps(s)] + PartsCps([]);
    } else {
      var pre, post := s[..k], s[k + 1..];
      var rest := SplitWhere(post, IsStopToken);
      calc {
        Intersperse(PartsCps(SplitWhere(s, IsStopToken)), CP_STOP);
        { assert SplitWhere(s, IsStopToken) == [pre] + rest;
          assert ([pre] + rest)[1..] == rest; }
        Intersperse([TokensCps(pre)] + PartsCps(rest), CP_STOP);
        { IntersperseCons(TokensCps(pre), PartsCps(rest), CP_STOP); }
        TokensCps(pre) + [CP_STOP] + Intersperse(PartsCps(rest), CP_STOP);
        { SplitStoppedCps(post); StoppedCpsNoStop(pre); }
        StoppedCps(pre) + [CP_STOP] + StoppedCps(post);
        { StoppedAroundStop(s, k); }
        StoppedCps(s);
      }
    }
  }

  lemma StoppedAroundStop(s: seq<EnsNameToken>, k: nat)
    requires k < |s| && s[k].Stop?
    ensures StoppedCps(s) == StoppedCps(s[..k]) + [CP_STOP] + StoppedCps(s[k + 1..])
  {
    assert s == s[..k] + s[k..];
    StoppedCpsAppend(s[..k], s[k..]);
    assert s[k..][0] == s[k] && s[k..][1..] == s[k + 1..];
    assert StoppedCps(s[k..]) == [CP_STOP] + StoppedCps(s[k + 1..]);
  }

  /** `iter_cps`: the code points of all tokens of a label. */
  function IterCps(lab: TokenizedLabel): seq<CodePoint>
  {
    TokensCps(lab.tokens)
  }

  /** The labels' code points, concatenated, are the name's code points. */
  lemma LabelsCpsCover(name: TokenizedName)
    ensures Flatten(seq(|IterLabels(name)|, i requires 0 <= i < |IterLabels(name)| => IterCps(IterLabels(name)[i])))
      == TokensCps(name.tokens)
  {
    var parts := SplitWhere(name.tokens, IsStopToken);
    var cpsOf := seq(|IterLabels(name)|, i requires 0 <= i < |IterLabels(name)| => IterCps(IterLabels(name)[i]));
    PartsCpsIndex(parts);
    assert cpsOf == PartsCps(parts);
    SplitCps(name.tokens);
  }

  lemma {:induction false} PartsCpsIndex(parts: seq<seq<EnsNameToken>>)
    ensures forall i :: 0 <= i < |parts| ==> PartsCps(parts)[i] == TokensCps(parts[i])
    decreases |parts|
  {
    if |parts| > 0 {
      PartsCpsIndex(parts[1..]);
      assert forall i :: 1 <= i < |parts| ==> PartsCps(parts)[i] == PartsCps(parts[1..])[i - 1];
    }
  }

  /** `is_fully_emoji`. */
  predicate IsFullyEmoji(lab: TokenizedLabel)
  {
    forall i :: 0 <= i < |lab.tokens| ==> lab.tokens[i].Emoji?
  }

  /** A label is fully emoji exactly when every one of its tokens counts as an emoji. */
  lemma {:induction false} FullyEmojiCount(ts: seq<EnsNameToken>)
    ensures IsFullyEmoji(TokenizedLabel(ts)) <==> Count(ts, IsEmoji) == |ts|
    decreases |ts|
  {
    if |ts| > 0 {
      FullyEmojiCount(ts[1..]);
      assert forall i :: 1 <= i < |ts| ==> ts[i] == ts[1..][i - 1];
    }
  }

  predicate AllAscii(cps: seq<CodePoint>)
  {
    forall k :: 0 <= k < |cps| ==> IsAscii(cps[k])
  }

  /** `is_fully_ascii`: every code point of every token is ASCII. */
  predicate IsFullyAscii(lab: TokenizedLabel)
  {
    forall i :: 0 <= i < |lab.tokens| ==> AllAscii(Cps(lab.tokens[i]))
  }

  lemma AllAsciiAppend(a: seq<CodePoint>, b: seq<CodePoint>)
    ensures AllAscii(a + b) <==> AllAscii(a) && AllAscii(b)
  {
    assert forall k :: 0 <= k < |a| ==> (a + b)[k] == a[k];
    assert forall k :: 0 <= k < |b| ==> (a + b)[|a| + k] == b[k];
  }

  /** Checking token by token is checking the label's code points. */
  lemma {:induction false} FullyAsciiCps(ts: seq<EnsNameToken>)
    ensures IsFullyAscii(TokenizedLabel(ts)) <==> AllAscii(IterCps(TokenizedLabel(ts)))
    decreases |ts|
  {
    if |ts| > 0 {
      FullyAsciiCps(ts[1..]);
      AllAsciiAppend(Cps(ts[0]), TokensCps(ts[1..]));
      assert forall i :: 1 <= i < |ts| ==> ts[i] == ts[1..][i - 1];
      assert IsFullyAscii(TokenizedLabel(ts)) <==>
        AllAscii(Cps(ts[0])) && IsFullyAscii(TokenizedLabel(ts[1..]));
    }
  }

  // ---- Collapsing a label into text and emoji ----

  /** Tokens whose code points are text: Valid, Mapped and Nfc. */
  predicate IsTextToken(t: EnsNameToken)
  {
    t.Valid? || t.Mapped? || t.Nfc?
  }

  /**
   * The collapse with `cur` the text gathered so far: text tokens add their
   * code points to it, an emoji closes it (when it is not empty) and is
   * emitted itself, every other token is dropped.
   */
  function CollapseText(ts: seq<EnsNameToken>, cur: seq<CodePoint>): seq<CollapsedEnsNameToken>
    decreases |ts|
  {
    if |ts| == 0 then (if cur == [] then [] else [Text(cur)])
    else if IsTextToken(ts[0]) then CollapseText(ts[1..], cur + Cps(ts[0]))
    else if ts[0].Emoji? then
      (if cur == [] then [] else [Text(cur)]) + [CollapsedEnsNameToken.Emoji(ts[0].token)] + CollapseText(ts[1..], [])
    else CollapseText(ts[1..], cur)
  }

  /** `collapse_into_text_or_emoji`. */
  method CollapseIntoTextOrEmoji(lab: TokenizedLabel) returns (collapsed: seq<CollapsedEnsNameToken>)
    ensures collapsed == CollapseText(lab.tokens, [])
  {
    var ts := lab.tokens;
    var current: seq<CodePoint> := [];
    collapsed := [];
    for i := 0 to |ts|
      invariant collapsed + CollapseText(ts[i..], current) == CollapseText(ts, [])
    {
      assert ts[i..][0] == ts[i] && ts[i..][1..] == ts[i + 1..];
      match ts[i]
      case Valid(_) => current := current + Cps(ts[i]);
      case Mapped(_, _) => current := current + Cps(ts[i]);
      case Nfc(_, _) => current := current + Cps(ts[i]);
      case Emoji(e) =>
        if current != [] {
          collapsed := collapsed + [Text(current)];
          current := [];
        }
        collapsed := collapsed + [CollapsedEnsNameToken.Emoji(e)];
      case _ =>
    }
    assert ts[|ts|..] == [];
    if current != [] {
      collapsed := collapsed + [Text(current)];
    }
  }

  predicate NoEmptyText(r: seq<CollapsedEnsNameToken>)
  {
    forall i :: 0 <= i < |r| && r[i].Text? ==> |r[i].cps| > 0
  }

  predicate NoAdjacentText(r: seq<CollapsedEnsNameToken>)
  {
    forall i :: 0 <= i < |r| - 1 ==> !(r[i].Text? && r[i + 1].Text?)
  }

  /** The collapse emits no empty Text token and never two Text tokens in a row. */
  lemma {:induction false} CollapseTextShape(ts: seq<EnsNameToken>, cur: seq<CodePoint>)
    ensures NoEmptyText(CollapseText(ts, cur))
    ensures NoAdjacentText(CollapseText(ts, cur))
    decreases |ts|
  {
    if |ts| > 0 {
      if IsTextToken(ts[0]) {
        CollapseTextShape(ts[1..], cur + Cps(ts[0]));
      } else if ts[0].Emoji? {
        CollapseTextShape(ts[1..], []);
        var pre := (if cur == [] then [] else [Text(cur)]) + [CollapsedEnsNameToken.Emoji(ts[0].token)];
        var rest := CollapseText(ts[1..], []);
        var r := pre + rest;
        assert CollapseText(ts, cur) == r;
        assert forall i :: |pre| <= i < |r| ==> r[i] == rest[i - |pre|];
        assert r[|pre| - 1].Emoji?;
      } else {
        CollapseTextShape(ts[1..], cur);
      }
    }
  }

  /** The code points of the Text tokens, in order. */
  function CollapsedTextCps(r: seq<CollapsedEnsNameToken>): seq<CodePoint>
    decreases |r|
  {
    if |r| == 0 then [] else (if r[0].Text? then r[0].cps else []) + CollapsedTextCps(r[1..])
  }

  lemma {:induction false} CollapsedTextCpsAppend(a: seq<CollapsedEnsNameToken>, b: seq<CollapsedEnsNameToken>)
    ensures CollapsedTextCps(a + b) == CollapsedTextCps(a) + CollapsedTextCps(b)
    decreases |a|
  {
    if |a| == 0 {
      assert a + b == b;
    } else {
      assert (a + b)[1..] == a[1..] + b;
      CollapsedTextCpsAppend(a[1..], b);
    }
  }

  /** The code points of the text tokens of a label, in order. */
  function TextCps(ts: seq<EnsNameToken>): seq<CodePoint>
    decreases |ts|
  {
    if |ts| == 0 then [] else (if IsTextToken(ts[0]) then Cps(ts[0]) else []) + TextCps(ts[1..])
  }

  /** The Text tokens of the collapse hold exactly the text code points, in order. */
  lemma {:induction false} CollapseTextCps(ts: seq<EnsNameToken>, cur: seq<CodePoint>)
    ensures CollapsedTextCps(CollapseText(ts, cur)) == cur + TextCps(ts)
    decreases |ts|
  {
    if |ts| == 0 {
      if cur != [] {
        assert CollapsedTextCps([Text(cur)]) == cur + CollapsedTextCps([]);
      }
    } else if IsTextToken(ts[0]) {
      CollapseTextCps(ts[1..], cur + Cps(ts[0]));
      assert TextCps(ts) == Cps(ts[0]) + TextCps(ts[1..]);
    } else if ts[0].Emoji? {
      var e := [CollapsedEnsNameToken.Emoji(ts[0].token)];
      var pre := (if cur == [] then [] else [Text(cur)]);
      var rest := CollapseText(ts[1..], []);
      assert CollapseText(ts, cur) == pre + e + rest;
      assert TextCps(ts) == TextCps(ts[1..]);
      calc {
        CollapsedTextCps(pre + e + rest);
        { CollapsedTextCpsAppend(pre + e, rest); CollapsedTextCpsAppend(pre, e); }
        CollapsedTextCps(pre) + CollapsedTextCps(e) + CollapsedTextCps(rest);
        { assert CollapsedTextCps(e) == [] + CollapsedTextCps([]);
          assert cur != [] ==> CollapsedTextCps(pre) == cur + CollapsedTextCps([]); }
        cur + CollapsedTextCps(rest);
        { CollapseTextCps(ts[1..], []); }
        cur + TextCps(ts[1..]);
      }
    } else {
      CollapseTextCps(ts[1..], cur);
      assert TextCps(ts) == TextCps(ts[1..]);
    }
  }

  /** The emoji of the collapse, in order. */
  function CollapsedEmojis(r: seq<CollapsedEnsNameToken>): seq<TokenEmoji>
    decreases |r|
  {
    if |r| == 0 then [] else (if r[0].Emoji? then [r[0].token] else []) + CollapsedEmojis(r[1..])
  }

  lemma {:induction false} CollapsedEmojisAppend(a: seq<CollapsedEnsNameToken>, b: seq<CollapsedEnsNameToken>)
    ensures CollapsedEmojis(a + b) == CollapsedEmojis(a) + CollapsedEmojis(b)
    decreases |a|
  {
    if |a| == 0 {
      assert a + b == b;
    } else {
      assert (a + b)[1..] == a[1..] + b;
      CollapsedEmojisAppend(a[1..], b);
    }
  }

  /** The emoji tokens of a label, in order. */
  function TokenEmojis(ts: seq<EnsNameToken>): seq<TokenEmoji>
    decreases |ts|
  {
    if |ts| == 0 then [] else (if ts[0].Emoji? then [ts[0].token] else []) + TokenEmojis(ts[1..])
  }

  /** The collapse keeps every emoji token, in order. */
  lemma {:induction false} CollapseTextEmojis(ts: seq<EnsNameToken>, cur: seq<CodePoint>)
    ensures CollapsedEmojis(CollapseText(ts, cur)) == TokenEmojis(ts)
    decreases |ts|
  {
    if |ts| == 0 {
      if cur != [] {
        assert CollapsedEmojis([Text(cur)]) == [] + CollapsedEmojis([]);
      }
    } else if IsTextToken(ts[0]) {
      CollapseTextEmojis(ts[1..], cur + Cps(ts[0]));
      assert CollapseText(ts, cur) == CollapseText(ts[1..], cur + Cps(ts[0]));
      assert TokenEmojis(ts) == [] + TokenEmojis(ts[1..]);
    } else if ts[0].Emoji? {
      CollapseTextEmojis(ts[1..], []);
      CollapseEmojiStep(ts, cur);
    } else {
      CollapseTextEmojis(ts[1..], cur);
      assert CollapseText(ts, cur) == CollapseText(ts[1..], cur);
      assert TokenEmojis(ts) == [] + TokenEmojis(ts[1..]);
    }
  }

  /** An emoji token closes the pending text and is kept in place. */
  lemma CollapseEmojiStep(ts: seq<EnsNameToken>, cur: seq<CodePoint>)
    requires |ts| > 0 && !IsTextToken(ts[0]) && ts[0].Emoji?
    requires CollapsedEmojis(CollapseText(ts[1..], [])) == TokenEmojis(ts[1..])
    ensures CollapsedEmojis(CollapseText(ts, cur)) == TokenEmojis(ts)
  {
    var e := [CollapsedEnsNameToken.Emoji(ts[0].token)];
    var pre := (if cur == [] then [] else [Text(cur)]);
    var rest := CollapseText(ts[1..], []);
    assert CollapseText(ts, cur) == pre + e + rest;
    CollapsedEmojisAppend(pre + e, rest);
    CollapsedEmojisAppend(pre, e);
    assert CollapsedEmojis(e) == [ts[0].token] + CollapsedEmojis([]);
    if cur != [] {
      assert CollapsedEmojis(pre) == [] + CollapsedEmojis([]);
    }
    assert TokenEmojis(ts) == [ts[0].token] + TokenEmojis(ts[1..]);
  }

  /** `get_cps_of_not_ignored_text`: the code points of the Text tokens of the collapse. */
  function GetCpsOfNotIgnoredText(lab: TokenizedLabel): (r: seq<CodePoint>)
    ensures r == TextCps(lab.tokens)
  {
    CollapseTextCps(lab.tokens, []);
    CollapsedTextCps(CollapseText(lab.tokens, []))
  }
}
