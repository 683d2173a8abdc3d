/** The tokens a name is cut into (src/tokens/types.rs). */
module TokenTypes {
  import opened Utils

  /**
   * An emoji as it occurred in the input (`input`), in its fully qualified
   * form from the table (`emoji`), and with every U+FE0F removed (`cps`).
   */
  datatype TokenEmoji = TokenEmoji(input: seq<CodePoint>, emoji: seq<CodePoint>, cps: seq<CodePoint>)

  /**
   * One token of a name. `Mapped` keeps the original code point next to its
   * replacement; `Nfc` keeps the code points it replaced next to their
   * composed form.
   */
  datatype EnsNameToken =
    | Valid(cps: seq<CodePoint>)
    | Mapped(cp: CodePoint, cps: seq<CodePoint>)
    | Ignored(cp: CodePoint)
    | Disallowed(cp: CodePoint)
    | Stop(cp: CodePoint)
    | Nfc(input: seq<CodePoint>, cps: seq<CodePoint>)
    | Emoji(token: TokenEmoji)

  /** The code points a token contributes to its label. */
  function Cps(t: EnsNameToken): (r: seq<CodePoint>)
    ensures t.Ignored? || t.Disallowed? || t.Stop? ==> r == []
    ensures t.Valid? || t.Mapped? || t.Nfc? ==> r == t.cps
    ensures t.Emoji? ==> r == t.token.cps
  {
    match t
    case Valid(cps) => cps
    case Mapped(_, cps) => cps
    case Nfc(_, cps) => cps
    case Emoji(e) => e.cps
    case _ => []
  }

  /** The number of code points a token contributes. */
  function Size(t: EnsNameToken): (n: nat)
    ensures n == |Cps(t)|
  {
    match t
    case Valid(cps) => |cps|
    case Mapped(_, cps) => |cps|
    case Nfc(_, cps) => |cps|
    case Emoji(e) => |e.cps|
    case _ => 0
  }

  predicate IsEmoji(t: EnsNameToken)
  {
    t.Emoji?
  }

  /** Every token that is not an emoji counts as text. */
  function IsText(t: EnsNameToken): (b: bool)
    ensures b <==> !t.Emoji?
  {
    !IsEmoji(t)
  }

  function IsIgnored(t: EnsNameToken): (b: bool)
    ensures b <==> t.Ignored?
  {
    t.Ignored?
  }

  /** A label's tokens after runs of text have been merged. */
  datatype CollapsedEnsNameToken =
    | Text(cps: seq<CodePoint>)
    | Emoji(token: TokenEmoji)

  /** The code points of a sequence of tokens, in order. */
  function TokensCps(ts: seq<EnsNameToken>): seq<CodePoint>
    decreases |ts|
  {
    if |ts| == 0 then [] else Cps(ts[0]) + TokensCps(ts[1..])
  }

  lemma {:induction false} TokensCpsAppend(a: seq<EnsNameToken>, b: seq<EnsNameToken>)
    ensures TokensCps(a + b) == TokensCps(a) + TokensCps(b)
    decreases |a|
  {
    if |a| == 0 {
      assert a + b == b;
    } else {
      assert (a + b)[1..] == a[1..] + b;
      TokensCpsAppend(a[1..], b);
    }
  }
}
