/**
 * `EnsNameNormalizer` and `ProcessedName` of src/normalizer.rs: the whole
 * pipeline, tokenize (with NFC), validate every label, then join the
 * labels in normalised or in beautified form.
 */
module Normalizer {
  import opened Wrappers
  import opened Utils
  import opened Seqs
  import opened Constants
  import opened TokenTypes
  import opened Specs
  import opened Labels
  import opened Errors
  import opened ScriptGroups
  import opened Validate
  import opened Join
  import B = Beautify
  import Tok = Tokenize

  /** The normalizer holds nothing but its tables. */
  datatype EnsNameNormalizer = EnsNameNormalizer(specs: CodePointsSpecs)

  /** A name that passed: its validated labels and its tokens. */
  datatype ProcessedName = ProcessedName(labels: seq<ValidatedLabel>, tokenized: TokenizedName)

  /**
   * What the pipeline expects of its tables on `input`: the emoji matches
   * lie inside the input and are emoji, and every whole-script object
   * lists its own code point.
   */
  predicate Expected(n: EnsNameNormalizer, input: string)
  {
    (|input| > 0 ==> Tok.MatchesWellFormed(n.specs, input, FindEmoji(n.specs, input))) && SelfKeyed(n.specs)
  }

  /** `EnsNameNormalizer::tokenize`: always with NFC, and it never fails. */
  function Tokenize(n: EnsNameNormalizer, input: string): (r: Result<TokenizedName, ProcessError>)
    requires Expected(n, input)
    ensures r.Ok? && r.value.input == input
    ensures |input| > 0 ==> r.value.tokens == Tok.TokenizedInput(n.specs, input, true)
    ensures |input| == 0 ==> r.value.tokens == []
  {
    Ok(Tok.TokenizedNameOf(n.specs, input, true))
  }

  /** `EnsNameNormalizer::process`: a tokenizing or validation error is returned as it is. */
  function Process(n: EnsNameNormalizer, input: string): Result<ProcessedName, ProcessError>
    requires Expected(n, input)
  {
    match Tokenize(n, input)
    case Err(e) => Err(e)
    case Ok(tokenized) =>
      match ValidatedLabelsOf(IterLabels(tokenized), n.specs)
      case Err(e) => Err(e)
      case Ok(labels) => Ok(ProcessedName(labels, tokenized))
  }

  /** `ProcessedName::normalize`. */
  function ProcessedNormalize(p: ProcessedName): string
  {
    JoinLabels(p.labels)
  }

  /** `ProcessedName::beautify`. */
  function ProcessedBeautify(p: ProcessedName): string
  {
    B.BeautifyLabels(p.labels)
  }

  /** `EnsNameNormalizer::normalize`. */
  function Normalize(n: EnsNameNormalizer, input: string): Result<string, ProcessError>
    requires Expected(n, input)
  {
    match Process(n, input)
    case Err(e) => Err(e)
    case Ok(p) => Ok(ProcessedNormalize(p))
  }

  /** `EnsNameNormalizer::beautify`. */
  function Beautify(n: EnsNameNormalizer, input: string): Result<string, ProcessError>
    requires Expected(n, input)
  {
    match Process(n, input)
    case Err(e) => Err(e)
    case Ok(p) => Ok(ProcessedBeautify(p))
  }

  /**
   * A processed name keeps the NFC tokens of the input and one validated
   * label for each of their labels, in order, none of which holds a
   * Disallowed token; it fails exactly with the error of the first label
   * that fails, and with a disallowed character exactly when some label
   * holds a Disallowed token and every earlier label passes.
   */
  lemma ProcessOutcome(n: EnsNameNormalizer, input: string)
    requires Expected(n, input)
    ensures Process(n, input).Ok? ==> (
      var p := Process(n, input).value;
      var labels := IterLabels(Tok.TokenizedNameOf(n.specs, input, true));
      p.tokenized == Tok.TokenizedNameOf(n.specs, input, true) && |p.labels| == |labels| &&
      forall i :: 0 <= i < |labels| ==>
        NameLabelOf(labels[i], n.specs) == Ok(p.labels[i]) && p.labels[i].tokenized == labels[i] &&
        !HasDisallowed(labels[i]))
    ensures Process(n, input).Err? ==> (
      var labels := IterLabels(Tok.TokenizedNameOf(n.specs, input, true));
      exists k :: (0 <= k < |labels| && NameLabelOf(labels[k], n.specs) == Err(Process(n, input).error) &&
        forall j :: 0 <= j < k ==> NameLabelOf(labels[j], n.specs).Ok?))
    ensures (Process(n, input).Err? && IsInvalidError(Process(n, input).error)) <==> (
      var labels := IterLabels(Tok.TokenizedNameOf(n.specs, input, true));
      exists k :: 0 <= k < |labels| && HasDisallowed(labels[k]) &&
        forall j :: 0 <= j < k ==> NameLabelOf(labels[j], n.specs).Ok?)
  {
    var labels := IterLabels(Tok.TokenizedNameOf(n.specs, input, true));
    ValidatedLabelsShape(labels, n.specs);
    ValidatedLabelsInvalid(labels, n.specs);
    if Process(n, input).Ok? {
      forall i | 0 <= i < |labels|
        ensures Process(n, input).value.labels[i].tokenized == labels[i] && !HasDisallowed(labels[i])
      {
        NameLabelInvalid(labels[i], n.specs);
        ValidatedPassedChecks(labels[i], n.specs);
      }
    }
  }

  /** `normalize` fails exactly when `process` does, with the same error, and otherwise joins the labels. */
  lemma NormalizeIsJoin(n: EnsNameNormalizer, input: string)
    requires Expected(n, input)
    ensures Normalize(n, input).Err? <==> Process(n, input).Err?
    ensures Normalize(n, input).Err? ==> Normalize(n, input).error == Process(n, input).error
    ensures Normalize(n, input).Ok? ==> Normalize(n, input).value == JoinLabels(Process(n, input).value.labels)
  {
  }

  /** `beautify` fails exactly when `process` does, with the same error, and otherwise beautifies the labels. */
  lemma BeautifyIsBeautifyLabels(n: EnsNameNormalizer, input: string)
    requires Expected(n, input)
    ensures Beautify(n, input).Err? <==> Process(n, input).Err?
    ensures Beautify(n, input).Err? ==> Beautify(n, input).error == Process(n, input).error
    ensures Beautify(n, input).Ok? ==> Beautify(n, input).value == B.BeautifyLabels(Process(n, input).value.labels)
  {
  }

  /**
   * The normalised name spells out the code points of the NFC tokens of
   * the input, in order, with FULL STOP where the Stop tokens were.
   */
  lemma NormalizeSpellsTokens(n: EnsNameNormalizer, input: string)
    requires Expected(n, input)
    requires Normalize(n, input).Ok?
    requires AllScalar(NormalizedLabelsCps(Process(n, input).value.labels))
    ensures Str2Cps(Normalize(n, input).value) == StoppedCps(Tok.TokenizedNameOf(n.specs, input, true).tokens)
  {
    ProcessOutcome(n, input);
    JoinLabelsOfName(Process(n, input).value.labels, Tok.TokenizedNameOf(n.specs, input, true));
  }
}
