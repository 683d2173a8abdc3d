/** The errors the pipeline reports (src/error.rs). */
module Errors {
  import opened Wrappers
  import opened Utils
  import opened CodePointTypes

  /** Errors that come with a position and the offending sequence. */
  datatype CurrableError =
    | UnderscoreInMiddle
    | HyphenAtSecondAndThird
    | CmStart
    | CmAfterEmoji
    | FencedLeading
    | FencedTrailing
    | FencedConsecutive

  datatype DisallowedSequence =
    | Invalid(text: string)
    | InvisibleCharacter(cp: CodePoint)
    | EmptyLabel
    | NsmTooMany
    | NsmRepeated

  /**
   * What a `Confused` error is about. The source formats these into a
   * message; the model keeps the values the message is made from.
   */
  datatype ConfusedReason =
    | SymbolNotInGroup(cp: CodePoint, group: GroupName)
    | NoGroupFor(cps: seq<CodePoint>)

  datatype ProcessError =
    | Confused(reason: ConfusedReason)
    | ConfusedGroups(group1: string, group2: string)
    | Currable(kind: CurrableError, index: nat, sequence: string, maybeSuggest: Option<string>)
    | Disallowed(sequenceError: DisallowedSequence)
}
