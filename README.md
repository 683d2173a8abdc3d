# ENS name normalisation (ENSIP-15), modelled in Dafny

This project models the core of `ens-normalize-rs`, a Rust implementation of
the ENS Name Normalization Standard (ENSIP-15). The model covers its four
steps:

- **Tokenize.** A cursor walks the input. At each position it emits either
  one emoji token for an emoji match starting there, or one token for the
  character there: Stop, Valid, Ignored, Mapped or Disallowed.
- **NFC rewrite (optional).** Runs of Valid/Mapped tokens whose code points
  need the NFC check are rewritten into `Nfc` tokens.
- **Merge.** Adjacent Valid tokens are merged into one.
- **Split.** The tokens are split into labels on Stop tokens.

**Validate.** Each label goes through the ordered checks of ENSIP-15:

- disallowed characters (the first one rejects the label);
- empty label;
- all-emoji label;
- underscore only at the start;
- the hyphen rule at positions 3–4, from section 4.2.3.1 of RFC 5891;
- fenced characters;
- combining marks at the start or after an emoji;
- single-script group;
- non-spacing-mark runs;
- whole-script confusables.

**Normalize** joins the validated labels with FULL STOP (U+002E), with emoji
in their FE0F-free form. **Beautify** joins them the same way, but uses the
pretty form of each emoji and writes ξ as Ξ outside Greek labels.

The Unicode tables are abstract sets, maps and sequences (`Specs.CodePointsSpecs`,
`Inspector.CodePointsInspector`). Three foreign functions are fields of the
tables, and nothing is assumed about them:

- Unicode NFC on strings;
- NFD on code points;
- the emoji regular expression.

Each imperative routine of the source is a Dafny `method` with its loops and
invariants. Each is proved equal to a specification function, and the
source's promises are proved as lemmas about those functions. The routines
are:

- the cursor loops;
- the in-place NFC rewrite;
- the Valid-run merge;
- `compute_valid`;
- the group/NSM loops;
- the whole-script candidate scan;
- the combining-mark index accumulator;
- `cps_replaced_greek` on an array.

Modules follow the source files:

| module | source |
|---|---|
| `Utils` | `src/utils.rs` |
| `TokenTypes` | `src/tokens/types.rs` |
| `CodePointTypes` | `src/code_points/types.rs` |
| `Specs` | `src/code_points/specs.rs` |
| `Inspector` | `src/code_points/inspector.rs` |
| `Tokenize`, `NfcRewrite`, `CollapseValid`, `Labels` | `src/tokens/tokenize.rs` |
| `Tokenizer` | `src/tokens/tokenizer.rs` |
| `Validate`, `ScriptGroups` | `src/validate.rs` |
| `Join` | `src/join.rs` |
| `Beautify` | `src/beautify.rs` |
| `Normalizer` | `src/normalizer.rs` |
| `Errors` | the error values of `src/error.rs` |
| `Constants` | the constants of `src/constants.rs` and `src/code_points/constants.rs` |

`Seqs` and `Wrappers` hold generic sequence and `Result` helpers.

## Model

| member | source | states |
|---|---|---|
| Utils.FilterFe0f | src/utils.rs:5-7 | the result holds no U+FE0F, is no longer than the input, and holds only code points of the input |
| Utils.FilterFe0fCounts | src/utils.rs:5-7 | every code point other than FE0F keeps its number of occurrences; FE0F occurs zero times |
| Utils.FilterFe0fAppend | src/utils.rs:5-7 | filtering distributes over concatenation, so the order of the kept code points is preserved |
| Utils.FilterFe0fUnchanged | src/utils.rs:5-7 | the input comes back unchanged exactly when it contains no FE0F |
| Utils.FilterFe0fIdempotent | src/utils.rs:5-7 | filtering twice is filtering once |
| Utils.Str2Cps | src/utils.rs:18-20 | one code point per character |
| Utils.Str2CpsValues | src/utils.rs:18-20 | the i-th code point is the i-th character's scalar value |
| Utils.Str2CpsAppend | src/utils.rs:18-20 | `str2cps` distributes over concatenation |
| Utils.Str2CpsPrefix | src/utils.rs:18-20 | the code points of a prefix are the prefix of the code points |
| Utils.Cps2Str | src/utils.rs:9-16 | the corrected conversion: never longer than its input (non-scalar values are dropped) |
| Utils.Cps2StrRoundTrip | src/utils.rs:9-20 | on scalar values, `str2cps(cps2str(x)) == x` for the corrected conversion |
| Utils.Str2CpsRoundTrip | src/utils.rs:9-20 | `cps2str(str2cps(s)) == s` |
| Utils.Cps2StrAppend | src/utils.rs:9-16 | the corrected conversion distributes over concatenation |
| Utils.CombineSurrogates | src/utils.rs:10 | a high/low surrogate pair decodes to a supplementary-plane character |
| Utils.DecodeUtf16Lossy | src/utils.rs:10-15 | lossy UTF-16 decoding yields at most one character per code unit |
| Utils.Cps2StrTruncatingBelowSurrogates | src/utils.rs:9-16 | below U+D800 the as-written conversion (cast to 16 bits, lossy UTF-16) agrees with the corrected one and round-trips |
| Utils.Cps2StrTruncatingLosesAstral | src/utils.rs:9-16 | the as-written conversion turns U+1F525 into U+F525; the corrected one keeps it |
| Utils.Cps2StrTruncating | src/utils.rs:9-16 | `cps2str` as written gives at most one character per code point; Utils.Cps2StrTruncatingBelowSurrogates and Cps2StrTruncatingLosesAstral state where it agrees with the corrected conversion and where not |
| TokenTypes.Cps | src/tokens/types.rs:15-23 | empty for Ignored, Disallowed and Stop; the token's `cps` for Valid, Mapped, Nfc and Emoji |
| TokenTypes.Size | src/tokens/types.rs:25-33 | `size()` equals the length of `cps()` |
| TokenTypes.IsText | src/tokens/types.rs:35-41 | `is_text` is the negation of `is_emoji` |
| TokenTypes.IsIgnored | src/tokens/types.rs:43-45 | true exactly for the Ignored variant |
| TokenTypes.TokensCpsAppend | src/tokens/types.rs:15-23 | the concatenated code points of a token sequence distribute over concatenation |
| CodePointTypes.GroupNameFromString | src/static_data/spec_json.rs:85-89 | a name parses to Emoji, ASCII or Greek exactly for those three strings, and to `Other` otherwise; the name prints back as the string |
| CodePointTypes.GroupNameRoundTrip | src/static_data/spec_json.rs:73-89 | a group name survives printing and parsing |
| CodePointTypes.GroupNameToString | src/static_data/spec_json.rs:73-83 | the `Display` of a group name; CodePointTypes.GroupNameRoundTrip states that parsing it gives the name back |
| CodePointTypes.ParseGroup | src/code_points/types.rs:15-29 | keeps the name; primary and secondary are the group's lists as sets; `primary_plus_secondary` is their union; `cm_absent` holds exactly when `cm` is empty |
| CodePointTypes.ContainsAllCps | src/code_points/types.rs:33-39 | holds exactly when every code point is in `primary_plus_secondary` (so it holds for the empty input) |
| CodePointTypes.ParsedGroupMembership | src/code_points/types.rs:15-39 | a parsed group contains all code points exactly when each one is in the source group's primary or secondary list |
| CodePointTypes.DecimalString | src/code_points/types.rs:75 | the decimal spelling of a number is non-empty, all digits, and denotes the number |
| CodePointTypes.ParseU32 | src/code_points/types.rs:75 | a key that parses is non-empty and does not end in a sign |
| CodePointTypes.ParseU32Decimal | src/code_points/types.rs:75 | a decimal spelling (with or without a leading `+`) parses to its value; a `-` sign and the empty string do not parse |
| CodePointTypes.ParseM | src/code_points/types.rs:69-81 | succeeds exactly when every key parses, and then keeps every key; otherwise fails with the first key that does not parse |
| CodePointTypes.ParseWholeValue | src/code_points/types.rs:49-58 | a number passes through; an object fails exactly when one of its `M` keys does not parse, and otherwise keeps `V` and the parsed `M` |
| Specs.PrettyMapKeys | src/code_points/specs.rs:33-37 | every emoji's FE0F-free form is a key of `emoji_no_fe0f_to_pretty` |
| Specs.PrettyMapValues | src/code_points/specs.rs:33-37 | each value is an emoji of the table whose FE0F-free form is its key |
| Specs.PrettyMapUnique | src/code_points/specs.rs:33-37 | when no other emoji has the same FE0F-free form, the key maps to that emoji |
| Specs.UnionPpsMembers | src/code_points/specs.rs:167-182 | a code point is in the union exactly when some group's `primary_plus_secondary` holds it |
| Specs.DecompositionsAdd | src/code_points/specs.rs:176-179 | adding one code point to the base adds exactly its one-level decomposition |
| Specs.DecompositionsDone | src/code_points/specs.rs:167-182 | when the workset is empty, the base plus the gathered decompositions is the valid set |
| Specs.ExtendWithDecompositions | src/code_points/specs.rs:176-181 | the decomposition loop returns the base plus every one-level decomposition of it |
| Specs.ComputeValid | src/code_points/specs.rs:167-182 | `compute_valid` returns the union of primary and secondary code points plus their decompositions |
| Specs.ValidMembers | src/code_points/specs.rs:167-182 | a code point is valid exactly when it is in some group or in the decomposition of a code point in some group |
| Specs.ComputeWholeMap | src/code_points/specs.rs:184-189 | every entry's key is in the whole map, and every key of the map comes from an entry |
| Specs.New | src/code_points/specs.rs:32-75 | one parsed group per table group, in order; `valid` as computed; the pretty map and the name index built from the table |
| Specs.GetMapping | src/code_points/specs.rs:87-89 | the mapping is present exactly for mapped code points, and is their mapped value |
| Specs.MaybeNormalize | src/code_points/specs.rs:111-113 | `maybe_normalize` returns the same lookup as `get_mapping` |
| Specs.CpsIsEmoji | src/code_points/specs.rs:91-97 | true exactly when the first emoji match in the string spans the whole string |
| Specs.CpsRequiresCheck | src/code_points/specs.rs:103-105 | true exactly when some code point is in `nfc_check` |
| Specs.CpsEmojiNoFe0fToPretty | src/code_points/specs.rs:107-109 | present exactly for keys of the pretty map, with their value |
| Specs.IsStop | src/code_points/specs.rs:123-125 | true exactly for U+002E |
| Specs.Decompose | src/code_points/specs.rs:152-154 | present exactly for code points with a decomposition, with that decomposition |
| Specs.WholeMap | src/code_points/specs.rs:156-158 | present exactly for code points with a whole-script entry, with that entry |
| Specs.GroupsForCps | src/code_points/specs.rs:135-142 | exactly the groups that contain all the code points; the first one is the first such group in table order; empty exactly when no group contains them |
| Specs.GroupByNameIndexed | src/code_points/specs.rs:44-48 | with the index built by enumerating the groups, a name resolves exactly when some group has it, and to a group with that name |
| Specs.GroupByName | src/code_points/specs.rs:160-164 | the group returned is the group at the index recorded for the name |
| Inspector.New | src/code_points/inspector.rs:27-57 | the emoji set, the pretty map and the valid set are built from the table as the source builds them |
| Inspector.GetMapping | src/code_points/inspector.rs:69-71 | the mapping is present exactly for mapped code points |
| Inspector.MaybeNormalize | src/code_points/inspector.rs:88-90 | the same lookup as `get_mapping` |
| Inspector.CpsIsEmoji | src/code_points/inspector.rs:73-75 | true exactly when the code points are an emoji or a key of the FE0F-free map |
| Inspector.CpsIsEmojiBuilt | src/code_points/inspector.rs:27-75 | with tables built by `new`, true exactly when the code points are a table emoji or the FE0F-free form of one |
| Inspector.CpsRequiresCheck | src/code_points/inspector.rs:77-79 | true exactly when some code point is in `nfc_check` |
| Inspector.CpsEmojiNoFe0fToPretty | src/code_points/inspector.rs:81-86 | the pretty form when present, and the empty sequence otherwise |
| Inspector.IsStop | src/code_points/inspector.rs:100-102 | true exactly for U+002E |
| Inspector.ComputeValid | src/code_points/inspector.rs:109-124 | the union of primary and secondary code points plus their decompositions |
| Inspector.ValidAgrees | src/code_points/inspector.rs:40 | the two table builders compute the same valid set |
| Tokenize.ProcessOneCp | src/tokens/tokenize.rs:278-293 | priority Stop > Valid > Ignored > Mapped > Disallowed; a Mapped token keeps the original code point and its mapping |
| Tokenize.SourceCpsOfAppend | src/tokens/tokenize.rs:157-173 | the input code points behind a token sequence distribute over concatenation |
| Tokenize.SourceCpsOfCons | src/tokens/tokenize.rs:157-173 | the same for one token in front |
| Tokenize.ProcessOneCpSource | src/tokens/tokenize.rs:278-293 | a character's token stands for exactly that code point and is neither Nfc nor Emoji |
| Tokenize.FirstStartingAt | src/tokens/tokenize.rs:250-276 | the index of the first emoji match starting at the cursor, or the number of matches if none does |
| Tokenize.EmojiAt | src/tokens/tokenize.rs:257-271 | an emoji token's input is the matched characters, its `cps` their FE0F-free form, and its `emoji` the pretty form of that |
| Tokenize.EmojiAtStart | src/tokens/tokenize.rs:250-276 | a match starting at the cursor covers at least one character and ends within the input |
| Tokenize.MaybeStartsWithEmoji | src/tokens/tokenize.rs:250-276 | an emoji token exactly when some match starts at the cursor; it comes from the first such match and covers exactly its characters |
| Tokenize.StepAt | src/tokens/tokenize.rs:157-173 | each step advances by at least one character and stays within the input; its token stands for exactly the characters it consumed; no Nfc token, and every Stop token is FULL STOP |
| Tokenize.InputTokensStep | src/tokens/tokenize.rs:157-173 | the loop emits the step's token, then continues from the step's end |
| Tokenize.InputTokensUnfold | src/tokens/tokenize.rs:157-173 | the input behind the loop's tokens is the step's input followed by the rest's |
| Tokenize.InputTokensConsume | src/tokens/tokenize.rs:157-173 | the cursor loop consumes the whole input: its tokens stand for exactly the input's code points |
| Tokenize.InputTokensKinds | src/tokens/tokenize.rs:157-173 | the cursor loop emits no Nfc token, and every Stop token it emits is FULL STOP |
| Tokenize.NextToken | src/tokens/tokenize.rs:158-172 | one iteration of the cursor loop is one step |
| Tokenize.EmitTokens | src/tokens/tokenize.rs:157-173 | the cursor loop's tokens are the steps' tokens from position 0 |
| Tokenize.TokenizeInput | src/tokens/tokenize.rs:146-180 | the cursor loop, the optional NFC rewrite, then the Valid-run merge |
| Tokenize.TokenizeName | src/tokens/tokenize.rs:134-144 | the empty name has no tokens; otherwise the name's tokens |
| Tokenize.TokenizeNameKeepsInput | src/tokens/tokenize.rs:134-144 | a tokenized name keeps its input; `tokenize_name("")` has no tokens; without NFC its tokens spell the name back |
| Tokenize.CollapsedKeepsSource | src/tokens/tokenize.rs:295-314 | merging Valid runs keeps the input behind the tokens |
| Tokenize.ValidSource | src/tokens/tokenize.rs:295-314 | for Valid tokens, the input behind them is their code points |
| Tokenize.TokenizeWithoutNfcKeepsInput | src/tokens/tokenize.rs:175-178 | with NFC off, the tokens stand for exactly the input's code points |
| Tokenize.TokenizeWithoutNfcHasNoNfc | src/tokens/tokenize.rs:175-178 | with NFC off, no token is rewritten into an Nfc token |
| Tokenize.TokenizeKeepsUntouched | src/tokens/tokenize.rs:175-178 | with NFC on or off, the Emoji, Disallowed and Stop tokens of the cursor loop survive, in order |
| Tokenize.TokenizeStops | src/tokens/tokenize.rs:146-180 | every Stop token of a tokenized input is FULL STOP |
| Tokenize.TokenizedInput | src/tokens/tokenize.rs:146-180 | what `tokenize_input` returns, as Tokenize.TokenizeInput computes it; TokenizeWithoutNfcKeepsInput, TokenizeKeepsUntouched and TokenizeStops state its properties |
| NfcRewrite.RunEnd | src/tokens/tokenize.rs:192-204 | the end of a run lies within the tokens; every token before it is Valid, Mapped or Ignored; and a run that grew ends on a Valid or Mapped token |
| NfcRewrite.VmCpsAppend | src/tokens/tokenize.rs:210-218 | the gathered Valid/Mapped code points distribute over concatenation |
| NfcRewrite.RunStep | src/tokens/tokenize.rs:191-235 | one run step moves the loop forward and shrinks what is left to scan |
| NfcRewrite.FindRunEnd | src/tokens/tokenize.rs:192-204 | the inner `for` loop finds the run's end, testing the starting token's code points at every position |
| NfcRewrite.SliceVmCps | src/tokens/tokenize.rs:210-218 | the code points gathered from the slice are the Valid/Mapped ones, in order |
| NfcRewrite.ComposeRun | src/tokens/tokenize.rs:191-235 | one run: left unchanged if NFC does not change it, otherwise replaced by one Nfc token holding the run's code points |
| NfcRewrite.PerformNfcTransform | src/tokens/tokenize.rs:182-246 | the in-place rewrite loop computes the rewrite of the whole token sequence |
| NfcRewrite.NfcTransformIdentity | src/tokens/tokenize.rs:220-224 | when NFC changes no string, the tokens are left unchanged |
| NfcRewrite.NfcLoopIdentity | src/tokens/tokenize.rs:186-245 | the same from any loop position |
| NfcRewrite.NfcTransformNoCheck | src/tokens/tokenize.rs:189-191 | when no Valid/Mapped token needs the check, the tokens are left unchanged |
| NfcRewrite.NfcLoopNoCheck | src/tokens/tokenize.rs:186-245 | the same from any loop position |
| NfcRewrite.NfcTransformKeeps | src/tokens/tokenize.rs:182-246 | the rewrite keeps the Emoji/Disallowed/Stop tokens in order, and keeps the pre-NFC code points of the sequence |
| NfcRewrite.NfcLoopKeeps | src/tokens/tokenize.rs:186-245 | the same from any loop position with a pending run |
| NfcRewrite.RunStepKeeps | src/tokens/tokenize.rs:191-235 | one run step keeps the untouched tokens and the pre-NFC code points |
| NfcRewrite.ReplaceRun | src/tokens/tokenize.rs:226-231 | splicing one Nfc token over a run keeps both |
| NfcRewrite.RunCoversLaterTokens | src/tokens/tokenize.rs:196 | the inner loop tests the starting token's code points: a token that does not need the check is still drawn into the run after one that does |
| CollapseValid.ValidRun | src/tokens/tokenize.rs:299-308 | the length of the leading run of Valid tokens |
| CollapseValid.GatherValidRun | src/tokens/tokenize.rs:299-308 | the inner loop stops at the first non-Valid token after the run, having gathered the run's code points |
| CollapseValid.CollapseValidTokens | src/tokens/tokenize.rs:295-314 | the in-place splice loop computes the merge of every maximal Valid run |
| CollapseValid.CollapsedHead | src/tokens/tokenize.rs:295-314 | a non-empty sequence stays non-empty; its first token is Valid exactly when it was, and a first non-Valid token is kept |
| CollapseValid.CollapsedNoAdjacentValid | src/tokens/tokenize.rs:295-314 | the result has no two adjacent Valid tokens |
| CollapseValid.CollapsedKeepsOthers | src/tokens/tokenize.rs:295-314 | the non-Valid tokens are kept, in order |
| CollapseValid.CollapsedKeepsCps | src/tokens/tokenize.rs:295-314 | the concatenated code points are kept |
| CollapseValid.CollapsedUnchanged | src/tokens/tokenize.rs:329-333 | a sequence with no adjacent Valid tokens (the empty one, a single token) is unchanged |
| CollapseValid.CollapsedIdempotent | src/tokens/tokenize.rs:295-314 | merging twice is merging once |
| CollapseValid.ValidRunExact | src/tokens/tokenize.rs:299-308 | the run length is the unique index that ends the leading Valid run |
| CollapseValid.AllValidFilter | src/tokens/tokenize.rs:295-314 | an all-Valid sequence has no non-Valid tokens |
| Labels.IterLabelsParts | src/tokens/tokenize.rs:46-50 | the labels' tokens are the tokens split at Stop tokens |
| Labels.IterLabelsCount | src/tokens/tokenize.rs:46-50 | one more label than there are Stop tokens |
| Labels.IterLabelsNoStop | src/tokens/tokenize.rs:46-50 | no label contains a Stop token |
| Labels.IterLabelsJoin | src/tokens/tokenize.rs:46-50 | joining the labels with FULL STOP tokens gives back the tokens |
| Labels.PartsCps | src/tokens/tokenize.rs:73-75 | one code-point sequence per part |
| Labels.PartsCpsIndex | src/tokens/tokenize.rs:73-75 | the i-th entry is the i-th part's code points |
| Labels.SplitCps | src/tokens/tokenize.rs:46-50 | splitting at Stop tokens keeps the concatenated code points |
| Labels.TokensCpsAroundStop | src/tokens/tokenize.rs:46-50 | a Stop token contributes no code points |
| Labels.StoppedCpsAppend | src/join.rs:27-33 | the code points with FULL STOP for each Stop token distribute over concatenation |
| Labels.StoppedCpsNoStop | src/join.rs:27-33 | without Stop tokens they are the plain code points |
| Labels.StoppedAroundStop | src/join.rs:27-33 | a Stop token contributes exactly one FULL STOP |
| Labels.SplitStoppedCps | src/tokens/tokenize.rs:46-50 | the labels' code points interspersed with FULL STOP are the name's code points with FULL STOP for each Stop |
| Labels.LabelsCpsCover | src/tokens/tokenize.rs:46-75 | the labels' `iter_cps` concatenated are the name's code points |
| Labels.FullyEmojiCount | src/tokens/tokenize.rs:59-63 | a label is fully emoji exactly when every token is an emoji |
| Labels.AllAsciiAppend | src/tokens/tokenize.rs:66-70 | ASCII-ness of a concatenation is that of both parts |
| Labels.FullyAsciiCps | src/tokens/tokenize.rs:66-70 | a label is fully ASCII exactly when all its code points are ASCII |
| Labels.CollapseIntoTextOrEmoji | src/tokens/tokenize.rs:79-105 | the accumulating loop computes the Text/Emoji collapse of the label |
| Labels.CollapseTextShape | src/tokens/tokenize.rs:79-105 | no empty Text token and no two Text tokens in a row |
| Labels.CollapseTextCps | src/tokens/tokenize.rs:79-105 | the Text tokens hold exactly the code points of the text tokens, in order (Ignored, Disallowed and Stop tokens give none) |
| Labels.CollapsedTextCpsAppend | src/tokens/tokenize.rs:79-105 | the Text code points distribute over concatenation |
| Labels.CollapseTextEmojis | src/tokens/tokenize.rs:79-105 | the emoji are kept, in order |
| Labels.CollapsedEmojisAppend | src/tokens/tokenize.rs:79-105 | the emoji distribute over concatenation |
| Labels.GetCpsOfNotIgnoredText | src/tokens/tokenize.rs:108-120 | the code points of the non-emoji tokens, in order |
| Labels.IterLabels | src/tokens/tokenize.rs:46-50 | `iter_labels` always yields at least one label; Labels.IterLabelsParts, IterLabelsCount, IterLabelsNoStop and IterLabelsJoin state the split |
| Labels.IsFullyEmoji | src/tokens/tokenize.rs:59-63 | `is_fully_emoji`; Labels.FullyEmojiCount states it counts as every token an emoji |
| Labels.IsFullyAscii | src/tokens/tokenize.rs:66-70 | `is_fully_ascii`; Labels.FullyAsciiCps states it as all code points ASCII |
| Labels.IterCps | src/tokens/tokenize.rs:73-75 | `iter_cps`; Labels.LabelsCpsCover states that the labels' code points cover the name's |
| Labels.CollapseText | src/tokens/tokenize.rs:79-105 | the collapse that Labels.CollapseIntoTextOrEmoji computes; CollapseTextShape, CollapseTextCps and CollapseTextEmojis state its shape and contents |
| Tokenizer.ProcessOneCp | src/tokens/tokenizer.rs:134-149 | priority Stop > Valid > Ignored > Mapped > Disallowed |
| Tokenizer.ProcessOneCpAgrees | src/tokens/tokenizer.rs:134-149 | with the same tables, both classifiers give the same token |
| Tokenizer.ProcessOneCpSource | src/tokens/tokenizer.rs:134-149 | a character's token stands for exactly that code point |
| Tokenizer.EmojiToken | src/tokens/tokenizer.rs:118-128 | `cps == filter_fe0f(input)`, and `emoji` is the pretty form or empty |
| Tokenizer.LongestEmojiUpToIsLongest | src/tokens/tokenizer.rs:113-132 | None exactly when no prefix is an emoji; otherwise a non-empty emoji prefix with no longer emoji prefix |
| Tokenizer.MaybeStartsWithEmoji | src/tokens/tokenizer.rs:113-132 | the loop keeps the longest emoji prefix |
| Tokenizer.StepAt | src/tokens/tokenizer.rs:26-36 | each step advances by the emoji's input length or by one, within the input, and its token stands for the characters consumed |
| Tokenizer.TokensFromConsume | src/tokens/tokenizer.rs:26-36 | the loop consumes exactly the characters |
| Tokenizer.NextToken | src/tokens/tokenizer.rs:27-35 | one iteration of the loop is one step |
| Tokenizer.EnsTokenize | src/tokens/tokenizer.rs:20-43 | the loop, the optional NFC rewrite, then the Valid-run merge |
| Tokenizer.EnsTokenizeKeepsInput | src/tokens/tokenizer.rs:20-43 | without normalisation the tokens stand for exactly the input |
| ScriptGroups.ContainsAllDedup | src/validate.rs:169-174 | a group contains the deduplicated code points exactly when it contains them all |
| ScriptGroups.DetermineGroup | src/validate.rs:279-290 | the first group in table order that contains all the unique code points; `Confused` exactly when none does |
| ScriptGroups.RunStart | src/validate.rs:195-221 | where the NSM run through a position starts |
| ScriptGroups.FirstNsmBad | src/validate.rs:195-221 | the first position that breaks an NSM rule |
| ScriptGroups.FirstNsmBadIs | src/validate.rs:195-221 | that first position is unique |
| ScriptGroups.NsmVerdict | src/validate.rs:195-221 | passes exactly when no position breaks an NSM rule; otherwise fails with the error of the first that does |
| ScriptGroups.NsmTooLongRejected | src/validate.rs:203-207 | a run of more than `nsm_max` NSMs is rejected |
| ScriptGroups.RunStartWithin | src/validate.rs:195-221 | inside a run, the run's start is found |
| ScriptGroups.RepeatsWithin | src/validate.rs:208-214 | true exactly when the code point occurs earlier in the run |
| ScriptGroups.ScanNsmRun | src/validate.rs:201-217 | the inner loop scans one NSM run up to its end or its first violation |
| ScriptGroups.CheckNsm | src/validate.rs:195-221 | the NSM loops compute the NSM verdict |
| ScriptGroups.GroupVerdict | src/validate.rs:181-223 | the first code point outside the group gives `Confused`; when all are inside, the NSM check runs exactly when `cm_absent` holds |
| ScriptGroups.CheckGroup | src/validate.rs:181-223 | the loops of `check_group` compute that verdict |
| ScriptGroups.CandidatesMembers | src/validate.rs:243-277 | a group name is a candidate exactly when some code point has a whole-script object and every such object lists the name; the shared code points are those with no whole entry |
| ScriptGroups.Candidates | src/validate.rs:243-277 | the candidates and shared code points; ScriptGroups.CandidatesMembers states both sets |
| ScriptGroups.CandidatesRetain | src/validate.rs:262-264 | `retain` on the candidates is intersection with the next object's names |
| ScriptGroups.InAllNameSetsStep | src/validate.rs:255-264 | one more object narrows the candidates to its names |
| ScriptGroups.CandidatesSkip | src/validate.rs:243-277 | a code point without an object does not change the candidates |
| ScriptGroups.CandidatesStart | src/validate.rs:265-267 | the first object's names start the candidates |
| ScriptGroups.SharedStep | src/validate.rs:270-272 | shared code points grow by the code points with no whole entry |
| ScriptGroups.ScannedNoEntry | src/validate.rs:270-272 | the scan invariant holds after a code point with no entry |
| ScriptGroups.ScannedFirstObject | src/validate.rs:265-267 | the scan invariant holds after the first object |
| ScriptGroups.ScannedNextObject | src/validate.rs:262-264 | the scan invariant holds after a later object |
| ScriptGroups.ScannedDone | src/validate.rs:243-277 | at the end of the scan the candidates and shared code points are computed |
| ScriptGroups.GetGroupsCandidatesAndSharedCps | src/validate.rs:243-277 | the loop computes the candidate group names and the shared code points |
| ScriptGroups.WholeVerdictErrOnlyIf | src/validate.rs:225-241 | a whole-script failure needs no `Number` entry, some object, and a candidate group that holds every shared code point; it is `ConfusedGroups` naming the label's group |
| ScriptGroups.WholeVerdictErrIf | src/validate.rs:225-241 | conversely, those conditions make the check fail |
| ScriptGroups.WholeVerdictConfused | src/validate.rs:225-241 | both directions together |
| ScriptGroups.WholeVerdict | src/validate.rs:225-241 | `check_whole`'s verdict; ScriptGroups.WholeVerdictErrOnlyIf, WholeVerdictErrIf and WholeVerdictConfused state when it fails |
| ScriptGroups.CandidatesResolve | src/validate.rs:231-233 | when every listed name resolves, every candidate resolves to a group |
| ScriptGroups.CheckWhole | src/validate.rs:225-241 | the loop computes the whole-script verdict |
| ScriptGroups.LabelGroupDetermined | src/validate.rs:164-179 | the label's group is the determined group, and its error is passed through |
| ScriptGroups.LabelGroupIsFirst | src/validate.rs:164-179 | the group is the first group in table order that contains the label's text; `Confused` when there is none |
| ScriptGroups.LabelGroup | src/validate.rs:164-179 | `check_and_get_group`'s verdict; ScriptGroups.LabelGroupDetermined and LabelGroupIsFirst state which group it is |
| ScriptGroups.CheckAndGetGroup | src/validate.rs:164-179 | computes the label's group |
| Validate.NonEmpty | src/validate.rs:44-52 | `EmptyLabel` exactly when every token is Ignored |
| Validate.UnderscoreScanBefore | src/validate.rs:54-75 | before the position the scan stops at, no `_` follows a non-`_` |
| Validate.UnderscoreScanFound | src/validate.rs:54-75 | a scan that stops inside the label stops at an underscore in the middle |
| Validate.UnderscoreInMiddleFirst | src/validate.rs:54-75 | `UnderscoreInMiddle` exactly when a `_` follows a non-`_`; its index is the first such position, and its sequence is `_` |
| Validate.Cps2StrOne | src/validate.rs:70 | a scalar value prints as its one character |
| Validate.Get | src/validate.rs:81-82 | present exactly for positions inside the sequence, with the code point there |
| Validate.NoHyphenAtSecondAndThird | src/validate.rs:80-92 | `HyphenAtSecondAndThird` at index 2 exactly when the third and fourth code points are both `-` |
| Validate.PlainLabel | src/validate.rs:80-92 | a label of Valid tokens whose code points are the given ones |
| Validate.HyphenExamples | src/validate.rs:80-92 | `ab-c` and `---a` pass; `xn--` and `----` fail |
| Validate.CheckFencedFails | src/validate.rs:94-128 | fails exactly when the first or last code point is fenced, or two adjacent code points are fenced |
| Validate.CheckFencedOrder | src/validate.rs:94-128 | leading before trailing (index len-1) before the first consecutive pair (index i) |
| Validate.TokensCpsSnoc | src/validate.rs:130-162 | the index accumulator grows by the token's size |
| Validate.CheckCmLeadingEmoji | src/validate.rs:130-162 | the loop with its running index computes the combining-mark verdict |
| Validate.CmVerdictPoints | src/validate.rs:130-162 | fails exactly when a text token starts with a combining mark at position 0 or after an emoji; the error index points at that mark; `CmStart` exactly for position 0 |
| Validate.ValidateLabel | src/validate.rs:16-42 | the ordered checks compute the label's verdict |
| Validate.ValidateEmptyFirst | src/validate.rs:20 | `EmptyLabel` exactly when every token is Ignored, whatever else the label holds |
| Validate.TextLabelSequenceErrors | src/validate.rs:27-41 | the checks after the first report a disallowed sequence only as `NsmTooMany` or `NsmRepeated`: never `EmptyLabel` and never `Invalid` |
| Validate.LabelGroupSequenceErrors | src/validate.rs:164-179 | group selection reports a disallowed sequence only from the NSM scan |
| Validate.NsmVerdictErrors | src/validate.rs:195-221 | NSM failures are `NsmTooMany` or `NsmRepeated` |
| Validate.ValidateFullyEmoji | src/validate.rs:20-26 | a non-empty all-emoji label is accepted as Emoji with no further checks |
| Validate.ValidateAscii | src/validate.rs:27-34 | a fully ASCII label fails with the hyphen error exactly when both positions are `-`, and is otherwise Ascii |
| Validate.ValidatedPassedChecks | src/validate.rs:16-42 | an accepted label passed every check on its path, keeps its tokens, and has the type of that path |
| Validate.ValidatedGroupHoldsText | src/validate.rs:35-41 | an accepted non-emoji, non-ASCII label has the type of the first group that holds its text |
| Validate.FirstDisallowed | tests/simple.rs:15 | the index of the first Disallowed token, or the length when there is none |
| Validate.CheckDisallowed | tests/simple.rs:5-15 | fails exactly when the label holds a Disallowed token, with `Invalid` of the first one's character |
| Validate.ValidatedLabelNotInvalid | src/validate.rs:16-42 | `validate_label` itself never reports `Invalid` |
| Validate.NameLabelInvalid | src/normalizer.rs:29 | a label fails with `Invalid` exactly when it holds a Disallowed token, before any check of `validate_label`; without one, `validate_label` decides |
| Validate.ValidatedLabelsInvalid | src/normalizer.rs:29 | the labels fail with `Invalid` exactly when some label holds a Disallowed token and every earlier label passes; the error is that label's first disallowed character |
| Validate.SpacedNameRejected | tests/simple.rs:15 | `vitalik .eth` fails with `Invalid(" ")`, whatever the tables |
| Validate.CheckFenced | src/validate.rs:94-128 | `check_fenced`; Validate.CheckFencedFails and CheckFencedOrder state when it fails and which error comes first |
| Validate.UnderscoreOnlyAtBeginning | src/validate.rs:54-75 | `underscore_only_at_beginning`; Validate.UnderscoreInMiddleFirst states that it fails exactly at the first `_` after a non-`_` |
| Validate.ValidatedLabelOf | src/validate.rs:16-42 | `validate_label`'s verdict; Validate.ValidateLabel computes it, and ValidateEmptyFirst, ValidateFullyEmoji, ValidateAscii and ValidatedPassedChecks state its outcomes |
| Validate.ValidatedLabelsShape | src/process.rs:43-47 | all labels pass the disallowed check and `validate_label` in order, or the first label's error is returned |
| Validate.ValidateLabels | src/process.rs:43-47 | the loop checks every label in order (disallowed tokens, then `validate_label`), stopping at the first error |
| Validate.ValidateName | src/normalizer.rs:29 | `validate_name`: every label of the tokenized name checked in order; the first label that holds a Disallowed token or fails `validate_label` decides the error |
| Wrappers.CollectResultsOk | src/process.rs:43-47 | all results Ok collect to their values |
| Wrappers.CollectResultsErr | src/process.rs:43-47 | the first error is the collected error |
| Wrappers.CollectResultsShape | src/process.rs:43-47 | collecting results is all values or the first error |
| Join.NormalizedCpsAreTokenCps | src/join.rs:9-17 | the normalised code points of tokens are their `cps()`: Emoji in FE0F-free form, nothing for Disallowed, Ignored and Stop |
| Join.NormalizedCpsDropsUnkept | src/join.rs:9-17 | Disallowed, Ignored and Stop tokens contribute nothing |
| Join.NormalizedLabelsCps | src/join.rs:5-21 | one code-point sequence per label |
| Join.JoinCpsFew | src/join.rs:27-33 | no labels join to the empty string; one label gets no separator |
| Join.JoinCpsCps | src/join.rs:27-33 | the joined string's code points are the labels' code points with one FULL STOP between consecutive labels |
| Join.JoinCpsSplits | src/join.rs:27-33 | splitting the joined string at FULL STOP gives back the labels; there is one stop fewer than labels |
| Join.JoinLabelsCps | src/join.rs:4-24 | the normalised name is the labels' code points in order, with FULL STOP between them |
| Join.JoinLabelsOfName | src/join.rs:4-24 | joining the labels of a name gives back the name's code points with FULL STOP for each Stop token |
| Join.JoinCps | src/join.rs:27-33 | `join_cps`; Join.JoinCpsFew, JoinCpsCps and JoinCpsSplits state what the joined string holds |
| Join.JoinLabels | src/join.rs:4-24 | `join_labels`; Join.JoinLabelsCps and JoinLabelsOfName state what the normalised name holds |
| Beautify.XiReplaced | src/beautify.rs:26-36 | the replacement preserves length |
| Beautify.CpsReplacedGreek | src/beautify.rs:26-36 | the in-place loop over the array replaces as specified |
| Beautify.XiReplacedGreek | src/beautify.rs:27 | the identity for a Greek label |
| Beautify.XiReplacedNotGreek | src/beautify.rs:27-33 | outside Greek labels, every ξ becomes Ξ, nothing else changes, and no ξ remains |
| Beautify.XiReplacedAppend | src/beautify.rs:26-36 | the replacement distributes over concatenation |
| Beautify.XiReplacedIdempotent | src/beautify.rs:26-36 | replacing twice is replacing once |
| Beautify.BeautifiedIsNormalizedReplaced | src/beautify.rs:11-19 | without emoji, the beautified code points are the normalised ones with ξ replaced, and equal to them in Greek labels |
| Beautify.BeautifiedDropsUnkept | src/beautify.rs:16-18 | Ignored, Disallowed and Stop tokens contribute nothing |
| Beautify.EmojiForms | src/beautify.rs:12 | an emoji contributes its pretty form when beautified and its FE0F-free form when normalised |
| Beautify.BeautifyLabels | src/beautify.rs:6-24 | `beautify_labels`, each label's beautified code points joined as `join_cps`; Beautify.BeautifiedIsNormalizedReplaced, BeautifiedDropsUnkept and EmojiForms state what each label contributes |
| Normalizer.Tokenize | src/normalizer.rs:22-24 | always tokenizes with NFC and never fails; keeps the input; the empty input has no tokens |
| Normalizer.ProcessOutcome | src/normalizer.rs:26-31 | a processed name keeps the NFC tokens and one validated label per label, in order, none holding a Disallowed token; it fails exactly with the first failing label's error, and with `Invalid` exactly when some label holds a Disallowed token and every earlier label passes |
| Normalizer.NormalizeIsJoin | src/normalizer.rs:33-45 | `normalize` fails exactly when `process` does, with its error, and otherwise joins the labels |
| Normalizer.BeautifyIsBeautifyLabels | src/normalizer.rs:37-49 | `beautify` fails exactly when `process` does, with its error, and otherwise beautifies the labels |
| Normalizer.NormalizeSpellsTokens | src/normalizer.rs:33-35 | the normalised name spells out the NFC tokens' code points, with FULL STOP where the Stop tokens were |
| Normalizer.Process | src/normalizer.rs:26-31 | `process`: tokenize with NFC, then `validate_name`; Normalizer.ProcessOutcome states its outcomes |
| Normalizer.Normalize | src/normalizer.rs:33-35 | `normalize`; Normalizer.NormalizeIsJoin and NormalizeSpellsTokens state its result |
| Normalizer.Beautify | src/normalizer.rs:37-39 | `beautify`; Normalizer.BeautifyIsBeautifyLabels states its result |
| Normalizer.ProcessedNormalize | src/normalizer.rs:43-45 | `ProcessedName::normalize`, `join_labels` of the labels; Join.JoinLabelsCps states the joined code points |
| Normalizer.ProcessedBeautify | src/normalizer.rs:47-49 | `ProcessedName::beautify`, `beautify_labels` of the labels |

## Left out

- Unicode NFC and NFD (the `unicode_normalization` crate) and the emoji regular expression (the `regex` crate) are foreign. They are function-valued fields of the tables, and nothing is assumed about them.
- Regex match positions are character positions, not byte positions. `Tokenize.MatchesWellFormed` states what the source expects of a match: it lies inside the input, starts anywhere, and covers an emoji with a pretty form. The `expect("emoji should be found")` of src/tokens/tokenize.rs:262-265 becomes that precondition.
- Whole-map `expect`s become preconditions:
  - `Specs.WholeMapLoads`: the keys parse;
  - `ScriptGroups.SelfKeyed`: each whole object lists its own code point;
  - `ScriptGroups.NamesResolve`: each confusable group name resolves;
  - `Normalizer.Expected` bundles those the pipeline needs.
- `HashSet` iteration order is not modelled. Unique code points are kept in first-occurrence order (`Seqs.Dedup`). Set-valued fields are Dafny sets.
- The confusable group that `check_whole` reports is the first candidate that holds every shared code point, in the order of the first whole object's name list. In the source that order is a hash order.
- Error messages are not modelled as text. Errors are the closed datatype of src/error.rs, with their indices and sequences.
- `Tokenize.TokenizeName` and `Normalizer.Tokenize` return the source's `Result`, which never fails.
- The loading code is not part of this model: serde/JSON, `lazy_static`, `Default`, and the `GroupName` serde derivations other than `From<String>`. Tables are given as values. `ParsedWholeObject::try_from` key parsing is modelled; `ParseU32` accepts an optional `+` and rejects anything else that is not decimal digits. The 32-bit upper bound is modelled only by the code-point type.
- The `Deref` of `ValidatedLabel` to its tokens is not modelled. The model reads `label.tokenized.tokens` directly.
- `validate_name` (src/validate.rs) is not part of this model's source files; src/normalizer.rs:29 calls it. `Validate.ValidateName` follows the label loop of src/process.rs:43-47 and adds the rejection of disallowed characters the program's own examples expect (tests/simple.rs:15, tests/e2e.rs:46): in each label, in order, the first Disallowed token fails with `Invalid` of its character, before the checks of `validate_label`. The check comes first in the label, as ENSIP-15 rejects a disallowed character before it validates the label. Before or after the empty-label check makes no difference, since a label that holds a Disallowed token is never empty (`Validate.NameLabelInvalid`); its place before the later checks is the model's choice.
- `DisallowedSequence::InvisibleCharacter` is never raised: no code in this model's source files raises it.
- `CollapseValid.GatherValidRun` folds the `break` of the inner loop into the loop guard.
- Join.JoinLabels and Beautify.BeautifyLabels use the corrected `Utils.Cps2Str`. So do `Specs.CpsIsEmoji`, the NFC rewrite, the `sequence` of every currable error (`Validate.CurrableAt`) and the `Invalid` sequence of `Validate.CheckDisallowed`, so for a supplementary-plane fenced or combining-mark code point the reported sequence is the character itself, not its 16-bit-truncated form. The as-written 16-bit conversion is kept as `Utils.Cps2StrTruncating` (see Findings).
- Normalizer.NormalizeSpellsTokens: stated for names whose normalised code points are all scalar values, because `Cps2Str` drops non-scalar values.
- Tokenizer.EnsTokenize: the tokenizer built on the inspector is modelled with the same NFC rewrite and merge as `tokenize_input`, whose loops it repeats.
- The `tests/`, `examples/` and `tools/unicode-update.py` files, with their I/O, parallel runs and data-dependent expectations, are not part of this model.
- `process.rs`'s older `ProcessedName` with a pre-joined `normalized` field is not modelled; the model follows src/normalizer.rs.

## Findings

| source | as written | input that shows it | evidently intended | confidence | as-written member | corrected member |
|---|---|---|---|---|---|---|
| src/utils.rs:9-16 | `cps2str` casts every code point to 16 bits before lossy UTF-16 decoding, so supplementary-plane code points lose their high bits | `[0x1F525]` (🔥) becomes `"\u{F525}"`, not `"🔥"`; the emoji does not survive `str2cps(cps2str(x))` | `cps2str` is the inverse of `str2cps` on scalar values | not executed | Utils.Cps2StrTruncatingLosesAstral | Utils.Cps2StrRoundTrip |
