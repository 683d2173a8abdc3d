/** Code points the pipeline singles out (src/constants.rs). */
module Constants {
  import opened Utils

  /** FULL STOP, the label separator. */
  const CP_STOP: CodePoint := 0x2E
  const CP_UNDERSCORE: CodePoint := 0x5F
  const CP_HYPHEN: CodePoint := 0x2D
  /** GREEK SMALL LETTER XI and GREEK CAPITAL LETTER XI. */
  const CP_XI_SMALL: CodePoint := 0x3BE
  const CP_XI_CAPITAL: CodePoint := 0x39E
}
