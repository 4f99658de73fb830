/** `TextProcessor.validate_text_length`: the input-size gate of the
    application. */
module Validation {
  import Config
  import Cleaning
  import TextBasics

  /** `len(text) <= MAX_TEXT_LENGTH`. */
  function ValidateTextLength(text: string): (ok: bool)
    ensures ok <==> |text| <= Config.MaxTextLength
  {
    |text| <= Config.MaxTextLength
  }

  /** Cleaning never lengthens a text, so a text that passes the gate still
      passes it once cleaned. */
  lemma CleanedStaysValid(wc: TextBasics.WordClass, text: string)
    requires ValidateTextLength(text)
    ensures ValidateTextLength(Cleaning.CleanText(wc, text))
  {
  }
}
