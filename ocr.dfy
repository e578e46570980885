/** What both variants share around the OCR engine, which itself is not modelled. */
module Ocr {

  /**
   * How the image-loading, engine-initialisation and recognition steps of
   * `performOCR` end: the image could not be read, the engine could not be
   * initialised, or the engine returned this UTF-8 text. The engine hands
   * the text over as a C string, so it ends at its first NUL and holds none.
   */
  datatype OcrOutcome = ImageNotFound | EngineInitFailed | Recognized(text: EngineText)

  /** A string as read up to its terminating NUL: no NUL inside. */
  type EngineText = s: string | '\0' !in s

  /** The diagnostic `performOCR` prints when a step fails; nothing when text was recognised. */
  function Diagnostic(outcome: OcrOutcome): string {
    match outcome
    case ImageNotFound => "Could not open or find the image\n"
    case EngineInitFailed => "Could not initialize tesseract.\n"
    case Recognized(_) => ""
  }

  /** What both variants print once the result file has been written. */
  function SavedMessage(filename: string): string {
    "OCR result saved to " + filename + "\n"
  }

  /** What both variants print when the result file cannot be opened for writing. */
  const WriteFailure: string := "Could not open the file for writing.\n"

  /** The answer to "load the saved OCR result?" that asks for it: 'y' or 'Y' and nothing else. */
  predicate WantsReadBack(option: char) {
    option == 'y' || option == 'Y'
  }
}
