/**
 * The diagnostics one validation run produces. They are plain values: two
 * diagnostics with the same fields are the same diagnostic.
 */
module Diagnostics {

  datatype Error =
      /** The unit file could not be parsed as ini-style text. */
    | SyntaxError(message: string, line: int, file: string)
      /** A section the template declares mandatory is absent. */
    | SectionMissing(section: string, file: string)
      /** A section name the template's rule set does not know. */
    | InvalidSection(section: string, line: int, file: string)
      /** A finding reported by a section validator about one attribute;
          its kind and wording belong to the validator. */
    | Attr(kind: string, message: string, line: int, file: string)
}
