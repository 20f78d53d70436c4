/**
 * What the ini-style parser hands back for one unit file: either the parsed
 * document (sections in file order, each with its attributes in file order)
 * or the kind of failure it raised.
 */
module UnitDocument {

  datatype Attribute = Attribute(key: string, value: string)

  datatype Section = Section(name: string, attrs: seq<Attribute>)

  /** The parsed document, as its sections are listed by the parser
      (this listing includes the synthetic `DEFAULT` section). */
  type Doc = seq<Section>

  datatype ParseOutcome =
      /** `MissingSectionHeaderError` with its message. */
    | HeaderError(message: string)
      /** `ParsingError` with its message. */
    | ParsingFault(message: string)
      /** `UnicodeDecodeError`: the content is not text. */
    | DecodeError
      /** The file parsed. */
    | Parsed(doc: Doc)

  /** The section names of a document, in document order. */
  function SectionNames(doc: Doc): seq<string> {
    seq(|doc|, i requires 0 <= i < |doc| => doc[i].name)
  }

  /** The first element of `message.split('\n')`: the text before the first
      line break, or the whole message when it has none. */
  function FirstLine(message: string): (r: string)
    ensures r <= message
    ensures '\n' !in r
    ensures |r| < |message| ==> message[|r|] == '\n'
  {
    if message == [] || message[0] == '\n' then []
    else [message[0]] + FirstLine(message[1..])
  }
}
