/**
  The vocabulary shared by the scanners and the parser object: the errors
  the parser throws, the two callbacks it makes, and the configuration fixed
  at construction.
 */
module MultipartTypes {
  import opened Bytes

  /** A part's headers as the header-line parser returns them: name to value. */
  type HeaderMap = map<seq<byte>, seq<byte>>

  /** The header-line parser, which this model does not open up. */
  type HeaderParser = seq<byte> -> HeaderMap

  /**
    The caret's enclosed-string reader: given the text starting at an opening
    quote and the quote byte, the enclosed value, or None when it cannot be read.
   */
  type EnclosedParser = (seq<byte>, byte) -> Option<seq<byte>>

  /** One error per `throw` of the source. */
  datatype ParseError =
    | MissingDispositionHeader    // no Content-Disposition header
    | MissingPartName             // no `name=` in Content-Disposition
    | UnparsablePartName          // a quoted name the caret cannot read
    | UnexpectedBoundaryByte      // boundary mismatch outside a body
    | InvalidCharAfterBoundary    // first byte after a delimiter is neither '-' nor CR
    | InvalidTrailingChar         // second byte after a delimiter does not fit the first

  /** The two callbacks, recorded in the order they are made. */
  datatype Event = PartHeaders(name: seq<byte>) | PartData(bytes: seq<byte>)

  datatype Result<T> = Ok(value: T) | Err(error: ParseError)

  /** What the parser is given at construction and never changes. */
  datatype Config = Config(
    firstBoundarySample: seq<byte>,
    nextBoundarySample: seq<byte>,
    parseHeaders: HeaderParser,
    parseEnclosed: EnclosedParser)

  predicate ValidConfig(cfg: Config)
  {
    |cfg.firstBoundarySample| > 0 && |cfg.nextBoundarySample| > 0
  }

  /** The body bytes carried by a sequence of events, in order. */
  function DataBytes(events: seq<Event>): (r: seq<byte>)
    ensures (forall k :: 0 <= k < |events| ==> events[k].PartHeaders?) ==> r == []
  {
    if events == [] then []
    else
      var last := events[|events| - 1];
      DataBytes(events[..|events| - 1]) + (if last.PartData? then last.bytes else [])
  }
}
