/** PDF objects as the inline-image reader sees them, the bytes of a content
    stream, the whitespace class of the tokenizer, and the errors the reader
    raises. */
module PdfObjects {

  /** One byte of a content stream. */
  type Byte = b: int | 0 <= b < 256

  datatype Option<+T> = None | Some(value: T)

  /** A PDF object produced by the content-stream parser. An operator keyword
      (`ID`, `EI`, ...) is read as an `Operator`. */
  datatype PdfObject =
    | Null
    | Boolean(flag: bool)
    | Number(value: int)
    | Name(name: string)
    | Str(text: string)
    | Array(items: seq<PdfObject>)
    | Dictionary(entries: map<string, PdfObject>)
    | Operator(keyword: string)

  /** A PDF dictionary, keyed by name (without the leading solidus). */
  type PdfDictionary = map<string, PdfObject>

  /** The exceptions the inline-image reader can raise. */
  datatype ParseError =
    | UnexpectedCharacterAfterID(ch: int)    // InlineImageParseException, the byte after ID
    | InvalidCast                            // a dictionary key that is not a name
    | UnexpectedColorSpace(name: string)     // InlineImageParseException
    | ColorSpaceCycle(name: string)          // the source recurses without end here
    | IndexOutOfRange                        // PdfArray.Get(0) on [], bytes[0] on an empty buffer
    | NullReference(what: string)            // a missing Width/Height or a token read at the end
    | NegativeArraySize                      // new byte[n] with n < 0
    | FilterPresent                          // ArgumentException("Dictionary contains filters")
    | EndOfContentBeforeEndOfImageData       // InlineImageParseException
    | EINotFoundAfterEndOfImageData          // InlineImageParseException
    | CannotFindImageDataOrEI                // InlineImageParseException
    | KeyNotFound(key: string)               // .NET dictionary indexer on a missing key

  datatype Result<+T> = Ok(value: T) | Err(error: ParseError) {
    predicate IsFailure() { Err? }
    function PropagateFailure<U>(): Result<U> requires Err? { Err(error) }
    function Extract(): T requires Ok? { value }
  }

  /** A result together with the position of the stream cursor afterwards. */
  datatype Outcome<+T> = Outcome(result: Result<T>, next: nat)

  // Canonical image dictionary keys.
  const BitsPerComponent := "BitsPerComponent"
  const ColorSpace := "ColorSpace"
  const Decode := "Decode"
  const DecodeParms := "DecodeParms"
  const Filter := "Filter"
  const Height := "Height"
  const ImageMask := "ImageMask"
  const Intent := "Intent"
  const Interpolate := "Interpolate"
  const Width := "Width"

  // Colour-space names.
  const DeviceGray := "DeviceGray"
  const DeviceRGB := "DeviceRGB"
  const DeviceCMYK := "DeviceCMYK"
  const Indexed := "Indexed"

  // Filter names.
  const ASCIIHexDecode := "ASCIIHexDecode"
  const ASCII85Decode := "ASCII85Decode"
  const LZWDecode := "LZWDecode"
  const FlateDecode := "FlateDecode"
  const RunLengthDecode := "RunLengthDecode"
  const CCITTFaxDecode := "CCITTFaxDecode"
  const DCTDecode := "DCTDecode"
  const JBIG2Decode := "JBIG2Decode"
  const JPXDecode := "JPXDecode"

  /** PdfTokenizer.IsWhitespace: NUL, tab, line feed, form feed, carriage
      return and space (the white-space characters of section 7.2.2 of
      ISO 32000-1). End of stream (-1) is not whitespace. */
  predicate IsWhitespace(ch: int) {
    ch == 0 || ch == 9 || ch == 10 || ch == 12 || ch == 13 || ch == 32
  }

  /** Whether the printed form of `o` (its ToString) is the keyword `word`.
      An operator prints as its keyword and a string as its text; a name
      prints with a leading solidus, booleans and null as true, false and
      null. Numbers, arrays and dictionaries print starting with a digit, a
      sign, a point, '[' or '<<', so never as a keyword made of letters. */
  predicate PrintsAs(o: PdfObject, word: string) {
    match o
    case Operator(k) => k == word
    case Str(s) => s == word
    case Name(n) => word == "/" + n
    case Boolean(b) => word == (if b then "true" else "false")
    case Null => word == "null"
    case _ => false
  }

  /** PdfDictionary.GetAsName: the entry if it is a name, else null. */
  function GetAsName(d: PdfDictionary, key: string): (r: Option<string>)
    ensures r.Some? <==> key in d && d[key].Name?
    ensures r.Some? ==> d[key] == Name(r.value)
  {
    if key in d && d[key].Name? then Some(d[key].name) else None
  }

  /** PdfDictionary.GetAsNumber: the entry if it is a number, else null. */
  function GetAsNumber(d: PdfDictionary, key: string): (r: Option<int>)
    ensures r.Some? <==> key in d && d[key].Number?
    ensures r.Some? ==> d[key] == Number(r.value)
  {
    if key in d && d[key].Number? then Some(d[key].value) else None
  }
}
