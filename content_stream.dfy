/** The content stream the inline-image reader consumes: a byte sequence read
    through one cursor, either a byte at a time (PdfTokenizer.Read) or a whole
    object at a time (PdfCanvasParser.ReadObject). */
module ContentStreams {
  import opened PdfObjects

  /** An object read by the content-stream parser and the position just after
      its last byte (the delimiter that ends a keyword is not consumed). */
  datatype Lexed = Lexed(token: PdfObject, next: nat)

  /** The content-stream parser, seen from outside: from a position, the next
      object, or None when only whitespace and comments are left. An object
      spans at least one byte and ends inside the stream. */
  type Lexer = f: (seq<Byte>, nat) -> Option<Lexed>
    | forall data: seq<Byte>, pos: nat :: pos <= |data| && f(data, pos).Some? ==>
        pos < f(data, pos).value.next <= |data|
    witness (data: seq<Byte>, pos: nat) => None

  /** The value PdfTokenizer.Read returns at `pos`: the byte, or -1 at the end. */
  function ByteAt(data: seq<Byte>, pos: nat): (ch: int)
    ensures -1 <= ch < 256
    ensures ch == -1 <==> pos >= |data|
  {
    if pos < |data| then data[pos] else -1
  }

  /** The cursor after PdfTokenizer.Read: one further, except at the end. */
  function AfterByte(data: seq<Byte>, pos: nat): nat {
    if pos < |data| then pos + 1 else pos
  }

  /** PdfCanvasParser.ReadObject at `pos`. */
  function ObjectAt(lex: Lexer, data: seq<Byte>, pos: nat): (r: Option<Lexed>)
    requires pos <= |data|
    ensures r.Some? ==> pos < r.value.next <= |data|
    ensures pos == |data| ==> r.None?
  {
    lex(data, pos)
  }

  /** The cursor after PdfCanvasParser.ReadObject: past the object, or at the
      end when there was none. */
  function AfterObject(lex: Lexer, data: seq<Byte>, pos: nat): (p: nat)
    requires pos <= |data|
    ensures pos <= p <= |data|
    ensures p == pos ==> pos == |data|
  {
    match ObjectAt(lex, data, pos)
    case None => |data|
    case Some(l) => l.next
  }

  /** The object PdfCanvasParser.ReadObject returns at `pos` (None for null). */
  function TokenAt(lex: Lexer, data: seq<Byte>, pos: nat): Option<PdfObject>
    requires pos <= |data|
  {
    match ObjectAt(lex, data, pos)
    case None => None
    case Some(l) => Some(l.token)
  }

  /** The parser and tokenizer of one content stream, sharing one cursor. */
  class ContentStream {
    const data: seq<Byte>
    const lex: Lexer
    var pos: nat

    ghost predicate Valid()
      reads this
    {
      pos <= |data|
    }

    constructor (data: seq<Byte>, lex: Lexer)
      ensures Valid()
      ensures this.data == data && this.lex == lex && pos == 0
    {
      this.data := data;
      this.lex := lex;
      pos := 0;
    }

    /** PdfTokenizer.Read: the next byte, or -1 at the end of the stream. */
    method Read() returns (ch: int)
      requires Valid()
      modifies this`pos
      ensures Valid()
      ensures ch == ByteAt(data, old(pos))
      ensures pos == AfterByte(data, old(pos))
    {
      if pos < |data| {
        ch := data[pos];
        pos := pos + 1;
      } else {
        ch := -1;
      }
    }

    /** PdfCanvasParser.ReadObject: the next object, or None (null) at the end. */
    method ReadObject() returns (o: Option<PdfObject>)
      requires Valid()
      modifies this`pos
      ensures Valid()
      ensures o == TokenAt(lex, data, old(pos))
      ensures pos == AfterObject(lex, data, old(pos))
    {
      match lex(data, pos)
      case None =>
        o := None;
        pos := |data|;
      case Some(l) =>
        o := Some(l.token);
        pos := l.next;
    }
  }
}
