/** The completeness check of a candidate sample buffer: the buffer is
    decoded with the stream's filters, and a decoder that raises means the
    buffer is not the whole image. The decoder itself (PdfReader.DecodeBytes
    and the default filter handlers) is a parameter. */
module Completeness {
  import opened PdfObjects

  /** A filter handler: the decoded bytes, or None when it raises. */
  type FilterHandler = seq<Byte> -> Option<seq<Byte>>

  /** PdfReader.DecodeBytes: decodes the samples with the filters of the
      dictionary using the given handler table; None when it raises. */
  type Decoder = (seq<Byte>, PdfDictionary, map<string, FilterHandler>) -> Option<seq<Byte>>

  /** The decoding environment: the library's default handler table and its
      decoder. */
  datatype FilterContext = FilterContext(defaults: map<string, FilterHandler>, decode: Decoder)

  /** DoNothingFilter: returns its input. */
  const PassThrough: FilterHandler := (b: seq<Byte>) => Some(b)

  /** The filters the library cannot decode, checked as pass-through. */
  const UncheckedFilters: set<string> := {DCTDecode, JBIG2Decode, JPXDecode}

  /** The handler table of the check: a copy of the defaults with the three
      undecodable filters replaced by the pass-through stub. */
  function CheckHandlers(defaults: map<string, FilterHandler>): (h: map<string, FilterHandler>)
    ensures h.Keys == defaults.Keys + UncheckedFilters
    ensures forall f :: f in UncheckedFilters ==> h[f] == PassThrough
    ensures forall f :: f in defaults && f !in UncheckedFilters ==> h[f] == defaults[f]
  {
    defaults[DCTDecode := PassThrough][JBIG2Decode := PassThrough][JPXDecode := PassThrough]
  }

  /** InlineImageStreamBytesAreComplete: whether decoding the candidate
      returns; any exception of the decoder becomes false. */
  function InlineImageStreamBytesAreComplete(samples: seq<Byte>, dict: PdfDictionary, ctx: FilterContext): (r: bool)
    ensures r <==> ctx.decode(samples, dict, CheckHandlers(ctx.defaults)).Some?
  {
    match ctx.decode(samples, dict, CheckHandlers(ctx.defaults))
    case None => false
    case Some(_) => true
  }

  /** Under the check, each of the three undecodable filters returns its
      input unchanged, whatever the defaults say. */
  lemma UncheckedFiltersPassThrough(defaults: map<string, FilterHandler>, f: string, b: seq<Byte>)
    requires f in UncheckedFilters
    ensures f in CheckHandlers(defaults) && CheckHandlers(defaults)[f](b) == Some(b)
  {
  }

  /** The check does not depend on what the defaults hold for the three
      undecodable filters: two default tables that agree elsewhere give the
      same verdict on every candidate. */
  lemma CheckIgnoresDefaultsForUncheckedFilters(samples: seq<Byte>, dict: PdfDictionary,
                                                d1: map<string, FilterHandler>, d2: map<string, FilterHandler>,
                                                decode: Decoder)
    requires d1.Keys + UncheckedFilters == d2.Keys + UncheckedFilters
    requires forall f :: f in d1 && f in d2 && f !in UncheckedFilters ==> d1[f] == d2[f]
    ensures InlineImageStreamBytesAreComplete(samples, dict, FilterContext(d1, decode))
        == InlineImageStreamBytesAreComplete(samples, dict, FilterContext(d2, decode))
  {
    assert CheckHandlers(d1) == CheckHandlers(d2);
  }
}
