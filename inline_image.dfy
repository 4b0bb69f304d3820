/** Parsing one inline image (section 8.9.7 of ISO 32000-1): the dictionary
    between BI and ID, then the samples, read either by count (no filter and
    a known colour space) or by scanning for EI. */
module InlineImageParsing {
  import opened PdfObjects
  import opened ContentStreams
  import opened RowSize
  import opened DictionaryReader
  import opened UnfilteredReader
  import opened Completeness
  import opened SampleScanner

  /** The parsed image: its dictionary (keys and values normalised) and its
      sample bytes, still encoded. */
  datatype InlineImage = InlineImage(dict: PdfDictionary, samples: seq<Byte>)

  /** ImageColorSpaceIsKnown: the colour space is absent (or not a name), a
      device space, or a key of the resource dictionary. Whenever the
      components per pixel can be worked out the colour space is known; when
      it is not known, working them out fails with the colour-space error. */
  function ImageColorSpaceIsKnown(dict: PdfDictionary, csDic: Option<PdfDictionary>): (r: bool)
    ensures GetAsName(dict, ColorSpace).None? ==> r
    ensures ComponentsPerPixel(GetAsName(dict, ColorSpace), csDic).Ok? ==> r
    ensures !r ==> ComponentsPerPixel(GetAsName(dict, ColorSpace), csDic)
                   == Err(UnexpectedColorSpace(GetAsName(dict, ColorSpace).value))
  {
    var cs := GetAsName(dict, ColorSpace);
    cs.None? || IsDeviceSpace(cs.value) || (csDic.Some? && cs.value in csDic.value)
  }

  /** Known is weaker than resolvable: a resource entry that is an array not
      starting with Indexed is known, so the counting reader runs, and then
      fails on the colour space. */
  lemma KnownButUnresolvable()
    ensures var dict := map[ColorSpace := Name("CS0")];
      var csDic := Some(map["CS0" := Array([Name("ICCBased")])]);
      && ImageColorSpaceIsKnown(dict, csDic)
      && ComponentsPerPixel(GetAsName(dict, ColorSpace), csDic) == Err(UnexpectedColorSpace("CS0"))
  {
    var csDic := map["CS0" := Array([Name("ICCBased")])];
    assert !IsDeviceSpace("CS0");
    assert csDic["CS0"].items[0] != Name(Indexed);
  }

  /** Whether the samples are read by count rather than by scanning. */
  predicate ReadsByCount(dict: PdfDictionary, csDic: Option<PdfDictionary>) {
    Filter !in dict && ImageColorSpaceIsKnown(dict, csDic)
  }

  /** ParseSamples from `pos`. */
  function SamplesSpec(dict: PdfDictionary, csDic: Option<PdfDictionary>, ctx: FilterContext,
                       lex: Lexer, data: seq<Byte>, pos: nat): (r: Outcome<seq<Byte>>)
    requires pos <= |data|
    ensures pos <= r.next <= |data|
    ensures r.result.Ok? && ReadsByCount(dict, csDic) ==> SampleCount(dict, csDic) == Ok(|r.result.value|)
    ensures r.result.Ok? && !ReadsByCount(dict, csDic) ==> InlineImageStreamBytesAreComplete(r.result.value, dict, ctx)
    ensures r.result.Err? && !ReadsByCount(dict, csDic) ==> r == Outcome(Err(CannotFindImageDataOrEI), |data|)
  {
    if ReadsByCount(dict, csDic) then UnfilteredSamples(dict, csDic, lex, data, pos)
    else ScanEI(data, pos, 0, [], [], dict, ctx)
  }

  /** ParseSamples: the counting reader when there is no filter and the
      colour space is known, else the scan for EI. */
  method ParseSamples(dict: PdfDictionary, csDic: Option<PdfDictionary>, ctx: FilterContext, ps: ContentStream)
    returns (r: Result<seq<Byte>>)
    requires ps.Valid()
    modifies ps
    ensures ps.Valid()
    ensures Outcome(r, ps.pos) == SamplesSpec(dict, csDic, ctx, ps.lex, ps.data, old(ps.pos))
  {
    if Filter !in dict && ImageColorSpaceIsKnown(dict, csDic) {
      r := ParseUnfilteredSamples(dict, csDic, ps);
    } else {
      r := ScanSamples(dict, ctx, ps);
    }
  }

  /** What ParseSamples returns: by count, exactly SampleCount bytes from the
      first sample byte, followed by EI; by scanning, a prefix followed by a
      whitespace-delimited EI and accepted by the completeness check. A scan
      that fails has run to the end of the stream. */
  lemma SamplesResult(dict: PdfDictionary, csDic: Option<PdfDictionary>, ctx: FilterContext,
                      lex: Lexer, data: seq<Byte>, pos: nat)
    requires pos <= |data|
    ensures var o := SamplesSpec(dict, csDic, ctx, lex, data, pos);
      && (ReadsByCount(dict, csDic) && o.result.Ok? ==>
            var b := o.result.value;
            var s := FirstSample(data, pos);
            && SampleCount(dict, csDic) == Ok(|b|)
            && s + |b| <= |data| && b == data[s..s + |b|])
      && (!ReadsByCount(dict, csDic) && o.result.Ok? ==>
            var b := o.result.value;
            && o.next == pos + |b| + 4 <= |data|
            && data[pos..pos + |b|] == b
            && TerminatorAt(data, pos + |b|)
            && InlineImageStreamBytesAreComplete(b, dict, ctx))
      && (!ReadsByCount(dict, csDic) && o.result.Err? ==>
            o == Outcome(Err(CannotFindImageDataOrEI), |data|))
  {
    if ReadsByCount(dict, csDic) {
      if SamplesSpec(dict, csDic, ctx, lex, data, pos).result.Ok? {
        UnfilteredPayload(dict, csDic, lex, data, pos);
      }
    } else {
      ScanResult(data, pos, dict, ctx);
    }
  }

  /** Parse from `pos`, just after BI. */
  function ParseSpec(csDic: Option<PdfDictionary>, ctx: FilterContext,
                     lex: Lexer, data: seq<Byte>, pos: nat): (r: Outcome<InlineImage>)
    requires pos <= |data|
    ensures pos <= r.next <= |data|
    ensures r.result.Ok? ==> pos < r.next && ParseDictionarySpec(lex, data, pos).result == Ok(r.result.value.dict)
    ensures ParseDictionarySpec(lex, data, pos).result.Err? ==>
      r.result == Err(ParseDictionarySpec(lex, data, pos).result.error) && r.next == ParseDictionarySpec(lex, data, pos).next
  {
    var d := ParseDictionarySpec(lex, data, pos);
    match d.result
    case Err(e) => Outcome(Err(e), d.next)
    case Ok(dict) =>
      var s := SamplesSpec(dict, csDic, ctx, lex, data, d.next);
      match s.result
      case Err(e) => Outcome(Err(e), s.next)
      case Ok(samples) => Outcome(Ok(InlineImage(dict, samples)), s.next)
  }

  /** Parse: the dictionary, then the samples read according to it. */
  method Parse(ps: ContentStream, csDic: Option<PdfDictionary>, ctx: FilterContext) returns (r: Result<InlineImage>)
    requires ps.Valid()
    modifies ps
    ensures ps.Valid()
    ensures Outcome(r, ps.pos) == ParseSpec(csDic, ctx, ps.lex, ps.data, old(ps.pos))
  {
    var dict :- ParseDictionary(ps);
    var samples :- ParseSamples(dict, csDic, ctx, ps);
    return Ok(InlineImage(dict, samples));
  }

  /** A parsed image holds the pairs read up to ID, stored under resolved
      keys, and the samples that follow the whitespace byte after ID. */
  lemma ParseResult(csDic: Option<PdfDictionary>, ctx: FilterContext, lex: Lexer, data: seq<Byte>, pos: nat)
    requires pos <= |data|
    requires ParseSpec(csDic, ctx, lex, data, pos).result.Ok?
    ensures var img := ParseSpec(csDic, ctx, lex, data, pos).result.value;
      var e := ReadEntries(lex, data, pos);
      && e.stop == AtID && e.next < |data| && IsWhitespace(data[e.next])
      && img.dict == BuildDictionary(e.pairs)
      && SamplesSpec(img.dict, csDic, ctx, lex, data, e.next + 1).result == Ok(img.samples)
  {
    ParseDictionaryOutcome(lex, data, pos);
  }

  /** `b` is taken from the bytes at `q`, after skipping one whitespace byte
      other than NUL. */
  predicate SamplesAfterSeparator(data: seq<Byte>, q: nat, b: seq<Byte>) {
    && q < |data|
    && if IsWhitespace(data[q]) && data[q] != 0 then q + 1 + |b| <= |data| && b == data[q + 1..q + 1 + |b|]
       else q + |b| <= |data| && b == data[q..q + |b|]
  }

  /** The counting reader's separator: a whitespace byte (other than NUL) at
      `q` is skipped and the samples start after it; any other byte is the
      first sample. */
  lemma SeparatorSkipped(dict: PdfDictionary, csDic: Option<PdfDictionary>, lex: Lexer, data: seq<Byte>, q: nat)
    requires q <= |data|
    requires UnfilteredSamples(dict, csDic, lex, data, q).result.Ok?
    ensures SamplesAfterSeparator(data, q, UnfilteredSamples(dict, csDic, lex, data, q).result.value)
  {
    UnfilteredPayload(dict, csDic, lex, data, q);
  }

  /** The whitespace byte that ends ID is consumed by the dictionary reader,
      and the counting reader then reads one more byte as the separator: when
      the first sample byte is itself whitespace (other than NUL) it is
      skipped, and the samples are taken from the byte after it. */
  lemma SeparatorReadTwice(csDic: Option<PdfDictionary>, ctx: FilterContext, lex: Lexer, data: seq<Byte>, pos: nat)
    requires pos <= |data|
    requires ParseSpec(csDic, ctx, lex, data, pos).result.Ok?
    requires ReadsByCount(ParseSpec(csDic, ctx, lex, data, pos).result.value.dict, csDic)
    ensures ReadEntries(lex, data, pos).next < |data| && IsWhitespace(data[ReadEntries(lex, data, pos).next])
    ensures SamplesAfterSeparator(data, ReadEntries(lex, data, pos).next + 1,
                                  ParseSpec(csDic, ctx, lex, data, pos).result.value.samples)
  {
    var img := ParseSpec(csDic, ctx, lex, data, pos).result.value;
    var q := ReadEntries(lex, data, pos).next + 1;
    ParseResult(csDic, ctx, lex, data, pos);
    assert UnfilteredSamples(img.dict, csDic, lex, data, q).result == Ok(img.samples);
    SeparatorSkipped(img.dict, csDic, lex, data, q);
  }
}
