/** The unfiltered sample reader: with no Filter, the sample data is exactly
    bytesPerRow * Height bytes, read one by one, followed by the EI keyword. */
module UnfilteredReader {
  import opened PdfObjects
  import opened ContentStreams
  import opened RowSize

  /** The number of sample bytes: bytes per row times Height. The row size
      is computed before Height is dereferenced. */
  function SampleCount(dict: PdfDictionary, csDic: Option<PdfDictionary>): (r: Result<int>)
    ensures r.Ok? ==> ComputeBytesPerRow(dict, csDic).Ok? && GetAsNumber(dict, Height).Some?
    ensures r.Ok? ==> r.value == ComputeBytesPerRow(dict, csDic).value * GetAsNumber(dict, Height).value
  {
    var bpr :- ComputeBytesPerRow(dict, csDic);
    match GetAsNumber(dict, Height)
    case None => Err(NullReference(Height))
    case Some(h) => Ok(bpr * h)
  }

  /** Whether the byte read where the separating whitespace should be is kept
      as the first sample byte: it is not whitespace, or it is NUL (which the
      tokenizer counts as whitespace but the reader does not). */
  predicate KeepsFirstByte(ch: int) {
    !IsWhitespace(ch) || ch == 0
  }

  /** The EI check after the samples: the next object must print as EI, or,
      failing that, the one after it (one stray object is tolerated). A null
      object (end of stream) is dereferenced. */
  function EndMarker(lex: Lexer, data: seq<Byte>, q: nat, samples: seq<Byte>): (r: Outcome<seq<Byte>>)
    requires q <= |data|
    ensures q <= r.next <= |data|
    ensures r.result.Ok? ==> r.result.value == samples && q < r.next
    ensures r.result.Err? ==> r.result.error in {NullReference("EI"), EINotFoundAfterEndOfImageData}
    ensures q == |data| ==> r == Outcome(Err(NullReference("EI")), |data|)
  {
    match TokenAt(lex, data, q)
    case None => Outcome(Err(NullReference("EI")), |data|)
    case Some(t) =>
      var q1 := AfterObject(lex, data, q);
      if PrintsAs(t, "EI") then Outcome(Ok(samples), q1)
      else
        match TokenAt(lex, data, q1)
        case None => Outcome(Err(NullReference("EI")), |data|)
        case Some(t2) =>
          if PrintsAs(t2, "EI") then Outcome(Ok(samples), AfterObject(lex, data, q1))
          else Outcome(Err(EINotFoundAfterEndOfImageData), AfterObject(lex, data, q1))
  }

  /** ParseUnfilteredSamples from `pos`. */
  function UnfilteredSamples(dict: PdfDictionary, csDic: Option<PdfDictionary>,
                             lex: Lexer, data: seq<Byte>, pos: nat): (r: Outcome<seq<Byte>>)
    requires pos <= |data|
    ensures pos <= r.next <= |data|
    ensures r.result.Ok? ==> Filter !in dict && SampleCount(dict, csDic) == Ok(|r.result.value|)
    ensures Filter in dict ==> r == Outcome(Err(FilterPresent), pos)
  {
    if Filter in dict then Outcome(Err(FilterPresent), pos)
    else
      match SampleCount(dict, csDic)
      case Err(e) => Outcome(Err(e), pos)
      case Ok(n) =>
        if n < 0 then Outcome(Err(NegativeArraySize), pos)
        else ReadSamples(n, lex, data, pos)
  }

  /** The reads of ParseUnfilteredSamples once the buffer of `n` bytes is
      allocated: the byte where the separator should be, the remaining sample
      bytes, then the EI check. */
  function ReadSamples(n: nat, lex: Lexer, data: seq<Byte>, pos: nat): (r: Outcome<seq<Byte>>)
    requires pos <= |data|
    ensures pos <= r.next <= |data|
    ensures r.result.Ok? ==> |r.result.value| == n && pos < r.next
    ensures pos + n > |data| ==> r.result.Err?
  {
    var first := ByteAt(data, pos);
    var p1 := AfterByte(data, pos);
    var kept := KeepsFirstByte(first);
    if kept && n == 0 then Outcome(Err(IndexOutOfRange), p1)
    else
      var m := if kept then n - 1 else n;
      if p1 + m > |data| then Outcome(Err(EndOfContentBeforeEndOfImageData), |data|)
      else
        // An unchecked (byte) cast: the end-of-stream value -1 would become 255.
        var head: seq<Byte> := if kept then [first % 256] else [];
        EndMarker(lex, data, p1 + m, head + data[p1..p1 + m])
  }

  /** Once all sample bytes are in, ReadSamples is the EI check. */
  lemma ReadSamplesFilled(n: nat, lex: Lexer, data: seq<Byte>, pos: nat, q: nat, samples: seq<Byte>)
    requires pos <= |data|
    requires var kept := KeepsFirstByte(ByteAt(data, pos));
      var p1 := AfterByte(data, pos);
      var head: seq<Byte> := if kept then [ByteAt(data, pos) % 256] else [];
      && !(kept && n == 0)
      && q == p1 + (if kept then n - 1 else n) <= |data|
      && samples == head + data[p1..q]
    ensures ReadSamples(n, lex, data, pos) == EndMarker(lex, data, q, samples)
  {
  }

  /** ParseUnfilteredSamples, reading from `ps` into a fresh buffer. */
  method ParseUnfilteredSamples(dict: PdfDictionary, csDic: Option<PdfDictionary>, ps: ContentStream)
    returns (r: Result<seq<Byte>>)
    requires ps.Valid()
    modifies ps
    ensures ps.Valid()
    ensures Outcome(r, ps.pos) == UnfilteredSamples(dict, csDic, ps.lex, ps.data, old(ps.pos))
  {
    if Filter in dict {
      return Err(FilterPresent);
    }
    var count := SampleCount(dict, csDic);
    if count.Err? {
      return Err(count.error);
    }
    var bytesToRead := count.value;
    if bytesToRead < 0 {
      return Err(NegativeArraySize);
    }
    r := ReadSampleBytes(bytesToRead, ps);
  }

  /** The reading part of ParseUnfilteredSamples: fills a buffer of
      `bytesToRead` bytes, then checks for EI. */
  method ReadSampleBytes(bytesToRead: nat, ps: ContentStream) returns (r: Result<seq<Byte>>)
    requires ps.Valid()
    modifies ps
    ensures ps.Valid()
    ensures Outcome(r, ps.pos) == ReadSamples(bytesToRead, ps.lex, ps.data, old(ps.pos))
  {
    var bytes := new Byte[bytesToRead];
    ghost var pos0 := ps.pos;
    var shouldBeWhiteSpace := ps.Read();
    var startIndex := 0;
    if !IsWhitespace(shouldBeWhiteSpace) || shouldBeWhiteSpace == 0 {
      if bytesToRead == 0 {
        return Err(IndexOutOfRange);
      }
      bytes[0] := shouldBeWhiteSpace % 256;
      startIndex := 1;
    }
    ghost var p1 := ps.pos;
    for i := startIndex to bytesToRead
      invariant ps.Valid()
      invariant ps.pos == p1 + (i - startIndex)
      invariant bytes[startIndex..i] == ps.data[p1..ps.pos]
      invariant startIndex == 1 ==> bytes[0] == shouldBeWhiteSpace % 256
    {
      var ch := ps.Read();
      if ch == -1 {
        return Err(EndOfContentBeforeEndOfImageData);
      }
      bytes[i] := ch;
    }
    ghost var head: seq<Byte> := if startIndex == 1 then [shouldBeWhiteSpace % 256] else [];
    assert bytes[..] == head + bytes[startIndex..];
    ReadSamplesFilled(bytesToRead, ps.lex, ps.data, pos0, ps.pos, bytes[..]);
    r := ReadEndMarker(bytes[..], ps);
  }

  /** The EI check of ParseUnfilteredSamples. */
  method ReadEndMarker(samples: seq<Byte>, ps: ContentStream) returns (r: Result<seq<Byte>>)
    requires ps.Valid()
    modifies ps
    ensures ps.Valid()
    ensures Outcome(r, ps.pos) == EndMarker(ps.lex, ps.data, old(ps.pos), samples)
  {
    var ei := ps.ReadObject();
    if ei.None? {
      return Err(NullReference("EI"));
    }
    if !PrintsAs(ei.value, "EI") {
      // Some producers put one more non-whitespace character after the data.
      var ei2 := ps.ReadObject();
      if ei2.None? {
        return Err(NullReference("EI"));
      }
      if !PrintsAs(ei2.value, "EI") {
        return Err(EINotFoundAfterEndOfImageData);
      }
    }
    return Ok(samples);
  }

  /** Where the first sample byte is: at `pos` when the byte there is kept,
      else just after it. */
  function FirstSample(data: seq<Byte>, pos: nat): nat {
    if KeepsFirstByte(ByteAt(data, pos)) then pos else pos + 1
  }

  /** At the end of the stream the EI object is null. */
  lemma EndMarkerAtEnd(lex: Lexer, data: seq<Byte>, samples: seq<Byte>)
    ensures EndMarker(lex, data, |data|, samples) == Outcome(Err(NullReference("EI")), |data|)
  {
  }

  /** On success ReadSamples returns exactly `n` bytes of the stream, starting
      at the first sample byte, and EI is the first or second object after
      them. */
  lemma ReadSamplesPayload(n: nat, lex: Lexer, data: seq<Byte>, pos: nat)
    requires pos <= |data|
    requires ReadSamples(n, lex, data, pos).result.Ok?
    ensures var b := ReadSamples(n, lex, data, pos).result.value;
      var s := FirstSample(data, pos);
      && |b| == n
      && pos < |data| && s + n <= |data|
      && b == data[s..s + n]
      && var t := TokenAt(lex, data, s + n);
         t.Some? && (PrintsAs(t.value, "EI") ||
                     (var t2 := TokenAt(lex, data, AfterObject(lex, data, s + n));
                      t2.Some? && PrintsAs(t2.value, "EI")))
  {
    var first := ByteAt(data, pos);
    var p1 := AfterByte(data, pos);
    var kept := KeepsFirstByte(first);
    var m := if kept then n - 1 else n;
    var head: seq<Byte> := if kept then [first % 256] else [];
    EndMarkerAtEnd(lex, data, head + data[p1..p1 + m]);
    if kept {
      assert data[pos..pos + n] == [data[pos]] + data[pos + 1..pos + n];
    }
  }

  /** On success the samples are exactly SampleCount bytes of the stream,
      starting at the first sample byte; the dictionary has no Filter; and
      EI is the first or second object after them. */
  lemma UnfilteredPayload(dict: PdfDictionary, csDic: Option<PdfDictionary>,
                          lex: Lexer, data: seq<Byte>, pos: nat)
    requires pos <= |data|
    requires UnfilteredSamples(dict, csDic, lex, data, pos).result.Ok?
    ensures var b := UnfilteredSamples(dict, csDic, lex, data, pos).result.value;
      var s := FirstSample(data, pos);
      && Filter !in dict
      && SampleCount(dict, csDic) == Ok(|b|)
      && pos < |data| && s + |b| <= |data|
      && b == data[s..s + |b|]
      && var t := TokenAt(lex, data, s + |b|);
         t.Some? && (PrintsAs(t.value, "EI") ||
                     (var t2 := TokenAt(lex, data, AfterObject(lex, data, s + |b|));
                      t2.Some? && PrintsAs(t2.value, "EI")))
  {
    ReadSamplesPayload(SampleCount(dict, csDic).value, lex, data, pos);
  }

  /** With a Filter entry the reader refuses at once; with enough bytes
      missing it fails when it reads past the end of the stream. */
  lemma UnfilteredErrors(dict: PdfDictionary, csDic: Option<PdfDictionary>,
                         lex: Lexer, data: seq<Byte>, pos: nat)
    requires pos <= |data|
    ensures Filter in dict ==> UnfilteredSamples(dict, csDic, lex, data, pos) == Outcome(Err(FilterPresent), pos)
    ensures Filter !in dict && SampleCount(dict, csDic).Err? ==>
      UnfilteredSamples(dict, csDic, lex, data, pos).result == Err(SampleCount(dict, csDic).error)
    ensures var n := SampleCount(dict, csDic);
      Filter !in dict && n.Ok? && n.value >= 1 && pos < |data| && FirstSample(data, pos) + n.value > |data| ==>
        UnfilteredSamples(dict, csDic, lex, data, pos).result == Err(EndOfContentBeforeEndOfImageData)
  {
  }

  /** One stray object before EI is tolerated; two are not. */
  lemma StrayObjectBeforeEI(lex: Lexer, data: seq<Byte>, q: nat, samples: seq<Byte>)
    requires q <= |data|
    requires TokenAt(lex, data, q).Some? && !PrintsAs(TokenAt(lex, data, q).value, "EI")
    ensures var t2 := TokenAt(lex, data, AfterObject(lex, data, q));
      && (t2.Some? && PrintsAs(t2.value, "EI") ==> EndMarker(lex, data, q, samples).result == Ok(samples))
      && (t2.Some? && !PrintsAs(t2.value, "EI") ==>
            EndMarker(lex, data, q, samples).result == Err(EINotFoundAfterEndOfImageData))
  {
  }
}
