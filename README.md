# Inline image parsing, modelled in Dafny

This project models `InlineImageParsingUtils`, the part of the iText kernel
that reads a PDF inline image. An inline image is the `BI … ID … EI`
construct of section 8.9.7 of ISO 32000-1. After `BI` the content-stream
parser reads an image dictionary, which may use abbreviated keys and values.
`ID` ends the dictionary and must be followed by one whitespace byte. The
sample data follows, then `EI`. The model has five parts:

- **Abbreviations.** `abbreviations.dfy` holds the three abbreviation tables
  (keys, colour spaces, filters). Keys are resolved through the key table,
  and `Filter` and `ColorSpace` values are normalised (`GetAlternateValue`).
- **Dictionary reader.** `dictionary_reader.dfy` is the pair loop of
  `ParseDictionary`, written as a method over a cursor. It is proved equal to
  a pure specification: the pairs read, then the dictionary built from them.
- **Row size.** `row_size.dfy` holds components per pixel (resolved by
  colour-space name, through the resource dictionary) and bytes per row.
- **Unfiltered reader.** `unfiltered_reader.dfy` reads exactly
  bytes-per-row × Height bytes. It keeps a first byte that is not the
  separating whitespace, then looks for `EI` and tolerates one stray object
  before it.
- **Filtered scanner.** `ei_scanner.dfy` is the four-state scanner for
  whitespace, `E`, `I`, whitespace. A candidate is accepted only when the
  completeness check (`completeness.dfy`) accepts the bytes before it.
  `inline_image.dfy` chooses between the two readers
  (`ImageColorSpaceIsKnown`) and puts the parse together.

The content stream (`content_stream.dfy`) is a byte sequence with one cursor,
read two ways:

- `PdfTokenizer.Read` returns one byte, or -1 at the end of the stream.
- `PdfCanvasParser.ReadObject` returns one object. It is a parameter of type
  `Lexer`: a function from a position to the next object and the position
  after it, which always consumes at least one byte.

Each reader that works step by step is a module-level method that takes a
`ContentStream`. Its postcondition ties the result and the new cursor to a pure function of the
old cursor. The properties are lemmas about those functions.

Two points need a note:

- **Keys outside the key table.** As written, the key is looked up with the
  dictionary indexer (line 171 of `InlineImageParsingUtils.cs`). The indexer
  raises for a key outside the table, so the null check at lines 172-175 is
  never reached. The model follows the evident intent of that null check:
  such keys are stored unchanged (see Findings). A dictionary therefore need
  not hold only canonical keys. `DictionaryReader.OnlyCanonicalKeys` shows
  that it does when every key read is in the table. The same holds for the
  value lookups at lines 198 and 223.
- **Whitespace after `ID` is read twice.** The model follows the code here.
  The doc comment of `ParseDictionary` (line 157) says the parser is left
  after the whitespace that follows `ID`. The doc comment of
  `ParseUnfilteredSamples` (line 303) says it expects the parser right after
  `ID`. On the counting path the dictionary reader consumes that byte, and
  the sample reader then reads one more byte as the separator. A first sample
  byte that is whitespace (other than NUL) is therefore dropped, and the
  samples are taken from the byte after it.
  `InlineImageParsing.SeparatorReadTwice` states this.

The scanner also misses a terminator whose leading whitespace comes right
after a whitespace and `E`. The comments of the source acknowledge that the
scan is a heuristic. `SampleScanner.OverlappingTerminatorIsMissed` exhibits
such an input.

## Model

| member | source | states |
|---|---|---|
| Abbreviations.ResolveKey | itextsharp.kernel/itextsharp/kernel/pdf/canvas/parser/util/InlineImageParsingUtils.cs:171-175 | a key in the key table resolves to a canonical key; a canonical key resolves to itself; a key outside the table is kept unchanged |
| Abbreviations.AbbreviatedKeys | itextsharp.kernel/itextsharp/kernel/pdf/canvas/parser/util/InlineImageParsingUtils.cs:97-116 | BPC, CS, D, DP, F, H, IM, I and W expand to their canonical keys; every canonical key maps to itself; the table has exactly those nineteen keys |
| Abbreviations.ResolveKeyIdempotent | itextsharp.kernel/itextsharp/kernel/pdf/canvas/parser/util/InlineImageParsingUtils.cs:97-116 | resolving a resolved key changes nothing |
| Abbreviations.GetAlternateValue | itextsharp.kernel/itextsharp/kernel/pdf/canvas/parser/util/InlineImageParsingUtils.cs:192-231 | under Filter a name in the filter table becomes its expansion and any other name is unchanged; under ColorSpace a name in the colour-space table becomes its expansion, any other name is unchanged, and a value that is not a name (an array too) is unchanged; under any other key the value is unchanged; names stay names and arrays stay arrays of the same length |
| Abbreviations.AbbreviatedValues | itextsharp.kernel/itextsharp/kernel/pdf/canvas/parser/util/InlineImageParsingUtils.cs:118-131 | G, RGB, CMYK and I expand to DeviceGray, DeviceRGB, DeviceCMYK and Indexed under ColorSpace; AHx, A85, LZW, Fl, RL, CCF and DCT expand to the seven filter names under Filter; a Filter array is expanded element by element, a ColorSpace array is left as it is |
| Abbreviations.FilterArrayElementwise | itextsharp.kernel/itextsharp/kernel/pdf/canvas/parser/util/InlineImageParsingUtils.cs:206-215 | under Filter, element i of a normalised array is element i normalised |
| Abbreviations.ExpansionsAreNotAbbreviations | itextsharp.kernel/itextsharp/kernel/pdf/canvas/parser/util/InlineImageParsingUtils.cs:118-131 | no expansion in the colour-space or filter table is itself an abbreviation of that table |
| Abbreviations.GetAlternateValueIdempotent | itextsharp.kernel/itextsharp/kernel/pdf/canvas/parser/util/InlineImageParsingUtils.cs:192-231 | normalising a normalised value changes nothing, for nested Filter arrays too |
| Abbreviations.NormalisedValuesAreCanonical | itextsharp.kernel/itextsharp/kernel/pdf/canvas/parser/util/InlineImageParsingUtils.cs:194-228 | after normalisation no filter abbreviation survives at any depth of a Filter value, and a ColorSpace name is not an abbreviation |
| Abbreviations.LookupAsWritten | itextsharp.kernel/itextsharp/kernel/pdf/canvas/parser/util/InlineImageParsingUtils.cs:171 | the .NET indexer returns the table entry exactly when the key is present, and raises KeyNotFound otherwise |
| Abbreviations.ResolveKeyAsWritten | itextsharp.kernel/itextsharp/kernel/pdf/canvas/parser/util/InlineImageParsingUtils.cs:171-175 | where the key lookup as written returns, it agrees with the corrected ResolveKey |
| Abbreviations.GetAlternateValueAsWritten | itextsharp.kernel/itextsharp/kernel/pdf/canvas/parser/util/InlineImageParsingUtils.cs:192-231 | as written: under a key other than Filter and ColorSpace, and for a ColorSpace value that is not a name, the value is returned; a Filter or ColorSpace name succeeds exactly when it is in its table, and raises KeyNotFound otherwise; arrays stay arrays |
| Abbreviations.AlternateItemsAsWritten | itextsharp.kernel/itextsharp/kernel/pdf/canvas/parser/util/InlineImageParsingUtils.cs:206-214 | as written, the element loop over a Filter array returns one normalised element for each element from the start index on |
| Abbreviations.AsWrittenAgreesWhenDefined | itextsharp.kernel/itextsharp/kernel/pdf/canvas/parser/util/InlineImageParsingUtils.cs:192-231 | where GetAlternateValue as written returns, it returns the corrected normalisation |
| Abbreviations.CanonicalInputRaisesAsWritten | itextsharp.kernel/itextsharp/kernel/pdf/canvas/parser/util/InlineImageParsingUtils.cs:171-175 | as written, the key Length and the values DeviceRGB and CS0 (under ColorSpace) and FlateDecode (under Filter) raise KeyNotFound; the corrected functions return them unchanged |
| DictionaryReader.ReadEntries | itextsharp.kernel/itextsharp/kernel/pdf/canvas/parser/util/InlineImageParsingUtils.cs:167-177 | the pair loop never moves the cursor backwards or past the end, and when it stops at the end of the stream the cursor is at the end |
| DictionaryReader.BuildDictionary | itextsharp.kernel/itextsharp/kernel/pdf/canvas/parser/util/InlineImageParsingUtils.cs:176 | every key read is stored, under its resolved key; no pairs give the empty dictionary |
| DictionaryReader.ParseDictionarySpec | itextsharp.kernel/itextsharp/kernel/pdf/canvas/parser/util/InlineImageParsingUtils.cs:163-185 | the cursor moves forward within the stream; on success the byte just before the new cursor is whitespace; the only errors are the failed cast of a key and a byte after ID that is not whitespace |
| DictionaryReader.ParseDictionary | itextsharp.kernel/itextsharp/kernel/pdf/canvas/parser/util/InlineImageParsingUtils.cs:163-185 | the result and the new cursor are those of ParseDictionarySpec: the pairs up to ID stored under resolved keys with normalised values, then one whitespace byte or the unexpected-character error |
| DictionaryReader.ParseDictionaryOutcome | itextsharp.kernel/itextsharp/kernel/pdf/canvas/parser/util/InlineImageParsingUtils.cs:167-184 | the reader succeeds exactly when the loop met ID and the byte after it is whitespace; the dictionary is then built from the pairs read, and the cursor is just past that byte |
| DictionaryReader.EndOfStreamBeforeID | itextsharp.kernel/itextsharp/kernel/pdf/canvas/parser/util/InlineImageParsingUtils.cs:178-183 | a stream that ends before ID fails with -1 as the unexpected character |
| DictionaryReader.BuildDictionaryKeys | itextsharp.kernel/itextsharp/kernel/pdf/canvas/parser/util/InlineImageParsingUtils.cs:171-176 | the stored keys are exactly the resolved keys of the pairs read |
| DictionaryReader.LastWriteWins | itextsharp.kernel/itextsharp/kernel/pdf/canvas/parser/util/InlineImageParsingUtils.cs:176 | a repeated key keeps the normalised value of its last occurrence |
| DictionaryReader.AbbreviatedDictionaryExample | itextsharp.kernel/itextsharp/kernel/pdf/canvas/parser/util/InlineImageParsingUtils.cs:97-131 | the abbreviated dictionary BPC 8, CS RGB, F Fl is stored as BitsPerComponent 8, ColorSpace DeviceRGB, Filter FlateDecode |
| DictionaryReader.Canonicalise | itextsharp.kernel/itextsharp/kernel/pdf/canvas/parser/util/InlineImageParsingUtils.cs:171-176 | writing each pair in stored form keeps the number of pairs |
| DictionaryReader.AbbreviatedEqualsCanonical | itextsharp.kernel/itextsharp/kernel/pdf/canvas/parser/util/InlineImageParsingUtils.cs:171-176 | a dictionary written with abbreviations gives the same result as the same dictionary written in canonical form |
| DictionaryReader.OnlyCanonicalKeys | itextsharp.kernel/itextsharp/kernel/pdf/canvas/parser/util/InlineImageParsingUtils.cs:171-176 | when every key read is in the key table, only canonical keys are stored |
| RowSize.ComponentsOfName | itextsharp.kernel/itextsharp/kernel/pdf/canvas/parser/util/InlineImageParsingUtils.cs:243-275 | a result is 1, 3 or 4; a device space always resolves; a non-device name with no resource dictionary, or not in it, gives the unexpected-colour-space error |
| RowSize.ComponentsPerPixel | itextsharp.kernel/itextsharp/kernel/pdf/canvas/parser/util/InlineImageParsingUtils.cs:236-276 | no colour space gives 1; DeviceGray gives 1, DeviceRGB 3 and DeviceCMYK 4; every result is 1, 3 or 4 |
| RowSize.ResourceEntries | itextsharp.kernel/itextsharp/kernel/pdf/canvas/parser/util/InlineImageParsingUtils.cs:255-275 | a resource entry that is an array starting with Indexed gives 1; another array gives the colour-space error; a name entry that is another name resolves as that name resolves, whenever either resolves; a self-alias is reported as a cycle; any other entry gives the colour-space error |
| RowSize.FewerVisitedSameSuccess | itextsharp.kernel/itextsharp/kernel/pdf/canvas/parser/util/InlineImageParsingUtils.cs:266-270 | a resolution through aliases that succeeds does so whatever names were visited before |
| RowSize.SuccessAvoidsAliasOf | itextsharp.kernel/itextsharp/kernel/pdf/canvas/parser/util/InlineImageParsingUtils.cs:266-270 | a resolution that succeeds never passes through a name whose alias is already on the chain |
| RowSize.CSharpDiv | itextsharp.kernel/itextsharp/kernel/pdf/canvas/parser/util/InlineImageParsingUtils.cs:296 | C# integer division truncates toward zero: for a non-negative dividend the quotient is the floor, for a negative one it is the ceiling |
| RowSize.ComputeBytesPerRow | itextsharp.kernel/itextsharp/kernel/pdf/canvas/parser/util/InlineImageParsingUtils.cs:287-297 | success implies that Width is a number and that the colour space resolves |
| RowSize.BytesPerRowIsCeiling | itextsharp.kernel/itextsharp/kernel/pdf/canvas/parser/util/InlineImageParsingUtils.cs:287-297 | bytes per row is the bits of a row, width × bits per component × components, rounded up to whole bytes |
| RowSize.BytesPerRowErrors | itextsharp.kernel/itextsharp/kernel/pdf/canvas/parser/util/InlineImageParsingUtils.cs:290-294 | a colour space that does not resolve is reported before a missing Width; a missing Width is a null dereference |
| RowSize.BytesPerRowExamples | itextsharp.kernel/itextsharp/kernel/pdf/canvas/parser/util/InlineImageParsingUtils.cs:287-297 | width 10 with 8-bit RGB gives 30 bytes; width 10 with 1-bit Gray gives 2; BitsPerComponent defaults to 1 |
| UnfilteredReader.SampleCount | itextsharp.kernel/itextsharp/kernel/pdf/canvas/parser/util/InlineImageParsingUtils.cs:320-322 | the count is bytes per row times Height, and it exists only when both do |
| UnfilteredReader.UnfilteredSamples | itextsharp.kernel/itextsharp/kernel/pdf/canvas/parser/util/InlineImageParsingUtils.cs:311-358 | the cursor moves forward within the stream; success implies that there is no Filter and that exactly SampleCount bytes are returned; a Filter entry is refused at once |
| UnfilteredReader.ReadSamples | itextsharp.kernel/itextsharp/kernel/pdf/canvas/parser/util/InlineImageParsingUtils.cs:323-358 | success returns exactly n bytes and moves the cursor; fewer than n bytes left means failure |
| UnfilteredReader.EndMarker | itextsharp.kernel/itextsharp/kernel/pdf/canvas/parser/util/InlineImageParsingUtils.cs:346-357 | on success the samples are returned unchanged and the cursor has moved past EI; the only errors are the null dereference at the end of the stream and the EI-not-found error |
| UnfilteredReader.ParseUnfilteredSamples | itextsharp.kernel/itextsharp/kernel/pdf/canvas/parser/util/InlineImageParsingUtils.cs:311-323 | the result and the new cursor are those of UnfilteredSamples: the Filter refusal, the count errors, then the reads |
| UnfilteredReader.ReadSampleBytes | itextsharp.kernel/itextsharp/kernel/pdf/canvas/parser/util/InlineImageParsingUtils.cs:323-345 | the buffer is filled from the stream as ReadSamples says: a kept first byte, the rest read one by one, end of stream an error |
| UnfilteredReader.ReadEndMarker | itextsharp.kernel/itextsharp/kernel/pdf/canvas/parser/util/InlineImageParsingUtils.cs:346-358 | the EI check after the samples is EndMarker: EI as the first or the second object, else the EI-not-found error |
| UnfilteredReader.ReadSamplesPayload | itextsharp.kernel/itextsharp/kernel/pdf/canvas/parser/util/InlineImageParsingUtils.cs:323-358 | on success exactly n bytes are returned; they are the stream's bytes from the first sample byte, and EI is the first or second object after them |
| UnfilteredReader.UnfilteredPayload | itextsharp.kernel/itextsharp/kernel/pdf/canvas/parser/util/InlineImageParsingUtils.cs:316-358 | on success there is no Filter; the samples number exactly SampleCount and are the stream's bytes from the first sample byte; EI follows as the first or second object |
| UnfilteredReader.UnfilteredErrors | itextsharp.kernel/itextsharp/kernel/pdf/canvas/parser/util/InlineImageParsingUtils.cs:316-343 | a Filter entry is refused at once; a count error is passed on; too few bytes left gives the end-of-content error |
| UnfilteredReader.StrayObjectBeforeEI | itextsharp.kernel/itextsharp/kernel/pdf/canvas/parser/util/InlineImageParsingUtils.cs:346-357 | one stray object before EI is tolerated; a second non-EI object gives the EI-not-found error |
| SampleScanner.ScanSamples | itextsharp.kernel/itextsharp/kernel/pdf/canvas/parser/util/InlineImageParsingUtils.cs:390-455 | the scan loop over baos, accumulated and found gives the result and the cursor of ScanEI; its invariants are that baos followed by accumulated is every byte consumed, and that accumulated is the found-long pending match |
| SampleScanner.ScanEI | itextsharp.kernel/itextsharp/kernel/pdf/canvas/parser/util/InlineImageParsingUtils.cs:395-455 | the cursor moves forward within the stream; a success is accepted by the completeness check; the scan fails only with CannotFindImageDataOrEI and the cursor at the end of the stream |
| SampleScanner.ScanSound | itextsharp.kernel/itextsharp/kernel/pdf/canvas/parser/util/InlineImageParsingUtils.cs:395-441 | from any reachable scan state, a success is a prefix of the consumed bytes, followed by whitespace, E, I, whitespace and accepted by the completeness check, with the cursor after that whitespace |
| SampleScanner.ScanResult | itextsharp.kernel/itextsharp/kernel/pdf/canvas/parser/util/InlineImageParsingUtils.cs:390-455 | a scan from the start of the samples returns a prefix followed by a terminator and accepted by the check, or fails at the end of the stream |
| SampleScanner.ScanSkipsPlainBytes | itextsharp.kernel/itextsharp/kernel/pdf/canvas/parser/util/InlineImageParsingUtils.cs:442-448 | bytes that are not whitespace go straight to the output in state 0 |
| SampleScanner.PlainSamplesAreFound | itextsharp.kernel/itextsharp/kernel/pdf/canvas/parser/util/InlineImageParsingUtils.cs:395-441 | samples with no whitespace, followed by a terminator and accepted by the check, are returned exactly, with the cursor after the terminator |
| SampleScanner.TerminatorStep | itextsharp.kernel/itextsharp/kernel/pdf/canvas/parser/util/InlineImageParsingUtils.cs:397-441 | at a terminator the bytes before it are returned when the check accepts them, with the cursor after the terminator; otherwise the terminator joins the output and the scan goes on after it |
| SampleScanner.EmbeddedTerminatorIsData | itextsharp.kernel/itextsharp/kernel/pdf/canvas/parser/util/InlineImageParsingUtils.cs:395-448 | with x and y free of whitespace, x, terminator, y, terminator gives x, the first terminator and y when the check rejects x and accepts that prefix, with the cursor after the second terminator |
| SampleScanner.RejectedCandidateIsData | itextsharp.kernel/itextsharp/kernel/pdf/canvas/parser/util/InlineImageParsingUtils.cs:430-441 | a rejected candidate is appended to the output with its final whitespace, and the scan restarts in state 0 |
| SampleScanner.OverlappingTerminatorIsMissed | itextsharp.kernel/itextsharp/kernel/pdf/canvas/parser/util/InlineImageParsingUtils.cs:397-448 | in space, E, space, E, I, space there is a terminator at index 2 that the check accepts, yet the scan runs to the end of the stream and fails |
| Completeness.CheckHandlers | itextsharp.kernel/itextsharp/kernel/pdf/canvas/parser/util/InlineImageParsingUtils.cs:487-492 | the check's handler table is the defaults plus DCTDecode, JBIG2Decode and JPXDecode; those three are pass-through and every other handler is the default |
| Completeness.InlineImageStreamBytesAreComplete | itextsharp.kernel/itextsharp/kernel/pdf/canvas/parser/util/InlineImageParsingUtils.cs:482-500 | a candidate is complete exactly when decoding it with the check's handler table returns; a decoder exception gives false |
| Completeness.UncheckedFiltersPassThrough | itextsharp.kernel/itextsharp/kernel/pdf/canvas/parser/util/InlineImageParsingUtils.cs:489-492 | under the check each of DCTDecode, JBIG2Decode and JPXDecode returns its input unchanged |
| Completeness.CheckIgnoresDefaultsForUncheckedFilters | itextsharp.kernel/itextsharp/kernel/pdf/canvas/parser/util/InlineImageParsingUtils.cs:487-493 | the verdict does not depend on the default handlers of the three pass-through filters |
| InlineImageParsing.ImageColorSpaceIsKnown | itextsharp.kernel/itextsharp/kernel/pdf/canvas/parser/util/InlineImageParsingUtils.cs:458-468 | an absent colour space is known; a colour space whose components resolve is known; an unknown one fails to resolve with the colour-space error |
| InlineImageParsing.KnownButUnresolvable | itextsharp.kernel/itextsharp/kernel/pdf/canvas/parser/util/InlineImageParsingUtils.cs:458-468 | known is weaker than resolvable: a resource array not starting with Indexed is known, yet its components do not resolve |
| InlineImageParsing.SamplesSpec | itextsharp.kernel/itextsharp/kernel/pdf/canvas/parser/util/InlineImageParsingUtils.cs:375-383 | the cursor moves forward within the stream; by count, success returns SampleCount bytes; by scan, success is accepted by the check and failure is CannotFindImageDataOrEI at the end of the stream |
| InlineImageParsing.ParseSamples | itextsharp.kernel/itextsharp/kernel/pdf/canvas/parser/util/InlineImageParsingUtils.cs:375-383 | the counting reader runs exactly when there is no Filter and the colour space is known; otherwise the scan runs |
| InlineImageParsing.SamplesResult | itextsharp.kernel/itextsharp/kernel/pdf/canvas/parser/util/InlineImageParsingUtils.cs:375-456 | by count, the samples are exactly SampleCount bytes of the stream; by scan, they are a prefix followed by a terminator and accepted by the check, and a failed scan has reached the end of the stream |
| InlineImageParsing.ParseSpec | itextsharp.kernel/itextsharp/kernel/pdf/canvas/parser/util/InlineImageParsingUtils.cs:146-153 | the cursor moves forward within the stream; a parsed image holds the dictionary the dictionary reader returned; a dictionary error is passed on with its cursor |
| InlineImageParsing.Parse | itextsharp.kernel/itextsharp/kernel/pdf/canvas/parser/util/InlineImageParsingUtils.cs:146-153 | the result and the cursor are those of ParseSpec: the dictionary, then the samples read according to it |
| InlineImageParsing.ParseResult | itextsharp.kernel/itextsharp/kernel/pdf/canvas/parser/util/InlineImageParsingUtils.cs:146-153 | a parsed image holds the pairs read up to ID, stored under resolved keys, and the samples read after the whitespace byte that follows ID |
| InlineImageParsing.SeparatorSkipped | itextsharp.kernel/itextsharp/kernel/pdf/canvas/parser/util/InlineImageParsingUtils.cs:325-335 | the counting reader skips one whitespace byte other than NUL and takes any other byte as the first sample |
| InlineImageParsing.SeparatorReadTwice | itextsharp.kernel/itextsharp/kernel/pdf/canvas/parser/util/InlineImageParsingUtils.cs:178-183 | on the counting path the byte after ID is whitespace, and the samples then start after one more whitespace byte, or at the next byte if it is not whitespace |
| PdfObjects.GetAsName | itextsharp.kernel/itextsharp/kernel/pdf/canvas/parser/util/InlineImageParsingUtils.cs:461 | an entry is read as a name exactly when it is present and is a name |
| PdfObjects.GetAsNumber | itextsharp.kernel/itextsharp/kernel/pdf/canvas/parser/util/InlineImageParsingUtils.cs:290-291 | an entry is read as a number exactly when it is present and is a number |
| ContentStreams.ByteAt | itextsharp.kernel/itextsharp/kernel/pdf/canvas/parser/util/InlineImageParsingUtils.cs:338-339 | a byte read gives a value in 0..255, or -1 exactly at the end of the stream |
| ContentStreams.ObjectAt | itextsharp.kernel/itextsharp/kernel/pdf/canvas/parser/util/InlineImageParsingUtils.cs:167-170 | an object read consumes at least one byte and stays in the stream; at the end of the stream there is none |
| ContentStreams.AfterObject | itextsharp.kernel/itextsharp/kernel/pdf/canvas/parser/util/InlineImageParsingUtils.cs:167-170 | reading an object moves the cursor forward, and moves it nowhere only at the end of the stream |
| ContentStreams.ContentStream.Read | itextsharp.kernel/itextsharp/kernel/pdf/canvas/parser/util/InlineImageParsingUtils.cs:178 | the byte read is ByteAt at the old cursor and the cursor moves as AfterByte says |
| ContentStreams.ContentStream.ReadObject | itextsharp.kernel/itextsharp/kernel/pdf/canvas/parser/util/InlineImageParsingUtils.cs:167-170 | the object read is TokenAt at the old cursor and the cursor moves as AfterObject says |

## Left out

- The content-stream tokenizer and parser are not part of this model. An
  object read is a `Lexer` parameter, constrained only to consume at least
  one byte and to stay inside the stream. `PdfTokenizer.IsWhitespace` is
  written out as NUL, tab, line feed, form feed, carriage return and space.
- `PdfReader.DecodeBytes` and the default filter handlers are not part of
  this model. They are parameters: a `Decoder` function and a default
  handler table. A filter handler takes only the bytes; its filter name,
  decode parameters and stream dictionary arguments are left out.
- The image is returned as an `InlineImage` pair of dictionary and samples,
  not as a `PdfStream` built with `PutAll`.
- Exception message parameters are left out. Each exception is one
  `ParseError` constructor.
- Numbers are integers only. `IntValue` of a real number, which truncates,
  is not modelled.
- RowSize.ComputeBytesPerRow: does not model 32-bit wrap-around of
  `w * bpc * cpp + 7`, because integers here are unbounded. The truncating
  C# division is modelled.
- UnfilteredReader.SampleCount: does not model 32-bit wrap-around of
  bytes per row × Height, for the same reason. A negative count gives the
  array-size error.
- RowSize.ComponentsOfName: a chain of colour-space aliases that returns to
  a name already on it gives `ColorSpaceCycle`. The source recurses without
  end there, which is a stack overflow.
- DictionaryReader.ReadEntries: a key whose value is cut off by the end of
  the stream is not kept, whereas the source stores null. Reading then fails
  in any case at the byte check after the loop, so no dictionary is
  returned either way.
- DictionaryReader.ParseDictionary, Abbreviations.GetAlternateValue: the
  lookups in the three abbreviation tables are modelled as "absent means
  unchanged". As written, the .NET indexer raises for an absent key (see
  Findings). `Abbreviations.LookupAsWritten` and its companions model the
  code as written.
- UnfilteredReader.ParseUnfilteredSamples: the reads after the buffer
  is allocated are split into `ReadSampleBytes` and `ReadEndMarker`, one
  method each. The source does them in one method body.

## Findings

| source | as written | input that shows it | evidently intended | confidence | as-written member | corrected member |
|---|---|---|---|---|---|---|
| itextsharp.kernel/itextsharp/kernel/pdf/canvas/parser/util/InlineImageParsingUtils.cs:171-175 | the key is looked up with the `IDictionary` indexer, which raises KeyNotFoundException for a key outside the table, so the null check after it is never reached | a dictionary entry `/Length 5`, or any key outside the nineteen of the table | a key outside the table is stored unchanged | not executed | Abbreviations.CanonicalInputRaisesAsWritten | Abbreviations.ResolveKey |
| itextsharp.kernel/itextsharp/kernel/pdf/canvas/parser/util/InlineImageParsingUtils.cs:198-201 | a Filter or ColorSpace name is looked up with the indexer, which raises for a name that is not an abbreviation; lines 223-226 do the same for ColorSpace. So even a resource colour-space name such as `/CS /CS0` raises at line 223, and the resource lookup at lines 255-272 is never reached | `/CS /DeviceRGB` or `/F /FlateDecode`, that is, a full name in place of an abbreviation | a name that is not an abbreviation is returned unchanged, so normalisation is idempotent | not executed | Abbreviations.CanonicalInputRaisesAsWritten | Abbreviations.GetAlternateValueIdempotent |
