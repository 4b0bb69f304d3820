/** The three abbreviation tables of inline-image dictionaries (section 8.9.7
    of ISO 32000-1, tables 92 and 93) and the normalisation of keys and values
    through them. */
module Abbreviations {
  import opened PdfObjects

  /** The keys an image dictionary may carry in full form. */
  const CanonicalKeys: set<string> :=
    {BitsPerComponent, ColorSpace, Decode, DecodeParms, Filter, Height,
     ImageMask, Intent, Interpolate, Width}

  /** Key abbreviations; every canonical key is also present, mapped to itself. */
  const EntryAbbreviations: map<string, string> := map[
    BitsPerComponent := BitsPerComponent,
    ColorSpace := ColorSpace,
    Decode := Decode,
    DecodeParms := DecodeParms,
    Filter := Filter,
    Height := Height,
    ImageMask := ImageMask,
    Intent := Intent,
    Interpolate := Interpolate,
    Width := Width,
    "BPC" := BitsPerComponent,
    "CS" := ColorSpace,
    "D" := Decode,
    "DP" := DecodeParms,
    "F" := Filter,
    "H" := Height,
    "IM" := ImageMask,
    "I" := Interpolate,
    "W" := Width]

  /** Abbreviations of ColorSpace values. */
  const ColorSpaceAbbreviations: map<string, string> := map[
    "G" := DeviceGray,
    "RGB" := DeviceRGB,
    "CMYK" := DeviceCMYK,
    "I" := Indexed]

  /** Abbreviations of Filter values. */
  const FilterAbbreviations: map<string, string> := map[
    "AHx" := ASCIIHexDecode,
    "A85" := ASCII85Decode,
    "LZW" := LZWDecode,
    "Fl" := FlateDecode,
    "RL" := RunLengthDecode,
    "CCF" := CCITTFaxDecode,
    "DCT" := DCTDecode]

  /** The key a dictionary entry is stored under: its expansion when the key
      table has one, else the key itself. */
  function ResolveKey(key: string): (k: string)
    ensures key in EntryAbbreviations ==> k in CanonicalKeys
    ensures key in CanonicalKeys ==> k == key
    ensures key !in EntryAbbreviations ==> k == key
  {
    if key in EntryAbbreviations then EntryAbbreviations[key] else key
  }

  /** The nine abbreviations expand to their canonical keys, and the
      canonical keys map to themselves. */
  lemma AbbreviatedKeys()
    ensures ResolveKey("BPC") == BitsPerComponent && ResolveKey("CS") == ColorSpace
    ensures ResolveKey("D") == Decode && ResolveKey("DP") == DecodeParms
    ensures ResolveKey("F") == Filter && ResolveKey("H") == Height
    ensures ResolveKey("IM") == ImageMask && ResolveKey("I") == Interpolate
    ensures ResolveKey("W") == Width
    ensures forall k :: k in CanonicalKeys ==> ResolveKey(k) == k
    ensures EntryAbbreviations.Keys == CanonicalKeys + {"BPC", "CS", "D", "DP", "F", "H", "IM", "I", "W"}
  {
  }

  /** Resolving a resolved key changes nothing. */
  lemma ResolveKeyIdempotent(key: string)
    ensures ResolveKey(ResolveKey(key)) == ResolveKey(key)
  {
  }

  /** GetAlternateValue: under Filter a name is replaced by its expansion and
      an array is rebuilt element by element; under ColorSpace a name is
      replaced by its expansion; everything else is returned unchanged. */
  function GetAlternateValue(key: string, value: PdfObject): (r: PdfObject)
    ensures key != Filter && key != ColorSpace ==> r == value
    ensures !value.Name? && !value.Array? ==> r == value
    ensures key == ColorSpace && !value.Name? ==> r == value
    ensures key == Filter && value.Name? && value.name in FilterAbbreviations ==>
      r == Name(FilterAbbreviations[value.name])
    ensures key == ColorSpace && value.Name? && value.name in ColorSpaceAbbreviations ==>
      r == Name(ColorSpaceAbbreviations[value.name])
    ensures key == Filter && value.Name? && value.name !in FilterAbbreviations ==> r == value
    ensures key == ColorSpace && value.Name? && value.name !in ColorSpaceAbbreviations ==> r == value
    ensures r.Array? <==> value.Array?
    ensures r.Name? <==> value.Name?
    ensures value.Array? ==> |r.items| == |value.items|
    decreases value
  {
    if key == Filter then
      match value
      case Name(n) => if n in FilterAbbreviations then Name(FilterAbbreviations[n]) else value
      case Array(items) =>
        Array(seq(|items|, i requires 0 <= i < |items| => GetAlternateValue(key, items[i])))
      case _ => value
    else if key == ColorSpace && value.Name? && value.name in ColorSpaceAbbreviations then
      Name(ColorSpaceAbbreviations[value.name])
    else
      value
  }

  /** The four colour-space and seven filter abbreviations expand to their
      full names; a Filter array is expanded element by element, and a
      ColorSpace array is left as it is. */
  lemma AbbreviatedValues()
    ensures GetAlternateValue(ColorSpace, Name("G")) == Name(DeviceGray)
    ensures GetAlternateValue(ColorSpace, Name("RGB")) == Name(DeviceRGB)
    ensures GetAlternateValue(ColorSpace, Name("CMYK")) == Name(DeviceCMYK)
    ensures GetAlternateValue(ColorSpace, Name("I")) == Name(Indexed)
    ensures GetAlternateValue(Filter, Name("AHx")) == Name(ASCIIHexDecode)
    ensures GetAlternateValue(Filter, Name("A85")) == Name(ASCII85Decode)
    ensures GetAlternateValue(Filter, Name("LZW")) == Name(LZWDecode)
    ensures GetAlternateValue(Filter, Name("Fl")) == Name(FlateDecode)
    ensures GetAlternateValue(Filter, Name("RL")) == Name(RunLengthDecode)
    ensures GetAlternateValue(Filter, Name("CCF")) == Name(CCITTFaxDecode)
    ensures GetAlternateValue(Filter, Name("DCT")) == Name(DCTDecode)
    ensures GetAlternateValue(Filter, Array([Name("A85"), Name("Fl")]))
         == Array([Name(ASCII85Decode), Name(FlateDecode)])
    ensures GetAlternateValue(ColorSpace, Array([Name("I"), Name("RGB")]))
         == Array([Name("I"), Name("RGB")])
  {
    var a := GetAlternateValue(Filter, Array([Name("A85"), Name("Fl")]));
    assert a.items[0] == GetAlternateValue(Filter, Name("A85"));
    assert a.items[1] == GetAlternateValue(Filter, Name("Fl"));
  }

  /** Under Filter, an array becomes the array of its normalised elements. */
  lemma FilterArrayElementwise(items: seq<PdfObject>, i: nat)
    requires i < |items|
    ensures GetAlternateValue(Filter, Array(items)).items[i] == GetAlternateValue(Filter, items[i])
  {
  }

  /** No expansion is itself an abbreviation of the same table. */
  lemma ExpansionsAreNotAbbreviations()
    ensures forall n :: n in FilterAbbreviations ==> FilterAbbreviations[n] !in FilterAbbreviations
    ensures forall n :: n in ColorSpaceAbbreviations ==> ColorSpaceAbbreviations[n] !in ColorSpaceAbbreviations
  {
  }

  /** Normalising a normalised value changes nothing. */
  lemma {:induction false} GetAlternateValueIdempotent(key: string, value: PdfObject)
    ensures GetAlternateValue(key, GetAlternateValue(key, value)) == GetAlternateValue(key, value)
    decreases value
  {
    ExpansionsAreNotAbbreviations();
    if key == Filter && value.Array? {
      var r := GetAlternateValue(key, value);
      var rr := GetAlternateValue(key, r);
      forall i | 0 <= i < |value.items|
        ensures rr.items[i] == r.items[i]
      {
        GetAlternateValueIdempotent(key, value.items[i]);
      }
      assert rr.items == r.items;
    }
  }

  /** A Filter value, at any depth of nesting, names no abbreviation. */
  predicate NoFilterAbbreviation(v: PdfObject)
    decreases v
  {
    match v
    case Name(n) => n !in FilterAbbreviations
    case Array(items) => forall i :: 0 <= i < |items| ==> NoFilterAbbreviation(items[i])
    case _ => true
  }

  /** After normalisation no filter abbreviation survives in a Filter value,
      and a ColorSpace name is no longer an abbreviation. */
  lemma {:induction false} NormalisedValuesAreCanonical(value: PdfObject)
    ensures NoFilterAbbreviation(GetAlternateValue(Filter, value))
    ensures value.Name? ==> GetAlternateValue(ColorSpace, value).name !in ColorSpaceAbbreviations
    decreases value
  {
    ExpansionsAreNotAbbreviations();
    if value.Array? {
      var r := GetAlternateValue(Filter, value);
      forall i | 0 <= i < |r.items|
        ensures NoFilterAbbreviation(r.items[i])
      {
        NormalisedValuesAreCanonical(value.items[i]);
      }
    }
  }

  // ---------------------------------------------------------------------
  // The lookups as written: the .NET dictionary indexer raises
  // KeyNotFoundException for a missing key instead of returning null, so
  // the null checks that follow each lookup are never reached.

  function LookupAsWritten(table: map<string, string>, name: string): (r: Result<string>)
    ensures r.Ok? <==> name in table
    ensures r.Ok? ==> r.value == table[name]
  {
    if name in table then Ok(table[name]) else Err(KeyNotFound(name))
  }

  /** The key lookup of the dictionary reader as written. */
  function ResolveKeyAsWritten(key: string): (r: Result<string>)
    ensures r.Ok? ==> r.value == ResolveKey(key)
  {
    LookupAsWritten(EntryAbbreviations, key)
  }

  /** GetAlternateValue as written. */
  function GetAlternateValueAsWritten(key: string, value: PdfObject): (r: Result<PdfObject>)
    ensures key != Filter && key != ColorSpace ==> r == Ok(value)
    ensures key == ColorSpace && !value.Name? ==> r == Ok(value)
    ensures (key == Filter || key == ColorSpace) && value.Name? ==>
      (r.Ok? <==> value.name in (if key == Filter then FilterAbbreviations else ColorSpaceAbbreviations))
    ensures r.Ok? ==> (r.value.Array? <==> value.Array?)
    decreases value, 1
  {
    if key == Filter then
      match value
      case Name(n) =>
        var alt :- LookupAsWritten(FilterAbbreviations, n);
        Ok(Name(alt))
      case Array(items) =>
        var altItems :- AlternateItemsAsWritten(key, value, 0);
        Ok(Array(altItems))
      case _ => Ok(value)
    else if key == ColorSpace && value.Name? then
      var alt :- LookupAsWritten(ColorSpaceAbbreviations, value.name);
      Ok(Name(alt))
    else
      Ok(value)
  }

  /** The element loop of GetAlternateValue as written, from index `from`. */
  function AlternateItemsAsWritten(key: string, value: PdfObject, from: nat): (r: Result<seq<PdfObject>>)
    requires value.Array? && from <= |value.items|
    ensures r.Ok? ==> |r.value| == |value.items| - from
    decreases value, 0, |value.items| - from
  {
    if from == |value.items| then Ok([])
    else
      var head :- GetAlternateValueAsWritten(key, value.items[from]);
      var tail :- AlternateItemsAsWritten(key, value, from + 1);
      Ok([head] + tail)
  }

  /** Wherever the lookups as written return, they agree with the corrected
      normalisation. */
  lemma {:induction false} AsWrittenAgreesWhenDefined(key: string, value: PdfObject)
    ensures GetAlternateValueAsWritten(key, value).Ok? ==>
      GetAlternateValueAsWritten(key, value).value == GetAlternateValue(key, value)
    decreases value, 1
  {
    if key == Filter && value.Array? && GetAlternateValueAsWritten(key, value).Ok? {
      AsWrittenItemsAgree(key, value, 0);
    }
  }

  lemma {:induction false} AsWrittenItemsAgree(key: string, value: PdfObject, from: nat)
    requires key == Filter && value.Array? && from <= |value.items|
    ensures AlternateItemsAsWritten(key, value, from).Ok? ==>
      AlternateItemsAsWritten(key, value, from).value == GetAlternateValue(key, value).items[from..]
    decreases value, 0, |value.items| - from
  {
    if from < |value.items| && AlternateItemsAsWritten(key, value, from).Ok? {
      AsWrittenAgreesWhenDefined(key, value.items[from]);
      AsWrittenItemsAgree(key, value, from + 1);
    }
  }

  /** A key outside the table (here Length), a value already in canonical
      form (here DeviceRGB and FlateDecode) and a resource colour-space name
      (here CS0) raise as written, so normalising an already normalised
      colour space fails. */
  lemma CanonicalInputRaisesAsWritten()
    ensures ResolveKeyAsWritten("Length") == Err(KeyNotFound("Length"))
    ensures GetAlternateValueAsWritten(ColorSpace, Name("RGB")) == Ok(Name(DeviceRGB))
    ensures GetAlternateValueAsWritten(ColorSpace, Name(DeviceRGB)) == Err(KeyNotFound(DeviceRGB))
    ensures GetAlternateValueAsWritten(Filter, Name(FlateDecode)) == Err(KeyNotFound(FlateDecode))
    ensures GetAlternateValueAsWritten(ColorSpace, Name("CS0")) == Err(KeyNotFound("CS0"))
    ensures ResolveKey("Length") == "Length"
    ensures GetAlternateValue(ColorSpace, Name(DeviceRGB)) == Name(DeviceRGB)
  {
  }
}
