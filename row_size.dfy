/** Components per pixel and bytes per row of an inline image. Each row of
    sample data is padded to a whole byte (section 8.9.3 of ISO 32000-1). */
module RowSize {
  import opened PdfObjects

  predicate IsDeviceSpace(name: string) {
    name == DeviceGray || name == DeviceRGB || name == DeviceCMYK
  }

  /** GetComponentsPerPixel for a colour-space name. `csDic` is the colour
      space resource dictionary (None for null). `visited` holds the names
      already resolved through an alias on this chain; meeting one again is
      where the source would recurse without end. */
  function ComponentsOfName(name: string, csDic: Option<PdfDictionary>, visited: set<string>): (r: Result<int>)
    requires name !in visited
    ensures r.Ok? ==> r.value == 1 || r.value == 3 || r.value == 4
    ensures IsDeviceSpace(name) ==> r.Ok?
    ensures !IsDeviceSpace(name) && (csDic.None? || name !in csDic.value) ==> r == Err(UnexpectedColorSpace(name))
    decreases if csDic.Some? then csDic.value.Keys - visited else {}
  {
    if name == DeviceGray then Ok(1)
    else if name == DeviceRGB then Ok(3)
    else if name == DeviceCMYK then Ok(4)
    else if csDic.None? then Err(UnexpectedColorSpace(name))
    else
      var d := csDic.value;
      if name in d && d[name].Array? then
        // GetAsName(0) on an empty array indexes past its end.
        if |d[name].items| == 0 then Err(IndexOutOfRange)
        else if d[name].items[0] == Name(Indexed) then Ok(1)
        else Err(UnexpectedColorSpace(name))
      else if name in d && d[name].Name? then
        var alias := d[name].name;
        if alias in visited + {name} then Err(ColorSpaceCycle(alias))
        else ComponentsOfName(alias, csDic, visited + {name})
      else Err(UnexpectedColorSpace(name))
  }

  /** GetComponentsPerPixel: `csName` is the ColorSpace entry when it is a
      name (None when absent or not a name, the bi-tonal default). */
  function ComponentsPerPixel(csName: Option<string>, csDic: Option<PdfDictionary>): (r: Result<int>)
    ensures csName.None? ==> r == Ok(1)
    ensures csName == Some(DeviceGray) ==> r == Ok(1)
    ensures csName == Some(DeviceRGB) ==> r == Ok(3)
    ensures csName == Some(DeviceCMYK) ==> r == Ok(4)
    ensures r.Ok? ==> r.value == 1 || r.value == 3 || r.value == 4
  {
    match csName
    case None => Ok(1)
    case Some(name) => ComponentsOfName(name, csDic, {})
  }

  /** An entry of the resource dictionary that is an array starting with
      Indexed has one component; one that is a name resolves to what that
      name resolves to; a cycle of names is reported. */
  lemma ResourceEntries(name: string, d: PdfDictionary)
    requires !IsDeviceSpace(name) && name in d
    ensures d[name].Array? && |d[name].items| > 0 && d[name].items[0] == Name(Indexed) ==>
      ComponentsPerPixel(Some(name), Some(d)) == Ok(1)
    ensures d[name].Array? && |d[name].items| > 0 && d[name].items[0] != Name(Indexed) ==>
      ComponentsPerPixel(Some(name), Some(d)) == Err(UnexpectedColorSpace(name))
    ensures d[name].Name? && IsDeviceSpace(d[name].name) ==>
      ComponentsPerPixel(Some(name), Some(d)) == ComponentsPerPixel(Some(d[name].name), Some(d))
    ensures d[name] == Name(name) ==> ComponentsPerPixel(Some(name), Some(d)) == Err(ColorSpaceCycle(name))
    ensures d[name].Name? && d[name].name != name ==>
      var alias := d[name].name;
      (ComponentsPerPixel(Some(name), Some(d)).Ok? || ComponentsPerPixel(Some(alias), Some(d)).Ok?) ==>
        ComponentsPerPixel(Some(name), Some(d)) == ComponentsPerPixel(Some(alias), Some(d))
    ensures !d[name].Array? && !d[name].Name? ==>
      ComponentsPerPixel(Some(name), Some(d)) == Err(UnexpectedColorSpace(name))
  {
    if d[name].Name? && d[name].name != name {
      var alias := d[name].name;
      assert {} + {name} == {name};
      assert ComponentsOfName(name, Some(d), {}) == ComponentsOfName(alias, Some(d), {name});
      if ComponentsOfName(alias, Some(d), {name}).Ok? {
        FewerVisitedSameSuccess(alias, d, {}, {name});
      }
      if ComponentsOfName(alias, Some(d), {}).Ok? {
        SuccessAvoidsAliasOf(alias, d, {}, name, alias);
      }
    }
  }

  /** A resolution that succeeds with some names visited succeeds alike with
      fewer visited: the visited names only serve to stop a cycle. */
  lemma {:induction false} FewerVisitedSameSuccess(n: string, d: PdfDictionary, v: set<string>, w: set<string>)
    requires v <= w && n !in w
    requires ComponentsOfName(n, Some(d), w).Ok?
    ensures ComponentsOfName(n, Some(d), v) == ComponentsOfName(n, Some(d), w)
    decreases d.Keys - w
  {
    if !IsDeviceSpace(n) && n in d && d[n].Name? {
      var alias := d[n].name;
      FewerVisitedSameSuccess(alias, d, v + {n}, w + {n});
    }
  }

  /** A resolution from `m` that succeeds never reaches `n` when `n` is an
      alias of `a` and `a` is already visited (or is `m` itself): at `n` it
      would meet `a` again. So visiting `n` beforehand changes nothing. */
  lemma {:induction false} SuccessAvoidsAliasOf(m: string, d: PdfDictionary, v: set<string>, n: string, a: string)
    requires m !in v && n !in v && n in d && d[n] == Name(a) && a != n && !IsDeviceSpace(n)
    requires a in v || m == a
    requires ComponentsOfName(m, Some(d), v).Ok?
    ensures m != n && ComponentsOfName(m, Some(d), v + {n}) == ComponentsOfName(m, Some(d), v)
    decreases d.Keys - v
  {
    if !IsDeviceSpace(m) && m in d && d[m].Name? {
      var b := d[m].name;
      SuccessAvoidsAliasOf(b, d, v + {m}, n, a);
      assert v + {m} + {n} == v + {n} + {m};
    }
  }

  /** C#'s integer division, which truncates toward zero. */
  function CSharpDiv(a: int, b: int): (q: int)
    requires b > 0
    ensures a >= 0 ==> 0 <= q && q * b <= a < q * b + b
    ensures a < 0 ==> q <= 0 && a <= q * b < a + b
  {
    if a >= 0 then a / b else -((-a) / b)
  }

  /** ComputeBytesPerRow: (w * bpc * cpp + 7) / 8 with bpc defaulting to 1.
      The colour space is resolved before the width is dereferenced. */
  function ComputeBytesPerRow(dict: PdfDictionary, csDic: Option<PdfDictionary>): (r: Result<int>)
    ensures r.Ok? ==> GetAsNumber(dict, Width).Some?
    ensures r.Ok? ==> ComponentsPerPixel(GetAsName(dict, ColorSpace), csDic).Ok?
  {
    var cpp :- ComponentsPerPixel(GetAsName(dict, ColorSpace), csDic);
    match GetAsNumber(dict, Width)
    case None => Err(NullReference(Width))
    case Some(w) =>
      var bpc := match GetAsNumber(dict, BitsPerComponent) case Some(b) => b case None => 1;
      Ok(CSharpDiv(w * bpc * cpp + 7, 8))
  }

  /** The bits of one row of samples. */
  function RowBits(dict: PdfDictionary, csDic: Option<PdfDictionary>): int
    requires ComputeBytesPerRow(dict, csDic).Ok?
  {
    var w := GetAsNumber(dict, Width).value;
    var bpc := match GetAsNumber(dict, BitsPerComponent) case Some(b) => b case None => 1;
    w * bpc * ComponentsPerPixel(GetAsName(dict, ColorSpace), csDic).value
  }

  /** Bytes per row is the number of bits of a row rounded up to whole
      bytes. */
  lemma BytesPerRowIsCeiling(dict: PdfDictionary, csDic: Option<PdfDictionary>)
    requires ComputeBytesPerRow(dict, csDic).Ok?
    requires RowBits(dict, csDic) >= 0
    ensures var r := ComputeBytesPerRow(dict, csDic).value;
      r >= 0 && 8 * r >= RowBits(dict, csDic) && 8 * r < RowBits(dict, csDic) + 8
  {
  }

  /** Bytes per row fails exactly when the colour space does not resolve or
      the width is missing (or is not a number). */
  lemma BytesPerRowErrors(dict: PdfDictionary, csDic: Option<PdfDictionary>)
    ensures ComponentsPerPixel(GetAsName(dict, ColorSpace), csDic).Err? ==>
      ComputeBytesPerRow(dict, csDic) == Err(ComponentsPerPixel(GetAsName(dict, ColorSpace), csDic).error)
    ensures ComponentsPerPixel(GetAsName(dict, ColorSpace), csDic).Ok? && Width !in dict ==>
      ComputeBytesPerRow(dict, csDic) == Err(NullReference(Width))
  {
  }

  /** Ten samples of eight bits in DeviceRGB fill 30 bytes; ten one-bit
      samples in DeviceGray fill 2 bytes; BitsPerComponent defaults to 1. */
  lemma BytesPerRowExamples()
    ensures ComputeBytesPerRow(map[Width := Number(10), BitsPerComponent := Number(8), ColorSpace := Name(DeviceRGB)], None) == Ok(30)
    ensures ComputeBytesPerRow(map[Width := Number(10), BitsPerComponent := Number(1), ColorSpace := Name(DeviceGray)], None) == Ok(2)
    ensures ComputeBytesPerRow(map[Width := Number(10)], None) == Ok(2)
  {
  }
}
