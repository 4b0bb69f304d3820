/** The dictionary reader: the key/value pairs between BI and ID, stored
    under resolved keys with normalised values, then the one whitespace byte
    that must follow ID. */
module DictionaryReader {
  import opened PdfObjects
  import opened ContentStreams
  import opened Abbreviations

  /** Why the pair loop stopped: at the ID keyword, at the end of the stream,
      or at a key that is not a name (the cast to PdfName fails). */
  datatype Stop = AtID | AtEnd | KeyNotName

  /** The pairs read before the loop stopped, in stream order, and the cursor
      afterwards. */
  datatype Entries = Entries(pairs: seq<(string, PdfObject)>, stop: Stop, next: nat)

  /** The pair loop of ParseDictionary, from `pos`. A key whose value is cut
      off by the end of the stream is not kept: the stream is then exhausted,
      and the byte check after the loop fails in any case. */
  function ReadEntries(lex: Lexer, data: seq<Byte>, pos: nat): (e: Entries)
    requires pos <= |data|
    ensures pos <= e.next <= |data|
    ensures e.stop == AtEnd ==> e.next == |data|
    decreases |data| - pos
  {
    match ObjectAt(lex, data, pos)
    case None => Entries([], AtEnd, |data|)
    case Some(Lexed(key, p1)) =>
      if PrintsAs(key, "ID") then Entries([], AtID, p1)
      else
        match ObjectAt(lex, data, p1)
        case None => if key.Name? then Entries([], AtEnd, |data|) else Entries([], KeyNotName, |data|)
        case Some(Lexed(value, p2)) =>
          if !key.Name? then Entries([], KeyNotName, p2)
          else
            var rest := ReadEntries(lex, data, p2);
            Entries([(key.name, value)] + rest.pairs, rest.stop, rest.next)
  }

  /** Puts each pair, in order, under its resolved key with its normalised
      value: a later pair overwrites an earlier one with the same key. */
  function BuildDictionary(pairs: seq<(string, PdfObject)>): (d: PdfDictionary)
    ensures forall i :: 0 <= i < |pairs| ==> ResolveKey(pairs[i].0) in d
    ensures |pairs| == 0 ==> d == map[]
    decreases |pairs|
  {
    if |pairs| == 0 then map[]
    else
      var last := pairs[|pairs| - 1];
      var k := ResolveKey(last.0);
      BuildDictionary(pairs[..|pairs| - 1])[k := GetAlternateValue(k, last.1)]
  }

  /** ParseDictionary: the pairs, then one byte that must be whitespace. */
  function ParseDictionarySpec(lex: Lexer, data: seq<Byte>, pos: nat): (r: Outcome<PdfDictionary>)
    requires pos <= |data|
    ensures pos <= r.next <= |data|
    ensures r.result.Ok? ==> pos < r.next && IsWhitespace(data[r.next - 1])
    ensures r.result.Err? ==> r.result.error == InvalidCast || r.result.error.UnexpectedCharacterAfterID?
    ensures r.result.Err? && r.result.error.UnexpectedCharacterAfterID? ==> !IsWhitespace(r.result.error.ch)
  {
    var e := ReadEntries(lex, data, pos);
    if e.stop == KeyNotName then Outcome(Err(InvalidCast), e.next)
    else
      var ch := ByteAt(data, e.next);
      if IsWhitespace(ch) then Outcome(Ok(BuildDictionary(e.pairs)), AfterByte(data, e.next))
      else Outcome(Err(UnexpectedCharacterAfterID(ch)), AfterByte(data, e.next))
  }

  /** One turn of the pair loop: a key that is not ID, then its value. */
  lemma ReadEntriesStep(lex: Lexer, data: seq<Byte>, q: nat)
    requires q <= |data|
    requires TokenAt(lex, data, q).Some? && !PrintsAs(TokenAt(lex, data, q).value, "ID")
    ensures var key := TokenAt(lex, data, q).value;
      var p1 := AfterObject(lex, data, q);
      var value := TokenAt(lex, data, p1);
      var p2 := AfterObject(lex, data, p1);
      var e := ReadEntries(lex, data, q);
      && (!key.Name? ==> e == Entries([], KeyNotName, p2))
      && (key.Name? && value.None? ==> e == ReadEntries(lex, data, p2))
      && (key.Name? && value.Some? ==>
            e == Entries([(key.name, value.value)] + ReadEntries(lex, data, p2).pairs,
                         ReadEntries(lex, data, p2).stop, ReadEntries(lex, data, p2).next))
  {
  }

  /** The pairs read so far and the pairs still to come make up the whole
      loop, before and after one turn of it. */
  lemma ReadEntriesTurn(lex: Lexer, data: seq<Byte>, start: nat, q: nat, pairs: seq<(string, PdfObject)>)
    requires start <= |data| && q <= |data|
    requires TokenAt(lex, data, q).Some? && !PrintsAs(TokenAt(lex, data, q).value, "ID")
    requires TokenAt(lex, data, q).value.Name?
    requires ReadEntries(lex, data, start) ==
      Entries(pairs + ReadEntries(lex, data, q).pairs, ReadEntries(lex, data, q).stop, ReadEntries(lex, data, q).next)
    ensures var key := TokenAt(lex, data, q).value;
      var p1 := AfterObject(lex, data, q);
      var value := TokenAt(lex, data, p1);
      var p2 := AfterObject(lex, data, p1);
      var pairs' := if value.Some? then pairs + [(key.name, value.value)] else pairs;
      ReadEntries(lex, data, start) ==
        Entries(pairs' + ReadEntries(lex, data, p2).pairs, ReadEntries(lex, data, p2).stop, ReadEntries(lex, data, p2).next)
  {
    ReadEntriesStep(lex, data, q);
    var p1 := AfterObject(lex, data, q);
    var value := TokenAt(lex, data, p1);
    if value.Some? {
      var key := TokenAt(lex, data, q).value;
      var rest := ReadEntries(lex, data, AfterObject(lex, data, p1)).pairs;
      assert pairs + ([(key.name, value.value)] + rest) == (pairs + [(key.name, value.value)]) + rest;
    }
  }

  /** Where the pair loop ends: at the end of the stream or at ID. */
  lemma ReadEntriesStop(lex: Lexer, data: seq<Byte>, q: nat)
    requires q <= |data|
    requires TokenAt(lex, data, q).None? || PrintsAs(TokenAt(lex, data, q).value, "ID")
    ensures ReadEntries(lex, data, q).pairs == []
    ensures ReadEntries(lex, data, q).stop != KeyNotName
    ensures ReadEntries(lex, data, q).next == AfterObject(lex, data, q)
  {
  }

  /** ParseDictionary, reading from `ps`. */
  method ParseDictionary(ps: ContentStream) returns (r: Result<PdfDictionary>)
    requires ps.Valid()
    modifies ps
    ensures ps.Valid()
    ensures Outcome(r, ps.pos) == ParseDictionarySpec(ps.lex, ps.data, old(ps.pos))
  {
    ghost var start := ps.pos;
    ghost var q := ps.pos;         // where the current key was read
    ghost var pairs: seq<(string, PdfObject)> := [];
    var dict: PdfDictionary := map[];
    var key := ps.ReadObject();
    while key.Some? && !PrintsAs(key.value, "ID")
      invariant ps.Valid() && q <= |ps.data|
      invariant key == TokenAt(ps.lex, ps.data, q) && ps.pos == AfterObject(ps.lex, ps.data, q)
      invariant dict == BuildDictionary(pairs)
      invariant var e := ReadEntries(ps.lex, ps.data, q);
        ReadEntries(ps.lex, ps.data, start) == Entries(pairs + e.pairs, e.stop, e.next)
      decreases |ps.data| - q
    {
      ReadEntriesStep(ps.lex, ps.data, q);
      var value := ps.ReadObject();
      if !key.value.Name? {
        return Err(InvalidCast);
      }
      ReadEntriesTurn(ps.lex, ps.data, start, q, pairs);
      var resolvedKey := ResolveKey(key.value.name);
      if value.Some? {
        assert (pairs + [(key.value.name, value.value)])[..|pairs|] == pairs;
        dict := dict[resolvedKey := GetAlternateValue(resolvedKey, value.value)];
        pairs := pairs + [(key.value.name, value.value)];
      }
      q := ps.pos;
      key := ps.ReadObject();
    }
    ReadEntriesStop(ps.lex, ps.data, q);
    assert pairs + [] == pairs;
    var ch := ps.Read();
    if !IsWhitespace(ch) {
      return Err(UnexpectedCharacterAfterID(ch));
    }
    return Ok(dict);
  }

  // ---------------------------------------------------------------------
  // Properties of the stored dictionary.

  /** The keys of the dictionary are exactly the resolved keys of the pairs. */
  lemma {:induction false} BuildDictionaryKeys(pairs: seq<(string, PdfObject)>)
    ensures BuildDictionary(pairs).Keys == set i | 0 <= i < |pairs| :: ResolveKey(pairs[i].0)
    decreases |pairs|
  {
    if |pairs| > 0 {
      var init := pairs[..|pairs| - 1];
      BuildDictionaryKeys(init);
      var s := set i | 0 <= i < |pairs| :: ResolveKey(pairs[i].0);
      var t := set i | 0 <= i < |init| :: ResolveKey(init[i].0);
      assert s == t + {ResolveKey(pairs[|pairs| - 1].0)} by {
        forall k | k in s ensures k in t + {ResolveKey(pairs[|pairs| - 1].0)} {
          var i :| 0 <= i < |pairs| && k == ResolveKey(pairs[i].0);
          if i < |init| { assert init[i] == pairs[i]; }
        }
        forall k | k in t ensures k in s {
          var i :| 0 <= i < |init| && k == ResolveKey(init[i].0);
          assert init[i] == pairs[i];
        }
      }
    }
  }

  /** A repeated key keeps the value of its last occurrence. */
  lemma {:induction false} LastWriteWins(pairs: seq<(string, PdfObject)>, i: nat)
    requires i < |pairs|
    requires forall j :: i < j < |pairs| ==> ResolveKey(pairs[j].0) != ResolveKey(pairs[i].0)
    ensures ResolveKey(pairs[i].0) in BuildDictionary(pairs)
    ensures BuildDictionary(pairs)[ResolveKey(pairs[i].0)] ==
      GetAlternateValue(ResolveKey(pairs[i].0), pairs[i].1)
    decreases |pairs|
  {
    if i < |pairs| - 1 {
      var init := pairs[..|pairs| - 1];
      assert init[i] == pairs[i];
      forall j | i < j < |init| ensures ResolveKey(init[j].0) != ResolveKey(init[i].0) {
        assert init[j] == pairs[j];
      }
      LastWriteWins(init, i);
    }
  }

  /** Every pair in the form it is stored: resolved key, normalised value. */
  function Canonicalise(pairs: seq<(string, PdfObject)>): (c: seq<(string, PdfObject)>)
    ensures |c| == |pairs|
  {
    seq(|pairs|, i requires 0 <= i < |pairs| =>
      (ResolveKey(pairs[i].0), GetAlternateValue(ResolveKey(pairs[i].0), pairs[i].1)))
  }

  /** Writing a dictionary with abbreviated keys and values gives the same
      dictionary as writing it in canonical form. */
  lemma {:induction false} AbbreviatedEqualsCanonical(pairs: seq<(string, PdfObject)>)
    ensures BuildDictionary(pairs) == BuildDictionary(Canonicalise(pairs))
    decreases |pairs|
  {
    if |pairs| > 0 {
      var n := |pairs| - 1;
      var c := Canonicalise(pairs);
      assert c[..n] == Canonicalise(pairs[..n]);
      AbbreviatedEqualsCanonical(pairs[..n]);
      var k := ResolveKey(pairs[n].0);
      ResolveKeyIdempotent(pairs[n].0);
      GetAlternateValueIdempotent(k, pairs[n].1);
    }
  }

  /** An abbreviated dictionary, BPC 8, CS RGB, F Fl, is stored in full:
      BitsPerComponent 8, ColorSpace DeviceRGB, Filter FlateDecode. */
  lemma AbbreviatedDictionaryExample()
    ensures BuildDictionary([("BPC", Number(8)), ("CS", Name("RGB")), ("F", Name("Fl"))])
         == map[BitsPerComponent := Number(8), ColorSpace := Name(DeviceRGB), Filter := Name(FlateDecode)]
  {
    var pairs := [("BPC", Number(8)), ("CS", Name("RGB")), ("F", Name("Fl"))];
    AbbreviatedKeys();
    AbbreviatedValues();
    assert pairs[..2] == [("BPC", Number(8)), ("CS", Name("RGB"))];
    assert pairs[..2][..1] == [("BPC", Number(8))];
    assert pairs[..2][..1][..0] == [];
  }

  /** When every key read is in the key table, only canonical keys are
      stored: no key abbreviation survives. */
  lemma OnlyCanonicalKeys(pairs: seq<(string, PdfObject)>)
    requires forall i :: 0 <= i < |pairs| ==> pairs[i].0 in EntryAbbreviations
    ensures BuildDictionary(pairs).Keys <= CanonicalKeys
  {
    BuildDictionaryKeys(pairs);
  }

  // ---------------------------------------------------------------------
  // Properties of the reader.

  /** The reader succeeds exactly when the loop met ID (never a key that is
      not a name, never the end of the stream) and the byte after it is
      whitespace; it then holds the pairs read, and the cursor is past that
      byte. */
  lemma ParseDictionaryOutcome(lex: Lexer, data: seq<Byte>, pos: nat)
    requires pos <= |data|
    ensures var e := ReadEntries(lex, data, pos);
      var o := ParseDictionarySpec(lex, data, pos);
      && (o.result.Ok? <==> e.stop == AtID && e.next < |data| && IsWhitespace(data[e.next]))
      && (o.result.Ok? ==> o.result.value == BuildDictionary(e.pairs) && o.next == e.next + 1)
  {
  }

  /** A stream that ends before ID fails with the end-of-stream value -1 as
      the unexpected character. */
  lemma EndOfStreamBeforeID(lex: Lexer, data: seq<Byte>, pos: nat)
    requires pos <= |data|
    requires ReadEntries(lex, data, pos).stop == AtEnd
    ensures ParseDictionarySpec(lex, data, pos).result == Err(UnexpectedCharacterAfterID(-1))
  {
  }
}
