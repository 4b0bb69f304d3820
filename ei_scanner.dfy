/** The filtered sample reader: with a Filter (or an unknown colour space)
    the length of the data is not known, so the stream is scanned byte by
    byte for whitespace, E, I, whitespace, and a candidate is accepted only
    when the completeness check accepts the bytes before it. */
module SampleScanner {
  import opened PdfObjects
  import opened ContentStreams
  import opened Completeness

  const CharE: Byte := 69
  const CharI: Byte := 73

  /** The pending match: `found` bytes of whitespace, E, I, in that order. */
  predicate PendingMatch(found: nat, acc: seq<Byte>) {
    && found <= 3
    && |acc| == found
    && (found >= 1 ==> IsWhitespace(acc[0]))
    && (found >= 2 ==> acc[1] == CharE)
    && (found == 3 ==> acc[2] == CharI)
  }

  /** Whitespace, E, I, whitespace at `k`. */
  predicate TerminatorAt(data: seq<Byte>, k: nat) {
    && k + 4 <= |data|
    && IsWhitespace(data[k]) && data[k + 1] == CharE
    && data[k + 2] == CharI && IsWhitespace(data[k + 3])
  }

  /** The scan from byte `i`, in state `found`, with output `baos` and the
      pending bytes `acc`: the accepted samples and the position after the
      whitespace that ends EI, or the end-of-stream error. */
  function ScanEI(data: seq<Byte>, i: nat, found: nat, baos: seq<Byte>, acc: seq<Byte>,
                  dict: PdfDictionary, ctx: FilterContext): (r: Outcome<seq<Byte>>)
    requires i <= |data|
    ensures i < r.next <= |data| || r.next == i == |data|
    ensures r.result.Ok? ==> InlineImageStreamBytesAreComplete(r.result.value, dict, ctx)
    ensures r.result.Err? ==> r == Outcome(Err(CannotFindImageDataOrEI), |data|)
    decreases |data| - i
  {
    if i == |data| then Outcome(Err(CannotFindImageDataOrEI), |data|)
    else
      var ch := data[i];
      if found == 0 && IsWhitespace(ch) then
        ScanEI(data, i + 1, 1, baos, acc + [ch], dict, ctx)
      else if found == 1 && ch == CharE then
        ScanEI(data, i + 1, 2, baos, acc + [ch], dict, ctx)
      else if found == 1 && IsWhitespace(ch) then
        // The pending whitespace was data; this one may start the terminator.
        ScanEI(data, i + 1, 1, baos + acc, [ch], dict, ctx)
      else if found == 2 && ch == CharI then
        ScanEI(data, i + 1, 3, baos, acc + [ch], dict, ctx)
      else if found == 3 && IsWhitespace(ch) && InlineImageStreamBytesAreComplete(baos, dict, ctx) then
        Outcome(Ok(baos), i + 1)
      else
        ScanEI(data, i + 1, 0, baos + acc + [ch], [], dict, ctx)
  }

  /** The scan of ParseSamples from the current position. */
  method ScanSamples(dict: PdfDictionary, ctx: FilterContext, ps: ContentStream) returns (r: Result<seq<Byte>>)
    requires ps.Valid()
    modifies ps
    ensures ps.Valid()
    ensures Outcome(r, ps.pos) == ScanEI(ps.data, old(ps.pos), 0, [], [], dict, ctx)
  {
    ghost var start := ps.pos;
    var baos: seq<Byte> := [];
    var accumulated: seq<Byte> := [];
    var found: nat := 0;
    while true
      invariant ps.Valid() && start <= ps.pos
      invariant PendingMatch(found, accumulated)
      invariant baos + accumulated == ps.data[start..ps.pos]
      invariant ScanEI(ps.data, start, 0, [], [], dict, ctx)
             == ScanEI(ps.data, ps.pos, found, baos, accumulated, dict, ctx)
      decreases |ps.data| - ps.pos
    {
      var ch := ps.Read();
      if ch == -1 {
        return Err(CannotFindImageDataOrEI);
      }
      assert ps.data[start..ps.pos] == (baos + accumulated) + [ch];
      if found == 0 && IsWhitespace(ch) {
        found := found + 1;
        accumulated := accumulated + [ch];
      } else if found == 1 && ch == CharE {
        found := found + 1;
        accumulated := accumulated + [ch];
      } else if found == 1 && IsWhitespace(ch) {
        baos := baos + accumulated;
        accumulated := [ch];
      } else if found == 2 && ch == CharI {
        found := found + 1;
        accumulated := accumulated + [ch];
      } else if found == 3 && IsWhitespace(ch) {
        var tmp := baos;
        if InlineImageStreamBytesAreComplete(tmp, dict, ctx) {
          return Ok(tmp);
        }
        baos := baos + accumulated;
        accumulated := [];
        baos := baos + [ch];
        found := 0;
      } else {
        baos := baos + accumulated;
        accumulated := [];
        baos := baos + [ch];
        found := 0;
      }
    }
  }

  /** The accepting step: the pending whitespace, E, I sit just after the
      output, and the byte read is the final whitespace. */
  lemma AcceptedCandidate(data: seq<Byte>, start: nat, i: nat, baos: seq<Byte>, acc: seq<Byte>)
    requires start <= i < |data|
    requires PendingMatch(3, acc) && baos + acc == data[start..i] && IsWhitespace(data[i])
    ensures start + |baos| + 4 == i + 1
    ensures data[start..start + |baos|] == baos
    ensures TerminatorAt(data, start + |baos|)
  {
    var k := start + |baos|;
    assert data[start..k] == data[start..i][..|baos|];
    assert data[k..i] == data[start..i][|baos|..];
    assert data[k] == acc[0] && data[k + 1] == acc[1] && data[k + 2] == acc[2];
  }

  /** A successful outcome of a scan from `start`: a prefix `b` of the bytes
      from `start`, followed by a terminator, accepted by the completeness
      check, with the cursor after the terminator. */
  predicate AcceptedPrefix(data: seq<Byte>, start: nat, o: Outcome<seq<Byte>>, dict: PdfDictionary, ctx: FilterContext)
    requires o.result.Ok?
  {
    var b := o.result.value;
    && start + |b| + 4 == o.next <= |data|
    && data[start..start + |b|] == b
    && TerminatorAt(data, start + |b|)
    && InlineImageStreamBytesAreComplete(b, dict, ctx)
  }

  /** What a scan that succeeds returns: a prefix `b` of the bytes from
      `start`, followed by whitespace, E, I, whitespace, which the
      completeness check accepts; the cursor is left after the final
      whitespace. */
  lemma {:induction false} ScanSound(data: seq<Byte>, start: nat, i: nat, found: nat,
                                     baos: seq<Byte>, acc: seq<Byte>, dict: PdfDictionary, ctx: FilterContext)
    requires start <= i <= |data|
    requires PendingMatch(found, acc) && baos + acc == data[start..i]
    requires ScanEI(data, i, found, baos, acc, dict, ctx).result.Ok?
    ensures AcceptedPrefix(data, start, ScanEI(data, i, found, baos, acc, dict, ctx), dict, ctx)
    decreases |data| - i
  {
    var ch := data[i];
    var consumed := data[start..i + 1];
    assert consumed == (baos + acc) + [ch];
    var o := ScanEI(data, i, found, baos, acc, dict, ctx);
    if found == 0 && IsWhitespace(ch) {
      assert consumed == baos + (acc + [ch]);
      assert o == ScanEI(data, i + 1, 1, baos, acc + [ch], dict, ctx);
      ScanSound(data, start, i + 1, 1, baos, acc + [ch], dict, ctx);
    } else if found == 1 && ch == CharE {
      assert consumed == baos + (acc + [ch]);
      assert o == ScanEI(data, i + 1, 2, baos, acc + [ch], dict, ctx);
      ScanSound(data, start, i + 1, 2, baos, acc + [ch], dict, ctx);
    } else if found == 1 && IsWhitespace(ch) {
      assert o == ScanEI(data, i + 1, 1, baos + acc, [ch], dict, ctx);
      ScanSound(data, start, i + 1, 1, baos + acc, [ch], dict, ctx);
    } else if found == 2 && ch == CharI {
      assert consumed == baos + (acc + [ch]);
      assert o == ScanEI(data, i + 1, 3, baos, acc + [ch], dict, ctx);
      ScanSound(data, start, i + 1, 3, baos, acc + [ch], dict, ctx);
    } else if found == 3 && IsWhitespace(ch) && InlineImageStreamBytesAreComplete(baos, dict, ctx) {
      assert o == Outcome(Ok(baos), i + 1);
      AcceptedCandidate(data, start, i, baos, acc);
    } else {
      assert consumed == (baos + acc + [ch]) + [];
      assert o == ScanEI(data, i + 1, 0, baos + acc + [ch], [], dict, ctx);
      ScanSound(data, start, i + 1, 0, baos + acc + [ch], [], dict, ctx);
    }
  }

  /** The scan of ParseSamples from `start`: success returns a prefix that is
      followed by a terminator and accepted by the completeness check; failure
      is CannotFindImageDataOrEI at the end of the stream. So a stream with no
      terminator, or one whose every candidate is rejected, fails. */
  lemma ScanResult(data: seq<Byte>, start: nat, dict: PdfDictionary, ctx: FilterContext)
    requires start <= |data|
    ensures var o := ScanEI(data, start, 0, [], [], dict, ctx);
      && (o.result.Ok? ==>
            var b := o.result.value;
            && o.next == start + |b| + 4 <= |data|
            && data[start..start + |b|] == b
            && TerminatorAt(data, start + |b|)
            && InlineImageStreamBytesAreComplete(b, dict, ctx))
      && (o.result.Err? ==> o == Outcome(Err(CannotFindImageDataOrEI), |data|))
  {
    var o := ScanEI(data, start, 0, [], [], dict, ctx);
    if o.result.Ok? {
      ScanSound(data, start, start, 0, [], [], dict, ctx);
    }
  }

  /** Bytes without whitespace go straight to the output, with no pending
      match. */
  lemma {:induction false} ScanSkipsPlainBytes(data: seq<Byte>, i: nat, j: nat, baos: seq<Byte>,
                                               dict: PdfDictionary, ctx: FilterContext)
    requires i <= j <= |data|
    requires forall k :: i <= k < j ==> !IsWhitespace(data[k])
    ensures ScanEI(data, i, 0, baos, [], dict, ctx) == ScanEI(data, j, 0, baos + data[i..j], [], dict, ctx)
    decreases j - i
  {
    if i < j {
      assert baos + [] + [data[i]] == baos + [data[i]];
      ScanSkipsPlainBytes(data, i + 1, j, baos + [data[i]], dict, ctx);
      assert baos + [data[i]] + data[i + 1..j] == baos + data[i..j];
    } else {
      assert baos + data[i..j] == baos;
    }
  }

  /** The scan in state 0 at a terminator: the bytes before it are returned
      when the check accepts them, with the cursor after the terminator;
      otherwise the terminator joins the output and the scan goes on after
      it. */
  lemma TerminatorStep(data: seq<Byte>, k: nat, baos: seq<Byte>, dict: PdfDictionary, ctx: FilterContext)
    requires TerminatorAt(data, k)
    ensures InlineImageStreamBytesAreComplete(baos, dict, ctx) ==>
      ScanEI(data, k, 0, baos, [], dict, ctx) == Outcome(Ok(baos), k + 4)
    ensures !InlineImageStreamBytesAreComplete(baos, dict, ctx) ==>
      ScanEI(data, k, 0, baos, [], dict, ctx) == ScanEI(data, k + 4, 0, baos + data[k..k + 4], [], dict, ctx)
  {
    var acc := [data[k], data[k + 1], data[k + 2]];
    assert [] + [data[k]] == [data[k]];
    assert [data[k]] + [data[k + 1]] == [data[k], data[k + 1]];
    assert [data[k], data[k + 1]] + [data[k + 2]] == acc;
    assert ScanEI(data, k, 0, baos, [], dict, ctx) == ScanEI(data, k + 1, 1, baos, [data[k]], dict, ctx);
    assert ScanEI(data, k + 1, 1, baos, [data[k]], dict, ctx)
        == ScanEI(data, k + 2, 2, baos, [data[k], data[k + 1]], dict, ctx);
    assert ScanEI(data, k + 2, 2, baos, [data[k], data[k + 1]], dict, ctx)
        == ScanEI(data, k + 3, 3, baos, acc, dict, ctx);
    if !InlineImageStreamBytesAreComplete(baos, dict, ctx) {
      RejectedCandidateIsData(data, k + 3, baos, acc, dict, ctx);
      assert baos + acc + [data[k + 3]] == baos + data[k..k + 4];
    }
  }

  /** Sample bytes without whitespace, followed by a terminator, are found
      when the completeness check accepts them. */
  lemma PlainSamplesAreFound(data: seq<Byte>, start: nat, b: seq<Byte>, dict: PdfDictionary, ctx: FilterContext)
    requires start + |b| <= |data| && data[start..start + |b|] == b
    requires forall k :: 0 <= k < |b| ==> !IsWhitespace(b[k])
    requires TerminatorAt(data, start + |b|)
    requires InlineImageStreamBytesAreComplete(b, dict, ctx)
    ensures ScanEI(data, start, 0, [], [], dict, ctx) == Outcome(Ok(b), start + |b| + 4)
  {
    var k := start + |b|;
    forall m | start <= m < k
      ensures !IsWhitespace(data[m])
    {
      assert data[m] == b[m - start];
    }
    ScanSkipsPlainBytes(data, start, k, [], dict, ctx);
    assert [] + data[start..k] == b;
    TerminatorStep(data, k, b, dict, ctx);
  }

  /** A terminator inside the samples is data when the check rejects the
      bytes before it: with `x` and `y` free of whitespace, the stream
      x, terminator, y, terminator gives x, the first terminator and y, when
      the check rejects x and accepts that whole prefix. */
  lemma EmbeddedTerminatorIsData(data: seq<Byte>, start: nat, x: seq<Byte>, y: seq<Byte>,
                                 dict: PdfDictionary, ctx: FilterContext)
    requires start + |x| + 4 + |y| <= |data|
    requires data[start..start + |x|] == x && data[start + |x| + 4..start + |x| + 4 + |y|] == y
    requires forall k :: 0 <= k < |x| ==> !IsWhitespace(x[k])
    requires forall k :: 0 <= k < |y| ==> !IsWhitespace(y[k])
    requires TerminatorAt(data, start + |x|) && TerminatorAt(data, start + |x| + 4 + |y|)
    requires !InlineImageStreamBytesAreComplete(x, dict, ctx)
    requires InlineImageStreamBytesAreComplete(x + data[start + |x|..start + |x| + 4] + y, dict, ctx)
    ensures ScanEI(data, start, 0, [], [], dict, ctx)
         == Outcome(Ok(x + data[start + |x|..start + |x| + 4] + y), start + |x| + 4 + |y| + 4)
  {
    var k1 := start + |x|;
    var k2 := k1 + 4 + |y|;
    var t1 := data[k1..k1 + 4];
    forall m | start <= m < k1
      ensures !IsWhitespace(data[m])
    {
      assert data[m] == x[m - start];
    }
    forall m | k1 + 4 <= m < k2
      ensures !IsWhitespace(data[m])
    {
      assert data[m] == y[m - (k1 + 4)];
    }
    ScanSkipsPlainBytes(data, start, k1, [], dict, ctx);
    assert [] + data[start..k1] == x;
    TerminatorStep(data, k1, x, dict, ctx);
    ScanSkipsPlainBytes(data, k1 + 4, k2, x + t1, dict, ctx);
    TerminatorStep(data, k2, x + t1 + y, dict, ctx);
  }

  /** A rejected candidate becomes data: the whitespace, E, I and the
      whitespace after it are appended to the output and the scan starts
      over. */
  lemma RejectedCandidateIsData(data: seq<Byte>, i: nat, baos: seq<Byte>, acc: seq<Byte>,
                                dict: PdfDictionary, ctx: FilterContext)
    requires i < |data| && PendingMatch(3, acc) && IsWhitespace(data[i])
    requires !InlineImageStreamBytesAreComplete(baos, dict, ctx)
    ensures ScanEI(data, i, 3, baos, acc, dict, ctx) == ScanEI(data, i + 1, 0, baos + acc + [data[i]], [], dict, ctx)
  {
  }

  /** The scan misses a terminator whose leading whitespace is the byte just
      after a whitespace and E: in space, E, space, E, I, space the bytes
      from index 2 are a terminator that any check would accept, yet the
      scan runs to the end of the stream. */
  lemma OverlappingTerminatorIsMissed(dict: PdfDictionary, ctx: FilterContext)
    requires forall b: seq<Byte> :: ctx.decode(b, dict, CheckHandlers(ctx.defaults)).Some?
    ensures var data: seq<Byte> := [32, 69, 32, 69, 73, 32];
      && TerminatorAt(data, 2)
      && InlineImageStreamBytesAreComplete([32, 69], dict, ctx)
      && ScanEI(data, 0, 0, [], [], dict, ctx) == Outcome(Err(CannotFindImageDataOrEI), 6)
  {
    var data: seq<Byte> := [32, 69, 32, 69, 73, 32];
    assert ScanEI(data, 0, 0, [], [], dict, ctx) == ScanEI(data, 1, 1, [], [32], dict, ctx);
    assert ScanEI(data, 1, 1, [], [32], dict, ctx) == ScanEI(data, 2, 2, [], [32, 69], dict, ctx);
    assert ScanEI(data, 2, 2, [], [32, 69], dict, ctx) == ScanEI(data, 3, 0, [32, 69, 32], [], dict, ctx);
    assert ScanEI(data, 3, 0, [32, 69, 32], [], dict, ctx) == ScanEI(data, 4, 0, [32, 69, 32, 69], [], dict, ctx);
    assert ScanEI(data, 4, 0, [32, 69, 32, 69], [], dict, ctx) == ScanEI(data, 5, 0, [32, 69, 32, 69, 73], [], dict, ctx);
    assert ScanEI(data, 5, 0, [32, 69, 32, 69, 73], [], dict, ctx) == ScanEI(data, 6, 1, [32, 69, 32, 69, 73], [32], dict, ctx);
  }
}
