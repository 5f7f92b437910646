/** When the chunked branch sees the chunks that were sent, in terms of where the reads happened to end. */
module ChunkFraming {
  import opened Ascii
  import opened Bytes
  import opened MachineInts
  import opened SizeLines
  import opened Chunks
  import opened Wrappers

  /** Two bytes, which nothing looks at, end a chunk. */
  datatype Chunk = Chunk(line: seq<byte>, payload: seq<byte>, end: seq<byte>)

  function Flat(c: Chunk): seq<byte> {
    c.line + c.payload + c.end
  }

  function Stream(cs: seq<Chunk>): seq<byte> {
    if cs == [] then [] else Flat(cs[0]) + Stream(cs[1..])
  }

  function Payloads(cs: seq<Chunk>): seq<byte> {
    if cs == [] then [] else cs[0].payload + Payloads(cs[1..])
  }

  function Lengths(cs: seq<Chunk>): (ns: seq<int>)
    ensures |ns| == |cs|
  {
    if cs == [] then [] else [|cs[0].payload|] + Lengths(cs[1..])
  }

  /** The line announces the payload. */
  predicate IsChunk(c: Chunk) {
    && SizeLine(c.line) && ContentLen(LeadingHex(c.line)) == |c.payload| <= INT_MAX - 2
    && |c.end| == 2
  }

  /** An empty chunk, and only that one, ends the body. */
  ghost predicate Chunked(cs: seq<Chunk>) {
    && cs != []
    && IsChunk(cs[0])
    && if cs[0].payload == [] then |cs| == 1 else Chunked(cs[1..])
  }

  // ---- reading by numbers: how much is buffered, how much is to come, and how reads will split it ----

  datatype Feed = Feed(buffered: nat, coming: nat, takes: seq<nat>)

  datatype Step = Stray | On(feed: Feed)

  function FeedOf(text: seq<byte>, w: Wire): Feed {
    Feed(|text|, |w.sent|, w.takes)
  }

  /** The buffer holds the bytes from `start` to `end`, counted from the beginning of the size line `h`. The line is
      understood if the parts that reads cut off are unfinished, and lost, and the last part is a line of the same
      size. */
  function LineKept(h: seq<byte>, size: int, start: nat, end: nat, coming: nat, takes: seq<nat>, buffSize: nat,
                    response: seq<byte> -> Parsed): Step
    requires start < |h| && start <= end
    decreases |takes|
  {
    if end >= |h| then
      if Parse(h[start..], response) != Line(|h| - start, size, size <= 0) then Stray
      else On(Feed(end - |h|, coming, takes))
    else if start < end && Parse(h[start..end], response) != Incomplete then Stray
    else
      var n := Arrives(coming, takes, buffSize);
      if n == 0 then Stray else LineKept(h, size, end, end + n, coming - n, takes[1..], buffSize, response)
  }

  /** `left` bytes in pieces. */
  function LeftKept(left: nat, coming: nat, takes: seq<nat>, buffSize: nat): Step
    decreases |takes|
  {
    if left == 0 then On(Feed(0, coming, takes))
    else
      var n := Arrives(coming, takes, if left > buffSize then buffSize else left);
      if n == 0 then Stray else LeftKept(left - n, coming - n, takes[1..], buffSize)
  }

  function PayloadKept(size: nat, f: Feed, buffSize: nat): Step {
    if size + 2 <= f.buffered then On(f.(buffered := f.buffered - (size + 2)))
    else LeftKept(size + 2 - f.buffered, f.coming, f.takes, buffSize)
  }

  /** Every size line is understood, and no read fails. */
  ghost predicate Kept(cs: seq<Chunk>, f: Feed, buffSize: nat, response: seq<byte> -> Parsed)
    decreases |cs|
  {
    cs == [] || (cs[0].line != [] &&
      var k := LineKept(cs[0].line, |cs[0].payload|, 0, f.buffered, f.coming, f.takes, buffSize, response);
      k.On? &&
      var p := PayloadKept(|cs[0].payload|, k.feed, buffSize);
      p.On? && Kept(cs[1..], p.feed, buffSize, response))
  }

  // ---- the numbers say what the loops do ----

  lemma SuffixOneLine(h: seq<byte>, start: nat)
    requires OneLine(h) && start < |h|
    ensures OneLine(h[start..])
    ensures forall end :: start < end < |h| ==> LF !in h[start..end] && SLASH !in h[start..end]
  {
    forall end | start < end < |h|
      ensures LF !in h[start..end] && SLASH !in h[start..end]
    {
      forall b | b in h[start..end]
        ensures b != LF && b != SLASH
      {
        var i :| 0 <= i < end - start && h[start..end][i] == b;
        assert h[start + i] == b;
      }
    }
  }

  lemma {:induction false} LineSync(h: seq<byte>, size: int, start: nat, text: seq<byte>, w: Wire, rest: seq<byte>,
                                    buffSize: nat, response: seq<byte> -> Parsed)
    requires OneLine(h) && start < |h| && text + w.sent == h[start..] + rest
    ensures var k := LineKept(h, size, start, start + |text|, |w.sent|, w.takes, buffSize, response);
      var f := LineFrom(text, w, buffSize, response);
      && (k.On? <==> f.Found? && f.size == size)
      && (k.On? ==> f.done == (size <= 0) && f.text + f.wire.sent == rest && k.feed == FeedOf(f.text, f.wire))
    decreases |w.takes|, |text|
  {
    hide Parse;
    hide Scan;
    SuffixOneLine(h, start);
    var g := h[start..];
    var end := start + |text|;
    if |text| >= |g| {
      Front(text, w.sent, g, rest);
      ParseSuffix(g, text[|g|..], response);
    } else if text == [] {
      var n := Arriving(w, buffSize);
      if n > 0 {
        assert w.sent == g + rest;
        assert w.sent[..n] + w.sent[n..] == w.sent;
        LineSync(h, size, start, w.sent[..n], Rest(w, n), rest, buffSize, response);
      }
    } else {
      Part(text, w.sent, h, start, rest);
      ParseOpen(text, response);
      if Parse(text, response) == Incomplete {
        LineSync(h, size, end, [], w, rest, buffSize, response);
        ReadNext(h, size, start, end, |w.sent|, w.takes, buffSize, response);
      }
    }
  }

  lemma Front(text: seq<byte>, sent: seq<byte>, g: seq<byte>, rest: seq<byte>)
    requires text + sent == g + rest && |text| >= |g|
    ensures text == g + text[|g|..] && text[|g|..] + sent == rest
  {
    assert text == (g + rest)[..|text|];
    assert text[|g|..] + sent == (text + sent)[|g|..];
  }

  lemma Part(text: seq<byte>, sent: seq<byte>, h: seq<byte>, start: nat, rest: seq<byte>)
    requires start < |h| && text + sent == h[start..] + rest && |text| < |h| - start
    ensures text == h[start..start + |text|] && sent == h[start + |text|..] + rest
  {
    var g := h[start..];
    assert text == (g + rest)[..|text|] == g[..|text|];
    assert sent == (g + rest)[|text|..] == g[|text|..] + rest;
  }

  /** A part that is unfinished makes no difference but for being lost. */
  lemma ReadNext(h: seq<byte>, size: int, start: nat, end: nat, coming: nat, takes: seq<nat>, buffSize: nat,
                 response: seq<byte> -> Parsed)
    requires start < end < |h| && Parse(h[start..end], response) == Incomplete
    ensures LineKept(h, size, start, end, coming, takes, buffSize, response) ==
            LineKept(h, size, end, end, coming, takes, buffSize, response)
  {
  }

  lemma {:induction false} LeftSync(left: nat, w: Wire, buffSize: nat)
    ensures var k, t := LeftKept(left, |w.sent|, w.takes, buffSize), LeftFrom(left, w, buffSize);
      && (k.On? <==> t.Taken?)
      && (k.On? ==> k.feed == FeedOf([], t.wire))
    decreases |w.takes|
  {
    hide Arrives;
    LeftUnfolds(left, w, buffSize);
    hide LeftFrom;
    if left > 0 {
      var n := Arriving(w, if left > buffSize then buffSize else left);
      if n > 0 {
        LeftSync(left - n, Rest(w, n), buffSize);
      }
    }
  }

  lemma PayloadSync(c: Chunk, body: seq<byte>, text: seq<byte>, w: Wire, rest: seq<byte>, buffSize: nat)
    requires |c.end| == 2 && text + w.sent == c.payload + c.end + rest
    ensures var k := PayloadKept(|c.payload|, FeedOf(text, w), buffSize);
      var p := PayloadFrom(|c.payload|, text, w, buffSize);
      && (k.On? <==> p.Paid?)
      && (k.On? ==>
        && (body + p.bytes)[..|body| + |c.payload|] == body + c.payload
        && p.text + p.wire.sent == rest && k.feed == FeedOf(p.text, p.wire))
  {
    hide LeftFrom;
    hide LeftKept;
    var need := |c.payload| + 2;
    var all := c.payload + c.end;
    if need <= |text| {
      Front(text, w.sent, all, rest);
      assert text[..|c.payload|] == c.payload;
      CutBack(body, c.payload, []);
    } else {
      var left := need - |text|;
      LeftSync(left, w, buffSize);
      var t := LeftFrom(left, w, buffSize);
      if t.Taken? {
        Pieces(text, w.sent, all, rest);
        CutBack(body, c.payload, c.end);
      }
    }
  }

  lemma CutBack(body: seq<byte>, payload: seq<byte>, end: seq<byte>)
    ensures (body + (payload + end))[..|body| + |payload|] == body + payload
    ensures end == [] ==> payload + end == payload
  {
  }

  lemma Pieces(text: seq<byte>, sent: seq<byte>, all: seq<byte>, rest: seq<byte>)
    requires text + sent == all + rest && |text| < |all|
    ensures |all| - |text| <= |sent|
    ensures text + sent[..|all| - |text|] == all && sent[|all| - |text|..] == rest
  {
    var left := |all| - |text|;
    assert text + sent[..left] == (text + sent)[..|all|];
    assert sent[left..] == (text + sent)[|all|..];
  }

  // ---- the body ----

  lemma FirstFlat(cs: seq<Chunk>, extra: seq<byte>)
    requires cs != []
    ensures Stream(cs) + extra == cs[0].line + (cs[0].payload + cs[0].end + (Stream(cs[1..]) + extra))
  {
    var c, tail := cs[0], Stream(cs[1..]);
    Associate(c.line, c.payload, c.end);
    Associate(c.line, c.payload + c.end, tail);
    Associate(c.line, c.payload + c.end + tail, extra);
    Associate(c.payload + c.end, tail, extra);
  }

  /** The outcome is what was sent, put behind the body and the sizes there were, with what follows left over. */
  ghost predicate Right(out: Outcome, body: seq<byte>, sizes: seq<int>, cs: seq<Chunk>, extra: seq<byte>) {
    && out.Complete? && out.sizes == sizes + Lengths(cs) && out.body == body + Payloads(cs)
    && out.text + out.wire.sent == extra
  }

  lemma Longer(a: seq<int>, n: int, b: seq<int>)
    ensures a + [n] + b == a + ([n] + b)
  {
  }

  /** When the next size is another one, the outcome is not what was sent. */
  lemma OtherSize(body: seq<byte>, sizes: seq<int>, text: seq<byte>, w: Wire, buffSize: nat,
                  response: seq<byte> -> Parsed, size: int, more: seq<int>)
    requires var f := LineFrom(text, w, buffSize, response); f.Missing? || f.size != size
    ensures var out := BodyFrom(body, sizes, text, w, buffSize, response);
      !(out.Complete? && out.sizes == sizes + ([size] + more))
  {
    hide BodyFrom;
    hide LineFrom;
    hide PayloadFrom;
    BodyStep(body, sizes, text, w, buffSize, response);
    Announced(body, sizes, text, w, buffSize, response);
    var f, out := LineFrom(text, w, buffSize, response), BodyFrom(body, sizes, text, w, buffSize, response);
    if f.Found? {
      assert out.sizes[|sizes|] == (sizes + [f.size])[|sizes|];
    }
  }

  /** The sizes announced to the loop are those of the chunks if and only if the reads ended so that every size line
      was kept; then all payloads are put on the body and the rest is left. */
  lemma {:induction false} Framed(cs: seq<Chunk>, extra: seq<byte>, body: seq<byte>, sizes: seq<int>,
                                  text: seq<byte>, w: Wire, buffSize: nat, response: seq<byte> -> Parsed)
    requires Chunked(cs) && text + w.sent == Stream(cs) + extra
    ensures var out := BodyFrom(body, sizes, text, w, buffSize, response);
      && (out.Complete? && out.sizes == sizes + Lengths(cs) <==> Kept(cs, FeedOf(text, w), buffSize, response))
      && (Kept(cs, FeedOf(text, w), buffSize, response) ==> Right(out, body, sizes, cs, extra))
    decreases |cs|
  {
    hide LineFrom;
    hide LineKept;
    hide PayloadFrom;
    hide PayloadKept;
    hide BodyFrom;
    hide Parse;
    var c, tail := cs[0], cs[1..];
    var size, rest := |c.payload|, Stream(tail) + extra;
    ScanOneLine(Start, c.line);
    FirstFlat(cs, extra);
    assert c.line[0..] == c.line && Lengths(cs) == [size] + Lengths(tail);
    assert c.payload == [] ==> Stream(tail) + extra == extra && Lengths(cs) == [0] && Payloads(cs) == [];
    assert Payloads(cs) == c.payload + Payloads(tail);
    hide Scan;
    hide Stream;
    hide Lengths;
    hide Payloads;
    LineSync(c.line, size, 0, text, w, c.payload + c.end + rest, buffSize, response);
    var f := LineFrom(text, w, buffSize, response);
    if f.Missing? || f.size != size {
      OtherSize(body, sizes, text, w, buffSize, response, size, Lengths(tail));
    } else {
      BodyStep(body, sizes, text, w, buffSize, response);
      PayloadSync(c, body, f.text, f.wire, rest, buffSize);
      var p := PayloadFrom(size, f.text, f.wire, buffSize);
      if p.Paid? && c.payload == [] {
        assert tail == [];
      } else if p.Paid? {
        Framed(tail, extra, body + c.payload, sizes + [size], p.text, p.wire, buffSize, response);
        Longer(sizes, size, Lengths(tail));
        Associate(body, c.payload, Payloads(tail));
      }
    }
  }

  /** The same through the buffer and the connection. */
  method Receive(c: Connection, data: array<byte>, buffSize: nat, offset: nat, response: seq<byte> -> Parsed,
                 ghost cs: seq<Chunk>, ghost extra: seq<byte>)
    returns (r: Received, len: nat)
    requires data.Length == buffSize + 1 && offset < buffSize
    requires Chunked(cs) && data[..offset] + c.sent == Stream(cs) + extra
    modifies c, data
    ensures len < buffSize
    ensures old(Kept(cs, FeedOf(data[..offset], c.State()), buffSize, response)) ==>
      r == Body(Payloads(cs)) && data[..len] + c.sent == extra
  {
    hide Kept;
    hide BodyFrom;
    Framed(cs, extra, [], [], data[..offset], c.State(), buffSize, response);
    assert [] + Payloads(cs) == Payloads(cs);
    r, len := RecvChunks(c, data, buffSize, offset, response);
  }

  // ---- lines without extensions ----

  /** Where the last part of the first `len` bytes begins, or nothing when a read fails before they are all there. */
  function LastPart(len: nat, start: nat, end: nat, coming: nat, takes: seq<nat>, buffSize: nat): (c: Option<nat>)
    requires start < len && start <= end
    ensures c.Some? ==> start <= c.value < len
    decreases |takes|
  {
    if end >= len then Some(start)
    else
      var n := Arrives(coming, takes, buffSize);
      if n == 0 then None else LastPart(len, end, end + n, coming - n, takes[1..], buffSize)
  }

  /** A plain size line is kept if and only if it all arrives, its last part begins with one of its digits, and the
      digits before that announce the same size without it. */
  lemma {:induction false} PlainKept(ds: seq<byte>, eol: seq<byte>, start: nat, end: nat, coming: nat, takes: seq<nat>,
                                     buffSize: nat, response: seq<byte> -> Parsed)
    requires AllHex(ds) && ds != [] && IsEnd(eol) && start < |ds| + |eol| && start <= end
    ensures var c := LastPart(|ds| + |eol|, start, end, coming, takes, buffSize);
      LineKept(ds + eol, ContentLen(ds), start, end, coming, takes, buffSize, response).On? <==>
        c.Some? && c.value < |ds| && ContentLen(ds[c.value..]) == ContentLen(ds)
    decreases |takes|
  {
    PartOfPlain(ds, eol, start, end, response);
    hide Parse;
    hide AllHex;
    hide ContentLen;
    if end < |ds| + |eol| {
      var n := Arrives(coming, takes, buffSize);
      hide Arrives;
      if n > 0 {
        PlainKept(ds, eol, end, end + n, coming - n, takes[1..], buffSize, response);
      }
    }
  }

  /** What the parser makes of a part that ends with the buffered bytes. */
  lemma PartOfPlain(ds: seq<byte>, eol: seq<byte>, start: nat, end: nat, response: seq<byte> -> Parsed)
    requires AllHex(ds) && ds != [] && IsEnd(eol) && start < |ds| + |eol| && start <= end
    ensures start < |ds| ==> AllHex(ds[start..])
    ensures var h := ds + eol;
      && (end >= |h| && start < |ds| ==>
        var size := ContentLen(ds[start..]); Parse(h[start..], response) == Line(|h| - start, size, size <= 0))
      && (start < end < |h| && start < |ds| ==> Parse(h[start..end], response) == Incomplete)
      && (start < end && |ds| <= start ==>
        Parse(if end >= |h| then h[start..] else h[start..end], response) == Malformed)
  {
    hide Parse;
    var h := ds + eol;
    if start >= |ds| && end > start {
      assert h[start] == eol[start - |ds|];
      StrayEnd(if end >= |h| then h[start..] else h[start..end], response);
    } else if start < |ds| {
      PlainSuffix(ds, eol, start);
      PlainLine(ds[start..], eol, response);
      if start < end < |h| {
        PrefixOfLine(h[start..], end - start, response);
        assert h[start..][..end - start] == h[start..end];
      }
    }
  }

  lemma PlainSuffix(ds: seq<byte>, eol: seq<byte>, start: nat)
    requires AllHex(ds) && start < |ds|
    ensures AllHex(ds[start..]) && (ds + eol)[start..] == ds[start..] + eol
  {
  }

  /** So a size below two gigabytes survives exactly the loss of leading zeros. */
  lemma OnlyZerosLost(ds: seq<byte>, c: nat)
    requires AllHex(ds) && c < |ds| && HexValue(ds) <= INT_MAX
    ensures ContentLen(ds[c..]) == ContentLen(ds) <==> forall i :: 0 <= i < c ==> ds[i] == ZERO
  {
    LeadingZeros(ds, c);
    SmallContentLen(ds);
    SmallContentLen(ds[c..]);
  }

  /** A size line in which no read ends is kept, extensions or not. */
  lemma WholeLineKept(c: Chunk, f: Feed, buffSize: nat, response: seq<byte> -> Parsed)
    requires IsChunk(c) && LastPart(|c.line|, 0, f.buffered, f.coming, f.takes, buffSize) == Some(0)
    ensures LineKept(c.line, |c.payload|, 0, f.buffered, f.coming, f.takes, buffSize, response).On?
  {
    assert c.line[0..] == c.line;
    assert Move(Start, c.line[0]).Go?;
    assert Parse(c.line, response) == Line(|c.line|, |c.payload|, |c.payload| <= 0);
    hide Parse;
    if f.buffered == 0 {
      var n := Arrives(f.coming, f.takes, buffSize);
      var kept := LineKept(c.line, |c.payload|, 0, n, f.coming - n, f.takes[1..], buffSize, response);
      assert LineKept(c.line, |c.payload|, 0, 0, f.coming, f.takes, buffSize, response) == kept;
    }
  }

  // ---- runs that go wrong ----

  lemma TwoDigits(a: byte, b: byte)
    requires IsHex(a) && IsHex(b)
    ensures AllHex([a]) && AllHex([a, b]) && ContentLen([a]) == HexDigit(a)
    ensures ContentLen([a, b]) == 16 * HexDigit(a) + HexDigit(b)
  {
    hide HexDigit;
    assert [a][..0] == [] && [a, b][..1] == [a];
    assert HexValue([a]) == HexDigit(a);
    assert HexValue([a, b]) == 16 * HexDigit(a) + HexDigit(b);
    hide HexValue;
  }

  /** A chunk with a line of two digits, and the last chunk. */
  function TwoChunks(a: byte, b: byte, payload: seq<byte>): seq<Chunk> {
    [Chunk([a, b] + [CR, LF], payload, [CR, LF]), Chunk([ZERO] + [CR, LF], [], [CR, LF])]
  }

  lemma TwoChunksChunked(a: byte, b: byte, payload: seq<byte>, response: seq<byte> -> Parsed)
    requires IsHex(a) && IsHex(b) && |payload| == 16 * HexDigit(a) + HexDigit(b) > 0
    ensures Chunked(TwoChunks(a, b, payload))
    ensures Stream(TwoChunks(a, b, payload)) ==
      [a] + ([b] + [CR, LF] + (payload + [CR, LF] + ([ZERO] + [CR, LF] + [CR, LF])))
  {
    hide Scan;
    hide LeadingHex;
    hide HexValue;
    hide ContentLen;
    var cs := TwoChunks(a, b, payload);
    TwoDigits(a, b);
    TwoDigits(ZERO, ZERO);
    PlainLine([a, b], [CR, LF], response);
    PlainLine([ZERO], [CR, LF], response);
    assert IsChunk(cs[0]) && IsChunk(cs[1]) && cs[1..] == [cs[1]];
    hide IsChunk;
    assert Stream(cs[1..]) == Flat(cs[1]);
  }

  /** A line cut behind its first digit, when the second is a zero: the rest is read as the last chunk, and an empty
      body is returned as complete. */
  lemma TruncatedRun(a: byte, payload: seq<byte>, buffSize: nat, response: seq<byte> -> Parsed)
    requires IsHex(a) && a != ZERO && |payload| == 16 * HexDigit(a) && buffSize >= 5
    ensures var cs := TwoChunks(a, ZERO, payload);
      var out := BodyFrom([], [], [], Wire(Stream(cs), [1, 5]), buffSize, response);
      Chunked(cs) && Payloads(cs) != [] && out.Complete? && out.body == [] && out.sizes == [0]
  {
    var cs := TwoChunks(a, ZERO, payload);
    TwoChunksChunked(a, ZERO, payload, response);
    var g := [ZERO] + [CR, LF];
    var rest := payload + [CR, LF] + ([ZERO] + [CR, LF] + [CR, LF]);
    var w := Wire(Stream(cs), [1, 5]);
    var v := Rest(w, 1);
    assert w.sent[..1] == [a] && v.sent == g + rest;
    CutBehind(a, w, buffSize, response);
    ReadStep(v, buffSize, response);
    var text := v.sent[..5];
    assert text == g + rest[..2];
    TwoDigits(ZERO, ZERO);
    PlainLine([ZERO], [CR, LF], response);
    ScanOneLine(Start, g);
    ParseSuffix(g, rest[..2], response);
    ParseStep(text, Rest(v, 5), buffSize, response);
  }

  /** A digit alone is consumed and forgotten. */
  lemma CutBehind(a: byte, w: Wire, buffSize: nat, response: seq<byte> -> Parsed)
    requires IsHex(a) && w.takes != [] && w.takes[0] == 1 && buffSize > 0 && w.sent != [] && w.sent[0] == a
    ensures LineFrom([], w, buffSize, response) == LineFrom([], Rest(w, 1), buffSize, response)
  {
    assert w.sent[..1] == [a];
    TwoDigits(a, a);
    ReadStep(w, buffSize, response);
    PlainLine([a], [LF], response);
    ParseStep([a], Rest(w, 1), buffSize, response);
  }

  /** A line cut before its end is refused, although no read failed and the line fits the buffer. */
  lemma RefusedRun(a: byte, b: byte, payload: seq<byte>, buffSize: nat, response: seq<byte> -> Parsed)
    requires IsHex(a) && IsHex(b) && |payload| == 16 * HexDigit(a) + HexDigit(b) > 0 && buffSize >= 4
    ensures var cs := TwoChunks(a, b, payload);
      Chunked(cs) && BodyFrom([], [], [], Wire(Stream(cs), [2, 4]), buffSize, response) == Closed([])
  {
    var cs := TwoChunks(a, b, payload);
    TwoChunksChunked(a, b, payload, response);
    TwoDigits(a, b);
    var w := Wire(Stream(cs), [2, 4]);
    assert w.sent[..2] == [a, b];
    ReadStep(w, buffSize, response);
    PlainLine([a, b], [LF], response);
    var v := Rest(w, 2);
    ParseStep([a, b], v, buffSize, response);
    ReadStep(v, buffSize, response);
    assert v.sent[0] == w.sent[2] == CR;
    var text := v.sent[..4];
    StrayEnd(text, response);
    ParseStep(text, Rest(v, 4), buffSize, response);
  }

  // ---- the size -1 ----

  /** A line announces -1 if and only if its number ends in eight `F`s, or is too large for a `long`. */
  lemma AnnouncesMinusOne(ds: seq<byte>)
    requires AllHex(ds)
    ensures ContentLen(ds) == -1 <==> HexValue(ds) % 0x1_0000_0000 == 0xFFFF_FFFF || HexValue(ds) > LONG_MAX
  {
    assert LONG_MAX % 0x1_0000_0000 == 0xFFFF_FFFF;
  }

  /** Such a line with nothing buffered behind it takes one more byte and ends the body, one byte shorter than it was,
      as complete. It throws if the body is empty, and fails if no byte comes. */
  lemma MinusOneTurn(body: seq<byte>, sizes: seq<int>, ds: seq<byte>, eol: seq<byte>, w: Wire, buffSize: nat,
                     response: seq<byte> -> Parsed)
    requires AllHex(ds) && ds != [] && IsEnd(eol) && ContentLen(ds) == -1 && buffSize > 0
    ensures var out := BodyFrom(body, sizes, ds + eol, w, buffSize, response);
      if Arriving(w, 1) == 0 then out == Closed(sizes + [-1])
      else if body == [] then out == Thrown(sizes + [-1])
      else out == Complete(body[..|body| - 1], sizes + [-1], [], Rest(w, 1))
  {
    var text := ds + eol;
    PlainLine(ds, eol, response);
    ParseStep(text, w, buffSize, response);
    assert text[|text|..] == [];
    BodyStep(body, sizes, text, w, buffSize, response);
    LeftUnfolds(1, w, buffSize);
    if Arriving(w, 1) == 1 {
      LeftUnfolds(0, Rest(w, 1), buffSize);
      var p := PayloadFrom(-1, [], w, buffSize);
      assert p.bytes == w.sent[..1];
      if body != [] {
        assert (body + p.bytes)[..|body| - 1] == body[..|body| - 1];
      }
    }
  }

  const ONE: byte := 0x31

  /** A chunk of one byte, all buffered. */
  lemma OneByteTurn(x: byte, end: seq<byte>, more: seq<byte>, w: Wire, buffSize: nat, response: seq<byte> -> Parsed)
    requires |end| == 2
    ensures BodyFrom([], [], [ONE] + [LF] + ([x] + end + more), w, buffSize, response) ==
            BodyFrom([x], [1], more, w, buffSize, response)
  {
    hide Parse;
    hide BodyFrom;
    var line, rest := [ONE] + [LF], [x] + end + more;
    TwoDigits(ONE, ONE);
    PlainLine([ONE], [LF], response);
    ScanOneLine(Start, line);
    ParseSuffix(line, rest, response);
    ParseStep(line + rest, w, buffSize, response);
    assert (line + rest)[|line|..] == rest;
    BodyStep([], [], line + rest, w, buffSize, response);
    hide LineFrom;
    var p := PayloadFrom(1, rest, w, buffSize);
    assert p.bytes == [x] && p.text == more && p.wire == w;
    assert ([] + [x])[..1] == [x];
    assert [] + [1] == [1];
  }

  /** One byte is sent in a chunk, and then such a line: an empty body is returned as complete. */
  lemma MinusOneRun(x: byte, end: seq<byte>, ds: seq<byte>, eol: seq<byte>, w: Wire, buffSize: nat,
                    response: seq<byte> -> Parsed)
    requires |end| == 2 && AllHex(ds) && ds != [] && IsEnd(eol) && ContentLen(ds) == -1 && buffSize > 0
    ensures var out := BodyFrom([], [], [ONE] + [LF] + ([x] + end + (ds + eol)), w, buffSize, response);
      if Arriving(w, 1) == 0 then out == Closed([1, -1]) else out == Complete([], [1, -1], [], Rest(w, 1))
  {
    hide ContentLen;
    hide BodyFrom;
    OneByteTurn(x, end, ds + eol, w, buffSize, response);
    MinusOneTurn([x], [1], ds, eol, w, buffSize, response);
    assert [1] + [-1] == [1, -1] && [x][..0] == [];
  }
}
