/** The body of a chunked response (server_frame/http/http_connection.cc, `RecvResponse`; section 4.1 of RFC 7230),
    read in whatever pieces the connection gives. */
module Chunks {
  import opened Bytes
  import opened MachineInts
  import opened SizeLines

  // ---- what the loops make of any input ----

  /** The bytes still to arrive, and the most each coming read gives; a read that gives none fails. */
  datatype Wire = Wire(sent: seq<byte>, takes: seq<nat>)

  /** How many bytes a read of at most `max` gives. */
  function Arrives(coming: nat, takes: seq<nat>, max: nat): (n: nat)
    ensures n <= coming && n <= max && (n > 0 ==> takes != [])
  {
    if takes == [] then 0
    else
      var n := if takes[0] < max then takes[0] else max;
      if n < coming then n else coming
  }

  function Arriving(w: Wire, max: nat): nat {
    Arrives(|w.sent|, w.takes, max)
  }

  function Rest(w: Wire, n: nat): Wire
    requires n <= |w.sent| && w.takes != []
  {
    Wire(w.sent[n..], w.takes[1..])
  }

  datatype Found = Missing | Found(size: int, done: bool, text: seq<byte>, wire: Wire)

  /** The inner loop: a size line at the front of the buffered `text`, read on while there is none. The parser starts
      afresh each time, and the text of an unfinished line is consumed, so it is lost. */
  function LineFrom(text: seq<byte>, w: Wire, buffSize: nat, response: seq<byte> -> Parsed): (f: Found)
    ensures f.Found? ==> |f.text| + |f.wire.sent| < |text| + |w.sent| && |f.wire.takes| <= |w.takes|
    ensures f.Found? && |text| <= buffSize ==> |f.text| < buffSize
    decreases |w.takes|, |text|
  {
    if text == [] then
      var n := Arriving(w, buffSize);
      if n == 0 then Missing else LineFrom(w.sent[..n], Rest(w, n), buffSize, response)
    else
      match Parse(text, response)
      case Malformed => Missing
      case Line(n, size, done) => Found(size, done, text[n..], w)
      case Incomplete => LineFrom([], w, buffSize, response)
  }

  datatype Taken = Short | Taken(bytes: seq<byte>, wire: Wire)

  /** The next `left` bytes, in pieces of at most a buffer. */
  function LeftFrom(left: nat, w: Wire, buffSize: nat): (t: Taken)
    ensures t.Taken? ==> |t.bytes| == left <= |w.sent| && t.wire.sent == w.sent[left..] && t.bytes == w.sent[..left]
    decreases |w.takes|
  {
    if left == 0 then Taken([], w)
    else
      var n := Arriving(w, if left > buffSize then buffSize else left);
      if n == 0 then Short
      else
        match LeftFrom(left - n, Rest(w, n), buffSize)
        case Short => Short
        case Taken(bytes, w') =>
          assert w.sent[..n] + w.sent[n..][..left - n] == w.sent[..left];
          Taken(w.sent[..n] + bytes, w')
  }

  datatype Paid = Unpaid | Paid(bytes: seq<byte>, text: seq<byte>, wire: Wire)

  /** What is put on the body for a payload of `size` bytes, before the body is cut to its new length: the payload alone
      when it is buffered with its end, else all that is buffered and two bytes more than the rest of the payload. */
  function PayloadFrom(size: int, text: seq<byte>, w: Wire, buffSize: nat): (p: Paid)
    requires size >= 0 || size + 2 > |text|
    ensures p.Paid? ==> |p.bytes| >= size && |p.text| <= |text| && |p.text| + |p.wire.sent| <= |text| + |w.sent|
  {
    if size + 2 <= |text| then Paid(text[..size], text[size + 2..], w)
    else
      match LeftFrom(size + 2 - |text|, w, buffSize)
      case Short => Unpaid
      case Taken(bytes, w') => Paid(text + bytes, [], w')
  }

  /** How the chunked branch ends, and the sizes the parser announced on the way: the body and what is left over; the
      connection closed; a `length_error` thrown by the body; an `int` overflowed. */
  datatype Outcome =
    | Complete(body: seq<byte>, sizes: seq<int>, text: seq<byte>, wire: Wire)
    | Closed(sizes: seq<int>)
    | Thrown(sizes: seq<int>)
    | Overflow(sizes: seq<int>)

  /** The outer loop, with the body and the sizes so far. Sizes are `int`s. A size of -1 with nothing buffered reads one
      byte and takes two off the body; other negative sizes append more than a string can hold. */
  function BodyFrom(body: seq<byte>, sizes: seq<int>, text: seq<byte>, w: Wire, buffSize: nat,
                    response: seq<byte> -> Parsed): Outcome
    decreases |text| + |w.sent|
  {
    match LineFrom(text, w, buffSize, response)
    case Missing => Closed(sizes)
    case Found(size, done, t, v) =>
      var announced := sizes + [size];
      if size > INT_MAX - 2 then Overflow(announced)
      else if size + 2 <= |t| && size < 0 then Thrown(announced)
      else
        match PayloadFrom(size, t, v, buffSize)
        case Unpaid => Closed(announced)
        case Paid(payload, t', v') =>
          if |body| + size < 0 then Thrown(announced)
          else
            var body' := (body + payload)[..|body| + size];
            if done then Complete(body', announced, t', v') else BodyFrom(body', announced, t', v', buffSize, response)
  }

  // ---- the loops ----

  class Connection {
    var sent: seq<byte>
    var takes: seq<nat>

    constructor (sent: seq<byte>, takes: seq<nat>)
      ensures this.sent == sent && this.takes == takes
    {
      this.sent, this.takes := sent, takes;
    }

    function State(): Wire
      reads this
    {
      Wire(sent, takes)
    }

    method Read(data: array<byte>, at: nat, max: nat) returns (rt: int)
      requires at + max <= data.Length
      modifies this, data
      ensures var n := old(Arriving(State(), max));
        if n == 0 then rt <= 0
        else rt == n && State() == old(Rest(State(), n)) && data[..at + n] == old(data[..at]) + old(sent)[..n]
    {
      var n := Arrives(|sent|, takes, max);
      if n == 0 {
        return -1;
      }
      for i := 0 to n
        invariant forall j :: 0 <= j < at ==> data[j] == old(data[j])
        invariant forall j :: 0 <= j < i ==> data[at + j] == sent[j]
        modifies data
      {
        data[at + i] := sent[i];
      }
      sent, takes := sent[n..], takes[1..];
      return n;
    }
  }

  /** `memmove(data, data + n, len - n)`. */
  method MoveDown(data: array<byte>, n: nat, len: nat)
    requires n <= len <= data.Length
    modifies data
    ensures data[..len - n] == old(data[n..len])
  {
    for i := 0 to len - n
      invariant forall j :: 0 <= j < i ==> data[j] == old(data[n + j])
      invariant forall j :: i <= j < data.Length ==> data[j] == old(data[j])
    {
      data[i] := data[n + i];
    }
  }

  /** `Execute(data, len, true)`: a fresh parser; what it consumed leaves the buffer, and that is everything when the
      line is unfinished. */
  method Execute(data: array<byte>, len: nat, response: seq<byte> -> Parsed) returns (p: Parsed, nparse: nat)
    requires 0 < len <= data.Length
    modifies data
    ensures p == Parse(old(data[..len]), response)
    ensures nparse <= len && (p == Incomplete ==> nparse == len) && (p.Line? ==> nparse == p.length)
    ensures data[..len - nparse] == old(data[nparse..len])
  {
    p := Parse(data[..len], response);
    nparse := if p.Line? then p.length else len;
    MoveDown(data, nparse, len);
  }

  /** The inner loop. */
  method ReadLine(c: Connection, data: array<byte>, buffSize: nat, len0: nat, response: seq<byte> -> Parsed)
    returns (ok: bool, len: nat, size: int, done: bool)
    requires data.Length == buffSize + 1 && len0 < buffSize
    modifies c, data
    ensures match old(LineFrom(data[..len0], c.State(), buffSize, response))
      case Missing => !ok
      case Found(s, d, t, w) => ok && size == s && done == d && len < buffSize && data[..len] == t && c.State() == w
  {
    hide LineFrom;
    hide Parse;
    ghost var found := LineFrom(data[..len0], c.State(), buffSize, response);
    len := len0;
    size, done := 0, false;
    var begin := true;
    while true
      invariant len < buffSize && (!begin ==> len == 0)
      invariant LineFrom(data[..len], c.State(), buffSize, response) == found
      decreases |c.takes|, begin
    {
      ghost var w := c.State();
      if !begin || len == 0 {
        ReadStep(w, buffSize, response);
        assert data[..len] == [];
        var rt := c.Read(data, len, buffSize - len);
        if rt <= 0 {
          return false, len, size, done;
        }
        len := len + rt;
        assert data[..len] == w.sent[..rt];
        w := c.State();
      }
      data[len] := 0;
      ghost var text := data[..len];
      assert LineFrom(text, w, buffSize, response) == found;
      ParseStep(text, w, buffSize, response);
      var p, nparse := Execute(data, len, response);
      if p == Malformed {
        return false, len, size, done;
      }
      len := len - nparse;
      // Something was consumed, so the test for a full buffer that follows in the source never succeeds.
      assert len < buffSize;
      begin := false;
      if p.Line? {
        assert data[..len] == text[nparse..];
        return true, len, p.size, p.done;
      }
      assert data[..len] == [];
    }
  }

  lemma ReadStep(w: Wire, buffSize: nat, response: seq<byte> -> Parsed)
    ensures var n := Arriving(w, buffSize);
      LineFrom([], w, buffSize, response) ==
      if n == 0 then Missing else LineFrom(w.sent[..n], Rest(w, n), buffSize, response)
  {
  }

  lemma ParseStep(text: seq<byte>, w: Wire, buffSize: nat, response: seq<byte> -> Parsed)
    requires text != []
    ensures var p := Parse(text, response);
      LineFrom(text, w, buffSize, response) ==
      if p.Line? then Found(p.size, p.done, text[p.length..], w)
      else if p.Malformed? then Missing
      else LineFrom([], w, buffSize, response)
  {
  }

  /** Reads `left` bytes onto the body. */
  method ReadLeft(c: Connection, data: array<byte>, buffSize: nat, body0: seq<byte>, left0: nat)
    returns (ok: bool, body: seq<byte>)
    requires data.Length == buffSize + 1
    modifies c, data
    ensures match old(LeftFrom(left0, c.State(), buffSize))
      case Short => !ok
      case Taken(bytes, w) => ok && body == body0 + bytes && c.State() == w
  {
    hide LeftFrom;
    hide Ahead;
    hide Arrives;
    body := body0;
    var left: nat := left0;
    ghost var all := LeftFrom(left0, c.State(), buffSize);
    ghost var got: seq<byte> := [];
    AheadNothing(all);
    while left > 0
      invariant body == body0 + got
      invariant all == Ahead(got, LeftFrom(left, c.State(), buffSize))
      decreases |c.takes|
    {
      ghost var w := c.State();
      LeftStep(left, w, buffSize, got);
      var rt := c.Read(data, 0, if left > buffSize then buffSize else left);
      if rt <= 0 {
        return false, body;
      }
      ghost var piece := w.sent[..rt];
      assert data[..rt] == piece;
      Associate(body0, got, piece);
      got := got + piece;
      body := body + data[..rt];
      left := left - rt;
    }
    LeftStep(0, c.State(), buffSize, got);
    return true, body;
  }

  lemma Associate(a: seq<byte>, b: seq<byte>, c: seq<byte>)
    ensures a + b + c == a + (b + c)
  {
  }

  lemma AheadNothing(t: Taken)
    ensures Ahead([], t) == t
  {
    if t.Taken? {
      assert [] + t.bytes == t.bytes;
    }
  }

  lemma LeftStep(left: nat, w: Wire, buffSize: nat, got: seq<byte>)
    ensures left == 0 ==> Ahead(got, LeftFrom(left, w, buffSize)) == Taken(got, w)
    ensures left > 0 ==> var n := Arriving(w, if left > buffSize then buffSize else left);
      Ahead(got, LeftFrom(left, w, buffSize)) ==
      if n == 0 then Short else Ahead(got + w.sent[..n], LeftFrom(left - n, Rest(w, n), buffSize))
  {
    LeftUnfolds(left, w, buffSize);
    hide Arrives;
    hide LeftFrom;
    var n := Arriving(w, if left > buffSize then buffSize else left);
    if left == 0 {
      assert got + [] == got;
    } else if n > 0 {
      AheadTwice(got, w.sent[..n], LeftFrom(left - n, Rest(w, n), buffSize));
    }
  }

  lemma LeftUnfolds(left: nat, w: Wire, buffSize: nat)
    ensures left == 0 ==> LeftFrom(left, w, buffSize) == Taken([], w)
    ensures left > 0 ==> var n := Arriving(w, if left > buffSize then buffSize else left);
      LeftFrom(left, w, buffSize) ==
      if n == 0 then Short else Ahead(w.sent[..n], LeftFrom(left - n, Rest(w, n), buffSize))
  {
    hide Arrives;
  }

  ghost function Ahead(got: seq<byte>, t: Taken): Taken {
    if t.Short? then t else Taken(got + t.bytes, t.wire)
  }

  lemma AheadTwice(a: seq<byte>, b: seq<byte>, t: Taken)
    ensures Ahead(a, Ahead(b, t)) == Ahead(a + b, t)
  {
    if t.Taken? {
      assert a + (b + t.bytes) == a + b + t.bytes;
    }
  }

  /** What a payload of `size` bytes does to the body. Cutting the body to fewer than no bytes throws. */
  method TakePayload(c: Connection, data: array<byte>, buffSize: nat, len0: nat, size: int, body0: seq<byte>)
    returns (ok: bool, thrown: bool, len: nat, body: seq<byte>)
    requires data.Length == buffSize + 1 && len0 < buffSize && size <= INT_MAX - 2
    modifies c, data
    ensures thrown ==> ok
    ensures if size + 2 <= len0 && size < 0 then thrown
      else match old(PayloadFrom(size, data[..len0], c.State(), buffSize))
      case Unpaid => !ok
      case Paid(bytes, t, w) =>
        && ok && (thrown <==> |body0| + size < 0)
        && (!thrown ==>
          body == (body0 + bytes)[..|body0| + size] && len < buffSize && data[..len] == t && c.State() == w)
  {
    hide LeftFrom;
    hide Arrives;
    body, len, ok, thrown := body0, len0, true, false;
    ghost var text := data[..len];
    if size + 2 <= len {
      if size < 0 {
        return true, true, len, body;
      }
      body := body + data[..size];
      assert body == (body0 + text[..size])[..|body0| + size];
      MoveDown(data, size + 2, len);
      len := len - (size + 2);
    } else {
      body := body + data[..len];
      var left := size - len + 2;
      ghost var t := LeftFrom(left, c.State(), buffSize);
      ok, body := ReadLeft(c, data, buffSize, body, left);
      if ok {
        Associate(body0, text, t.bytes);
        if |body| - 2 < 0 {
          return true, true, len, body;
        }
        body := body[..|body| - 2];
      }
      len := 0;
    }
  }

  datatype Received = Body(body: seq<byte>) | Failure | LengthError | IntOverflow

  /** How the branch ends, with what is left in the buffer and on the connection. */
  ghost predicate Ends(r: Received, text: seq<byte>, w: Wire, out: Outcome) {
    match out
    case Complete(body, _, t, v) => r == Body(body) && text == t && w == v
    case Closed(_) => r == Failure
    case Thrown(_) => r == LengthError
    case Overflow(_) => r == IntOverflow
  }

  /** The chunked branch of `RecvResponse`. */
  method RecvChunks(c: Connection, data: array<byte>, buffSize: nat, offset: nat, response: seq<byte> -> Parsed)
    returns (r: Received, len: nat)
    requires data.Length == buffSize + 1 && offset < buffSize
    modifies c, data
    ensures len < buffSize
    ensures Ends(r, data[..len], c.State(), old(BodyFrom([], [], data[..offset], c.State(), buffSize, response)))
  {
    hide LineFrom;
    hide PayloadFrom;
    hide BodyFrom;
    len := offset;
    var body := [];
    ghost var sizes: seq<int>, out := [], BodyFrom([], [], data[..len], c.State(), buffSize, response);
    while true
      invariant len < buffSize
      invariant BodyFrom(body, sizes, data[..len], c.State(), buffSize, response) == out
      decreases len + |c.sent|
    {
      BodyStep(body, sizes, data[..len], c.State(), buffSize, response);
      var ok, size, done;
      ok, len, size, done := ReadLine(c, data, buffSize, len, response);
      if !ok {
        return Failure, 0;
      }
      if size > INT_MAX - 2 {
        return IntOverflow, 0;
      }
      var thrown;
      ok, thrown, len, body := TakePayload(c, data, buffSize, len, size, body);
      if !ok {
        return Failure, 0;
      }
      if thrown {
        return LengthError, 0;
      }
      sizes := sizes + [size];
      if done {
        return Body(body), len;
      }
    }
  }

  /** One turn of the outer loop. */
  lemma BodyStep(body: seq<byte>, sizes: seq<int>, text: seq<byte>, w: Wire, buffSize: nat,
                 response: seq<byte> -> Parsed)
    ensures var f := LineFrom(text, w, buffSize, response);
      var out := BodyFrom(body, sizes, text, w, buffSize, response);
      if f.Missing? then out == Closed(sizes)
      else
        var announced := sizes + [f.size];
        if f.size > INT_MAX - 2 then out == Overflow(announced)
        else if f.size + 2 <= |f.text| && f.size < 0 then out == Thrown(announced)
        else
          var p := PayloadFrom(f.size, f.text, f.wire, buffSize);
          if p.Unpaid? then out == Closed(announced)
          else if |body| + f.size < 0 then out == Thrown(announced)
          else
            var body' := (body + p.bytes)[..|body| + f.size];
            if f.done then out == Complete(body', announced, p.text, p.wire)
            else out == BodyFrom(body', announced, p.text, p.wire, buffSize, response)
  {
    hide LineFrom;
    hide PayloadFrom;
  }

  // ---- when the body throws ----

  /** Announced sizes are only added to. */
  lemma {:induction false} SizesGrow(body: seq<byte>, sizes: seq<int>, text: seq<byte>, w: Wire, buffSize: nat,
                                     response: seq<byte> -> Parsed)
    ensures var out := BodyFrom(body, sizes, text, w, buffSize, response);
      sizes <= out.sizes && (out.Thrown? || out.Complete? ==> |sizes| < |out.sizes|)
    decreases |text| + |w.sent|
  {
    hide BodyFrom;
    hide LineFrom;
    hide PayloadFrom;
    BodyStep(body, sizes, text, w, buffSize, response);
    var f := LineFrom(text, w, buffSize, response);
    if f.Found? && f.size <= INT_MAX - 2 && !(f.size + 2 <= |f.text| && f.size < 0) {
      var p := PayloadFrom(f.size, f.text, f.wire, buffSize);
      if p.Paid? && |body| + f.size >= 0 && !f.done {
        SizesGrow((body + p.bytes)[..|body| + f.size], sizes + [f.size], p.text, p.wire, buffSize, response);
      }
    }
  }

  /** The first size announced is that of the line just found. */
  lemma Announced(body: seq<byte>, sizes: seq<int>, text: seq<byte>, w: Wire, buffSize: nat,
                  response: seq<byte> -> Parsed)
    ensures var f, out := LineFrom(text, w, buffSize, response), BodyFrom(body, sizes, text, w, buffSize, response);
      f.Found? ==> sizes + [f.size] <= out.sizes
  {
    hide BodyFrom;
    hide LineFrom;
    hide PayloadFrom;
    BodyStep(body, sizes, text, w, buffSize, response);
    var f := LineFrom(text, w, buffSize, response);
    if f.Found? && f.size <= INT_MAX - 2 && !(f.size + 2 <= |f.text| && f.size < 0) {
      var p := PayloadFrom(f.size, f.text, f.wire, buffSize);
      if p.Paid? && |body| + f.size >= 0 && !f.done {
        SizesGrow((body + p.bytes)[..|body| + f.size], sizes + [f.size], p.text, p.wire, buffSize, response);
      }
    }
  }

  /** The body throws on the line just found if and only if its size is below -1, or is -1 with something buffered, or
      is -1 with an empty body and one more byte to come. */
  lemma ThrowsExactly(body: seq<byte>, sizes: seq<int>, text: seq<byte>, w: Wire, buffSize: nat,
                      response: seq<byte> -> Parsed)
    requires buffSize > 0
    ensures var f := LineFrom(text, w, buffSize, response);
      f.Found? ==>
        (BodyFrom(body, sizes, text, w, buffSize, response) == Thrown(sizes + [f.size]) <==>
         f.size < -1 || (f.size == -1 && (f.text != [] || (body == [] && Arriving(f.wire, 1) == 1))))
  {
    hide BodyFrom;
    hide LineFrom;
    BodyStep(body, sizes, text, w, buffSize, response);
    var f := LineFrom(text, w, buffSize, response);
    if f.Found? && f.size <= INT_MAX - 2 && !(f.size + 2 <= |f.text| && f.size < 0) {
      var p := PayloadFrom(f.size, f.text, f.wire, buffSize);
      if f.size == -1 {
        LeftUnfolds(1, f.wire, buffSize);
      }
      if p.Paid? && |body| + f.size >= 0 && !f.done {
        SizesGrow((body + p.bytes)[..|body| + f.size], sizes + [f.size], p.text, p.wire, buffSize, response);
      }
    }
  }
}
