/** Writing a list of typed fields and reading it back. */
module RoundTrip {
  import opened Bytes
  import opened ByteArrays
  import opened Codec
  import opened Fields

  datatype Field = Field(kind: Kind, v: Value)

  predicate Writable(f: Field) {
    IsKind(f.kind) && Fits(f.kind, f.v)
  }

  /** The prefix type can hold the length of the string. */
  predicate Representable(f: Field)
    requires Writable(f)
  {
    f.kind.Text? ==> |f.v.s| < Pow2(PrefixBits(f.kind.prefix))
  }

  predicate AllWritable(fs: seq<Field>) {
    forall i :: 0 <= i < |fs| ==> Writable(fs[i])
  }

  predicate AllRepresentable(fs: seq<Field>)
    requires AllWritable(fs)
  {
    forall i :: 0 <= i < |fs| ==> Representable(fs[i])
  }

  predicate EmptyText(f: Field) {
    f.v == Str([])
  }

  function EncodeAll(fs: seq<Field>, little: bool): seq<byte>
    requires AllWritable(fs)
  {
    if fs == [] then [] else Encode(fs[0].kind, fs[0].v, little) + EncodeAll(fs[1..], little)
  }

  function Kinds(fs: seq<Field>): (ks: seq<Kind>)
    ensures |ks| == |fs|
  {
    if fs == [] then [] else [fs[0].kind] + Kinds(fs[1..])
  }

  function Values(fs: seq<Field>): (vs: seq<Value>)
    ensures |vs| == |fs|
  {
    if fs == [] then [] else [fs[0].v] + Values(fs[1..])
  }

  /** All values read, or those read before a failure. */
  datatype Reading = All(vs: seq<Value>, used: nat) | Stopped(vs: seq<Value>, out: Outcome, used: nat)

  function After(v: Value, n: nat, r: Reading): Reading {
    r.(vs := [v] + r.vs, used := n + r.used)
  }

  function DecodeAll(ks: seq<Kind>, s: seq<byte>, room: nat, little: bool): (r: Reading)
    requires AllKinds(ks) && |s| <= room
    ensures r.used <= |s|
  {
    if ks == [] then All([], 0)
    else
      var d := Decode(ks[0], s, room, little);
      if d.Failed? then Stopped([], d.out, d.used)
      else After(d.v, d.used, DecodeAll(ks[1..], s[d.used..], room - d.used, little))
  }

  // ---- one field ----

  lemma NumRoundTrip(kind: Kind, n: int, rest: seq<byte>, little: bool)
    requires IsKind(kind) && !kind.Text? && Fits(kind, Num(n))
    ensures |EncodeNum(kind, n, little)| >= 1
    ensures DecodeNum(kind, EncodeNum(kind, n, little) + rest, little) == Got(Num(n), |EncodeNum(kind, n, little)|)
  {
    match kind {
      case Fixed(bytes, signed) =>
        var u := Unsigned(n, 8 * bytes);
        LayoutRoundTrip(u, bytes, little);
        assert (Layout(u, bytes, little) + rest)[..bytes] == Layout(u, bytes, little);
        if signed {
          SignedUnsigned(n, 8 * bytes);
        } else {
          UnsignedNear(n, 8 * bytes);
        }
      case Var(bits, zigzag) =>
        if zigzag {
          ZigzagRoundTrip(n, bits);
          VarintRoundTrip(EncodeZigzag(n, bits), rest, bits);
        } else {
          UnsignedNear(n, bits);
          VarintRoundTrip(n, rest, bits);
        }
    }
  }

  lemma DecodeText(p: Prefix, s: seq<byte>, room: nat, little: bool, n: nat, h: nat)
    requires |s| <= room && DecodeNum(PrefixKind(p), s, little) == Got(Num(n), h)
    ensures var e := DecodeBytes(n, s[h..], room - h);
      Decode(Text(p), s, room, little) == e.(used := e.used + h)
  {
  }

  /** What reading a string back gives, whatever follows it. A string too long for its prefix comes back cut to
      the length the prefix kept. */
  lemma TextRead(p: Prefix, s: seq<byte>, rest: seq<byte>, room: nat, little: bool, n: nat, h: seq<byte>)
    requires n == Unsigned(|s|, PrefixBits(p)) && h == EncodeNum(PrefixKind(p), n, little)
    requires |h + s + rest| <= room
    ensures n <= |s| && |h| >= 1
    ensures Decode(Text(p), h + s + rest, room, little) ==
            if |h| == room then Failed(NullCursor, |h|) else Got(Str(s[..n]), |h| + n)
  {
    hide EncodeNum;
    hide DecodeNum;
    UnsignedAtMost(|s|, PrefixBits(p));
    var t := h + s + rest;
    assert t == h + (s + rest);
    NumRoundTrip(PrefixKind(p), n, s + rest, little);
    DecodeText(p, t, room, little, n, |h|);
    assert t[|h|..] == s + rest;
    assert (s + rest)[..n] == s[..n];
  }

  lemma UnsignedAtMost(x: nat, bits: nat)
    ensures Unsigned(x, bits) <= x
    ensures x < Pow2(bits) <==> Unsigned(x, bits) == x
  {
    if x < Pow2(bits) {
      UnsignedNear(x, bits);
    }
  }

  /** A field is read back as written exactly when its length fits its prefix and, if it is an empty string, its
      prefix does not end the chain. */
  lemma {:induction false} FieldRoundTrip(f: Field, rest: seq<byte>, room: nat, little: bool)
    requires Writable(f) && |Encode(f.kind, f.v, little) + rest| <= room
    ensures var e := Encode(f.kind, f.v, little);
      Decode(f.kind, e + rest, room, little) == Got(f.v, |e|)
      <==> Representable(f) && !(EmptyText(f) && |e| == room)
  {
    hide EncodeNum;
    hide DecodeNum;
    if f.kind.Text? {
      var p, s := f.kind.prefix, f.v.s;
      var n := Unsigned(|s|, PrefixBits(p));
      TextRead(p, s, rest, room, little, n, EncodeNum(PrefixKind(p), n, little));
      UnsignedAtMost(|s|, PrefixBits(p));
    } else {
      NumRoundTrip(f.kind, f.v.n, rest, little);
    }
  }

  /** The empty string at the end of the chain, and the length of a field. */
  lemma FieldEdges(f: Field, little: bool)
    requires Writable(f)
    ensures var e := Encode(f.kind, f.v, little);
      |e| >= 1 && (EmptyText(f) ==> Decode(f.kind, e, |e|, little) == Failed(NullCursor, |e|))
  {
    var e := Encode(f.kind, f.v, little);
    assert e + [] == e;
    if f.kind.Text? {
      var p, s := f.kind.prefix, f.v.s;
      var n := Unsigned(|s|, PrefixBits(p));
      TextRead(p, s, [], |e|, little, n, EncodeNum(PrefixKind(p), n, little));
      if EmptyText(f) {
        assert e == EncodeNum(PrefixKind(p), n, little);
      }
    } else {
      NumRoundTrip(f.kind, f.v.n, [], little);
    }
  }

  // ---- lists of fields ----

  lemma {:induction false} EncodeAllAppend(fs: seq<Field>, f: Field, little: bool)
    requires AllWritable(fs) && Writable(f)
    ensures EncodeAll(fs + [f], little) == EncodeAll(fs, little) + Encode(f.kind, f.v, little)
  {
    var e := Encode(f.kind, f.v, little);
    if fs == [] {
      assert fs + [f] == [f];
      assert EncodeAll([f], little) == e + EncodeAll([], little);
    } else {
      var d, g := Encode(fs[0].kind, fs[0].v, little), EncodeAll(fs[1..], little);
      EncodeAllAppend(fs[1..], f, little);
      assert (fs + [f])[1..] == fs[1..] + [f];
      assert d + (g + e) == d + g + e;
    }
  }

  predicate AllKinds(ks: seq<Kind>) {
    forall i :: 0 <= i < |ks| ==> IsKind(ks[i])
  }

  lemma {:induction false} KindsAreKinds(fs: seq<Field>)
    requires AllWritable(fs)
    ensures AllKinds(Kinds(fs))
  {
    if fs != [] {
      KindsAreKinds(fs[1..]);
    }
  }

  /** What reading back `len` encoded bytes of `fs` gives: all values, unless the list ends in an empty string
      whose prefix ends the chain; then all but the last, whose read follows the null cursor. */
  function ReadBack(fs: seq<Field>, len: nat, room: nat): Reading {
    if fs != [] && EmptyText(fs[|fs| - 1]) && len == room
    then Stopped(Values(fs)[..|fs| - 1], NullCursor, room)
    else All(Values(fs), len)
  }

  lemma ReadBackStep(fs: seq<Field>, e: nat, g: nat, room: nat)
    requires fs != [] && e + g <= room && !(EmptyText(fs[0]) && e == room)
    requires |fs| == 1 ==> g == 0
    ensures ReadBack(fs, e + g, room) == After(fs[0].v, e, ReadBack(fs[1..], g, room - e))
  {
    if |fs| > 1 {
      assert Values(fs)[..|fs| - 1] == [fs[0].v] + Values(fs[1..])[..|fs| - 2];
    }
  }

  lemma DecodeStep(ks: seq<Kind>, s: seq<byte>, room: nat, little: bool, v: Value, n: nat, tail: seq<byte>)
    requires ks != [] && AllKinds(ks) && |s| <= room
    requires Decode(ks[0], s, room, little) == Got(v, n) && s[n..] == tail
    ensures DecodeAll(ks, s, room, little) == After(v, n, DecodeAll(ks[1..], tail, room - n, little))
  {
  }

  lemma ListStep(fs: seq<Field>, rest: seq<byte>, room: nat, little: bool, n: nat, tail: seq<byte>)
    requires AllWritable(fs) && AllRepresentable(fs) && fs != []
    requires n == |Encode(fs[0].kind, fs[0].v, little)| && tail == EncodeAll(fs[1..], little) + rest
    requires n + |tail| <= room && !(EmptyText(fs[0]) && n == room)
    requires AllKinds(Kinds(fs)) && AllKinds(Kinds(fs[1..]))
    ensures DecodeAll(Kinds(fs), EncodeAll(fs, little) + rest, room, little) ==
            After(fs[0].v, n, DecodeAll(Kinds(fs[1..]), tail, room - n, little))
  {
    hide Encode;
    hide Decode;
    hide IsKind;
    hide Fits;
    var e := Encode(fs[0].kind, fs[0].v, little);
    var t := e + tail;
    assert EncodeAll(fs, little) + rest == t;
    FieldRoundTrip(fs[0], tail, room, little);
    assert Kinds(fs)[1..] == Kinds(fs[1..]);
    DecodeStep(Kinds(fs), t, room, little, fs[0].v, n, tail);
  }

  /** The list is read back as written but for an empty string at the very end of the chain. */
  lemma {:induction false} ListRoundTrip(fs: seq<Field>, rest: seq<byte>, room: nat, little: bool)
    requires AllWritable(fs) && AllRepresentable(fs)
    requires |EncodeAll(fs, little) + rest| <= room
    ensures AllKinds(Kinds(fs))
    ensures DecodeAll(Kinds(fs), EncodeAll(fs, little) + rest, room, little) ==
            ReadBack(fs, |EncodeAll(fs, little)|, room)
  {
    hide Encode;
    hide Decode;
    hide IsKind;
    hide Fits;
    KindsAreKinds(fs);
    if fs != [] {
      var n := |Encode(fs[0].kind, fs[0].v, little)|;
      var g := EncodeAll(fs[1..], little);
      assert |EncodeAll(fs, little)| == n + |g|;
      if EmptyText(fs[0]) && n == room {
        LastAtEnd(fs, rest, room, little);
      } else {
        KindsAreKinds(fs[1..]);
        FieldEdges(fs[0], little);
        ListStep(fs, rest, room, little, n, g + rest);
        ListRoundTrip(fs[1..], rest, room - n, little);
        ReadBackStep(fs, n, |g|, room);
      }
    }
  }

  lemma LastAtEnd(fs: seq<Field>, rest: seq<byte>, room: nat, little: bool)
    requires AllWritable(fs) && fs != [] && EmptyText(fs[0]) && AllKinds(Kinds(fs))
    requires |EncodeAll(fs, little) + rest| <= room == |Encode(fs[0].kind, fs[0].v, little)|
    ensures DecodeAll(Kinds(fs), EncodeAll(fs, little) + rest, room, little) ==
            ReadBack(fs, |EncodeAll(fs, little)|, room)
  {
    if |fs| > 1 {
      assert fs[1..][0] == fs[1];
      FieldEdges(fs[1], little);
    }
    FieldEdges(fs[0], little);
    assert EncodeAll(fs, little) + rest == Encode(fs[0].kind, fs[0].v, little);
  }

  // ---- the same through the buffer ----

  method WriteAll(ba: ByteArray, fs: seq<Field>, host: bool)
    requires ba.Valid() && AllWritable(fs)
    modifies ba.repr
    ensures ba.Valid() && fresh(ba.repr - old(ba.repr))
    ensures ba.Wrote(EncodeAll(fs, ba.littleEndian)) && ba.GrewTight()
  {
    hide Encode;
    for i := 0 to |fs|
      invariant ba.Valid() && fresh(ba.repr - old(ba.repr))
      invariant ba.Wrote(EncodeAll(fs[..i], ba.littleEndian)) && ba.GrewTight()
    {
      ghost var f, p, z, little := ba.flat, ba.position, ba.size, ba.littleEndian;
      WriteField(ba, fs[i].kind, fs[i].v, host);
      EffectCompose(old(ba.flat), old(ba.position), old(ba.size), f, p, z, ba.flat, ba.position, ba.size,
        EncodeAll(fs[..i], little), Encode(fs[i].kind, fs[i].v, little));
      EncodeAllAppend(fs[..i], fs[i], little);
      assert fs[..i] + [fs[i]] == fs[..i + 1];
    }
    assert fs[..|fs|] == fs;
  }

  /** Reads one field; what is unread afterwards starts behind it. */
  method ReadNext(ba: ByteArray, kind: Kind, host: bool, ghost s: seq<byte>, ghost room: nat) returns (d: Decoded)
    requires ba.Valid() && IsKind(kind) && s == ba.Rest() && room == ba.capacity - ba.position
    modifies ba`position, ba`cur, ba`k, ba`npos
    ensures ba.Valid() && |s| <= room && d == Decode(kind, s, room, ba.littleEndian) && Consumed(ba, d.used)
    ensures d.used <= |s| && ba.Rest() == s[d.used..] && ba.capacity - ba.position == room - d.used
  {
    hide Decode;
    hide ByteArray.Cursor;
    d := ReadField(ba, kind, host);
  }

  method ReadAll(ba: ByteArray, ks: seq<Kind>, host: bool) returns (r: Reading)
    requires ba.Valid() && AllKinds(ks)
    modifies ba`position, ba`cur, ba`k, ba`npos
    ensures ba.Valid()
    ensures r == DecodeAll(ks, old(ba.Rest()), ba.capacity - old(ba.position), ba.littleEndian)
    ensures Consumed(ba, r.used)
    decreases |ks|
  {
    hide Decode;
    hide ByteArray.Cursor;
    ghost var s, room := ba.Rest(), ba.capacity - ba.position;
    if ks == [] {
      return All([], 0);
    }
    var d := ReadNext(ba, ks[0], host, s, room);
    if d.Failed? {
      return Stopped([], d.out, d.used);
    }
    r := ReadAll(ba, ks[1..], host);
    r := After(d.v, d.used, r);
  }

  lemma EncodeAllNonempty(fs: seq<Field>, little: bool)
    requires AllWritable(fs) && fs != []
    ensures |EncodeAll(fs, little)| > 0
  {
    FieldEdges(fs[0], little);
  }

  /** The least capacity holding `total` bytes is full exactly when they fill whole nodes. */
  lemma FullExactly(b: nat, m: nat, total: nat)
    requires b > 0 && 0 < total <= Off(b, m) < total + b
    ensures Off(b, m) == total <==> total % b == 0
  {
    OffDiv(b, total);
    var q := total / b;
    if q < m {
      OffMonotone(b, q, m);
    } else {
      OffMonotone(b, m, q);
    }
    if Off(b, m) == total {
      DivOff(b, m, 0);
    }
  }

  /** A new buffer of any node size, either byte order, written and read on machines of either byte order: the
      fields come back in order and the cursor ends where the writes left it, except that an empty string ending
      the data exactly at the end of a node is not readable. */
  method WriteThenRead(baseSize: nat, fs: seq<Field>, little: bool, writer: bool, reader: bool)
    returns (r: Reading, ba: ByteArray)
    requires baseSize >= 1 && AllWritable(fs) && AllRepresentable(fs)
    ensures fresh(ba) && ba.Valid()
    ensures var total := |EncodeAll(fs, little)|;
      && r == (if fs != [] && EmptyText(fs[|fs| - 1]) && total % baseSize == 0
               then Stopped(Values(fs)[..|fs| - 1], NullCursor, total)
               else All(Values(fs), total))
      && ba.position == ba.size == total
  {
    hide Encode;
    hide DecodeAll;
    hide EncodeAll;
    hide Kinds;
    hide Values;
    hide ByteArray.Chained;
    hide AllWritable;
    hide Unsigned;
    ba := new ByteArray(baseSize);
    ba.SetIsLittleEndian(little);
    WriteAll(ba, fs, writer);
    ghost var e := EncodeAll(fs, little);
    assert ba.flat[0..|e|] == e;
    var ok := ba.SetPosition(0);
    assert ba.Rest() == e + [];
    ListRoundTrip(fs, [], ba.capacity, little);
    if fs != [] {
      EncodeAllNonempty(fs, little);
      FullExactly(baseSize, |ba.nodes|, |e|);
    }
    r := ReadAll(ba, Kinds(fs), reader);
  }
}
