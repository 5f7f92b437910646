/** Percent-encoding (server_frame/util.cc). Strings are byte sequences. */
module Url {
  import opened Ascii
  import opened Bytes
  import opened Wrappers

  /** `uri_chars`: the unreserved characters of section 2.3 of RFC 3986, and `=`. */
  predicate Unreserved(b: byte) {
    || b == 0x2D || b == 0x2E || b == 0x5F || b == 0x7E || b == EQUALS
    || 0x30 <= b <= 0x39 || 0x41 <= b <= 0x5A || 0x61 <= b <= 0x7A
  }

  /** `hexdigits`. */
  function HexChar(n: nat): byte
    requires n < 16
  {
    if n < 10 then 0x30 + n else 0x41 + n - 10
  }

  // ---- the plain specifications ----

  function EncodeByte(b: byte, plus: bool): seq<byte> {
    if Unreserved(b) then [b]
    else if b == SPACE && plus then [PLUS]
    else [PERCENT, HexChar(b / 16), HexChar(b % 16)]
  }

  /** Byte by byte. */
  function Encode(s: seq<byte>, plus: bool): seq<byte> {
    if s == [] then [] else EncodeByte(s[0], plus) + Encode(s[1..], plus)
  }

  predicate IsEscape(s: seq<byte>) {
    |s| >= 3 && s[0] == PERCENT && IsHex(s[1]) && IsHex(s[2])
  }

  /** Escape by escape; what is no escape stands for itself. */
  function Decode(s: seq<byte>, plus: bool): seq<byte> {
    if s == [] then []
    else if s[0] == PLUS && plus then [SPACE] + Decode(s[1..], plus)
    else if IsEscape(s) then [HexDigit(s[1]) * 16 + HexDigit(s[2])] + Decode(s[3..], plus)
    else [s[0]] + Decode(s[1..], plus)
  }

  lemma {:induction false} EncodeSnoc(s: seq<byte>, b: byte, plus: bool)
    ensures Encode(s + [b], plus) == Encode(s, plus) + EncodeByte(b, plus)
  {
    if s == [] {
      assert Encode([b], plus) == EncodeByte(b, plus) + Encode([], plus);
    } else {
      EncodeSnoc(s[1..], b, plus);
      assert (s + [b])[1..] == s[1..] + [b];
    }
  }

  // ---- the loops with a lazily created output ----

  lemma Escaped(s: seq<byte>, b: byte)
    requires !Unreserved(b)
    ensures var hi, lo := HexChar(b / 16), HexChar(b % 16);
      && s + [PERCENT] + [hi] + [lo] == s + EncodeByte(b, false)
      && (b != SPACE ==> EncodeByte(b, true) == EncodeByte(b, false))
  {
  }

  lemma Unescaped(b: byte, plus: bool)
    ensures Unreserved(b) ==> EncodeByte(b, plus) == [b]
    ensures !Unreserved(b) && b == SPACE && plus ==> EncodeByte(b, plus) == [PLUS]
  {
  }

  /** `UrlEncode`: the output string is created at the first byte that needs encoding. */
  method UrlEncode(str: seq<byte>, plus: bool) returns (r: seq<byte>)
    ensures r == Encode(str, plus)
  {
    assert Encode([], plus) == [];
    hide Encode;
    hide HexChar;
    hide Unreserved;
    hide EncodeByte;
    var ss: Option<seq<byte>> := None;
    for c := 0 to |str|
      invariant ss.None? ==> Encode(str[..c], plus) == str[..c]
      invariant ss.Some? ==> Encode(str[..c], plus) == ss.value
    {
      var b := str[c];
      EncodeSnoc(str[..c], b, plus);
      Unescaped(b, plus);
      assert str[..c + 1] == str[..c] + [b];
      if !Unreserved(b) {
        if ss.None? {
          ss := Some(str[..c]);
        }
        if b == SPACE && plus {
          ss := Some(ss.value + [PLUS]);
        } else {
          Escaped(ss.value, b);
          ss := Some(ss.value + [PERCENT]);
          ss := Some(ss.value + [HexChar(b / 16)]);
          ss := Some(ss.value + [HexChar(b % 16)]);
        }
      } else if ss.Some? {
        ss := Some(ss.value + [b]);
      }
    }
    assert str[..|str|] == str;
    r := if ss.None? then str else ss.value;
  }

  /** `UrlDecode`: the output string is created at the first escape. */
  method UrlDecode(str: seq<byte>, plus: bool) returns (r: seq<byte>)
    ensures r == Decode(str, plus)
  {
    hide Decode;
    var ss: Option<seq<byte>> := None;
    var c := 0;
    while c < |str|
      invariant 0 <= c <= |str|
      invariant Decode(str, plus) == (if ss.Some? then ss.value else str[..c]) + Decode(str[c..], plus)
    {
      ghost var done := if ss.Some? then ss.value else str[..c];
      if str[c] == PLUS && plus {
        DecodeOne(str, c, plus);
        Append(done, SPACE, Decode(str[c + 1..], plus));
        if ss.None? {
          ss := Some(str[..c]);
        }
        ss := Some(ss.value + [SPACE]);
      } else if str[c] == PERCENT && c + 2 < |str| && IsHex(str[c + 1]) && IsHex(str[c + 2]) {
        var b := HexDigit(str[c + 1]) * 16 + HexDigit(str[c + 2]);
        DecodeEscape(str, c, plus);
        Append(done, b, Decode(str[c + 3..], plus));
        if ss.None? {
          ss := Some(str[..c]);
        }
        ss := Some(ss.value + [b]);
        c := c + 2;
      } else {
        DecodeOne(str, c, plus);
        Append(done, str[c], Decode(str[c + 1..], plus));
        if ss.Some? {
          ss := Some(ss.value + [str[c]]);
        }
      }
      c := c + 1;
    }
    DecodeEnd(str, plus);
    r := if ss.None? then str else ss.value;
  }

  lemma DecodeOne(str: seq<byte>, c: nat, plus: bool)
    requires c < |str| && !(IsEscape(str[c..]) && !(str[c] == PLUS && plus))
    ensures Decode(str[c..], plus) == [if str[c] == PLUS && plus then SPACE else str[c]] + Decode(str[c + 1..], plus)
  {
    assert str[c..][1..] == str[c + 1..];
  }

  lemma DecodeEscape(str: seq<byte>, c: nat, plus: bool)
    requires c + 2 < |str| && str[c] == PERCENT && IsHex(str[c + 1]) && IsHex(str[c + 2])
    ensures Decode(str[c..], plus) == [HexDigit(str[c + 1]) * 16 + HexDigit(str[c + 2])] + Decode(str[c + 3..], plus)
  {
    assert str[c..][3..] == str[c + 3..];
  }

  lemma DecodeEnd(str: seq<byte>, plus: bool)
    ensures Decode(str[|str|..], plus) == []
  {
  }

  lemma Append(done: seq<byte>, b: byte, more: seq<byte>)
    ensures done + ([b] + more) == done + [b] + more
  {
  }

  // ---- round trip ----

  /** A byte after encoding and decoding: itself, but for a space written `+` and read as it stands. */
  function Back(b: byte, encodePlus: bool, decodePlus: bool): byte {
    if b == SPACE && encodePlus && !decodePlus then PLUS else b
  }

  lemma DecodeEncodedByte(b: byte, rest: seq<byte>, encodePlus: bool, decodePlus: bool)
    ensures Decode(EncodeByte(b, encodePlus) + rest, decodePlus) ==
            [Back(b, encodePlus, decodePlus)] + Decode(rest, decodePlus)
  {
    var e := EncodeByte(b, encodePlus);
    var t := e + rest;
    if |e| == 1 {
      assert t[1..] == rest && t[0] == e[0] && t[0] != PERCENT;
    } else {
      assert t[0] == PERCENT && t[1] == e[1] && t[2] == e[2];
      assert IsEscape(t) && HexDigit(t[1]) == b / 16 && HexDigit(t[2]) == b % 16;
      assert t[3..] == rest;
    }
  }

  lemma {:induction false} DecodeEncoded(s: seq<byte>, encodePlus: bool, decodePlus: bool)
    ensures var d := Decode(Encode(s, encodePlus), decodePlus);
      |d| == |s| && forall i :: 0 <= i < |s| ==> d[i] == Back(s[i], encodePlus, decodePlus)
  {
    if s != [] {
      DecodeEncodedByte(s[0], Encode(s[1..], encodePlus), encodePlus, decodePlus);
      DecodeEncoded(s[1..], encodePlus, decodePlus);
    }
  }

  /** Decoding undoes encoding, unless spaces were written `+` and are not read back so. With equal settings, the
      default among them, it always does. */
  lemma {:induction false} UrlRoundTrip(s: seq<byte>, encodePlus: bool, decodePlus: bool)
    ensures Decode(Encode(s, encodePlus), decodePlus) == s <==> !(encodePlus && !decodePlus && SPACE in s)
  {
    DecodeEncoded(s, encodePlus, decodePlus);
    var d := Decode(Encode(s, encodePlus), decodePlus);
    if encodePlus && !decodePlus && SPACE in s {
      var i :| 0 <= i < |s| && s[i] == SPACE;
      assert d[i] != s[i];
    } else {
      assert d == s;
    }
  }

  // ---- the characters ----

  predicate StandsForItself(c: char) {
    'A' <= c <= 'Z' || 'a' <= c <= 'z' || '0' <= c <= '9' || c in "-._~="
  }

  /** Which bytes stand for themselves, and how the others are written: in two upper-case digits. */
  lemma EncodedByte(b: byte, plus: bool)
    ensures EncodeByte(b, plus) ==
      if StandsForItself(b as char) then [b]
      else if b == SPACE && plus then [PLUS]
      else [PERCENT, UPPER_DIGITS[b / 16] as int, UPPER_DIGITS[b % 16] as int]
  {
    var c := b as char;
    assert c in "-._~=" <==> c == '-' || c == '.' || c == '_' || c == '~' || c == '=';
    assert StandsForItself(c) <==> Unreserved(b);
    assert forall d :: 0 <= d < 16 ==> HexChar(d) == UPPER_DIGITS[d] as int;
  }

  /** The encoding goes byte by byte. */
  lemma EncodedForm(s: seq<byte>, b: byte, plus: bool)
    ensures Encode([], plus) == []
    ensures Encode(s + [b], plus) == Encode(s, plus) +
      if StandsForItself(b as char) then [b]
      else if b == SPACE && plus then [PLUS]
      else [PERCENT, UPPER_DIGITS[b / 16] as int, UPPER_DIGITS[b % 16] as int]
  {
    EncodeSnoc(s, b, plus);
    EncodedByte(b, plus);
  }

  /** A piece of a text to decode: a byte, or the escape of a byte with its digits in either case. */
  datatype Piece = Plain(b: byte) | Escape(b: byte, hi: byte, lo: byte)

  function Text(ts: seq<Piece>): seq<byte> {
    if ts == [] then []
    else (if ts[0].Plain? then [ts[0].b] else [PERCENT, ts[0].hi, ts[0].lo]) + Text(ts[1..])
  }

  function Meaning(ts: seq<Piece>, plus: bool): seq<byte> {
    if ts == [] then []
    else [if ts[0] == Plain(PLUS) && plus then SPACE else ts[0].b] + Meaning(ts[1..], plus)
  }

  /** The digits of escapes are those of their bytes, and no plain `%` stands before two digits. */
  ghost predicate Readable(ts: seq<Piece>) {
    ts != [] ==>
      && (ts[0].Escape? ==> Spells(ts[0].hi, ts[0].b / 16) && Spells(ts[0].lo, ts[0].b % 16))
      && (ts[0] == Plain(PERCENT) ==> !TwoDigitsFirst(Text(ts[1..])))
      && Readable(ts[1..])
  }

  ghost predicate TwoDigitsFirst(s: seq<byte>) {
    |s| >= 2 && exists d, e :: 0 <= d < 16 && 0 <= e < 16 && Spells(s[0], d) && Spells(s[1], e)
  }

  lemma EscapeMeansDigits(s: seq<byte>)
    requires s != [] && s[0] == PERCENT
    ensures IsEscape(s) <==> TwoDigitsFirst(s[1..])
  {
    if |s| >= 3 {
      assert s[1..][0] == s[1] && s[1..][1] == s[2];
      HexSpelled(s[1]);
      HexSpelled(s[2]);
    }
  }

  /** Whatever the pieces are, their text decodes to what they mean. */
  lemma {:induction false} DecodedForm(ts: seq<Piece>, plus: bool)
    requires Readable(ts)
    ensures Decode(Text(ts), plus) == Meaning(ts, plus)
  {
    if ts != [] {
      DecodedForm(ts[1..], plus);
      var s, rest, t := Text(ts), Text(ts[1..]), ts[0];
      if t.Plain? {
        assert s[1..] == rest;
        if t.b == PERCENT {
          EscapeMeansDigits(s);
        }
      } else {
        SpelledHex(t.hi, t.b / 16);
        SpelledHex(t.lo, t.b % 16);
        assert s[0] == PERCENT && s[1] == t.hi && s[2] == t.lo && s[3..] == rest;
      }
    }
  }

  /** And every string is the text of such pieces. */
  lemma {:induction false} EveryText(s: seq<byte>) returns (ts: seq<Piece>)
    ensures Readable(ts) && Text(ts) == s
    decreases |s|
  {
    hide HexDigit;
    hide Spells;
    if s == [] {
      ts := [];
    } else if IsEscape(s) {
      var rest := EveryText(s[3..]);
      var b := HexDigit(s[1]) * 16 + HexDigit(s[2]);
      ts := [Escape(b, s[1], s[2])] + rest;
      HexSpelled(s[1]);
      HexSpelled(s[2]);
      assert ts[1..] == rest && s == [PERCENT, s[1], s[2]] + s[3..];
    } else {
      var rest := EveryText(s[1..]);
      ts := [Plain(s[0])] + rest;
      assert ts[1..] == rest && s == [s[0]] + s[1..];
      if s[0] == PERCENT {
        EscapeMeansDigits(s);
      }
    }
  }

  /** Encoded text holds nothing but unreserved characters, `%` and, when asked for, `+`. */
  lemma {:induction false} EncodedAlphabet(s: seq<byte>, plus: bool)
    ensures forall b :: b in Encode(s, plus) ==> Unreserved(b) || b == PERCENT || (b == PLUS && plus)
  {
    if s != [] {
      EncodedAlphabet(s[1..], plus);
    }
  }
}
