/** The generated machine that parses chunk-size lines (server_frame/http/parser/httpclient_parser.rl): hexadecimal
    digits, extensions, and a line end. Its other branch, a whole response starting with `HTTP/`, is a parameter. */
module SizeLines {
  import opened Ascii
  import opened Bytes
  import opened MachineInts
  import opened Wrappers

  const HTTP: seq<byte> := [0x48, 0x54, 0x54, 0x50, 0x2F]

  /** The characters of extension names and values. */
  predicate IsToken(b: byte) {
    || b == 0x21 || 0x23 <= b <= 0x27 || 0x2A <= b <= 0x2B || 0x2D <= b <= 0x2E || 0x30 <= b <= 0x39
    || 0x41 <= b <= 0x5A || 0x5E <= b <= 0x7A || b == 0x7C || b == 0x7E
  }

  // ---- the machine ----

  datatype Machine = Start | Digits | LineEnd | NameStart | Name | ValueStart | Value

  datatype Next = Go(m: Machine) | Finish | Error

  function Move(m: Machine, b: byte): Next {
    match m
    case Start => if IsHex(b) then Go(Digits) else Error
    case Digits =>
      if b == LF then Finish else if b == CR then Go(LineEnd) else if b == SEMICOLON then Go(NameStart)
      else if IsHex(b) then Go(Digits) else Error
    case LineEnd => if b == LF then Finish else Error
    case NameStart => if IsToken(b) then Go(Name) else Error
    case Name =>
      if b == LF then Finish else if b == CR then Go(LineEnd) else if b == SEMICOLON then Go(NameStart)
      else if b == EQUALS then Go(ValueStart) else if IsToken(b) then Go(Name) else Error
    case ValueStart => if IsToken(b) then Go(Value) else Error
    case Value =>
      if b == LF then Finish else if b == CR then Go(LineEnd) else if b == SEMICOLON then Go(NameStart)
      else if IsToken(b) then Go(Value) else Error
  }

  /** How far the machine gets: it wants more, it fails, or it stops behind byte `n`. */
  datatype Scanned = Unfinished | Wrong | Stopped(n: nat)

  function Scan(m: Machine, t: seq<byte>): (r: Scanned)
    ensures r.Stopped? ==> 1 <= r.n <= |t|
    decreases |t|
  {
    if t == [] then Unfinished
    else
      match Move(m, t[0])
      case Error => Wrong
      case Finish => Stopped(1)
      case Go(m') =>
        var r := Scan(m', t[1..]);
        if r.Stopped? then Stopped(r.n + 1) else r
  }

  // ---- the announced size ----

  predicate AllHex(s: seq<byte>) {
    forall b :: b in s ==> IsHex(b)
  }

  function LeadingHex(t: seq<byte>): (ds: seq<byte>)
    ensures AllHex(ds)
  {
    if t == [] || !IsHex(t[0]) then [] else [t[0]] + LeadingHex(t[1..])
  }

  function HexValue(ds: seq<byte>): nat
    requires AllHex(ds)
  {
    if ds == [] then 0
    else
      assert ds[|ds| - 1] in ds;
      16 * HexValue(ds[..|ds| - 1]) + HexDigit(ds[|ds| - 1])
  }

  /** `content_len = strtol(digits, NULL, 16)`: saturated to `long`, then cut to `int`. */
  function ContentLen(ds: seq<byte>): int
    requires AllHex(ds)
  {
    ToInt(if HexValue(ds) > LONG_MAX then LONG_MAX else HexValue(ds))
  }

  // ---- httpclient_parser_execute on a fresh machine ----

  /** No end yet, in which case the whole text counts as consumed; an error; or `length` bytes consumed and the
      size and end flag they announce. */
  datatype Parsed = Incomplete | Malformed | Line(length: nat, size: int, done: bool)

  function Parse(t: seq<byte>, response: seq<byte> -> Parsed): (p: Parsed)
    requires t != []
    ensures p.Line? ==> 1 <= p.length <= |t|
  {
    if t[0] == LETTER_H then
      var k := if |t| < |HTTP| then |t| else |HTTP|;
      if t[..k] != HTTP[..k] then Malformed
      else if |t| < |HTTP| then Incomplete
      else
        var p := response(t);
        if p.Line? && !(1 <= p.length <= |t|) then Malformed else p
    else
      match Scan(Start, t)
      case Unfinished => Incomplete
      case Wrong => Malformed
      case Stopped(n) => Line(n, ContentLen(LeadingHex(t)), ContentLen(LeadingHex(t)) <= 0)
  }

  // ---- size lines and their parts ----

  predicate SizeLine(h: seq<byte>) {
    Scan(Start, h) == Stopped(|h|)
  }

  /** The last byte is the only line feed, and there is no slash. */
  predicate OneLine(t: seq<byte>) {
    && t != [] && t[|t| - 1] == LF
    && forall i :: 0 <= i < |t| - 1 ==> t[i] != LF && t[i] != SLASH
  }

  lemma {:induction false} ScanOneLine(m: Machine, h: seq<byte>)
    requires Scan(m, h) == Stopped(|h|)
    ensures OneLine(h)
    decreases |h|
  {
    if |h| > 1 {
      ScanOneLine(Move(m, h[0]).m, h[1..]);
      forall i | 0 <= i < |h| - 1
        ensures h[i] != LF && h[i] != SLASH
      {
        assert i > 0 ==> h[i] == h[1..][i - 1];
      }
    }
  }

  /** A line feed decides: the machine stops there if it gets that far. */
  lemma {:induction false} ScanDecided(m: Machine, t: seq<byte>)
    requires OneLine(t)
    ensures Scan(m, t) == Wrong || Scan(m, t) == Stopped(|t|)
    decreases |t|
  {
    if |t| > 1 && Move(m, t[0]).Go? {
      assert t[1..][|t| - 2] == LF;
      assert forall i :: 0 <= i < |t| - 2 ==> t[1..][i] == t[i + 1];
      ScanDecided(Move(m, t[0]).m, t[1..]);
    }
  }

  /** Without a line feed it does not stop. */
  lemma {:induction false} ScanOpen(m: Machine, t: seq<byte>)
    requires LF !in t
    ensures !Scan(m, t).Stopped?
    decreases |t|
  {
    if t != [] && Move(m, t[0]).Go? {
      ScanOpen(Move(m, t[0]).m, t[1..]);
    }
  }

  lemma {:induction false} ScanAppend(m: Machine, t: seq<byte>, u: seq<byte>)
    requires Scan(m, t) != Unfinished
    ensures Scan(m, t + u) == Scan(m, t)
    decreases |t|
  {
    assert (t + u)[1..] == t[1..] + u;
    if Move(m, t[0]).Go? {
      ScanAppend(Move(m, t[0]).m, t[1..], u);
    }
  }

  lemma {:induction false} LeadingHexAppend(t: seq<byte>, u: seq<byte>)
    requires LF in t
    ensures LeadingHex(t + u) == LeadingHex(t)
  {
    assert (t + u)[1..] == t[1..] + u;
    if IsHex(t[0]) {
      LeadingHexAppend(t[1..], u);
    }
  }

  /** What follows the end of the line makes no difference, wherever in the line the text begins. */
  lemma ParseSuffix(g: seq<byte>, rest: seq<byte>, response: seq<byte> -> Parsed)
    requires OneLine(g)
    ensures Parse(g + rest, response) == Parse(g, response) != Incomplete
    ensures var size := ContentLen(LeadingHex(g));
      Parse(g, response).Line? ==> Parse(g, response) == Line(|g|, size, size <= 0)
  {
    assert g[|g| - 1] in g;
    if g[0] == LETTER_H {
      NotHttp(g, rest);
    } else {
      ScanDecided(Start, g);
      ScanAppend(Start, g, rest);
      LeadingHexAppend(g, rest);
    }
  }

  lemma NotHttp(g: seq<byte>, rest: seq<byte>)
    requires OneLine(g)
    ensures var k := if |g| < |HTTP| then |g| else |HTTP|; g[..k] != HTTP[..k]
    ensures var t := g + rest; var k := if |t| < |HTTP| then |t| else |HTTP|; t[..k] != HTTP[..k]
  {
    var t := g + rest;
    if |g| < |HTTP| {
      var i := |g| - 1;
      assert g[i] == t[i] == LF && HTTP[i] != LF;
    } else {
      assert t[4] == g[4] != HTTP[4];
    }
  }

  /** A part of the line without its end is never a line. */
  lemma ParseOpen(t: seq<byte>, response: seq<byte> -> Parsed)
    requires t != [] && LF !in t && SLASH !in t
    ensures !Parse(t, response).Line?
  {
    ScanOpen(Start, t);
    if t[0] == LETTER_H && |t| >= |HTTP| {
      assert t[4] in t;
    }
  }

  /** A part of a size line from its beginning is unfinished. */
  lemma PrefixOfLine(g: seq<byte>, k: nat, response: seq<byte> -> Parsed)
    requires SizeLine(g) && 0 < k < |g|
    ensures Parse(g[..k], response) == Incomplete
  {
    if Scan(Start, g[..k]) != Unfinished {
      ScanAppend(Start, g[..k], g[k..]);
    }
    assert g[..k] + g[k..] == g;
  }

  lemma StrayEnd(t: seq<byte>, response: seq<byte> -> Parsed)
    requires t != [] && (t[0] == CR || t[0] == LF)
    ensures Parse(t, response) == Malformed
  {
  }

  // ---- lines without extensions ----

  predicate IsEnd(end: seq<byte>) {
    end == [CR, LF] || end == [LF]
  }

  lemma {:induction false} ScanDigits(ds: seq<byte>)
    requires AllHex(ds)
    ensures Scan(Digits, ds) == Unfinished
  {
    if ds != [] {
      assert ds[0] in ds;
      ScanDigits(ds[1..]);
    }
  }

  lemma {:induction false} ScanDigitsEnd(ds: seq<byte>, end: seq<byte>)
    requires AllHex(ds) && IsEnd(end)
    ensures Scan(Digits, ds + end) == Stopped(|ds| + |end|)
    ensures LeadingHex(ds + end) == ds
  {
    if ds == [] {
      assert [] + end == end;
      assert end == [CR, LF] ==> Scan(LineEnd, end[1..]) == Stopped(1);
    } else {
      assert ds[0] in ds;
      assert (ds + end)[1..] == ds[1..] + end;
      ScanDigitsEnd(ds[1..], end);
    }
  }

  /** Digits and a line end are a size line; some digits without the end are unfinished; the end alone is an error. */
  lemma PlainLine(ds: seq<byte>, end: seq<byte>, response: seq<byte> -> Parsed)
    requires AllHex(ds) && ds != [] && IsEnd(end)
    ensures SizeLine(ds + end) && LeadingHex(ds + end) == ds
    ensures Parse(ds + end, response) == Line(|ds| + |end|, ContentLen(ds), ContentLen(ds) <= 0)
    ensures Parse(ds, response) == Incomplete
  {
    hide HexValue;
    hide ContentLen;
    hide IsToken;
    assert ds[0] in ds;
    assert (ds + end)[1..] == ds[1..] + end;
    ScanDigitsEnd(ds[1..], end);
    ScanDigits(ds[1..]);
    assert LeadingHex(ds + end) == ds;
  }

  /** Leading zeros, and nothing else, can be lost without changing the value. */
  lemma {:induction false} LeadingZeros(ds: seq<byte>, c: nat)
    requires AllHex(ds) && c < |ds|
    ensures AllHex(ds[c..])
    ensures HexValue(ds[c..]) <= HexValue(ds)
    ensures HexValue(ds[c..]) == HexValue(ds) <==> forall i :: 0 <= i < c ==> ds[i] == ZERO
  {
    var n := |ds| - 1;
    assert ds[n] in ds;
    if c < n {
      LeadingZeros(ds[..n], c);
      assert ds[c..][..n - c] == ds[..n][c..];
      assert ds[c..][n - c] == ds[n];
    } else {
      assert ds[c..] == [ds[n]];
      assert ds[c..][..0] == [];
      ZeroValue(ds[..n]);
    }
  }

  lemma {:induction false} ZeroValue(ds: seq<byte>)
    requires AllHex(ds)
    ensures HexValue(ds) == 0 <==> forall i :: 0 <= i < |ds| ==> ds[i] == ZERO
  {
    if ds != [] {
      var n := |ds| - 1;
      assert ds[n] in ds;
      ZeroValue(ds[..n]);
      assert forall i :: 0 <= i < n ==> ds[..n][i] == ds[i];
    }
  }

  lemma SmallContentLen(ds: seq<byte>)
    requires AllHex(ds) && HexValue(ds) <= INT_MAX
    ensures ContentLen(ds) == HexValue(ds)
  {
  }

  // ---- the announced number ----

  function Pow16(n: nat): nat {
    if n == 0 then 1 else 16 * Pow16(n - 1)
  }

  /** Digit times power of sixteen. */
  function Positional(ns: seq<nat>): nat {
    if ns == [] then 0 else ns[0] * Pow16(|ns| - 1) + Positional(ns[1..])
  }

  /** The characters spell the digits, each in either case. */
  ghost predicate SpellsAll(ds: seq<byte>, ns: seq<nat>) {
    && |ds| == |ns|
    && forall i :: 0 <= i < |ns| ==> ns[i] < 16 && Spells(ds[i], ns[i])
  }

  lemma {:induction false} PositionalSnoc(ns: seq<nat>, n: nat)
    ensures Positional(ns + [n]) == 16 * Positional(ns) + n
  {
    if ns == [] {
      assert (ns + [n])[1..] == [];
      assert Pow16(0) == 1;
    } else {
      assert (ns + [n])[1..] == ns[1..] + [n];
      PositionalSnoc(ns[1..], n);
      assert Pow16(|ns|) == 16 * Pow16(|ns| - 1);
      assert ns[0] * Pow16(|ns|) == 16 * (ns[0] * Pow16(|ns| - 1));
    }
  }

  lemma {:induction false} SpelledValue(ds: seq<byte>, ns: seq<nat>)
    requires SpellsAll(ds, ns)
    ensures AllHex(ds) && HexValue(ds) == Positional(ns)
  {
    hide Spells;
    forall b | b in ds
      ensures IsHex(b)
    {
      var i :| 0 <= i < |ds| && ds[i] == b;
      SpelledHex(b, ns[i]);
    }
    hide IsHex;
    if ds != [] {
      var n := |ds| - 1;
      SpelledValue(ds[..n], ns[..n]);
      SpelledHex(ds[n], ns[n]);
      PositionalSnoc(ns[..n], ns[n]);
      assert ns == ns[..n] + [ns[n]];
      hide HexDigit;
      hide Positional;
      assert ds[n] in ds;
    }
  }

  /** Digits in either case and a line end announce the sum of digit times power of sixteen, held to the largest
      `long` and then cut to the `int` that differs from it by a multiple of 2^32. */
  lemma AnnouncedNumber(ds: seq<byte>, ns: seq<nat>, end: seq<byte>, response: seq<byte> -> Parsed)
    requires SpellsAll(ds, ns) && ds != [] && (end == [CR, LF] || end == [LF])
    ensures var p := Parse(ds + end, response);
      var held := if Positional(ns) > LONG_MAX then LONG_MAX else Positional(ns);
      && p.Line? && p.length == |ds| + |end| && (p.done <==> p.size <= 0)
      && -0x8000_0000 <= p.size < 0x8000_0000 && (held - p.size) % 0x1_0000_0000 == 0
  {
    SpelledValue(ds, ns);
    PlainLine(ds, end, response);
    hide Parse;
    hide HexValue;
    hide Positional;
    hide Spells;
    var held := if Positional(ns) > LONG_MAX then LONG_MAX else Positional(ns);
    ToIntMeaning(held);
  }

  // ---- the grammar of size lines ----

  /** A chunk extension: a name and perhaps a value. */
  datatype Extension = Extension(name: seq<byte>, value: Option<seq<byte>>)

  /** A printing character that is no separator. */
  predicate IsTokenChar(c: char) {
    ' ' < c <= '~' && c !in "()<>@,;:\\\"/[]?={}"
  }

  lemma TokenChars(b: byte)
    ensures IsToken(b) <==> IsTokenChar(b as char)
  {
    var c := b as char;
    assert c in "()<>@,;:\\\"/[]?={}" <==>
      c == '(' || c == ')' || c == '<' || c == '>' || c == '@' || c == ',' || c == ';' || c == ':' || c == '\\' ||
      c == '\"' || c == '/' || c == '[' || c == ']' || c == '?' || c == '=' || c == '{' || c == '}';
  }

  predicate Tokens(t: seq<byte>) {
    forall i :: 0 <= i < |t| ==> IsTokenChar(t[i] as char)
  }

  predicate IsExtension(e: Extension) {
    e.name != [] && Tokens(e.name) && (e.value.Some? ==> e.value.value != [] && Tokens(e.value.value))
  }

  ghost predicate AreExtensions(es: seq<Extension>) {
    forall i :: 0 <= i < |es| ==> IsExtension(es[i])
  }

  function ValueText(v: Option<seq<byte>>): seq<byte> {
    if v.Some? then [EQUALS] + v.value else []
  }

  function ExtensionsText(es: seq<Extension>): seq<byte> {
    if es == [] then []
    else [SEMICOLON] + es[0].name + ValueText(es[0].value) + ExtensionsText(es[1..])
  }

  lemma FirstExtension(es: seq<Extension>, end: seq<byte>)
    requires es != []
    ensures ExtensionsText(es) + end ==
      [SEMICOLON] + (es[0].name + (ValueText(es[0].value) + (ExtensionsText(es[1..]) + end)))
  {
    var n, v, more := es[0].name, ValueText(es[0].value), ExtensionsText(es[1..]);
    assert ExtensionsText(es) == [SEMICOLON] + n + v + more;
    Regroup([SEMICOLON], n, v, more, end);
  }

  lemma Regroup(a: seq<byte>, b: seq<byte>, c: seq<byte>, d: seq<byte>, e: seq<byte>)
    ensures a + b + c + d + e == a + (b + (c + (d + e)))
  {
  }

  lemma Glue(t: seq<byte>, a: seq<byte>, rest: seq<byte>)
    requires t != [] && t[1..] == a + rest
    ensures t == ([t[0]] + a) + rest
  {
  }

  ghost predicate IsHeader(h: seq<byte>, ds: seq<byte>, es: seq<Extension>, end: seq<byte>) {
    && ds != [] && AllHex(ds) && AreExtensions(es) && (end == [CR, LF] || end == [LF])
    && h == ds + ExtensionsText(es) + end
  }

  function Shift(r: Scanned, k: nat): Scanned {
    if r.Stopped? then Stopped(r.n + k) else r
  }

  lemma ScanOne(m: Machine, b: byte, rest: seq<byte>)
    requires Move(m, b).Go?
    ensures Scan(m, [b] + rest) == Shift(Scan(Move(m, b).m, rest), 1)
  {
    assert ([b] + rest)[1..] == rest;
  }

  /** Bytes on which the machine stays where it is. */
  lemma {:induction false} ScanStay(m: Machine, t: seq<byte>, rest: seq<byte>)
    requires forall i :: 0 <= i < |t| ==> Move(m, t[i]) == Go(m)
    ensures Scan(m, t + rest) == Shift(Scan(m, rest), |t|)
  {
    if t == [] {
      assert t + rest == rest;
    } else {
      ScanStay(m, t[1..], rest);
      assert t + rest == [t[0]] + (t[1..] + rest);
      ScanOne(m, t[0], t[1..] + rest);
    }
  }

  /** One or more tokens, the first of which changes the state. */
  lemma ScanTokens(m: Machine, m': Machine, t: seq<byte>, rest: seq<byte>)
    requires (m == NameStart && m' == Name) || (m == ValueStart && m' == Value)
    requires t != [] && Tokens(t)
    ensures Scan(m, t + rest) == Shift(Scan(m', rest), |t|)
  {
    forall i | 0 <= i < |t|
      ensures IsToken(t[i]) && Move(m', t[i]) == Go(m')
    {
      TokenChars(t[i]);
    }
    hide Move;
    assert Move(m, t[0]) == Go(m') by {
      StartsToken(m, m', t[0]);
    }
    assert t + rest == [t[0]] + (t[1..] + rest);
    ScanOne(m, t[0], t[1..] + rest);
    ScanStay(m', t[1..], rest);
  }

  lemma StartsToken(m: Machine, m': Machine, b: byte)
    requires (m == NameStart && m' == Name) || (m == ValueStart && m' == Value)
    requires IsToken(b)
    ensures Move(m, b) == Go(m')
  {
  }

  lemma {:induction false} ScanExtensions(m: Machine, es: seq<Extension>, end: seq<byte>)
    requires m in {Digits, Name, Value} && IsEnd(end) && AreExtensions(es)
    ensures var t := ExtensionsText(es) + end; Scan(m, t) == Stopped(|t|)
    decreases |es|
  {
    hide IsToken;
    hide Tokens;
    if es == [] {
      assert ExtensionsText(es) + end == end;
      assert end == [CR, LF] ==> end[1..] == [LF] && Scan(LineEnd, [LF]) == Stopped(1);
    } else {
      var e, more := es[0], ExtensionsText(es[1..]) + end;
      var m' := if e.value.Some? then Value else Name;
      FirstExtension(es, end);
      hide ExtensionsText;
      ScanExtensions(m', es[1..], end);
      ScanValue(e.value, more);
      hide ValueText;
      hide Scan;
      ScanTokens(NameStart, Name, e.name, ValueText(e.value) + more);
      assert Move(m, SEMICOLON) == Go(NameStart);
      hide Move;
      ScanOne(m, SEMICOLON, e.name + (ValueText(e.value) + more));
    }
  }

  lemma ScanValue(v: Option<seq<byte>>, more: seq<byte>)
    requires v.Some? ==> v.value != [] && Tokens(v.value)
    ensures Scan(Name, ValueText(v) + more) == Shift(Scan(if v.Some? then Value else Name, more), |ValueText(v)|)
  {
    hide Tokens;
    if v.Some? {
      ScanTokens(ValueStart, Value, v.value, more);
      assert Move(Name, EQUALS) == Go(ValueStart);
      hide Move;
      ScanOne(Name, EQUALS, v.value + more);
      assert ValueText(v) + more == [EQUALS] + (v.value + more);
    } else {
      assert ValueText(v) + more == more;
    }
  }

  lemma EndAfterCr(t: seq<byte>)
    requires t != [] && Scan(LineEnd, t) == Stopped(|t|)
    ensures t == [LF]
  {
    assert t[0] == LF;
  }

  /** What the machine accepts behind the first digit is read back as digits, extensions and an end. */
  lemma {:induction false} DigitsBack(t: seq<byte>) returns (ds: seq<byte>, es: seq<Extension>, end: seq<byte>)
    requires Scan(Digits, t) == Stopped(|t|)
    ensures AllHex(ds) && AreExtensions(es) && IsEnd(end) && t == ds + (ExtensionsText(es) + end)
    decreases |t|
  {
    hide ExtensionsText;
    hide IsToken;
    if t[0] in {LF, CR, SEMICOLON} {
      es, end := TailBack(Digits, t);
      ds := [];
    } else {
      ds, es, end := DigitsBack(t[1..]);
      Glue(t, ds, ExtensionsText(es) + end);
      ds := [t[0]] + ds;
    }
  }

  lemma OneExtension(e: Extension, more: seq<Extension>, end: seq<byte>)
    requires IsExtension(e) && AreExtensions(more)
    ensures AreExtensions([e] + more)
    ensures ExtensionsText([e] + more) + end ==
      [SEMICOLON] + (e.name + (ValueText(e.value) + (ExtensionsText(more) + end)))
  {
    assert ([e] + more)[1..] == more;
    FirstExtension([e] + more, end);
  }

  lemma EndBack(m: Machine, t: seq<byte>)
    requires m in {Digits, Name, Value} && Scan(m, t) == Stopped(|t|) && t[0] in {LF, CR}
    ensures IsEnd(t)
  {
    if t[0] == CR {
      EndAfterCr(t[1..]);
      assert t == [CR] + t[1..];
    }
  }

  lemma NameFirst(m: Machine, t: seq<byte>)
    requires m in {Digits, Name, Value} && Scan(m, t) == Stopped(|t|) && t[0] == SEMICOLON
    ensures |t| > 2 && t == [SEMICOLON] + t[1..] && IsTokenChar(t[1] as char) && Scan(Name, t[2..]) == Stopped(|t| - 2)
  {
    var u := t[1..];
    assert Scan(NameStart, u) == Stopped(|u|) && Move(NameStart, u[0]) == Go(Name) && u[1..] == t[2..];
    TokenChars(u[0]);
  }

  /** The end, or one extension and more. */
  lemma {:induction false} TailBack(m: Machine, t: seq<byte>) returns (es: seq<Extension>, end: seq<byte>)
    requires m in {Digits, Name, Value} && Scan(m, t) == Stopped(|t|) && t[0] in {LF, CR, SEMICOLON}
    ensures AreExtensions(es) && IsEnd(end) && t == ExtensionsText(es) + end
    decreases |t|, 0
  {
    hide Move;
    if t[0] == SEMICOLON {
      NameFirst(m, t);
      hide Scan;
      var name, value, more;
      name, value, more, end := NameBack(t[2..]);
      var e := Extension([t[1]] + name, value);
      es := [e] + more;
      hide AreExtensions;
      hide ExtensionsText;
      OneExtension(e, more, end);
      assert t[1..][1..] == t[2..];
      Glue(t[1..], name, ValueText(value) + (ExtensionsText(more) + end));
    } else {
      EndBack(m, t);
      es, end := [], t;
      assert t == [] + t;
    }
  }

  lemma {:induction false} NameBack(t: seq<byte>)
    returns (name: seq<byte>, value: Option<seq<byte>>, es: seq<Extension>, end: seq<byte>)
    requires Scan(Name, t) == Stopped(|t|)
    ensures Tokens(name) && (value.Some? ==> value.value != [] && Tokens(value.value))
    ensures AreExtensions(es) && IsEnd(end) && t == name + (ValueText(value) + (ExtensionsText(es) + end))
    decreases |t|, 1
  {
    hide ExtensionsText;
    hide IsToken;
    if t[0] in {LF, CR, SEMICOLON} {
      es, end := TailBack(Name, t);
      name, value := [], None;
      assert t == [] + ([] + t);
    } else if t[0] == EQUALS {
      var u := t[1..];
      assert Scan(ValueStart, u) == Stopped(|u|) && Move(ValueStart, u[0]) == Go(Value);
      TokenChars(u[0]);
      var v;
      v, es, end := ValueBack(u[1..]);
      hide Scan;
      hide Move;
      Glue(u, v, ExtensionsText(es) + end);
      name, value := [], Some([u[0]] + v);
      Glue(t, value.value, ExtensionsText(es) + end);
      assert t == [] + t;
    } else {
      TokenChars(t[0]);
      name, value, es, end := NameBack(t[1..]);
      Glue(t, name, ValueText(value) + (ExtensionsText(es) + end));
      name := [t[0]] + name;
    }
  }

  lemma {:induction false} ValueBack(t: seq<byte>) returns (v: seq<byte>, es: seq<Extension>, end: seq<byte>)
    requires Scan(Value, t) == Stopped(|t|)
    ensures Tokens(v) && AreExtensions(es) && IsEnd(end) && t == v + (ExtensionsText(es) + end)
    decreases |t|, 1
  {
    hide ExtensionsText;
    hide IsToken;
    if t[0] in {LF, CR, SEMICOLON} {
      es, end := TailBack(Value, t);
      v := [];
    } else {
      TokenChars(t[0]);
      v, es, end := ValueBack(t[1..]);
      Glue(t, v, ExtensionsText(es) + end);
      v := [t[0]] + v;
    }
  }

  /** The machine stops exactly at the end of a text that is digits, extensions and a line end. */
  lemma LineGrammar(h: seq<byte>)
    ensures SizeLine(h) <==> exists ds, es, end :: IsHeader(h, ds, es, end)
  {
    if SizeLine(h) {
      assert Move(Start, h[0]) == Go(Digits);
      var ds, es, end := DigitsBack(h[1..]);
      Glue(h, ds, ExtensionsText(es) + end);
      assert h == ([h[0]] + ds) + ExtensionsText(es) + end;
      assert IsHeader(h, [h[0]] + ds, es, end);
    }
    if exists ds, es, end :: IsHeader(h, ds, es, end) {
      var ds, es, end :| IsHeader(h, ds, es, end);
      HeaderScans(h, ds, es, end);
    }
  }

  lemma OnDigit(b: byte)
    requires IsHex(b)
    ensures Move(Digits, b) == Move(Start, b) == Go(Digits)
  {
  }

  lemma ScanNumber(ds: seq<byte>, t: seq<byte>)
    requires AllHex(ds) && ds != []
    ensures Scan(Start, ds + t) == Shift(Scan(Digits, t), |ds|)
  {
    hide Move;
    hide Scan;
    hide IsHex;
    forall i | 0 <= i < |ds|
      ensures Move(Digits, ds[i]) == Go(Digits) && Move(Start, ds[i]) == Go(Digits)
    {
      assert ds[i] in ds;
      OnDigit(ds[i]);
    }
    ScanStay(Digits, ds[1..], t);
    assert ds + t == [ds[0]] + (ds[1..] + t);
    ScanOne(Start, ds[0], ds[1..] + t);
  }

  lemma TailFirst(es: seq<Extension>, end: seq<byte>)
    requires IsEnd(end)
    ensures var t := ExtensionsText(es) + end; t != [] && !IsHex(t[0])
  {
    if es != [] {
      FirstExtension(es, end);
    }
  }

  /** And the digits are those at the front. */
  lemma HeaderScans(h: seq<byte>, ds: seq<byte>, es: seq<Extension>, end: seq<byte>)
    requires IsHeader(h, ds, es, end)
    ensures SizeLine(h) && LeadingHex(h) == ds
  {
    var t := ExtensionsText(es) + end;
    assert h == ds + t;
    TailFirst(es, end);
    ScanExtensions(Digits, es, end);
    hide ExtensionsText;
    hide Scan;
    hide IsHex;
    ScanNumber(ds, t);
    LeadingHexIs(ds, t);
  }

  lemma {:induction false} LeadingHexIs(ds: seq<byte>, t: seq<byte>)
    requires AllHex(ds) && (t == [] || !IsHex(t[0]))
    ensures LeadingHex(ds + t) == ds
  {
    if ds == [] {
      assert ds + t == t;
    } else {
      assert ds[0] in ds && (ds + t)[1..] == ds[1..] + t;
      LeadingHexIs(ds[1..], t);
    }
  }
}
