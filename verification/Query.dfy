/** Query and form parameters (`PARSE_PARAM` of server_frame/http/http.cc). */
module Query {
  import opened Ascii
  import opened Bytes
  import opened Url
  import opened Wrappers

  // ---- std::string::find and the case-insensitive map ----

  /** `str.find(c, from)`; `None` is `npos`. */
  function Find(str: seq<byte>, c: byte, from: nat): (r: Option<nat>)
    requires from <= |str|
    ensures r.Some? ==> from <= r.value < |str| && str[r.value] == c && c !in str[from..r.value]
    ensures r.None? ==> c !in str[from..]
    decreases |str| - from
  {
    if from == |str| then None
    else if str[from] == c then Some(from)
    else
      var r := Find(str, c, from + 1);
      assert r.Some? ==> str[from..r.value] == [str[from]] + str[from + 1..r.value];
      assert str[from..] == [str[from]] + str[from + 1..];
      r
  }

  function ToLower(b: byte): byte {
    if 0x41 <= b <= 0x5A then b + 0x20 else b
  }

  /** What `strcasecmp` on the C string sees of a key: lower case, up to the first NUL. */
  function Canonical(key: seq<byte>): seq<byte> {
    if key == [] || key[0] == 0 then [] else [ToLower(key[0])] + Canonical(key[1..])
  }

  function Lower(key: seq<byte>): (r: seq<byte>)
    ensures |r| == |key|
  {
    if key == [] then [] else [ToLower(key[0])] + Lower(key[1..])
  }

  /** Without NUL the whole key counts. */
  lemma {:induction false} CanonicalIsLower(key: seq<byte>)
    requires 0 !in key
    ensures Canonical(key) == Lower(key)
  {
    if key != [] {
      CanonicalIsLower(key[1..]);
    }
  }

  /** And what follows the first NUL does not count. */
  lemma {:induction false} CutAtNul(key: seq<byte>, rest: seq<byte>)
    requires 0 !in key
    ensures Canonical(key + [0] + rest) == Lower(key)
  {
    if key == [] {
      assert key + [0] + rest == [0] + rest;
    } else {
      CutAtNul(key[1..], rest);
      assert (key + [0] + rest)[1..] == key[1..] + [0] + rest;
    }
  }

  /** The same byte, or the two cases of one letter. */
  predicate SameLetter(a: byte, b: byte) {
    || a == b
    || ('A' <= a as char <= 'Z' && b - a == 'a' as int - 'A' as int)
    || ('a' <= a as char <= 'z' && a - b == 'a' as int - 'A' as int)
  }

  lemma SameLower(a: byte, b: byte)
    ensures ToLower(a) == ToLower(b) <==> SameLetter(a, b)
    ensures SameLetter(a, ToLower(a)) && !('A' <= ToLower(a) as char <= 'Z')
  {
  }

  /** Two keys are the same in lower case if and only if they differ in the case of letters at most. */
  lemma {:induction false} SameSpelling(k: seq<byte>, l: seq<byte>)
    ensures Lower(k) == Lower(l) <==> |k| == |l| && forall i :: 0 <= i < |k| ==> SameLetter(k[i], l[i])
  {
    hide SameLetter;
    if k != [] && l != [] {
      SameLower(k[0], l[0]);
      SameSpelling(k[1..], l[1..]);
      assert Lower(k) == Lower(l) <==> ToLower(k[0]) == ToLower(l[0]) && Lower(k[1..]) == Lower(l[1..]) by {
        assert Lower(k)[1..] == Lower(k[1..]) && Lower(l)[1..] == Lower(l[1..]);
      }
      if |k| == |l| && SameLetter(k[0], l[0]) && forall i :: 0 <= i < |k| - 1 ==> SameLetter(k[1..][i], l[1..][i]) {
        forall i | 0 <= i < |k|
          ensures SameLetter(k[i], l[i])
        {
          assert i > 0 ==> k[i] == k[1..][i - 1] && l[i] == l[1..][i - 1];
        }
      }
    }
  }

  datatype Param = Param(key: seq<byte>, value: seq<byte>)

  /** `std::map` under `CaseInsensitiveLess`: the entries by the class of their key. */
  type Params = map<seq<byte>, Param>

  /** `insert`: the first of equivalent keys stays. */
  function Insert(m: Params, p: Param): Params {
    if Canonical(p.key) in m then m else m[Canonical(p.key) := p]
  }

  function InsertAll(m: Params, ps: seq<Param>): Params
    decreases |ps|
  {
    if ps == [] then m else InsertAll(Insert(m, ps[0]), ps[1..])
  }

  /** `ps[i]` is the first parameter whose key is of class `k`. */
  predicate IsFirst(ps: seq<Param>, k: seq<byte>, i: nat) {
    && i < |ps|
    && Canonical(ps[i].key) == k
    && forall j :: 0 <= j < i ==> Canonical(ps[j].key) != k
  }

  predicate Occurs(ps: seq<Param>, k: seq<byte>) {
    exists i :: 0 <= i < |ps| && Canonical(ps[i].key) == k
  }

  /** Besides what it held, the map holds for each class of keys the first parameter of that class, and no more. */
  lemma {:induction false} FirstOccurrences(m: Params, ps: seq<Param>, k: seq<byte>)
    ensures k in InsertAll(m, ps) <==> k in m || Occurs(ps, k)
    ensures k in m ==> InsertAll(m, ps)[k] == m[k]
    ensures k !in m ==> forall i: nat :: IsFirst(ps, k, i) ==> InsertAll(m, ps)[k] == ps[i]
    decreases |ps|
  {
    if ps != [] {
      var n, qs := Insert(m, ps[0]), ps[1..];
      FirstOccurrences(n, qs, k);
      assert Occurs(ps, k) <==> Canonical(ps[0].key) == k || Occurs(qs, k) by {
        if Occurs(qs, k) {
          var i :| 0 <= i < |qs| && Canonical(qs[i].key) == k;
          assert ps[i + 1] == qs[i];
        }
        if Occurs(ps, k) && Canonical(ps[0].key) != k {
          var i :| 0 <= i < |ps| && Canonical(ps[i].key) == k;
          assert qs[i - 1] == ps[i];
        }
      }
      forall i: nat | k !in m && IsFirst(ps, k, i)
        ensures InsertAll(m, ps)[k] == ps[i]
      {
        if i > 0 {
          assert forall j :: 0 <= j < i - 1 ==> qs[j] == ps[j + 1];
          assert IsFirst(qs, k, i - 1);
        }
      }
    }
  }

  // ---- PARSE_PARAM ----

  /** What the loop makes of `str` from `pos` on. */
  function ParseFrom(str: seq<byte>, pos: nat, m: Params): Params
    requires pos <= |str|
    decreases |str| - pos
  {
    match Find(str, EQUALS, pos)
    case None => m
    case Some(key) =>
      match Find(str, AMPERSAND, key)
      case None => Insert(m, Param(str[pos..key], Decode(str[key + 1..], true)))
      case Some(end) => ParseFrom(str, end + 1, Insert(m, Param(str[pos..key], Decode(str[key + 1..end], true))))
  }

  class HttpRequest {
    var query: seq<byte>
    var body: seq<byte>
    var formBody: bool       // the content type contains application/x-www-form-urlencoded
    var params: Params
    var queryParsed: bool    // bits 1 and 2 of parser_param_flag_
    var bodyParsed: bool

    constructor (query: seq<byte>, body: seq<byte>, formBody: bool)
      ensures this.query == query && this.body == body && this.formBody == formBody
      ensures params == map[] && !queryParsed && !bodyParsed
    {
      this.query, this.body, this.formBody := query, body, formBody;
      params, queryParsed, bodyParsed := map[], false, false;
    }

    /** `PARSE_PARAM(str, params_, '&',)`. It ends on every string: each turn starts behind the last separator. */
    method ParseParam(str: seq<byte>)
      modifies this`params
      ensures params == ParseFrom(str, 0, old(params))
    {
      hide Find;
      hide Decode;
      hide Insert;
      hide ParseFrom;
      var pos := 0;
      while true
        invariant 0 <= pos <= |str|
        invariant ParseFrom(str, pos, params) == ParseFrom(str, 0, old(params))
        decreases |str| - pos
      {
        var last := pos;
        var key := Find(str, EQUALS, pos);
        if key.None? {
          ParseEnd(str, pos, params);
          return;
        }
        var end := Find(str, AMPERSAND, key.value);
        var encoded := str[key.value + 1..if end.Some? then end.value else |str|];
        var value := UrlDecode(encoded, true);
        ParseTurn(str, pos, key.value, end, encoded, Param(str[last..key.value], value), params);
        params := Insert(params, Param(str[last..key.value], value));
        if end.None? {
          return;
        }
        pos := end.value + 1;
      }
    }

    method InitQueryParam()
      modifies this`params, this`queryParsed
      ensures queryParsed
      ensures params == if old(queryParsed) then old(params) else ParseFrom(query, 0, old(params))
    {
      if queryParsed {
        return;
      }
      ParseParam(query);
      queryParsed := true;
    }

    method InitBodyParam()
      modifies this`params, this`bodyParsed
      ensures bodyParsed
      ensures params == if old(bodyParsed) || !formBody then old(params) else ParseFrom(body, 0, old(params))
    {
      if bodyParsed {
        return;
      }
      if !formBody {
        bodyParsed := true;
        return;
      }
      ParseParam(body);
      bodyParsed := true;
    }
  }

  // ---- joined parameters come back ----

  /** `key=UrlEncode(value)` joined with `&`. */
  function Join(ps: seq<Param>, plus: bool): seq<byte> {
    if ps == [] then []
    else
      var item := ps[0].key + [EQUALS] + Encode(ps[0].value, plus);
      if |ps| == 1 then item else item + [AMPERSAND] + Join(ps[1..], plus)
  }

  predicate Joinable(ps: seq<Param>) {
    forall p :: p in ps ==> EQUALS !in p.key
  }

  lemma FindIs(str: seq<byte>, c: byte, from: nat, at: nat)
    requires from <= at < |str| && str[at] == c && c !in str[from..at]
    ensures Find(str, c, from) == Some(at)
  {
    var r := Find(str, c, from);
    assert c in str[from..] by {
      assert str[from..][at - from] == c;
    }
    NotIn(str, c, from, at);
    NotIn(str, c, from, r.value);
  }

  lemma NotIn(str: seq<byte>, c: byte, from: nat, to: nat)
    requires from <= to <= |str| && c !in str[from..to]
    ensures forall j :: from <= j < to ==> str[j] != c
  {
    assert forall j :: from <= j < to ==> str[from..to][j - from] == str[j];
  }

  lemma FindNone(str: seq<byte>, c: byte, from: nat)
    requires from <= |str| && c !in str[from..]
    ensures Find(str, c, from) == None
  {
    assert str[from..|str|] == str[from..];
    NotIn(str, c, from, |str|);
  }

  /** Where the parts of `before key = e tail` stand. */
  lemma ItemParts(str: seq<byte>, before: seq<byte>, key: seq<byte>, e: seq<byte>, tail: seq<byte>)
    requires str == before + (key + [EQUALS] + e) + tail
    ensures var at := |before| + |key|;
      && at + 1 + |e| <= |str|
      && str[|before|..at] == key && str[at] == EQUALS
      && str[at + 1..at + 1 + |e|] == e && str[at..at + 1 + |e|] == [EQUALS] + e
      && str[at + 1 + |e|..] == tail
  {
  }

  lemma ParseEnd(str: seq<byte>, pos: nat, m: Params)
    requires pos <= |str| && Find(str, EQUALS, pos) == None
    ensures ParseFrom(str, pos, m) == m
  {
  }

  lemma ParseTurn(str: seq<byte>, pos: nat, key: nat, end: Option<nat>, e: seq<byte>, p: Param, m: Params)
    requires pos <= |str| && Find(str, EQUALS, pos) == Some(key) && Find(str, AMPERSAND, key) == end
    requires e == str[key + 1..if end.Some? then end.value else |str|]
    requires p == Param(str[pos..key], Decode(e, true))
    ensures ParseFrom(str, pos, m) == if end.None? then Insert(m, p) else ParseFrom(str, end.value + 1, Insert(m, p))
  {
    hide Find;
    hide Decode;
    hide Insert;
    assert str[key + 1..|str|] == str[key + 1..];
  }

  /** One turn of the loop takes one item off the front: the key up to `=`, the encoded value up to `&` or the end. */
  lemma ParseItem(str: seq<byte>, pos: nat, key: nat, end: nat, p: Param, plus: bool, m: Params)
    requires pos <= key < end <= |str|
    requires str[pos..key] == p.key && EQUALS !in p.key && str[key] == EQUALS
    requires str[key + 1..end] == Encode(p.value, plus)
    requires end < |str| ==> str[end] == AMPERSAND
    ensures ParseFrom(str, pos, m) == if end == |str| then Insert(m, p) else ParseFrom(str, end + 1, Insert(m, p))
  {
    hide Encode;
    hide Decode;
    hide Insert;
    hide ParseFrom;
    hide Find;
    FindIs(str, EQUALS, pos, key);
    EncodedAlphabet(p.value, plus);
    assert str[key..end] == [EQUALS] + str[key + 1..end];
    UrlRoundTrip(p.value, plus, true);
    if end == |str| {
      assert str[key..] == str[key..end];
      FindNone(str, AMPERSAND, key);
      ParseTurn(str, pos, key, None, str[key + 1..end], p, m);
    } else {
      FindIs(str, AMPERSAND, key, end);
      ParseTurn(str, pos, key, Some(end), str[key + 1..end], p, m);
    }
  }

  lemma {:induction false} ParseJoinedFrom(before: seq<byte>, ps: seq<Param>, plus: bool, m: Params)
    requires Joinable(ps)
    ensures ParseFrom(before + Join(ps, plus), |before|, m) == InsertAll(m, ps)
    decreases |ps|
  {
    hide Encode;
    hide ParseFrom;
    hide Insert;
    hide Find;
    hide Decode;
    var str := before + Join(ps, plus);
    if ps == [] {
      ParseNothing(str, |before|, m);
    } else {
      var e := Encode(ps[0].value, plus);
      var item := ps[0].key + [EQUALS] + e;
      var key := |before| + |ps[0].key|;
      assert Joinable(ps[1..]) && EQUALS !in ps[0].key by {
        assert ps[0] in ps;
      }
      hide Joinable;
      JoinParts(before, ps, plus);
      assert |ps| == 1 ==> InsertAll(Insert(m, ps[0]), ps[1..]) == Insert(m, ps[0]);
      hide Join;
      if |ps| == 1 {
        ItemParts(str, before, ps[0].key, e, []);
        ParseItem(str, |before|, key, |before| + |item|, ps[0], plus, m);
      } else {
        var rest := Join(ps[1..], plus);
        ItemParts(str, before, ps[0].key, e, [AMPERSAND] + rest);
        assert str[|before| + |item|] == str[|before| + |item|..][0];
        ParseItem(str, |before|, key, |before| + |item|, ps[0], plus, m);
        ParseJoinedFrom(before + item + [AMPERSAND], ps[1..], plus, Insert(m, ps[0]));
      }
    }
  }

  lemma JoinParts(before: seq<byte>, ps: seq<Param>, plus: bool)
    requires ps != []
    ensures var str := before + Join(ps, plus);
      var item := ps[0].key + [EQUALS] + Encode(ps[0].value, plus);
      var rest := Join(ps[1..], plus);
      && (|ps| == 1 ==> str == before + item + [])
      && (|ps| > 1 ==>
        str == before + item + ([AMPERSAND] + rest) && str == (before + item + [AMPERSAND]) + rest)
  {
    hide Encode;
  }

  lemma ParseNothing(str: seq<byte>, pos: nat, m: Params)
    requires pos == |str|
    ensures ParseFrom(str, pos, m) == m
  {
  }

  /** Joined parameters parse to the first occurrences of their keys, whichever way spaces were encoded. */
  lemma ParseJoined(ps: seq<Param>, plus: bool)
    requires Joinable(ps)
    ensures ParseFrom(Join(ps, plus), 0, map[]) == InsertAll(map[], ps)
  {
    assert [] + Join(ps, plus) == Join(ps, plus);
    ParseJoinedFrom([], ps, plus, map[]);
  }

  /** The same through the request: what a client joins is found under every spelling of its keys. */
  method SubmitQuery(ps: seq<Param>, plus: bool) returns (request: HttpRequest)
    requires Joinable(ps) && forall p :: p in ps ==> 0 !in p.key
    ensures fresh(request)
    ensures forall k, i: nat :: 0 !in k && IsFirst(ps, Lower(k), i) ==>
      Lower(k) in request.params && request.params[Lower(k)] == ps[i]
    ensures forall k :: 0 !in k && Lower(k) in request.params ==>
      exists i :: 0 <= i < |ps| && Lower(ps[i].key) == Lower(k)
  {
    request := new HttpRequest(Join(ps, plus), [], false);
    ParseJoined(ps, plus);
    request.InitQueryParam();
    forall i | 0 <= i < |ps|
      ensures Canonical(ps[i].key) == Lower(ps[i].key)
    {
      assert ps[i] in ps;
      CanonicalIsLower(ps[i].key);
    }
    forall k
      ensures k in request.params <==> Occurs(ps, k)
    {
      FirstOccurrences(map[], ps, k);
    }
    forall k, i: nat | IsFirst(ps, k, i)
      ensures k in request.params && request.params[k] == ps[i]
    {
      FirstOccurrences(map[], ps, k);
    }
  }
}
