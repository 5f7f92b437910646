/** The value codecs on bytes: byte order, base-128 varints and zigzag
    (server_frame/bytearray.cc, server_frame/endian.h). */
module Codec {
  import opened Bytes

  function Pow2(n: nat): (p: nat)
    ensures p > 0
  {
    if n == 0 then 1 else 2 * Pow2(n - 1)
  }

  lemma {:induction false} Pow2Monotone(m: nat, n: nat)
    requires m <= n
    ensures Pow2(m) <= Pow2(n)
  {
    if m < n {
      Pow2Monotone(m, n - 1);
    }
  }

  /** Seven and eight more bits. */
  lemma Pow2Steps(n: nat)
    ensures Pow2(n + 7) == 128 * Pow2(n)
    ensures Pow2(n + 8) == 256 * Pow2(n)
  {
    assert Pow2(n + 2) == 4 * Pow2(n);
    assert Pow2(n + 4) == 4 * Pow2(n + 2);
    assert Pow2(n + 6) == 4 * Pow2(n + 4);
  }

  /** The conversion of `x` to an unsigned type of `bits` bits. */
  function Unsigned(x: int, bits: nat): (u: nat)
    ensures u < Pow2(bits)
  {
    x % Pow2(bits)
  }

  /** The conversion of the unsigned `u` to the signed type of the same width, in two's complement. */
  function Signed(u: nat, bits: nat): int
    requires bits > 0 && u < Pow2(bits)
  {
    if u < Pow2(bits - 1) then u else u - Pow2(bits)
  }

  predicate InSigned(v: int, bits: nat)
    requires bits > 0
  {
    0 - Pow2(bits - 1) <= v < Pow2(bits - 1)
  }

  /** Values within one modulus of the range convert by adding it at most once. */
  lemma UnsignedNear(x: int, bits: nat)
    requires 0 - Pow2(bits) <= x < Pow2(bits)
    ensures Unsigned(x, bits) == if x < 0 then x + Pow2(bits) else x
  {
    var m := Pow2(bits);
    if x < 0 {
      DivModUnique(x, m, -1, x + m);
    } else {
      DivModUnique(x, m, 0, x);
    }
  }

  lemma SignedUnsigned(v: int, bits: nat)
    requires bits > 0 && InSigned(v, bits)
    ensures Signed(Unsigned(v, bits), bits) == v
  {
    assert Pow2(bits) == 2 * Pow2(bits - 1);
    UnsignedNear(v, bits);
  }

  lemma UnsignedSigned(u: nat, bits: nat)
    requires bits > 0 && u < Pow2(bits)
    ensures Unsigned(Signed(u, bits), bits) == u && InSigned(Signed(u, bits), bits)
  {
    assert Pow2(bits) == 2 * Pow2(bits - 1);
    UnsignedNear(Signed(u, bits), bits);
  }

  // ---- byte order ----

  function Reverse(s: seq<byte>): (r: seq<byte>)
    ensures |r| == |s|
  {
    if s == [] then [] else Reverse(s[1..]) + [s[0]]
  }

  lemma {:induction false} ReverseAppend(s: seq<byte>, b: byte)
    ensures Reverse(s + [b]) == [b] + Reverse(s)
  {
    if s != [] {
      ReverseAppend(s[1..], b);
      assert (s + [b])[1..] == s[1..] + [b];
    }
  }

  lemma {:induction false} ReverseTwice(s: seq<byte>)
    ensures Reverse(Reverse(s)) == s
  {
    if s != [] {
      ReverseTwice(s[1..]);
      ReverseAppend(Reverse(s[1..]), s[0]);
    }
  }

  /** The `n` low bytes of `v`, least significant first. */
  function Little(v: nat, n: nat): (s: seq<byte>)
    ensures |s| == n
  {
    if n == 0 then [] else [v % 256] + Little(v / 256, n - 1)
  }

  function FromLittle(s: seq<byte>): nat {
    if s == [] then 0 else s[0] + 256 * FromLittle(s[1..])
  }

  lemma {:induction false} FromLittleBound(s: seq<byte>)
    ensures FromLittle(s) < Pow2(8 * |s|)
  {
    if s != [] {
      FromLittleBound(s[1..]);
      Pow2Steps(8 * |s[1..]|);
    }
  }

  lemma {:induction false} LittleRoundTrip(v: nat, n: nat)
    requires v < Pow2(8 * n)
    ensures FromLittle(Little(v, n)) == v
  {
    if n > 0 {
      Pow2Steps(8 * (n - 1));
      LittleRoundTrip(v / 256, n - 1);
    }
  }

  lemma {:induction false} LittleOfFrom(s: seq<byte>)
    ensures Little(FromLittle(s), |s|) == s
  {
    if s != [] {
      LittleOfFrom(s[1..]);
      DivModUnique(FromLittle(s), 256, FromLittle(s[1..]), s[0]);
    }
  }

  /** An `n`-byte integer laid out in memory of the given byte order. */
  function Layout(v: nat, n: nat, little: bool): (s: seq<byte>)
    ensures |s| == n
  {
    if little then Little(v, n) else Reverse(Little(v, n))
  }

  /** The integer memory holds. */
  function FromLayout(s: seq<byte>, little: bool): nat {
    if little then FromLittle(s) else FromLittle(Reverse(s))
  }

  /** `Byteswap`: the integer whose bytes are those of `v` in reverse. */
  function Byteswap(v: nat, n: nat): nat {
    FromLittle(Reverse(Little(v, n)))
  }

  lemma LayoutRoundTrip(v: nat, n: nat, little: bool)
    requires v < Pow2(8 * n)
    ensures FromLayout(Layout(v, n, little), little) == v
  {
    LittleRoundTrip(v, n);
    ReverseTwice(Little(v, n));
  }

  lemma LayoutOfFrom(s: seq<byte>, little: bool)
    ensures Layout(FromLayout(s, little), |s|, little) == s
  {
    LittleOfFrom(s);
    LittleOfFrom(Reverse(s));
    ReverseTwice(s);
  }

  /** A division in two steps, the first by seven or eight bits. */
  lemma DivTwice(v: nat, p: nat)
    requires p > 0
    ensures v / 128 / p == v / (128 * p) && v / 256 / p == v / (256 * p)
  {
    DivSteps(v, 128, v / 128, p);
    DivSteps(v, 256, v / 256, p);
  }

  lemma DivSteps(v: nat, a: nat, w: nat, p: nat)
    requires (a == 128 || a == 256) && a * w <= v < a * w + a && p > 0
    ensures w / p == v / (a * p)
  {
    var q, r := w / p, w % p;
    assert w == q * p + r;
    if a == 128 {
      assert q * (128 * p) == 128 * (q * p);
      DivModUnique(v, 128 * p, q, v - 128 * (q * p));
    } else {
      assert q * (256 * p) == 256 * (q * p);
      DivModUnique(v, 256 * p, q, v - 256 * (q * p));
    }
  }

  lemma {:induction false} LittleAt(v: nat, n: nat, i: nat)
    requires i < n
    ensures Little(v, n)[i] == v / Pow2(8 * i) % 256
  {
    if i == 0 {
      assert Pow2(0) == 1;
    } else {
      Pow2Steps(8 * (i - 1));
      assert Pow2(8 * i) == 256 * Pow2(8 * (i - 1));
      hide Pow2;
      LittleAt(v / 256, n - 1, i - 1);
      DivTwice(v, Pow2(8 * (i - 1)));
    }
  }

  lemma {:induction false} ReverseAt(s: seq<byte>, i: nat)
    requires i < |s|
    ensures Reverse(s)[i] == s[|s| - 1 - i]
  {
    if i < |s| - 1 {
      ReverseAt(s[1..], i);
    }
  }

  /** Little-endian memory begins with the lowest byte of the integer, big-endian memory with the highest. */
  ghost predicate StoredAs(s: seq<byte>, v: nat, little: bool) {
    if little then forall i :: 0 <= i < |s| ==> s[i] == v / Pow2(8 * i) % 256
    else forall i :: 0 <= i < |s| ==> s[i] == v / Pow2(8 * (|s| - 1 - i)) % 256
  }

  lemma LayoutBytes(v: nat, n: nat, little: bool)
    ensures StoredAs(Layout(v, n, little), v, little)
  {
    hide Pow2;
    hide Little;
    var s := Layout(v, n, little);
    forall i | 0 <= i < n
      ensures s[i] == v / Pow2(8 * if little then i else n - 1 - i) % 256
    {
      if little {
        LittleAt(v, n, i);
      } else {
        ReverseAt(Little(v, n), i);
        LittleAt(v, n, n - 1 - i);
      }
    }
  }

  lemma OneInTwoBytes()
    ensures Layout(1, 2, true) == [1, 0] && Layout(1, 2, false) == [0, 1]
  {
    assert Little(1, 2) == [1] + Little(0, 1);
    ReverseAppend([1], 0);
    assert Reverse([1]) == [] + [1];
  }

  /** The same of the integer that is read. */
  lemma FromLayoutBytes(s: seq<byte>, little: bool)
    ensures StoredAs(s, FromLayout(s, little), little)
  {
    LayoutBytes(FromLayout(s, little), |s|, little);
    LayoutOfFrom(s, little);
  }

  /** Swapping and storing on one kind of host is storing on the other kind: the stored bytes do not depend on it. */
  lemma SwapIsOtherOrder(v: nat, n: nat, host: bool)
    ensures Layout(Byteswap(v, n), n, host) == Layout(v, n, !host)
  {
    LittleOfFrom(Reverse(Little(v, n)));
    ReverseTwice(Little(v, n));
  }

  lemma SwapOfRead(s: seq<byte>, host: bool)
    ensures Byteswap(FromLayout(s, host), |s|) == FromLayout(s, !host)
  {
    LittleOfFrom(s);
    LittleOfFrom(Reverse(s));
    ReverseTwice(s);
  }

  // ---- base-128 varints ----

  /** Seven bits a byte, least significant first, the top bit marking all bytes but the last. */
  function Varint(v: nat): (s: seq<byte>)
    ensures |s| >= 1
  {
    if v < 128 then [v] else [v % 128 + 128] + Varint(v / 128)
  }

  /** A varint below 2^(7n) has at most `n` bytes. */
  lemma {:induction false} VarintLength(v: nat, n: nat)
    requires n >= 1 && v < Pow2(7 * n)
    ensures |Varint(v)| <= n
  {
    if v >= 128 {
      Pow2Steps(7 * (n - 1));
      Pow2Steps(0);
      VarintLength(v / 128, n - 1);
    }
  }

  /** At most 5 bytes for 32 bits, at most 10 for 64. */
  lemma VarintFits(v: nat, bits: nat)
    requires bits in {32, 64} && v < Pow2(bits)
    ensures |Varint(v)| <= if bits == 32 then 5 else 10
  {
    if bits == 32 {
      Pow2Monotone(32, 35);
      VarintLength(v, 5);
    } else {
      Pow2Monotone(64, 70);
      VarintLength(v, 10);
    }
  }

  /** Every byte but the last carries the continuation bit. */
  lemma {:induction false} VarintContinuation(v: nat)
    ensures var s := Varint(v);
      s[|s| - 1] < 128 && forall i :: 0 <= i < |s| - 1 ==> s[i] >= 128
  {
    if v >= 128 {
      VarintContinuation(v / 128);
      var s, t := Varint(v), Varint(v / 128);
      forall i | 0 <= i < |s| - 1
        ensures s[i] >= 128
      {
        assert i > 0 ==> s[i] == t[i - 1];
      }
    }
  }

  lemma {:induction false} VarintAt(v: nat, i: nat)
    requires i < |Varint(v)|
    ensures Varint(v)[i] % 128 == v / Pow2(7 * i) % 128
  {
    if i == 0 {
      assert Pow2(0) == 1;
    } else {
      Pow2Steps(7 * (i - 1));
      assert Pow2(7 * i) == 128 * Pow2(7 * (i - 1));
      hide Pow2;
      VarintAt(v / 128, i - 1);
      DivTwice(v, Pow2(7 * (i - 1)));
      assert Varint(v)[i] == Varint(v / 128)[i - 1];
    }
  }

  lemma {:induction false} VarintSize(v: nat)
    ensures var n := |Varint(v)|; v < Pow2(7 * n) && (n > 1 ==> v >= Pow2(7 * (n - 1)))
  {
    Pow2Steps(0);
    if v >= 128 {
      VarintSize(v / 128);
      var n := |Varint(v / 128)|;
      Pow2Steps(7 * n);
      Pow2Steps(7 * (n - 1));
    }
  }

  /** Byte `i` carries bits 7i to 7i + 6, and there are no more bytes than the value needs. */
  lemma VarintGroups(v: nat)
    ensures var s := Varint(v);
      && (forall i :: 0 <= i < |s| ==> s[i] % 128 == v / Pow2(7 * i) % 128)
      && v < Pow2(7 * |s|) && (|s| > 1 ==> v >= Pow2(7 * (|s| - 1)))
  {
    VarintSize(v);
    hide Varint;
    hide Pow2;
    forall i | 0 <= i < |Varint(v)|
      ensures Varint(v)[i] % 128 == v / Pow2(7 * i) % 128
    {
      VarintAt(v, i);
    }
  }

  /** No code is a proper prefix of another: equal up to the shorter length, two codes are one code. */
  lemma VarintPrefixFree(v: nat, w: nat)
    requires Varint(v) <= Varint(w)
    ensures v == w
  {
    VarintContinuation(v);
    VarintContinuation(w);
    var s, t := Varint(v), Varint(w);
    assert s[|s| - 1] == t[|s| - 1];
    assert s == t;
    VarintInjective(v, w);
  }

  lemma {:induction false} VarintInjective(v: nat, w: nat)
    requires Varint(v) == Varint(w)
    ensures v == w
  {
    var s, t := Varint(v), Varint(w);
    assert s[0] == t[0];
    if v >= 128 {
      assert s[1..] == Varint(v / 128) && t[1..] == Varint(w / 128);
      VarintInjective(v / 128, w / 128);
    }
  }

  /** How a varint read ends: with a value, or short of bytes; and how many bytes it consumed. */
  datatype VarintResult = Value(v: nat, used: nat) | Short(used: nat)

  /** `r` after `m` bytes consumed before it. */
  function More(r: VarintResult, m: nat): VarintResult {
    r.(used := r.used + m)
  }

  /** The read loop from shift `i` on, with `acc` gathered from the lower bits. The group of seven bits is
      shifted in a `bits`-bit type; or-ing it in is adding it, the two having no bit in common (`GroupAbove`). */
  function ReadVarint(s: seq<byte>, i: nat, bits: nat, acc: nat): (r: VarintResult)
    ensures r.used <= |s|
    decreases |s|
  {
    if i >= bits then Value(acc, 0)
    else if s == [] then Short(0)
    else
      var next := acc + Unsigned(s[0] % 128 * Pow2(i), bits);
      if s[0] < 128 then Value(next, 1) else More(ReadVarint(s[1..], i + 7, bits, next), 1)
  }

  lemma {:induction false} Pow2Add(m: nat, n: nat)
    ensures Pow2(m + n) == Pow2(m) * Pow2(n)
  {
    if n > 0 {
      Pow2Add(m, n - 1);
      assert Pow2(m + n) == 2 * Pow2(m + n - 1);
    }
  }

  /** A shifted group has no bits below the shift, also when the type cuts off its upper ones. */
  lemma GroupAbove(x: nat, i: nat, bits: nat)
    requires i <= bits
    ensures Unsigned(x * Pow2(i), bits) == x % Pow2(bits - i) * Pow2(i) <= Pow2(bits) - Pow2(i)
  {
    Pow2Add(bits - i, i);
    ModOfProduct(x, Pow2(i), Pow2(bits - i));
  }

  lemma ModOfProduct(x: nat, p: nat, m: nat)
    requires p > 0 && m > 0
    ensures m * p > 0 && x * p % (m * p) == x % m * p <= m * p - p
  {
    var q, r := x / m, x % m;
    Distribute(q, m, r, p);
    Distribute(m - 1 - r, 1, r + 1, p);
    assert m * p == (m - 1 - r) * p + (r + 1) * p;
    assert (r + 1) * p == r * p + p;
    assert (m - 1 - r) * p >= 0;
    DivModUnique(x * p, m * p, q, r * p);
  }

  lemma Distribute(q: nat, m: nat, r: nat, p: nat)
    ensures (q * m + r) * p == q * (m * p) + r * p
  {
    assert q * m * p == q * (m * p);
  }

  /** What is gathered fits the type. */
  lemma {:induction false} ReadVarintBound(s: seq<byte>, i: nat, bits: nat, acc: nat)
    requires acc < Pow2(if i < bits then i else bits)
    ensures ReadVarint(s, i, bits, acc).Value? ==> ReadVarint(s, i, bits, acc).v < Pow2(bits)
    decreases |s|
  {
    if i < bits && s != [] {
      GroupAbove(s[0] % 128, i, bits);
      var next := acc + Unsigned(s[0] % 128 * Pow2(i), bits);
      if s[0] >= 128 {
        if i + 7 < bits {
          Pow2Steps(i);
          UnsignedNearGroup(s[0] % 128, i, bits);
        }
        ReadVarintBound(s[1..], i + 7, bits, next);
      }
    }
  }

  lemma UnsignedNearGroup(x: nat, i: nat, bits: nat)
    requires x < 128 && i + 7 < bits
    ensures Unsigned(x * Pow2(i), bits) == x * Pow2(i) <= 127 * Pow2(i)
  {
    Pow2Steps(i);
    Pow2Monotone(i + 7, bits);
    assert (127 - x) * Pow2(i) >= 0;
    UnsignedNear(x * Pow2(i), bits);
  }

  lemma {:induction false} ReadVarintBack(v: nat, rest: seq<byte>, i: nat, bits: nat, acc: nat)
    requires i < bits && v * Pow2(i) < Pow2(bits)
    ensures ReadVarint(Varint(v) + rest, i, bits, acc) == Value(acc + v * Pow2(i), |Varint(v)|)
    decreases v
  {
    var p, t := Pow2(i), Varint(v) + rest;
    if v < 128 {
      UnsignedNear(v * p, bits);
      assert t[0] == v;
    } else {
      var low, high := v % 128, v / 128;
      Regroup(v, p);
      Pow2Steps(i);
      if i + 7 >= bits {
        Pow2Monotone(bits, i + 7);
        assert false;
      }
      UnsignedNear(low * p, bits);
      assert t[0] % 128 == low;
      assert t[1..] == Varint(high) + rest;
      ReadVarintBack(high, rest, i + 7, bits, acc + low * p);
    }
  }

  /** `v` weighted by `p` is its low seven bits weighted by `p` and the others by `128 * p`. */
  lemma Regroup(v: nat, p: nat)
    ensures v % 128 * p + v / 128 * (128 * p) == v * p
    ensures v % 128 * p >= 0
    ensures v >= 128 ==> v / 128 * (128 * p) >= 128 * p
  {
    var low, high := v % 128, v / 128;
    assert v == low + 128 * high;
    assert v * p == low * p + 128 * high * p;
    assert high * (128 * p) == 128 * high * p;
    if v >= 128 {
      assert high * (128 * p) == (high - 1) * (128 * p) + 128 * p;
      assert (high - 1) * (128 * p) >= 0;
    }
  }

  /** Reading back a written varint gives its value and consumes exactly its bytes. */
  lemma {:induction false} VarintRoundTrip(v: nat, rest: seq<byte>, bits: nat)
    requires bits > 0 && v < Pow2(bits)
    ensures ReadVarint(Varint(v) + rest, 0, bits, 0) == Value(v, |Varint(v)|)
  {
    ReadVarintBack(v, rest, 0, bits, 0);
  }

  /** Groups of seven bits, the lowest first. */
  function Groups(s: seq<byte>): nat {
    if s == [] then 0 else s[0] % 128 + 128 * Groups(s[1..])
  }

  /** From shift `i` on, reading stops behind `n` bytes: at the first without continuation bit, or when the type is
      full. */
  ghost predicate StopsBehind(s: seq<byte>, n: nat, i: nat, bits: nat) {
    && 0 < n <= |s| && i + 7 * (n - 1) < bits
    && (forall j :: 0 <= j < n - 1 ==> s[j] >= 128)
    && (s[n - 1] < 128 || i + 7 * n >= bits)
  }

  lemma {:induction false} ReadAnyFrom(s: seq<byte>, n: nat, i: nat, bits: nat, acc: nat)
    requires StopsBehind(s, n, i, bits) && acc < Pow2(i)
    ensures ReadVarint(s, i, bits, acc) == Value((acc + Groups(s[..n]) * Pow2(i)) % Pow2(bits), n)
    decreases n
  {
    var g, p, m := s[0] % 128, Pow2(i), Pow2(bits);
    assert s[..n][0] == s[0] && s[..n][1..] == s[1..][..n - 1];
    if n == 1 {
      assert Groups(s[..1]) == g;
      GroupAbove(g, i, bits);
      WrapSum(acc, g * p, m);
    } else {
      UnsignedNearGroup(g, i, bits);
      Pow2Steps(i);
      hide Pow2;
      var h := Groups(s[1..][..n - 1]);
      Distribute(h, 128, g, p);
      ReadAnyFrom(s[1..], n - 1, i + 7, bits, acc + g * p);
    }
  }

  lemma WrapSum(a: nat, x: nat, m: nat)
    requires m > 0 && a + x % m < m
    ensures (a + x) % m == a + x % m
  {
    DivModUnique(a + x, m, x / m, a + x % m);
  }

  /** Whatever is read as a varint, written so or not: the groups up to the first byte without continuation bit, or up
      to those that fill the type, cut to the type. */
  lemma ReadAnyVarint(s: seq<byte>, n: nat, bits: nat)
    requires StopsBehind(s, n, 0, bits)
    ensures ReadVarint(s, 0, bits, 0) == Value(Groups(s[..n]) % Pow2(bits), n)
  {
    ReadAnyFrom(s, n, 0, bits, 0);
    assert Pow2(0) == 1;
  }

  /** And data that ends before that is too short. */
  lemma {:induction false} ReadShort(s: seq<byte>, i: nat, bits: nat, acc: nat)
    requires i + 7 * |s| < bits && forall j :: 0 <= j < |s| ==> s[j] >= 128
    ensures ReadVarint(s, i, bits, acc) == Short(|s|)
    decreases |s|
  {
    if s != [] {
      ReadShort(s[1..], i + 7, bits, acc + Unsigned(s[0] % 128 * Pow2(i), bits));
    }
  }

  // ---- zigzag ----

  /** `EncodeZigzag32` and `EncodeZigzag64`, every operation wrapping as in two's complement. */
  function EncodeZigzag(v: int, bits: nat): (u: nat)
    ensures u < Pow2(bits)
  {
    if v < 0 then Unsigned(Unsigned(-v, bits) * 2 - 1, bits) else Unsigned(v * 2, bits)
  }

  /** `(v >> 1) ^ -(v & 1)`: exclusive or with zero or with all ones, the complement. */
  function DecodeZigzag(u: nat, bits: nat): int
    requires bits > 0 && u < Pow2(bits)
  {
    Signed(if u % 2 == 0 then u / 2 else Pow2(bits) - 1 - u / 2, bits)
  }

  /** Zigzag interleaves: small absolute values get small codes. */
  lemma {:induction false} ZigzagMeaning(v: int, bits: nat)
    requires bits > 0 && InSigned(v, bits)
    ensures EncodeZigzag(v, bits) == if v < 0 then -2 * v - 1 else 2 * v
  {
    var m := Pow2(bits);
    assert m == 2 * Pow2(bits - 1);
    UnsignedNear(-v, bits);
    if v < 0 {
      UnsignedNear(-v * 2 - 1, bits);
    } else {
      UnsignedNear(v * 2, bits);
    }
  }

  lemma {:induction false} ZigzagRoundTrip(v: int, bits: nat)
    requires bits > 0 && InSigned(v, bits)
    ensures DecodeZigzag(EncodeZigzag(v, bits), bits) == v
  {
    ZigzagMeaning(v, bits);
    assert Pow2(bits) == 2 * Pow2(bits - 1);
  }

  lemma {:induction false} ZigzagOnto(u: nat, bits: nat)
    requires bits > 0 && u < Pow2(bits)
    ensures InSigned(DecodeZigzag(u, bits), bits)
    ensures EncodeZigzag(DecodeZigzag(u, bits), bits) == u
  {
    assert Pow2(bits) == 2 * Pow2(bits - 1);
    ZigzagMeaning(DecodeZigzag(u, bits), bits);
  }
}
