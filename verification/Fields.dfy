/** Typed fields written to and read from a `ByteArray` (server_frame/bytearray.cc). `host` is the byte order
    of the machine, `YGW_BYTE_ORDER`: true for little endian. */
module Fields {
  import opened Bytes
  import opened ByteArrays
  import opened Codec

  /** The four prefixes a string length can have. */
  datatype Prefix = F16 | F32 | F64 | Vint

  /** Field types: fixed-width integers, (zigzag) varints, and strings with a length prefix. */
  datatype Kind = Fixed(bytes: nat, signed: bool) | Var(bits: nat, zigzag: bool) | Text(prefix: Prefix)

  datatype Value = Num(n: int) | Str(s: seq<byte>)

  predicate IsKind(kind: Kind) {
    match kind
    case Fixed(bytes, _) => bytes in {1, 2, 4, 8}
    case Var(bits, _) => bits in {32, 64}
    case Text(_) => true
  }

  /** The C++ type of the field admits the value. */
  predicate Fits(kind: Kind, v: Value)
    requires IsKind(kind)
  {
    match kind
    case Fixed(bytes, signed) => v.Num? && InType(v.n, 8 * bytes, signed)
    case Var(bits, zigzag) => v.Num? && InType(v.n, bits, zigzag)
    case Text(_) => v.Str?
  }

  predicate InType(n: int, bits: nat, signed: bool)
    requires bits > 0
  {
    if signed then InSigned(n, bits) else 0 <= n < Pow2(bits)
  }

  function PrefixKind(p: Prefix): (kind: Kind)
    ensures IsKind(kind)
  {
    match p
    case F16 => Fixed(2, false)
    case F32 => Fixed(4, false)
    case F64 => Fixed(8, false)
    case Vint => Var(64, false)
  }

  function PrefixBits(p: Prefix): nat {
    match p
    case F16 => 16
    case F32 => 32
    case F64 => 64
    case Vint => 64
  }

  // ---- what is on the wire ----

  /** The bytes of a number; nothing in it depends on the host. */
  function EncodeNum(kind: Kind, n: int, little: bool): seq<byte>
    requires IsKind(kind) && !kind.Text?
  {
    match kind
    case Fixed(bytes, _) => Layout(Unsigned(n, 8 * bytes), bytes, little)
    case Var(bits, zigzag) => Varint(if zigzag then EncodeZigzag(n, bits) else Unsigned(n, bits))
  }

  /** The bytes of a field. A length the prefix type cannot hold is cut to its low bits. */
  function Encode(kind: Kind, v: Value, little: bool): seq<byte>
    requires IsKind(kind) && Fits(kind, v)
  {
    match kind
    case Text(p) => EncodeNum(PrefixKind(p), Unsigned(|v.s|, PrefixBits(p)), little) + v.s
    case _ => EncodeNum(kind, v.n, little)
  }

  /** The length in front of a string: two, four or eight bytes of it in the array's order, or a varint. */
  lemma PrefixOfText(s: seq<byte>, little: bool)
    ensures Encode(Text(F16), Str(s), little) == Layout(|s| % 0x1_0000, 2, little) + s
    ensures Encode(Text(F32), Str(s), little) == Layout(|s| % 0x1_0000_0000, 4, little) + s
    ensures Encode(Text(F64), Str(s), little) == Layout(|s| % 0x1_0000_0000_0000_0000, 8, little) + s
    ensures Encode(Text(Vint), Str(s), little) == Varint(|s| % 0x1_0000_0000_0000_0000) + s
  {
    PowersOfTwo();
    hide Pow2;
    hide Layout;
    hide Varint;
    Twice(|s|, 16);
    Twice(|s|, 32);
    Twice(|s|, 64);
    hide Unsigned;
  }

  /** What is cut to a type stays as it is. */
  lemma Twice(n: nat, bits: nat)
    ensures Unsigned(Unsigned(n, bits), bits) == Unsigned(n, bits) == n % Pow2(bits)
  {
    UnsignedNear(Unsigned(n, bits), bits);
  }

  lemma PowersOfTwo()
    ensures Pow2(16) == 0x1_0000 && Pow2(32) == 0x1_0000_0000 && Pow2(64) == 0x1_0000_0000_0000_0000
  {
    Pow2Steps(0);
    Pow2Steps(8);
    Pow2Steps(16);
    Pow2Steps(24);
    Pow2Steps(32);
    Pow2Steps(40);
    Pow2Steps(48);
    Pow2Steps(56);
  }

  /** The result of a read and the number of bytes it consumed, failing or not. */
  datatype Decoded = Got(v: Value, used: nat) | Failed(out: Outcome, used: nat)

  /** Reading a number off the unread data `s`. */
  function DecodeNum(kind: Kind, s: seq<byte>, little: bool): (d: Decoded)
    requires IsKind(kind) && !kind.Text?
    ensures d.used <= |s|
    ensures d.Got? ==> d.v.Num?
    ensures d.Got? && (kind.Fixed? ==> !kind.signed) && (kind.Var? ==> !kind.zigzag) ==> d.v.n >= 0
  {
    match kind
    case Fixed(bytes, signed) =>
      if bytes > |s| then
        Failed(OutOfRange, 0)
      else
        FromLayoutBound(s[..bytes], little);
        var u := FromLayout(s[..bytes], little);
        Got(Num(if signed then Signed(u, 8 * bytes) else u), bytes)
    case Var(bits, zigzag) =>
      ReadVarintBound(s, 0, bits, 0);
      match ReadVarint(s, 0, bits, 0)
      case Short(used) => Failed(OutOfRange, used)
      case Value(u, used) => Got(Num(if zigzag then DecodeZigzag(u, bits) else u), used)
  }

  /** Reading the `n` bytes of a string, with `room` bytes up to the end of the chain: the bytes of an empty
      string are read too, and at the end of the chain that read follows the null cursor. */
  function DecodeBytes(n: nat, s: seq<byte>, room: nat): (d: Decoded)
    ensures d.used <= |s|
  {
    if n > |s| then Failed(OutOfRange, 0)
    else if room == 0 then Failed(NullCursor, 0)
    else Got(Str(s[..n]), n)
  }

  /** Reading a field off the unread data `s`, with `room` bytes up to the end of the chain. */
  function Decode(kind: Kind, s: seq<byte>, room: nat, little: bool): (d: Decoded)
    requires IsKind(kind) && |s| <= room
    ensures d.used <= |s|
  {
    match kind
    case Text(p) =>
      var d := DecodeNum(PrefixKind(p), s, little);
      if d.Failed? then d
      else var e := DecodeBytes(d.v.n, s[d.used..], room - d.used); e.(used := e.used + d.used)
    case _ => DecodeNum(kind, s, little)
  }

  lemma FromLayoutBound(s: seq<byte>, little: bool)
    ensures FromLayout(s, little) < Pow2(8 * |s|)
  {
    FromLittleBound(s);
    FromLittleBound(Reverse(s));
  }

  // ---- the writers and readers ----

  /** `WriteFint8` to `WriteFuint64`: swapped when the array's order is not the host's, then stored as the host does. */
  method WriteFixed(ba: ByteArray, n: int, bytes: nat, host: bool)
    requires ba.Valid()
    modifies ba.repr
    ensures ba.Valid() && fresh(ba.repr - old(ba.repr))
    ensures ba.Wrote(Layout(Unsigned(n, 8 * bytes), bytes, ba.littleEndian)) && ba.GrewTight()
    ensures var mem := ba.flat[old(ba.position)..ba.position];
      |mem| == bytes && StoredAs(mem, Unsigned(n, 8 * bytes), ba.littleEndian)
  {
    LayoutBytes(Unsigned(n, 8 * bytes), bytes, ba.littleEndian);
    hide StoredAs;
    hide Layout;
    hide Byteswap;
    hide Unsigned;
    var value := Unsigned(n, 8 * bytes);
    if ba.littleEndian != host {
      SwapIsOtherOrder(value, bytes, host);
      value := Byteswap(value, bytes);
    }
    ba.Write(Layout(value, bytes, host));
  }

  /** The collecting loop of `WriteUint32` and `WriteUint64`; `tmp` is not overrun. */
  method CollectVarint(tmp: array<byte>, v: nat) returns (i: nat)
    requires |Varint(v)| <= tmp.Length
    modifies tmp
    ensures i <= tmp.Length && tmp[..i] == Varint(v)
  {
    i := 0;
    var value := v;
    while value >= 0x80
      invariant i + |Varint(value)| <= tmp.Length
      invariant tmp[..i] + Varint(value) == Varint(v)
      decreases value
    {
      ghost var before := tmp[..i];
      tmp[i] := value % 0x80 + 0x80;
      i := i + 1;
      value := value / 0x80;
      assert tmp[..i] == before + [tmp[i - 1]];
    }
    tmp[i] := value;
    i := i + 1;
  }

  /** `WriteUint32` and `WriteUint64`, with five and ten bytes on the stack. */
  method WriteVarint(ba: ByteArray, v: nat, bits: nat)
    requires ba.Valid() && bits in {32, 64} && v < Pow2(bits)
    modifies ba.repr
    ensures ba.Valid() && fresh(ba.repr - old(ba.repr))
    ensures ba.Wrote(Varint(v)) && ba.GrewTight()
  {
    VarintFits(v, bits);
    var tmp := new byte[if bits == 32 then 5 else 10];
    var i := CollectVarint(tmp, v);
    ba.Write(tmp[..i]);
  }

  method WriteNum(ba: ByteArray, kind: Kind, n: int, host: bool)
    requires ba.Valid() && IsKind(kind) && !kind.Text?
    modifies ba.repr
    ensures ba.Valid() && fresh(ba.repr - old(ba.repr))
    ensures ba.Wrote(EncodeNum(kind, n, ba.littleEndian)) && ba.GrewTight()
  {
    match kind {
      case Fixed(bytes, _) => WriteFixed(ba, n, bytes, host);
      case Var(bits, zigzag) => WriteVarint(ba, if zigzag then EncodeZigzag(n, bits) else Unsigned(n, bits), bits);
    }
  }

  /** The strings are written as their length, converted to the prefix type, and their bytes. */
  method WriteField(ba: ByteArray, kind: Kind, v: Value, host: bool)
    requires ba.Valid() && IsKind(kind) && Fits(kind, v)
    modifies ba.repr
    ensures ba.Valid() && fresh(ba.repr - old(ba.repr))
    ensures ba.Wrote(Encode(kind, v, ba.littleEndian)) && ba.GrewTight()
  {
    if kind.Text? {
      WriteNum(ba, PrefixKind(kind.prefix), Unsigned(|v.s|, PrefixBits(kind.prefix)), host);
      ghost var f, p, z := ba.flat, ba.position, ba.size;
      ba.Write(v.s);
      EffectCompose(old(ba.flat), old(ba.position), old(ba.size), f, p, z, ba.flat, ba.position, ba.size,
        EncodeNum(PrefixKind(kind.prefix), Unsigned(|v.s|, PrefixBits(kind.prefix)), ba.littleEndian), v.s);
    } else {
      WriteNum(ba, kind, v.n, host);
    }
  }

  /** What a reader leaves: the data untouched and the cursor `used` bytes on. */
  twostate predicate Consumed(ba: ByteArray, used: nat)
    reads ba
  {
    ba.SameChain() && ba.flat == old(ba.flat) && ba.position == old(ba.position) + used
  }

  /** `ReadFint8` to `ReadFuint64`. */
  method ReadFixed(ba: ByteArray, bytes: nat, signed: bool, host: bool) returns (d: Decoded)
    requires ba.Valid() && bytes in {1, 2, 4, 8}
    modifies ba`position, ba`cur, ba`k, ba`npos
    ensures ba.Valid()
    ensures d == DecodeNum(Fixed(bytes, signed), old(ba.Rest()), ba.littleEndian)
    ensures Consumed(ba, d.used)
    ensures d.Got? ==>
      && InType(d.v.n, 8 * bytes, signed)
      && StoredAs(old(ba.Rest())[..bytes], Unsigned(d.v.n, 8 * bytes), ba.littleEndian)
  {
    var out, mem := ba.Read(bytes);
    if out != Done {
      return Failed(out, 0);
    }
    var u := FromLayout(mem, host);
    if ba.littleEndian != host {
      SwapOfRead(mem, host);
      u := Byteswap(u, bytes);
    }
    FromLayoutBound(mem, ba.littleEndian);
    FromLayoutBytes(mem, ba.littleEndian);
    hide StoredAs;
    UnsignedSigned(u, 8 * bytes);
    UnsignedNear(u, 8 * bytes);
    d := Got(Num(if signed then Signed(u, 8 * bytes) else u), bytes);
  }

  /** `ReadUint32` and `ReadUint64`: byte by byte until one without continuation bit, or the type is full. */
  method ReadVarintLoop(ba: ByteArray, bits: nat) returns (r: VarintResult)
    requires ba.Valid()
    modifies ba`position, ba`cur, ba`k, ba`npos
    ensures ba.Valid()
    ensures r == ReadVarint(old(ba.Rest()), 0, bits, 0)
    ensures Consumed(ba, r.used)
  {
    hide ByteArray.Cursor;
    var result, i, used := 0, 0, 0;
    while i < bits
      invariant i >= 0 && result >= 0 && used >= 0
      invariant ba.Valid() && Consumed(ba, used)
      invariant ReadVarint(old(ba.Rest()), 0, bits, 0) == More(ReadVarint(ba.Rest(), i, bits, result), used)
    {
      ghost var rest := ba.Rest();
      var out, mem := ba.Read(1);
      if out != Done {
        return Short(used);
      }
      used := used + 1;
      assert mem[0] == rest[0] && ba.Rest() == rest[1..];
      result := result + Unsigned(mem[0] % 0x80 * Pow2(i), bits);
      if mem[0] < 0x80 {
        return Value(result, used);
      }
      i := i + 7;
    }
    r := Value(result, used);
  }

  method ReadNum(ba: ByteArray, kind: Kind, host: bool) returns (d: Decoded)
    requires ba.Valid() && IsKind(kind) && !kind.Text?
    modifies ba`position, ba`cur, ba`k, ba`npos
    ensures ba.Valid()
    ensures d == DecodeNum(kind, old(ba.Rest()), ba.littleEndian)
    ensures Consumed(ba, d.used)
  {
    match kind {
      case Fixed(bytes, signed) =>
        d := ReadFixed(ba, bytes, signed, host);
      case Var(bits, zigzag) =>
        ReadVarintBound(ba.Rest(), 0, bits, 0);
        var r := ReadVarintLoop(ba, bits);
        match r {
          case Short(used) => d := Failed(OutOfRange, used);
          case Value(u, used) =>
            d := Got(Num(if zigzag then DecodeZigzag(u, bits) else u), used);
        }
    }
  }

  /** `buff.resize(len); Read(&buff[0], len)`. */
  method ReadBytes(ba: ByteArray, n: nat) returns (d: Decoded)
    requires ba.Valid()
    modifies ba`position, ba`cur, ba`k, ba`npos
    ensures ba.Valid()
    ensures d == DecodeBytes(n, old(ba.Rest()), ba.capacity - old(ba.position))
    ensures Consumed(ba, d.used)
  {
    var out, buf := ba.Read(n);
    d := if out == Done then Got(Str(buf), n) else Failed(out, 0);
  }

  method ReadField(ba: ByteArray, kind: Kind, host: bool) returns (d: Decoded)
    requires ba.Valid() && IsKind(kind)
    modifies ba`position, ba`cur, ba`k, ba`npos
    ensures ba.Valid()
    ensures d == Decode(kind, old(ba.Rest()), ba.capacity - old(ba.position), ba.littleEndian)
    ensures Consumed(ba, d.used)
  {
    hide ByteArray.Cursor;
    hide DecodeNum;
    hide DecodeBytes;
    if kind.Text? {
      d := ReadNum(ba, PrefixKind(kind.prefix), host);
      if d.Got? {
        var used := d.used;
        assert ba.Rest() == old(ba.Rest())[used..];
        d := ReadBytes(ba, d.v.n);
        d := d.(used := d.used + used);
      }
    } else {
      d := ReadNum(ba, kind, host);
    }
  }
}
