/** Fixed-size transfers over a socket that moves as little as it likes each time
    (server_frame/stream/stream.cc, server_frame/stream/socket_stream.cc). */
module Streams {
  import opened Bytes
  import opened ByteArrays
  import opened MachineInts

  /** A connected or closed socket. `schedule` is what the kernel decides: the result of each coming call, a
      non-positive one a failure, a positive one the most it moves. */
  class Socket {
    var connected: bool
    var sent: seq<byte>
    var incoming: seq<byte>
    var schedule: seq<int>

    constructor (incoming: seq<byte>, schedule: seq<int>)
      ensures connected && sent == [] && this.incoming == incoming && this.schedule == schedule
    {
      connected, sent := true, [];
      this.incoming, this.schedule := incoming, schedule;
    }

    method Next() returns (r: int)
      modifies this`schedule
      ensures if old(schedule) == [] then r == -1 && schedule == []
              else r == old(schedule)[0] && schedule == old(schedule)[1..]
    {
      if schedule == [] {
        return -1;
      }
      r := schedule[0];
      schedule := schedule[1..];
    }

    /** `sendmsg`: a prefix of the data goes out. */
    method Send(data: seq<byte>) returns (rt: int)
      modifies this`sent, this`schedule
      ensures Called(old(schedule), schedule, |data|, rt)
      ensures rt > 0 ==> sent == old(sent) + data[..rt]
      ensures rt <= 0 ==> sent == old(sent)
    {
      var r := Next();
      rt := if r > |data| then |data| else r;
      if rt > 0 {
        sent := sent + data[..rt];
      }
    }

    /** `recvmsg`: at most `n` of the bytes that have arrived; zero when there are none. */
    method Recv(n: nat) returns (rt: int, data: seq<byte>)
      modifies this`incoming, this`schedule
      ensures Called(old(schedule), schedule, if n < |old(incoming)| then n else |old(incoming)|, rt)
      ensures rt > 0 ==> data == old(incoming)[..rt] && incoming == old(incoming)[rt..]
      ensures rt <= 0 ==> data == [] && incoming == old(incoming)
    {
      var r := Next();
      var most := if n < |incoming| then n else |incoming|;
      rt := if r > most then most else r;
      data := [];
      if rt > 0 {
        data := incoming[..rt];
        incoming := incoming[rt..];
      }
    }
  }

  /** One call: the kernel's decision is taken off the schedule and bounds what is moved. */
  predicate Called(before: seq<int>, after: seq<int>, most: nat, rt: int) {
    if before == [] then after == [] && rt == -1
    else after == before[1..] && rt == if before[0] > most then most else before[0]
  }

  /** The kernel makes progress on each of the next `n` calls. */
  predicate Willing(schedule: seq<int>, n: nat) {
    n <= |schedule| && forall i :: 0 <= i < n ==> schedule[i] > 0
  }

  /** A full transfer is reported by its length only below two gigabytes. */
  lemma ReportedLength(length: nat)
    ensures ToInt(length) == length <==> length < 0x8000_0000
    ensures ToInt(0x8000_0000) < 0 && ToInt(0x1_0000_0000) == 0
  {
  }

  /** How a fixed-size transfer of `length` bytes ends after `moved` of them: complete, or with the failing result. The
      count of bytes left is signed, so of a length that does not fit it nothing is moved. */
  predicate Ended(length: nat, moved: nat, r: int) {
    if length > LONG_MAX then moved == 0 && r == ToInt(length)
    else (moved == length && r == ToInt(length)) || (moved < length && r <= 0)
  }

  /** What is left after `moved` bytes. */
  predicate Left(length: nat, moved: int, left: int) {
    if length > LONG_MAX then left < 0 && moved == 0 else 0 <= left == length - moved
  }

  /** The bytes of the pieces, as the kernel collects them. */
  method Collect(vs: seq<Iovec>) returns (data: seq<byte>)
    requires InBounds(vs)
    ensures data == Gathered(vs)
  {
    if vs == [] {
      data := [];
    } else {
      assert InBounds(vs[1..]);
      data := Collect(vs[1..]);
      data := vs[0].base[vs[0].off..vs[0].off + vs[0].len] + data;
    }
  }

  class SocketStream {
    const socket: Socket

    constructor (socket: Socket)
      ensures this.socket == socket
    {
      this.socket := socket;
    }

    /** `Write(ba, length)`: sends some of the unread data and moves the cursor past it. */
    method Write(ba: ByteArray, length: nat) returns (rt: int)
      requires ba.Valid()
      requires socket !in ba.repr
      modifies ba`position, ba`size, ba`cur, ba`k, ba`npos, socket`sent, socket`schedule
      ensures ba.Valid() && ba.SameChain() && ba.flat == old(ba.flat)
      ensures var most := if length > old(ba.GetReadSize()) then old(ba.GetReadSize()) else length;
        if socket.connected then Called(old(socket.schedule), socket.schedule, most, rt)
        else rt == -1 && socket.schedule == old(socket.schedule)
      ensures rt > 0 ==> ba.position == old(ba.position) + rt
      ensures rt <= 0 ==> ba.position == old(ba.position)
      ensures socket.sent == old(socket.sent) + ba.flat[old(ba.position)..ba.position]
    {
      hide Concat;
      hide Pieces;
      hide Off;
      hide Unshared;
      if !socket.connected {
        return -1;
      }
      var n, vs := ba.GetReadBuffers(length);
      ba.PiecesGathered(ba.k, ba.npos, n);
      var data := Collect(vs);
      rt := socket.Send(data);
      if rt > 0 {
        SliceOfSlice(ba.flat, ba.position, ba.position + n, 0, rt);
        var ok := ba.SetPosition(ba.position + rt);
      }
    }

    /** `Read(ba, length)`: receives into the iovecs of the buffer and moves the cursor past what arrived. The
        buffer ends as if the bytes had been written to it. */
    method Read(ba: ByteArray, length: nat) returns (rt: int)
      requires ba.Valid()
      requires socket !in ba.repr
      modifies ba.repr, socket`incoming, socket`schedule
      ensures ba.Valid() && fresh(ba.repr - old(ba.repr))
      ensures var most := if length < |old(socket.incoming)| then length else |old(socket.incoming)|;
        if socket.connected then Called(old(socket.schedule), socket.schedule, most, rt)
        else rt == -1 && socket.schedule == old(socket.schedule)
      ensures var m := if rt > 0 then rt else 0;
        && m <= |old(socket.incoming)|
        && ba.Wrote(old(socket.incoming)[..m]) && socket.incoming == old(socket.incoming)[m..]
    {
      hide Concat;
      hide Pieces;
      hide Off;
      hide Unshared;
      if !socket.connected {
        return -1;
      }
      var n, vs := ba.GetWriteBuffers(length);
      var data;
      rt, data := socket.Recv(length);
      if rt > 0 {
        ghost var before := ba.flat;
        ba.Scatter(vs, data, ba.k, ba.npos, n);
        WrittenRange(before, ba.flat, ba.position, data);
        var ok := ba.SetPosition(ba.position + rt);
      }
    }

    /** `WriteFixSize`: puts the next `length` bytes of the buffer on the wire, or as many as went before a failure;
        the cursor tells how many. */
    method WriteFixSize(ba: ByteArray, length: nat) returns (r: int)
      requires ba.Valid() && length < U64
      requires socket !in ba.repr
      modifies ba`position, ba`size, ba`cur, ba`k, ba`npos, socket`sent, socket`schedule
      ensures ba.Valid() && ba.SameChain() && ba.flat == old(ba.flat)
      ensures ba.position >= old(ba.position) && Ended(length, ba.position - old(ba.position), r)
      ensures socket.sent == old(socket.sent) + ba.flat[old(ba.position)..ba.position]
      ensures socket.connected && Willing(old(socket.schedule), length) && length <= LONG_MAX &&
              length <= old(ba.GetReadSize())
        ==> ba.position == old(ba.position) + length
    {
      var left := ToLong(length);
      while left > 0
        invariant Left(length, ba.position - old(ba.position), left)
        invariant socket.connected && length <= LONG_MAX && Willing(old(socket.schedule), length) ==>
          Willing(socket.schedule, left)
        invariant ba.Valid() && ba.SameChain() && ba.flat == old(ba.flat) && old(ba.position) <= ba.position
        invariant socket.sent == old(socket.sent) + ba.flat[old(ba.position)..ba.position]
      {
        ghost var p := ba.position;
        var len := Write(ba, left);
        SliceSplit(ba.flat, old(ba.position), p, ba.position);
        if len <= 0 {
          return len;
        }
        left := left - len;
      }
      r := ToInt(length);
    }

    /** `ReadFixSize`: the buffer ends as if the bytes taken off the wire had been written to it. */
    method ReadFixSize(ba: ByteArray, length: nat) returns (r: int)
      requires ba.Valid() && length < U64
      requires socket !in ba.repr
      modifies ba.repr, socket`incoming, socket`schedule
      ensures ba.Valid() && fresh(ba.repr - old(ba.repr))
      ensures ba.position >= old(ba.position) && Ended(length, ba.position - old(ba.position), r)
      ensures var m := ba.position - old(ba.position);
        && m <= |old(socket.incoming)|
        && ba.Wrote(old(socket.incoming)[..m]) && socket.incoming == old(socket.incoming)[m..]
      ensures socket.connected && Willing(old(socket.schedule), length) && length <= LONG_MAX &&
              length <= |old(socket.incoming)|
        ==> ba.position == old(ba.position) + length
    {
      hide Concat;
      hide Off;
      hide Unshared;
      var left := ToLong(length);
      ghost var m: nat := 0;
      while left > 0
        invariant Left(length, m, left) && m <= |old(socket.incoming)|
        invariant socket.connected && length <= LONG_MAX && Willing(old(socket.schedule), length) ==>
          Willing(socket.schedule, left)
        invariant ba.Valid() && fresh(ba.repr - old(ba.repr)) && socket !in ba.repr
        invariant ba.Wrote(old(socket.incoming)[..m]) && socket.incoming == old(socket.incoming)[m..]
      {
        ghost var f, p, z, rest := ba.flat, ba.position, ba.size, socket.incoming;
        var len := Read(ba, left);
        ghost var d := if len > 0 then len else 0;
        assert old(socket.incoming)[..m] + rest[..d] == old(socket.incoming)[..m + d];
        EffectCompose(old(ba.flat), old(ba.position), old(ba.size), f, p, z, ba.flat, ba.position, ba.size,
          old(socket.incoming)[..m], rest[..d]);
        m := m + d;
        if len <= 0 {
          return len;
        }
        left := left - len;
      }
      r := ToInt(length);
    }

    /** `WriteFixSize(buffer, length)`. */
    method WriteFixSizeRaw(buffer: seq<byte>) returns (r: int, ghost moved: nat)
      requires |buffer| < U64
      modifies socket`sent, socket`schedule
      ensures moved <= |buffer| && Ended(|buffer|, moved, r)
      ensures socket.sent == old(socket.sent) + buffer[..moved]
      ensures socket.connected && Willing(old(socket.schedule), |buffer|) && |buffer| <= LONG_MAX ==> moved == |buffer|
    {
      var offset: nat, left := 0, ToLong(|buffer|);
      moved := 0;
      while left > 0
        invariant Left(|buffer|, offset, left) && moved == offset <= |buffer|
        invariant socket.connected && |buffer| <= LONG_MAX && Willing(old(socket.schedule), |buffer|) ==>
          Willing(socket.schedule, left)
        invariant socket.sent == old(socket.sent) + buffer[..offset]
      {
        var len := -1;
        if socket.connected {
          len := socket.Send(buffer[offset..]);
        }
        if len <= 0 {
          return len, moved;
        }
        assert buffer[..offset] + buffer[offset..][..len] == buffer[..offset + len];
        offset := offset + len;
        left := left - len;
        moved := offset;
      }
      r := ToInt(|buffer|);
    }

    /** `ReadFixSize(buffer, length)`. */
    method ReadFixSizeRaw(buffer: array<byte>) returns (r: int, ghost moved: nat)
      requires buffer.Length < U64
      modifies buffer, socket`incoming, socket`schedule
      ensures moved <= buffer.Length && Ended(buffer.Length, moved, r)
      ensures moved <= |old(socket.incoming)| && socket.incoming == old(socket.incoming)[moved..]
      ensures buffer[..] == old(socket.incoming)[..moved] + old(buffer[moved..])
      ensures socket.connected && Willing(old(socket.schedule), buffer.Length) && buffer.Length <= LONG_MAX &&
              buffer.Length <= |old(socket.incoming)|
        ==> moved == buffer.Length
    {
      var offset: nat, left := 0, ToLong(buffer.Length);
      moved := 0;
      while left > 0
        invariant Left(buffer.Length, offset, left) && moved == offset <= buffer.Length
        invariant offset <= |old(socket.incoming)|
        invariant socket.connected && buffer.Length <= LONG_MAX && Willing(old(socket.schedule), buffer.Length) ==>
          Willing(socket.schedule, left)
        invariant socket.incoming == old(socket.incoming)[offset..]
        invariant buffer[..offset] == old(socket.incoming)[..offset]
        invariant buffer[offset..] == old(buffer[..])[offset..]
      {
        var len, data := -1, [];
        if socket.connected {
          len, data := socket.Recv(left);
        }
        if len <= 0 {
          assert buffer[..] == buffer[..offset] + buffer[offset..];
          return len, moved;
        }
        ghost var before := buffer[..];
        Memcpy(buffer, offset, data);
        OverwriteParts(before, offset, data);
        hide Overwrite;
        SliceSplit(old(socket.incoming), 0, offset, offset + len);
        assert before[offset + len..] == before[offset..][len..];
        offset := offset + len;
        left := left - len;
        moved := offset;
        assert buffer[..][..offset] == buffer[..offset] && buffer[..][offset..] == buffer[offset..];
      }
      assert buffer[..] == buffer[..offset] + buffer[offset..];
      r := ToInt(buffer.Length);
    }
  }

  /** What one side writes the other reproduces: when both transfers complete, the bytes before the sender's cursor
      stand before the receiver's. Node sizes and the splitting of the transfers play no part. */
  method Exchange(from: SocketStream, a: ByteArray, to: SocketStream, b: ByteArray, length: nat)
    returns (written: int, read: int)
    requires a.Valid() && b.Valid() && a.repr !! b.repr && length < U64
    requires from.socket != to.socket
    requires from.socket !in a.repr + b.repr && to.socket !in a.repr + b.repr
    requires from.socket.sent == [] && to.socket.incoming == []
    modifies a.repr, b.repr, from.socket, to.socket
    ensures a.Valid() && b.Valid() && a.flat == old(a.flat)
    ensures a.position >= old(a.position) && Ended(length, a.position - old(a.position), written)
    ensures b.position >= old(b.position) && Ended(length, b.position - old(b.position), read)
    ensures b.position - old(b.position) <= a.position - old(a.position)
    ensures b.Wrote(a.flat[old(a.position)..old(a.position) + (b.position - old(b.position))])
    ensures length <= LONG_MAX && length <= old(a.GetReadSize()) &&
            from.socket.connected && Willing(old(from.socket.schedule), length) &&
            to.socket.connected && Willing(old(to.socket.schedule), length)
      ==> b.position == old(b.position) + length
  {
    hide Concat;
    hide Off;
    hide Unshared;
    hide Ended;
    hide Willing;
    written := from.WriteFixSize(a, length);
    to.socket.incoming := from.socket.sent;
    read := to.ReadFixSize(b, length);
    SliceOfSlice(a.flat, old(a.position), a.position, 0, b.position - old(b.position));
  }
}
