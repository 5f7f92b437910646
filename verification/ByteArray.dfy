/** `ByteArray`: a growable byte buffer kept as a chain of equally sized nodes (server_frame/bytearray.cc). */
module ByteArrays {
  import opened Bytes

  /** One memory block of the chain. */
  class Node {
    const data: array<byte>
    const size: nat
    var next: Node?
    ghost const index: nat  // its place in the chain

    constructor (s: nat, ghost i: nat)
      ensures size == s == data.Length && next == null && fresh(data) && index == i
    {
      index := i;
      data := new byte[s];
      size := s;
      next := null;
    }
  }

  /** A piece of a node handed to scatter/gather input and output: `len` bytes of `base` from `off` on. */
  datatype Iovec = Iovec(base: array<byte>, off: nat, len: nat)

  /** How a read ends: normally, with `std::out_of_range`, or by dereferencing the null cursor. */
  datatype Outcome = Done | OutOfRange | NullCursor

  /** `memcpy` into `dst + at`. */
  method Memcpy(dst: array<byte>, at: nat, src: seq<byte>)
    requires at + |src| <= dst.Length
    modifies dst
    ensures dst[..] == Overwrite(old(dst[..]), at, src)
  {
    for i := 0 to |src|
      invariant forall j :: 0 <= j < dst.Length ==> dst[j] == if at <= j < at + i then src[j - at] else old(dst[j])
    {
      dst[at + i] := src[i];
    }
  }

  /** The nodes of a chain are distinct, own distinct arrays of `b` bytes, and lie inside `repr`. */
  ghost predicate Unshared(b: nat, ns: seq<Node>, repr: set<object>) {
    && (forall i :: 0 <= i < |ns| ==> ns[i] in repr && ns[i].data in repr)
    && (forall i :: 0 <= i < |ns| ==> ns[i].size == b == ns[i].data.Length)
    && (forall i :: 0 <= i < |ns| ==> ns[i].index == i)
    && (forall i, j {:trigger ns[i].data, ns[j].data} :: 0 <= i < j < |ns| ==> ns[i].data != ns[j].data)
  }

  /** The pieces, in order, of `len` bytes from byte `at` of node `i` on. */
  ghost function Pieces(b: nat, ns: seq<Node>, i: nat, at: nat, len: nat): (vs: seq<Iovec>)
    requires at < b && Off(b, i) + at + len <= Off(b, |ns|)
    decreases len
  {
    if len == 0 then
      []
    else
      BlockInRange(b, i, at, |ns|);
      if b - at >= len then
        [Iovec(ns[i].data, at, len)]
      else
        [Iovec(ns[i].data, at, b - at)] + Pieces(b, ns, i + 1, 0, len - (b - at))
  }

  lemma PiecesSplit(b: nat, ns: seq<Node>, i: nat, at: nat, len: nat, vs: seq<Iovec>)
    requires at < b && i < |ns| && 0 < len && Off(b, i) + at + len <= Off(b, |ns|)
    ensures len <= b - at ==> Pieces(b, ns, i, at, len) == [Iovec(ns[i].data, at, len)]
    ensures len > b - at ==> Off(b, i + 1) + (len - (b - at)) <= Off(b, |ns|)
    ensures len > b - at ==>
      vs + Pieces(b, ns, i, at, len) == vs + [Iovec(ns[i].data, at, b - at)] + Pieces(b, ns, i + 1, 0, len - (b - at))
  {
    if len > b - at {
      var more := Pieces(b, ns, i + 1, 0, len - (b - at));
      assert vs + ([Iovec(ns[i].data, at, b - at)] + more) == vs + [Iovec(ns[i].data, at, b - at)] + more;
    }
  }

  ghost function Total(vs: seq<Iovec>): nat {
    if vs == [] then 0 else vs[0].len + Total(vs[1..])
  }

  ghost predicate InBounds(vs: seq<Iovec>) {
    forall v :: v in vs ==> v.off + v.len <= v.base.Length
  }

  /** The bytes the pieces cover, one piece after the other. */
  ghost function Gathered(vs: seq<Iovec>): seq<byte>
    requires InBounds(vs)
    reads set v | v in vs :: v.base
  {
    if vs == [] then [] else vs[0].base[vs[0].off..vs[0].off + vs[0].len] + Gathered(vs[1..])
  }

  lemma {:induction false} GatheredPieces(b: nat, ns: seq<Node>, blocks: seq<seq<byte>>, repr: set<object>,
                                          i: nat, at: nat, len: nat)
    requires Unshared(b, ns, repr) && at < b && Off(b, i) + at + len <= Off(b, |ns|)
    requires |blocks| == |ns| && AllSized(b, blocks)
    requires forall j {:trigger ns[j].data} :: 0 <= j < |ns| ==> ns[j].data[..] == blocks[j]
    requires InBounds(Pieces(b, ns, i, at, len))
    ensures Gathered(Pieces(b, ns, i, at, len)) == Run(b, blocks, i, at, len)
    decreases len
  {
    var vs := Pieces(b, ns, i, at, len);
    if len > 0 {
      BlockInRange(b, i, at, |ns|);
      assert vs[0].base == ns[i].data && ns[i].data[..] == blocks[i];
      assert vs[0].base[at..at + vs[0].len] == blocks[i][at..at + vs[0].len];
      if b - at < len {
        assert vs[1..] == Pieces(b, ns, i + 1, 0, len - (b - at));
        GatheredPieces(b, ns, blocks, repr, i + 1, 0, len - (b - at));
      } else {
        assert vs[1..] == [];
      }
    }
  }

  /** The pieces are in bounds, cover `len` bytes in all, and begin in node `i` or a later one. */
  lemma {:induction false} PiecesInBounds(b: nat, ns: seq<Node>, repr: set<object>, i: nat, at: nat, len: nat)
    requires Unshared(b, ns, repr) && at < b && Off(b, i) + at + len <= Off(b, |ns|)
    ensures InBounds(Pieces(b, ns, i, at, len))
    ensures Total(Pieces(b, ns, i, at, len)) == len
    ensures forall v :: v in Pieces(b, ns, i, at, len) ==>
      v.len > 0 && exists j :: i <= j < |ns| && v.base == ns[j].data
    decreases len
  {
    if len > 0 {
      BlockInRange(b, i, at, |ns|);
      assert ns[i].data.Length == b;
      if b - at < len {
        PiecesInBounds(b, ns, repr, i + 1, 0, len - (b - at));
      } else {
        assert Pieces(b, ns, i, at, len)[1..] == [];
      }
    }
  }

  /** No two pieces share an array. */
  lemma {:induction false} PiecesDisjoint(b: nat, ns: seq<Node>, repr: set<object>, i: nat, at: nat, len: nat)
    requires Unshared(b, ns, repr) && at < b && Off(b, i) + at + len <= Off(b, |ns|)
    ensures var vs := Pieces(b, ns, i, at, len);
      forall x, y :: 0 <= x < y < |vs| ==> vs[x].base != vs[y].base
    decreases len
  {
    var vs := Pieces(b, ns, i, at, len);
    if len > 0 && b - at < len {
      BlockInRange(b, i, at, |ns|);
      PiecesDisjoint(b, ns, repr, i + 1, 0, len - (b - at));
      PiecesInBounds(b, ns, repr, i + 1, 0, len - (b - at));
      forall y | 0 < y < |vs|
        ensures vs[0].base != vs[y].base
      {
        assert vs[y] in vs[1..];
        var j :| i + 1 <= j < |ns| && vs[y].base == ns[j].data;
        assert ns[i].data != ns[j].data;
      }
    }
  }

  /** Flat buffer `f0` with cursor `p0` and size `z0` became `f1`, `p1`, `z1` by writing `buf`. */
  ghost predicate Effect(f0: seq<byte>, p0: nat, z0: nat, f1: seq<byte>, p1: nat, z1: nat, buf: seq<byte>) {
    && p1 == p0 + |buf|
    && z1 == (if p1 > z0 then p1 else z0)
    && |f0| <= |f1| && p1 <= |f1|
    && f1[p0..p1] == buf
    && (forall i {:trigger f1[i]} :: 0 <= i < |f0| && !(p0 <= i < p1) ==> f1[i] == f0[i])
  }

  /** Two writes in a row are one write of both. */
  lemma EffectCompose(f0: seq<byte>, p0: nat, z0: nat, f1: seq<byte>, p1: nat, z1: nat,
                      f2: seq<byte>, p2: nat, z2: nat, a: seq<byte>, b: seq<byte>)
    requires Effect(f0, p0, z0, f1, p1, z1, a) && Effect(f1, p1, z1, f2, p2, z2, b)
    ensures Effect(f0, p0, z0, f2, p2, z2, a + b)
  {
    assert f2[p0..p2] == f2[p0..p1] + f2[p1..p2];
    forall i | p0 <= i < p1
      ensures f2[i] == a[i - p0]
    {
      assert f1[p0..p1][i - p0] == f1[i];
    }
    assert f2[p0..p1] == a;
  }

  class ByteArray {
    const baseSize: nat
    var position: nat
    var capacity: nat
    var size: nat
    const root: Node
    var cur: Node?
    var littleEndian: bool

    ghost var nodes: seq<Node>
    ghost var flat: seq<byte>  // what the chain stands for: its bytes, node after node
    ghost var blocks: seq<seq<byte>>
    ghost var repr: set<object>
    ghost var k: nat      // the cursor is in node k ...
    ghost var npos: nat   // ... npos bytes from its start

    /** The chain from `root` is `nodes`. */
    ghost predicate Linked()
      reads this, repr
    {
      && this in repr
      && baseSize >= 1
      && capacity == |flat| == Off(baseSize, |nodes|)
      && Chained()
    }

    /** Each node leads to the next, nodes share nothing, and the blocks in order are the flat contents. */
    ghost predicate Chained()
      reads this, repr
    {
      && |nodes| >= 1 && nodes[0] == root
      && Unshared(baseSize, nodes, repr)
      && (forall i {:trigger nodes[i].next} :: 0 <= i < |nodes| ==> nodes[i].next == NodeAt(i + 1))
      && |blocks| == |nodes| && AllSized(baseSize, blocks) && flat == Concat(blocks)
      && (forall i {:trigger nodes[i].data} :: 0 <= i < |nodes| ==> nodes[i].data[..] == blocks[i])
    }

    ghost function NodeAt(i: nat): Node?
      reads this
    {
      if i < |nodes| then nodes[i] else null
    }

    /** The cursor stands at `position`, in node `k`, or is null when the position is past the last node. */
    ghost predicate Cursor()
      reads this, repr
    {
      && Linked()
      && position == Off(baseSize, k) + npos && npos < baseSize
      && position <= capacity
      && cur == NodeAt(k)
    }

    /** The chain refines a flat buffer of `capacity` bytes with a cursor at `position`. */
    ghost predicate Valid()
      reads this, repr
    {
      && Cursor()
      && position <= size <= capacity == |flat|
    }

    /** Only the cursor and bytes may have changed. */
    twostate predicate SameChain()
      reads this
    {
      && nodes == old(nodes) && repr == old(repr)
      && size == old(size) && littleEndian == old(littleEndian)
    }

    /** The effect of writing `buf` at the cursor: exactly its range is overwritten and every other byte kept. */
    twostate predicate Wrote(buf: seq<byte>)
      reads this
    {
      && littleEndian == old(littleEndian)
      && Effect(old(flat), old(position), old(size), flat, position, size, buf)
    }

    /** The chain grew, if at all, by no more nodes than the data needed. */
    twostate predicate GrewTight()
      reads this
    {
      && capacity >= old(capacity)
      && (capacity > old(capacity) ==> capacity < position + baseSize)
    }

    /** The unread data. */
    ghost function Rest(): seq<byte>
      requires position <= size <= |flat|
      reads this
    {
      flat[position..size]
    }

    constructor (baseSize: nat)
      requires baseSize >= 1
      ensures Valid() && fresh(repr)
      ensures this.baseSize == baseSize == capacity
      ensures position == size == 0 && !littleEndian
    {
      this.baseSize := baseSize;
      var r := new Node(baseSize, 0);
      position, capacity, size := 0, baseSize, 0;
      root, cur := r, r;
      littleEndian := false;
      nodes := [r];
      repr := {this, r, r.data};
      k, npos := 0, 0;
      flat, blocks := r.data[..], [r.data[..]];
      new;
      assert Off(baseSize, 1) == baseSize;
    }

    function GetReadSize(): nat
      requires position <= size
      reads this
    {
      size - position
    }

    function GetCapacity(): nat
      requires position <= capacity
      reads this
    {
      capacity - position
    }

    method SetIsLittleEndian(val: bool)
      requires Valid()
      modifies this`littleEndian
      ensures Valid() && littleEndian == val
      ensures flat == old(flat)
    {
      littleEndian := val;
    }

    /** The `memcpy` of `Write`: `src` lands in node `i` from `at` on. */
    method Store(ghost i: nat, dst: array<byte>, at: nat, src: seq<byte>)
      requires Linked()
      requires i < |nodes| && dst == nodes[i].data && at + |src| <= baseSize
      modifies dst, this`flat, this`blocks
      ensures Linked() && SameChain()
      ensures Off(baseSize, i) + at + |src| <= |old(flat)|
      ensures flat == Overwrite(old(flat), Off(baseSize, i) + at, src)
    {
      ConcatUpdate(baseSize, blocks, i, at, src);
      Memcpy(dst, at, src);
      flat := Overwrite(flat, Off(baseSize, i) + at, src);
      blocks := blocks[i := Overwrite(blocks[i], at, src)];
      forall j {:trigger nodes[j].data} | 0 <= j < |nodes| && j != i
        ensures nodes[j].data[..] == blocks[j]
      {
        assert nodes[j].data != dst;
      }
    }

    /** The `memcpy` of `Read`: `m` bytes of node `i` from `at` on, appended to `buf`, whose bytes end there. */
    method Load(ghost i: nat, src: array<byte>, at: nat, m: nat, buf: seq<byte>, ghost p: nat) returns (more: seq<byte>)
      requires Linked()
      requires i < |nodes| && src == nodes[i].data && at + m <= baseSize
      requires p <= Off(baseSize, i) + at <= |flat| && buf == flat[p..Off(baseSize, i) + at]
      ensures Off(baseSize, i) + at + m <= |flat|
      ensures more == flat[p..Off(baseSize, i) + at + m]
    {
      ConcatSlice(baseSize, blocks, i, at, at + m);
      assert src[at..at + m] == src[..][at..at + m];
      SliceSplit(flat, p, Off(baseSize, i) + at, Off(baseSize, i) + at + m);
      more := buf + src[at..at + m];
    }

    /** Links one fresh node behind the last node `tmp`. */
    method Append(tmp: Node) returns (added: Node)
      requires Linked() && tmp == nodes[|nodes| - 1]
      modifies this`capacity, this`nodes, this`repr, this`flat, this`blocks, tmp`next
      ensures Linked() && repr == old(repr) + {added, added.data} && fresh(added) && fresh(added.data)
      ensures nodes == old(nodes) + [added]
      ensures old(flat) <= flat
    {
      added := new Node(baseSize, |nodes|);
      tmp.next := added;
      capacity := capacity + baseSize;
      nodes := nodes + [added];
      repr := repr + {added, added.data};
      ghost var block := added.data[..];
      ConcatAppend(blocks, block);
      hide Concat;
      flat := flat + block;
      blocks := blocks + [block];
    }

    /** The allocation loop of `AddCapacity`, returning `first`. */
    method AppendNodes(last: Node, count: nat) returns (first: Node?)
      requires Linked() && last == nodes[|nodes| - 1] && count >= 1
      modifies this`capacity, this`nodes, this`repr, this`flat, this`blocks, last`next
      ensures Linked() && fresh(repr - old(repr))
      ensures |nodes| == old(|nodes|) + count && old(nodes) <= nodes
      ensures first == nodes[old(|nodes|)]
      ensures capacity == old(capacity) + Off(baseSize, count)
      ensures old(flat) <= flat
    {
      var tmp := last;
      first := null;
      for i := 0 to count
        invariant Linked() && fresh(repr - old(repr))
        invariant tmp == nodes[|nodes| - 1] && (tmp == last || fresh(tmp))
        invariant |nodes| == old(|nodes|) + i && old(nodes) <= nodes
        invariant first == (if i > 0 then nodes[old(|nodes|)] else null)
        invariant old(flat) <= flat
      {
        var added := Append(tmp);
        if first == null {
          first := added;
        }
        tmp := added;
      }
      OffAdd(baseSize, old(|nodes|), count);
    }

    /** The walk to the end of the chain in `AddCapacity`. */
    method LastNode() returns (tmp: Node)
      requires Linked()
      ensures tmp == nodes[|nodes| - 1]
    {
      tmp := root;
      ghost var j := 0;
      while tmp.next != null
        invariant 0 <= j < |nodes| && tmp == nodes[j]
        decreases |nodes| - j
      {
        tmp := tmp.next;
        j := j + 1;
      }
    }

    /** `ceil(1.0 * m / base_size_)`, as an integer ceiling. */
    method NodesFor(m: nat) returns (count: nat)
      requires baseSize >= 1 && m >= 1
      ensures count >= 1
      ensures Off(baseSize, count - 1) < m <= Off(baseSize, count)
    {
      CeilCovers(baseSize, m);
      count := (m + baseSize - 1) / baseSize;
    }

    /** Grows the chain, by whole nodes and no more of them than needed, to hold `n` bytes from the cursor on. */
    method AddCapacity(n: nat)
      requires Valid()
      modifies repr
      ensures Valid() && fresh(repr - old(repr))
      ensures position == old(position) && size == old(size) && littleEndian == old(littleEndian)
      ensures GetCapacity() >= n
      ensures capacity != old(capacity) ==> capacity > old(capacity) && GetCapacity() < n + baseSize
      ensures old(flat) <= flat
      ensures k == old(k) && npos == old(npos)
    {
      hide Concat;
      hide AllSized;
      if n == 0 {
        return;
      }
      var oldCap := GetCapacity();
      if oldCap >= n {
        return;
      }
      var count := NodesFor(n - oldCap);
      BlockInRange(baseSize, k, npos, |nodes|);
      var tmp := LastNode();
      var first := AppendNodes(tmp, count);
      if oldCap == 0 {
        cur := first;
      }
    }

    /** The cursor's place is the node number and the offset the code computes by `/` and `%`. */
    lemma CursorIsQuotient()
      requires Cursor()
      ensures k == position / baseSize && npos == position % baseSize
      ensures cur == null <==> position == capacity
      ensures cur == NodeAt(position / baseSize)
    {
      DivOff(baseSize, k, npos);
      BlockInRange(baseSize, k, npos, |nodes|);
    }

    lemma CursorIsNull()
      requires Cursor()
      ensures cur == null <==> position == capacity
    {
      BlockInRange(baseSize, k, npos, |nodes|);
    }

    /** `position_ % base_size_`. */
    method NodeOffset() returns (at: nat)
      requires Cursor()
      ensures at == npos
    {
      CursorIsQuotient();
      at := position % baseSize;
    }

    /** Moves the cursor `n` bytes on inside its node, to the next node when that node is used up. */
    method Advance(at: nat, n: nat)
      requires Cursor() && cur != null && at == npos && at + n <= baseSize
      modifies this`position, this`cur, this`k, this`npos
      ensures Cursor() && SameChain() && position == old(position) + n
      ensures at + n == baseSize ==> npos == 0
    {
      OffMonotone(baseSize, k + 1, |nodes|);
      if cur.size == at + n {
        cur := cur.next;
        k, npos := k + 1, 0;
      } else {
        npos := npos + n;
      }
      position := position + n;
    }

    /** Copies `src` into the cursor's node at the cursor and moves on. */
    method CopyIn(at: nat, src: seq<byte>)
      requires Cursor() && cur != null && at == npos && at + |src| <= baseSize
      modifies this`position, this`cur, this`k, this`npos, this`flat, this`blocks, cur.data
      ensures Cursor() && SameChain() && position == old(position) + |src| <= |old(flat)|
      ensures at + |src| == baseSize ==> npos == 0
      ensures Written(old(flat), flat, old(position), src, |src|)
    {
      Store(k, cur.data, at, src);
      Advance(at, |src|);
    }

    /** The copy loop of `Write`, node by node. */
    method CopyAll(buf: seq<byte>)
      requires Cursor() && 0 < |buf| <= capacity - position
      modifies repr
      ensures Cursor() && SameChain() && position == old(position) + |buf|
      ensures Written(old(flat), flat, old(position), buf, |buf|)
    {
      hide Concat;
      CursorIsNull();
      var at := NodeOffset();
      var ncap := cur.size - at;
      var n, bpos := |buf|, 0;
      while n > 0
        invariant Cursor() && SameChain()
        invariant n >= 0 && bpos >= 0 && n + bpos == |buf|
        invariant position == old(position) + bpos && position + n <= capacity
        invariant n > 0 ==> at == npos && ncap == baseSize - at
        invariant Written(old(flat), flat, old(position), buf, bpos)
      {
        CursorIsNull();
        var m := if ncap >= n then n else ncap;
        ghost var g := flat;
        CopyIn(at, buf[bpos..bpos + m]);
        WrittenStep(old(flat), g, flat, old(position), buf, bpos, m);
        bpos := bpos + m;
        n := n - m;
        if n > 0 {
          CursorIsNull();
          ncap := cur.size;
          at := 0;
        }
      }
    }

    /** Overwrites exactly the `|buf|` bytes at the cursor, growing the chain when they do not fit. */
    method Write(buf: seq<byte>)
      requires Valid()
      modifies repr
      ensures Valid() && fresh(repr - old(repr))
      ensures Wrote(buf) && GrewTight()
    {
      hide Concat;
      hide Off;
      if |buf| == 0 {
        return;
      }
      AddCapacity(|buf|);
      CopyAll(buf);
      if position > size {
        size := position;
      }
    }

    /** The copy loop of `Read`, node by node. */
    method TakeAll(n: nat) returns (buf: seq<byte>)
      requires Cursor() && cur != null && n <= capacity - position
      modifies this`position, this`cur, this`k, this`npos
      ensures Cursor() && SameChain() && flat == old(flat)
      ensures position == old(position) + n && buf == flat[old(position)..position]
    {
      hide Concat;
      var at := NodeOffset();
      var ncap := cur.size - at;
      var left := n;
      buf := [];
      while left > 0
        invariant Cursor() && SameChain() && flat == old(flat)
        invariant 0 <= left <= n && position == old(position) + n - left
        invariant left > 0 ==> at == npos && ncap == baseSize - at
        invariant buf == flat[old(position)..position]
      {
        CursorIsNull();
        var m := if ncap >= left then left else ncap;
        buf := Load(k, cur.data, at, m, buf, old(position));
        Advance(at, m);
        left := left - m;
        if left > 0 {
          CursorIsNull();
          ncap := cur.size;
          at := 0;
        }
      }
    }

    /** Reads `n` bytes at the cursor. A null cursor is dereferenced before the length is looked at. */
    method Read(n: nat) returns (out: Outcome, buf: seq<byte>)
      requires Valid()
      modifies this`position, this`cur, this`k, this`npos
      ensures Valid() && SameChain() && flat == old(flat)
      ensures out == if n > size - old(position) then OutOfRange
                     else if old(position) == capacity then NullCursor else Done
      ensures out == Done ==> position == old(position) + n && buf == flat[old(position)..position]
      ensures out == Done ==> n <= |old(Rest())| && buf == old(Rest())[..n] && Rest() == old(Rest())[n..]
      ensures out != Done ==> position == old(position)
    {
      CursorIsNull();
      if n > GetReadSize() {
        return OutOfRange, [];
      }
      if cur == null {
        return NullCursor, [];
      }
      buf := TakeAll(n);
      out := Done;
    }

    /** The walk of `SetPosition`: the node holding position `v`, the last one when `v` ends the chain. */
    method Find(v: nat) returns (node: Node, left: nat, ghost i: nat)
      requires Linked() && v <= capacity
      ensures i < |nodes| && node == nodes[i]
      ensures Off(baseSize, i) + left == v && left <= baseSize
    {
      node, left, i := root, v, 0;
      while left > node.size
        invariant i < |nodes| && node == nodes[i]
        invariant Off(baseSize, i) + left == v
      {
        BlockInRange(baseSize, i + 1, 0, |nodes|);
        left := left - node.size;
        node := node.next;
        i := i + 1;
      }
    }

    /** Moves the cursor to `v`, extending the data when `v` lies behind it; `false` is `std::out_of_range`. */
    method SetPosition(v: nat) returns (ok: bool)
      requires Valid()
      modifies this`position, this`size, this`cur, this`k, this`npos
      ensures Valid() && nodes == old(nodes) && repr == old(repr) && flat == old(flat)
      ensures littleEndian == old(littleEndian)
      ensures ok <==> v <= capacity
      ensures ok ==> position == v && size == if v > old(size) then v else old(size)
      ensures !ok ==> position == old(position) && size == old(size)
    {
      hide Concat;
      hide Off;
      if v > capacity {
        return false;
      }
      var node, left, i := Find(v);
      Seat(v, node, left, i);
      if position > size {
        size := position;
      }
      ok := true;
    }

    /** The end of `SetPosition`: a position at the end of its node belongs to the next one. */
    method Seat(v: nat, node: Node, left: nat, ghost i: nat)
      requires Linked() && i < |nodes| && node == nodes[i]
      requires Off(baseSize, i) + left == v && left <= baseSize
      modifies this`position, this`cur, this`k, this`npos
      ensures Cursor() && SameChain() && flat == old(flat) && position == v
    {
      hide Concat;
      OffMonotone(baseSize, i + 1, |nodes|);
      position := v;
      if left == node.size {
        cur := node.next;
        k, npos := i + 1, 0;
      } else {
        cur := node;
        k, npos := i, left;
      }
    }

    /** Drops all data and all nodes but the first. */
    method Clear()
      requires Valid()
      modifies this, root`next
      ensures Valid() && fresh(repr - old(repr))
      ensures position == size == 0 && capacity == baseSize && littleEndian == old(littleEndian)
      ensures flat == old(flat)[..baseSize]
    {
      ConcatSlice(baseSize, blocks, 0, 0, baseSize);
      position, size := 0, 0;
      capacity := baseSize;
      cur := root;
      root.next := null;
      nodes, blocks := [root], [blocks[0]];
      flat := blocks[0];
      assert Concat(blocks) == flat;
      hide Concat;
      k, npos := 0, 0;
      assert Off(baseSize, 1) == baseSize;
    }

    /** The pieces hold a slice of the flat buffer, contiguously. */
    lemma PiecesGathered(i: nat, at: nat, len: nat)
      requires Linked() && at < baseSize && Off(baseSize, i) + at + len <= capacity
      ensures InBounds(Pieces(baseSize, nodes, i, at, len))
      ensures Gathered(Pieces(baseSize, nodes, i, at, len)) == flat[Off(baseSize, i) + at..Off(baseSize, i) + at + len]
    {
      PiecesInBounds(baseSize, nodes, repr, i, at, len);
      GatheredPieces(baseSize, nodes, blocks, repr, i, at, len);
      RunIsSlice(baseSize, blocks, i, at, len);
    }

    /** The loop shared by the three functions that collect iovecs. */
    method Gather(node: Node?, at: nat, len: nat, ghost i: nat) returns (vs: seq<Iovec>)
      requires Linked() && len > 0
      requires node == NodeAt(i) && at < baseSize && Off(baseSize, i) + at + len <= capacity
      ensures vs == Pieces(baseSize, nodes, i, at, len)
    {
      hide Concat;
      hide AllSized;
      BlockInRange(baseSize, i, at, |nodes|);
      var c, left := node, len;
      var from: nat := at;
      var ncap := c.size - from;
      ghost var j := i;
      vs := [];
      while left > 0
        invariant left >= 0 && from < baseSize && Off(baseSize, j) + from + left <= capacity
        invariant left > 0 ==> c == NodeAt(j) && ncap == baseSize - from
        invariant vs + Pieces(baseSize, nodes, j, from, left) == Pieces(baseSize, nodes, i, at, len)
      {
        BlockInRange(baseSize, j, from, |nodes|);
        if ncap >= left {
          vs := vs + [Iovec(c.data, from, left)];
          left := 0;
        } else {
          vs := vs + [Iovec(c.data, from, ncap)];
          left := left - ncap;
          c := c.next;
          j := j + 1;
          BlockInRange(baseSize, j, 0, |nodes|);
          ncap := c.size;
          from := 0;
        }
      }
    }

    /** The readable data from the cursor on, at most `len` bytes of it. */
    method GetReadBuffers(len: nat) returns (n: nat, vs: seq<Iovec>)
      requires Valid()
      ensures n == if len > GetReadSize() then GetReadSize() else len
      ensures vs == Pieces(baseSize, nodes, k, npos, n)
    {
      n := if len > GetReadSize() then GetReadSize() else len;
      if n == 0 {
        return 0, [];
      }
      CursorIsNull();
      var at := NodeOffset();
      vs := Gather(cur, at, n, k);
    }

    /** As much as the unread data is long, but from position `p` on, which runs off the chain when `p` is too far
        behind the cursor. */
    method GetReadBuffersAt(len: nat, p: nat) returns (out: Outcome, n: nat, vs: seq<Iovec>)
      requires Valid()
      ensures n == if len > GetReadSize() then GetReadSize() else len
      ensures out == if n > 0 && p + n > capacity then NullCursor else Done
      ensures out == Done ==> InBounds(vs) && Gathered(vs) == if n == 0 then [] else flat[p..p + n]
    {
      hide Concat;
      hide AllSized;
      hide Off;
      hide Pieces;
      hide Unshared;
      n := if len > GetReadSize() then GetReadSize() else len;
      if n == 0 {
        return Done, 0, [];
      }
      var node, i := Walk(p);
      if node == null {
        return NullCursor, n, [];
      }
      out, vs := GatherFrom(node, p % baseSize, n, i);
      if out == Done {
        PiecesGathered(i, p % baseSize, n);
      }
    }

    /** The node that holds position `p`, found by following `next` from the root; none beyond the capacity. */
    method Walk(p: nat) returns (node: Node?, ghost i: nat)
      requires Linked()
      ensures node == null <==> p >= capacity
      ensures node != null ==> i < |nodes| && node == nodes[i] && p == Off(baseSize, i) + p % baseSize
    {
      hide Concat;
      hide AllSized;
      OffDiv(baseSize, p);
      var count := p / baseSize;
      node := root;
      i := 0;
      while count > 0
        invariant i + count == p / baseSize && count >= 0 && i < |nodes| && node == nodes[i]
      {
        node := node.next;
        count := count - 1;
        i := i + 1;
        if node == null {
          OffMonotone(baseSize, i, p / baseSize);
          return;
        }
      }
      OffMonotone(baseSize, i + 1, |nodes|);
    }

    /** The loop of the positioned form, over a local node pointer. */
    method GatherFrom(node: Node, at: nat, len: nat, ghost i: nat) returns (out: Outcome, vs: seq<Iovec>)
      requires Linked() && i < |nodes| && node == nodes[i] && at < baseSize && len > 0
      ensures out == if Off(baseSize, i) + at + len > capacity then NullCursor else Done
      ensures out == Done ==> vs == Pieces(baseSize, nodes, i, at, len)
    {
      hide Concat;
      hide AllSized;
      hide Pieces;
      var c: Node, from: nat, left: nat := node, at, len;
      ghost var j: nat, goal := i, Off(baseSize, i) + at + len;
      ghost var fits := goal <= capacity;
      OffMonotone(baseSize, j + 1, |nodes|);
      vs := [];
      while c.size - from < left
        invariant j < |nodes| && c == nodes[j] && from < baseSize && left > 0
        invariant Off(baseSize, j) + from + left == goal
        invariant fits ==> vs + Pieces(baseSize, nodes, j, from, left) == Pieces(baseSize, nodes, i, at, len)
        decreases left
      {
        if fits {
          PiecesSplit(baseSize, nodes, j, from, left, vs);
        }
        vs := vs + [Iovec(c.data, from, c.size - from)];
        left := left - (c.size - from);
        assert Off(baseSize, j + 1) == Off(baseSize, j) + baseSize;
        j := j + 1;
        if c.next == null {
          return NullCursor, vs;
        }
        OffMonotone(baseSize, j + 1, |nodes|);
        c := c.next;
        from := 0;
      }
      OffMonotone(baseSize, j + 1, |nodes|);
      if fits {
        PiecesSplit(baseSize, nodes, j, from, left, vs);
      }
      vs := vs + [Iovec(c.data, from, left)];
      out := Done;
    }

    /** Room for `len` bytes from the cursor on, grown when missing. */
    method GetWriteBuffers(len: nat) returns (n: nat, vs: seq<Iovec>)
      requires Valid()
      modifies repr
      ensures Valid() && fresh(repr - old(repr))
      ensures position == old(position) && size == old(size) && littleEndian == old(littleEndian)
      ensures old(flat) <= flat && n == len <= GetCapacity()
      ensures vs == Pieces(baseSize, nodes, k, npos, n)
    {
      if len == 0 {
        return 0, [];
      }
      AddCapacity(len);
      n := len;
      var at := NodeOffset();
      vs := Gather(cur, at, n, k);
    }

    /** The first `m` bytes of `bytes` fill one piece. */
    method FillPiece(v: Iovec, bytes: seq<byte>, m: nat, ghost i: nat)
      requires Linked() && i < |nodes| && v.base == nodes[i].data
      requires m <= |bytes| && m <= v.len && v.off + v.len <= baseSize
      modifies v.base, this`flat, this`blocks
      ensures Linked() && SameChain()
      ensures Written(old(flat), flat, Off(baseSize, i) + v.off, bytes, m)
    {
      Store(i, v.base, v.off, bytes[..m]);
    }

    /** The kernel's scattered receive: `bytes` fill the pieces in order. */
    method Scatter(vs: seq<Iovec>, bytes: seq<byte>, ghost i: nat, ghost at: nat, ghost len: nat)
      requires Linked() && at < baseSize && Off(baseSize, i) + at + len <= capacity
      requires vs == Pieces(baseSize, nodes, i, at, len) && |bytes| <= len
      modifies repr - {this}, this`flat, this`blocks
      ensures Linked() && SameChain()
      ensures Written(old(flat), flat, Off(baseSize, i) + at, bytes, |bytes|)
      decreases |bytes|
    {
      hide Concat;
      if bytes != [] {
        BlockInRange(baseSize, i, at, |nodes|);
        var m := if |bytes| < vs[0].len then |bytes| else vs[0].len;
        FillPiece(vs[0], bytes, m, i);
        if m < |bytes| {
          ghost var g := flat;
          assert bytes[m..] == bytes[m..m + (|bytes| - m)];
          Scatter(vs[1..], bytes[m..], i + 1, 0, len - m);
          WrittenStep(old(flat), g, flat, Off(baseSize, i) + at, bytes, m, |bytes| - m);
        }
      }
    }

    /** Where `Read(buf, size, position)` really starts: at offset `p % baseSize` of the cursor's own node. */
    ghost function ReadStart(p: nat): nat
      requires baseSize >= 1
      reads this
    {
      Off(baseSize, k) + p % baseSize
    }

    /** The start is the requested position exactly when that lies in the cursor's node. */
    lemma {:induction false} ReadStartIsPosition(p: nat)
      requires Valid()
      ensures ReadStart(p) == p <==> p / baseSize == position / baseSize
    {
      CursorIsQuotient();
      OffDiv(baseSize, p);
      var q := p / baseSize;
      if q < k {
        OffMonotone(baseSize, q, k);
      } else if k < q {
        OffMonotone(baseSize, k, q);
      }
    }

    /** `Read(buf, size, position)`: starts in the cursor's node whatever node `p` is in. */
    method ReadAt(n: nat, p: nat) returns (out: Outcome, buf: seq<byte>)
      requires Valid()
      ensures out == if n > (size - p) % 0x1_0000_0000_0000_0000 then OutOfRange
                     else if position == capacity || ReadStart(p) + n > capacity then NullCursor else Done
      ensures out == Done ==> buf == flat[ReadStart(p)..ReadStart(p) + n]
    {
      buf := [];
      if n > (size - p) % 0x1_0000_0000_0000_0000 {
        return OutOfRange, buf;
      }
      CursorIsNull();
      if cur == null {
        return NullCursor, buf;
      }
      out, buf := TakeFrom(cur, p % baseSize, n, k);
    }

    /** The copy loop of `Read(buf, size, position)` over a local node pointer. */
    method TakeFrom(node: Node, at: nat, n: nat, ghost i: nat) returns (out: Outcome, buf: seq<byte>)
      requires Linked() && i < |nodes| && node == nodes[i] && at < baseSize
      ensures out == if Off(baseSize, i) + at + n > capacity then NullCursor else Done
      ensures out == Done ==> buf == flat[Off(baseSize, i) + at..Off(baseSize, i) + at + n]
    {
      hide Concat;
      hide AllSized;
      var c: Node, from: nat, left: nat := node, at, n;
      ghost var j: nat, p: nat := i, Off(baseSize, i) + at;
      ghost var q: nat := p;
      OffMonotone(baseSize, j + 1, |nodes|);
      buf := [];
      while c.size - from < left
        invariant j < |nodes| && c == nodes[j] && from < baseSize
        invariant q == Off(baseSize, j) + from && p <= q <= capacity && q + left == p + n
        invariant buf == flat[p..q]
        decreases left
      {
        var ncap := c.size - from;
        buf := Load(j, c.data, from, ncap, buf, p);
        left := left - ncap;
        assert Off(baseSize, j + 1) == Off(baseSize, j) + baseSize;
        j, q := j + 1, q + ncap;
        if c.next == null {
          return NullCursor, buf;
        }
        OffMonotone(baseSize, j + 1, |nodes|);
        c := c.next;
        from := 0;
      }
      buf := Load(j, c.data, from, left, buf, p);
      out := Done;
    }

    /** The readable data; empty data is answered without touching the cursor. */
    method ToString() returns (out: Outcome, str: seq<byte>)
      requires Valid()
      requires size < 0x1_0000_0000_0000_0000
      ensures out == Done && str == flat[position..size]
    {
      if GetReadSize() == 0 {
        return Done, [];
      }
      CursorIsQuotient();
      ReadStartIsPosition(position);
      out, str := ReadAt(GetReadSize(), position);
    }
  }
}
