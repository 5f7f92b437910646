/** Bytes and the flat view of a buffer. */
module Bytes {
  type byte = x: int | 0 <= x < 256

  /** `f` with the bytes from offset `p` on replaced by `s`. */
  function Overwrite(f: seq<byte>, p: nat, s: seq<byte>): (r: seq<byte>)
    requires p + |s| <= |f|
    ensures |r| == |f|
  {
    f[..p] + s + f[p + |s|..]
  }

  /** `g` is `f` with the first `n` bytes of `s` written from offset `p` on. */
  ghost predicate Written(f: seq<byte>, g: seq<byte>, p: nat, s: seq<byte>, n: nat)
    requires n <= |s|
  {
    && |g| == |f|
    && forall i {:trigger g[i]} :: 0 <= i < |f| ==> g[i] == if p <= i < p + n then s[i - p] else f[i]
  }

  lemma WrittenRange(f: seq<byte>, g: seq<byte>, p: nat, s: seq<byte>)
    requires Written(f, g, p, s, |s|) && p + |s| <= |f|
    ensures g[p..p + |s|] == s
  {
  }

  lemma WrittenStep(f: seq<byte>, g: seq<byte>, h: seq<byte>, p: nat, s: seq<byte>, i: nat, m: nat)
    requires i + m <= |s| && Written(f, g, p, s, i) && Written(g, h, p + i, s[i..i + m], m)
    ensures Written(f, h, p, s, i + m)
  {
  }

  lemma SliceOfSlice<T>(f: seq<T>, a: nat, c: nat, i: nat, j: nat)
    requires a <= c <= |f| && i <= j <= c - a
    ensures f[a..c][i..j] == f[a + i..a + j]
  {
    assert |f[a..c][i..j]| == |f[a + i..a + j]|;
    assert forall x :: 0 <= x < j - i ==> f[a..c][i..j][x] == f[a + i + x];
  }

  lemma SliceSplit<T>(f: seq<T>, a: nat, b: nat, c: nat)
    requires a <= b <= c <= |f|
    ensures f[a..b] + f[b..c] == f[a..c]
  {
  }

  /** The number of bytes in `i` blocks of `b` bytes. */
  ghost function Off(b: nat, i: nat): nat {
    if i == 0 then 0 else Off(b, i - 1) + b
  }

  lemma {:induction false} OffMonotone(b: nat, i: nat, j: nat)
    requires i <= j
    ensures Off(b, i) <= Off(b, j)
    ensures i < j ==> Off(b, i) + b <= Off(b, j)
  {
    if i < j {
      OffMonotone(b, i, j - 1);
    }
  }

  lemma {:induction false} OffAdd(b: nat, i: nat, j: nat)
    ensures Off(b, i + j) == Off(b, i) + Off(b, j)
  {
    if j > 0 {
      OffAdd(b, i, j - 1);
    }
  }

  lemma {:induction false} OffIsProduct(b: nat, i: nat)
    ensures Off(b, i) == i * b
  {
    if i > 0 {
      OffIsProduct(b, i - 1);
    }
  }

  /** Position `Off(b, k) + n` lies `n` bytes into block `k`. */
  lemma DivOff(b: nat, k: nat, n: nat)
    requires n < b
    ensures (Off(b, k) + n) / b == k && (Off(b, k) + n) % b == n
  {
    OffIsProduct(b, k);
    DivModUnique(k * b + n, b, k, n);
  }

  lemma DivModUnique(p: int, b: nat, k: int, n: nat)
    requires p == k * b + n && n < b
    ensures p / b == k && p % b == n
  {
    var d := p / b - k;
    assert d * b == n - p % b by {
      assert p == (p / b) * b + p % b;
      assert d * b == (p / b) * b - k * b;
    }
    MultipleIsLarge(d, b);
  }

  lemma MultipleIsLarge(d: int, b: nat)
    ensures d >= 1 ==> d * b >= b
    ensures d <= -1 ==> d * b <= 0 - b
  {
    if d >= 1 {
      assert d * b == (d - 1) * b + b && (d - 1) * b >= 0;
    } else {
      assert d * b == (d + 1) * b - b;
      assert d <= -1 ==> (d + 1) * b <= 0;
    }
  }

  lemma OffDiv(b: nat, p: nat)
    requires b > 0
    ensures p == Off(b, p / b) + p % b
  {
    OffIsProduct(b, p / b);
  }

  /** Enough blocks, and none too many, for `m` bytes. */
  lemma CeilCovers(b: nat, m: nat)
    requires b > 0 && m > 0
    ensures (m + b - 1) / b >= 1
    ensures Off(b, (m + b - 1) / b - 1) < m <= Off(b, (m + b - 1) / b)
  {
    OffDiv(b, m + b - 1);
  }

  /** A position inside `m` blocks lies in one of them, the end position in block `m`. */
  lemma BlockInRange(b: nat, k: nat, n: nat, m: nat)
    requires n < b && Off(b, k) + n <= Off(b, m)
    ensures k <= m
    ensures k == m <==> Off(b, k) + n == Off(b, m)
  {
    if k > m {
      OffMonotone(b, m, k);
    } else if k < m {
      OffMonotone(b, k, m);
    }
  }

  ghost predicate AllSized(b: nat, blocks: seq<seq<byte>>) {
    forall i :: 0 <= i < |blocks| ==> |blocks[i]| == b
  }

  ghost function Concat(blocks: seq<seq<byte>>): seq<byte> {
    if blocks == [] then [] else Concat(blocks[..|blocks| - 1]) + blocks[|blocks| - 1]
  }

  lemma {:induction false} ConcatLength(b: nat, blocks: seq<seq<byte>>)
    requires AllSized(b, blocks)
    ensures |Concat(blocks)| == Off(b, |blocks|)
  {
    if blocks != [] {
      ConcatLength(b, blocks[..|blocks| - 1]);
    }
  }

  lemma ConcatAppend(blocks: seq<seq<byte>>, s: seq<byte>)
    ensures Concat(blocks + [s]) == Concat(blocks) + s
  {
    assert (blocks + [s])[..|blocks|] == blocks;
  }

  /** Bytes `[lo, hi)` of block `k` are a slice of the whole. */
  lemma {:induction false} ConcatSlice(b: nat, blocks: seq<seq<byte>>, k: nat, lo: nat, hi: nat)
    requires AllSized(b, blocks) && k < |blocks| && lo <= hi <= b
    ensures Off(b, k) + hi <= |Concat(blocks)|
    ensures Concat(blocks)[Off(b, k) + lo..Off(b, k) + hi] == blocks[k][lo..hi]
  {
    ConcatLength(b, blocks);
    OffMonotone(b, k + 1, |blocks|);
    var m := |blocks| - 1;
    ConcatLength(b, blocks[..m]);
    if k < m {
      ConcatSlice(b, blocks[..m], k, lo, hi);
      SliceOfPrefix(Concat(blocks[..m]), blocks[m], Off(b, k) + lo, Off(b, k) + hi);
    } else {
      SliceOfSuffix(Concat(blocks[..m]), blocks[m], lo, hi);
    }
  }

  lemma SliceOfPrefix(f: seq<byte>, g: seq<byte>, lo: nat, hi: nat)
    requires lo <= hi <= |f|
    ensures (f + g)[lo..hi] == f[lo..hi]
  {
  }

  lemma SliceOfSuffix(f: seq<byte>, g: seq<byte>, lo: nat, hi: nat)
    requires lo <= hi <= |g|
    ensures (f + g)[|f| + lo..|f| + hi] == g[lo..hi]
  {
  }

  /** Overwriting inside block `k` overwrites the whole at the corresponding offset. */
  lemma {:induction false} ConcatUpdate(b: nat, blocks: seq<seq<byte>>, k: nat, n: nat, s: seq<byte>)
    requires AllSized(b, blocks) && k < |blocks| && n + |s| <= b
    ensures Off(b, k) + n + |s| <= |Concat(blocks)|
    ensures Concat(blocks[k := Overwrite(blocks[k], n, s)]) == Overwrite(Concat(blocks), Off(b, k) + n, s)
  {
    ConcatLength(b, blocks);
    OffMonotone(b, k + 1, |blocks|);
    var m := |blocks| - 1;
    var updated := blocks[k := Overwrite(blocks[k], n, s)];
    ConcatLength(b, blocks[..m]);
    if k < m {
      ConcatUpdate(b, blocks[..m], k, n, s);
      assert updated[..m] == blocks[..m][k := Overwrite(blocks[k], n, s)];
      OverwritePrefix(Concat(blocks[..m]), blocks[m], Off(b, k) + n, s);
    } else {
      assert updated[..m] == blocks[..m];
      OverwriteSuffix(Concat(blocks[..m]), blocks[m], n, s);
    }
  }

  lemma OverwriteParts(f: seq<byte>, p: nat, s: seq<byte>)
    requires p + |s| <= |f|
    ensures Overwrite(f, p, s)[..p + |s|] == f[..p] + s && Overwrite(f, p, s)[p + |s|..] == f[p + |s|..]
  {
  }

  lemma OverwritePrefix(f: seq<byte>, g: seq<byte>, p: nat, s: seq<byte>)
    requires p + |s| <= |f|
    ensures Overwrite(f + g, p, s) == Overwrite(f, p, s) + g
  {
  }

  lemma OverwriteSuffix(f: seq<byte>, g: seq<byte>, p: nat, s: seq<byte>)
    requires p + |s| <= |g|
    ensures Overwrite(f + g, |f| + p, s) == f + Overwrite(g, p, s)
  {
  }

  /** `len` bytes from byte `at` of block `i` on, block after block. */
  ghost function Run(b: nat, blocks: seq<seq<byte>>, i: nat, at: nat, len: nat): seq<byte>
    requires AllSized(b, blocks) && at < b && Off(b, i) + at + len <= Off(b, |blocks|)
    decreases len
  {
    if len == 0 then
      []
    else
      BlockInRange(b, i, at, |blocks|);
      if b - at >= len then blocks[i][at..at + len] else blocks[i][at..b] + Run(b, blocks, i + 1, 0, len - (b - at))
  }

  lemma {:induction false} RunIsSlice(b: nat, blocks: seq<seq<byte>>, i: nat, at: nat, len: nat)
    requires AllSized(b, blocks) && at < b && Off(b, i) + at + len <= Off(b, |blocks|)
    ensures |Concat(blocks)| == Off(b, |blocks|)
    ensures Run(b, blocks, i, at, len) == Concat(blocks)[Off(b, i) + at..Off(b, i) + at + len]
    decreases len
  {
    ConcatLength(b, blocks);
    if len > 0 {
      BlockInRange(b, i, at, |blocks|);
      if b - at < len {
        ConcatSlice(b, blocks, i, at, b);
        RunIsSlice(b, blocks, i + 1, 0, len - (b - at));
        SliceSplit(Concat(blocks), Off(b, i) + at, Off(b, i + 1), Off(b, i) + at + len);
      } else {
        ConcatSlice(b, blocks, i, at, at + len);
      }
    }
  }
}
