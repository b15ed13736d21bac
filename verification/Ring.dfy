/** Rings of 2^N cells: positions taken modulo the size, and block transfers that are split in two
    at the end of the array. */
module Ring {

  /** `x & (size - 1)` for a position at most one turn ahead. */
  function Wrap(x: int, n: nat): (r: int)
    requires 0 <= x < 2 * n
    ensures 0 <= r < n
  {
    if x < n then x else x - n
  }

  lemma WrapIsMod(x: int, n: nat)
    requires 0 <= x < 2 * n
    ensures Wrap(x, n) == x % n
  {
    if x >= n {
      assert x == 1 * n + (x - n);
    }
  }

  lemma WrapAdd(x: int, a: nat, b: nat, n: nat)
    requires 0 <= x < n && a + b < n
    ensures Wrap(Wrap(x + a, n) + b, n) == Wrap(x + a + b, n) && Wrap(x, n) == x
  {
  }

  /** `len` cells of the ring `b` from position `pos` on. */
  function Slice<T>(b: seq<T>, pos: int, len: nat): (r: seq<T>)
    requires 0 <= pos < |b| && len <= |b|
    ensures |r| == len && forall k :: 0 <= k < len ==> r[k] == b[Wrap(pos + k, |b|)]
  {
    seq(len, k requires 0 <= k < len => b[Wrap(pos + k, |b|)])
  }

  /** The ring after `src` has been copied to position `pos`, in two parts if it must. */
  function Written<T>(b: seq<T>, pos: int, src: seq<T>): (r: seq<T>)
    requires 0 <= pos < |b| && |src| <= |b|
    ensures |r| == |b|
  {
    if pos + |src| <= |b| then
      b[..pos] + src + b[pos + |src|..]
    else
      var first := |b| - pos;
      src[first..] + b[|src| - first..pos] + src[..first]
  }

  /** memcpy of `src` to position `pos` of a buffer it fits in. */
  function Pasted<T>(b: seq<T>, pos: int, src: seq<T>): (r: seq<T>)
    requires 0 <= pos && pos + |src| <= |b|
    ensures |r| == |b|
  {
    b[..pos] + src + b[pos + |src|..]
  }

  /** The two memcpy calls make up the write. */
  lemma TwoCopies<T>(b: seq<T>, pos: int, src: seq<T>)
    requires 0 <= pos < |b| && |src| <= |b| < pos + |src|
    ensures var first := |b| - pos; Pasted(Pasted(b, pos, src[..first]), 0, src[first..]) == Written(b, pos, src)
  {
    var first := |b| - pos;
    assert Pasted(b, pos, src[..first]) == b[..pos] + src[..first];
  }

  lemma WrittenAt<T>(b: seq<T>, pos: int, src: seq<T>, j: nat)
    requires 0 <= pos < |b| && |src| <= |b| && j < |b|
    ensures Written(b, pos, src)[Wrap(pos + j, |b|)] == if j < |src| then src[j] else b[Wrap(pos + j, |b|)]
  {
  }

  /** Writing behind the cells in use extends them. */
  lemma WriteExtends<T>(b: seq<T>, head: int, used: nat, src: seq<T>)
    requires 0 <= head < |b| && used < |b| && used + |src| <= |b|
    ensures Slice(Written(b, Wrap(head + used, |b|), src), head, used + |src|) == Slice(b, head, used) + src
  {
    var n, tail := |b|, Wrap(head + used, |b|);
    var l, r := Slice(Written(b, tail, src), head, used + |src|), Slice(b, head, used) + src;
    forall k | 0 <= k < used + |src| ensures l[k] == r[k] {
      var j := if k < used then k + n - used else k - used;
      assert Wrap(head + k, n) == Wrap(tail + j, n);
      WrittenAt(b, tail, src, j);
    }
  }

  /** Any `k` cells from the front can be taken off. */
  lemma SliceSplit<T>(b: seq<T>, pos: int, len: nat, k: nat)
    requires 0 <= pos < |b| && k <= len <= |b|
    ensures Slice(b, pos, k) == Slice(b, pos, len)[..k]
    ensures k < |b| ==> Slice(b, Wrap(pos + k, |b|), len - k) == Slice(b, pos, len)[k..]
  {
  }

  /** A block transfer out of the ring, in two parts if it must, reads the slice. */
  function Parts<T>(b: seq<T>, pos: int, len: nat): seq<T>
    requires 0 <= pos < |b| && len <= |b|
  {
    if pos + len > |b| then b[pos..] + b[..len - (|b| - pos)] else b[pos..pos + len]
  }

  lemma PartsAreSlice<T>(b: seq<T>, pos: int, len: nat)
    requires 0 <= pos < |b| && len <= |b|
    ensures Parts(b, pos, len) == Slice(b, pos, len)
  {
  }
}
