/** Byte buffers as address intervals in one abstract memory, and the
    overlap guard that XORKeyStream applies to its destination and source.

    A Go slice `x []byte` is modelled by the address of its first element and
    its length; element p of the slice lives at address `start + p`. Memory
    itself is a sequence of bytes indexed by address. */
module Memory {

  import opened Bytes

  /** A byte slice: `len` consecutive bytes starting at address `start`. */
  datatype Slice = Slice(start: nat, len: nat)

  /** Address of element `p` of slice `x` (`&x[p]`). */
  function Addr(x: Slice, p: int): (r: int) {
    x.start + p
  }

  /** The slice lies inside a memory of `size` bytes. */
  predicate InMemory(x: Slice, size: nat) {
    x.start + x.len <= size
  }

  /** The first `n` elements of `x` (`x[:n]`). */
  function Prefix(x: Slice, n: nat): (r: Slice)
    requires n <= x.len
    ensures r.start == x.start && r.len == n
  {
    Slice(x.start, n)
  }

  /** anyOverlap: both slices are non-empty and the address range of each
      starts no later than the last address of the other. */
  predicate AnyOverlap(x: Slice, y: Slice) {
    x.len > 0 && y.len > 0 &&
    Addr(x, 0) <= Addr(y, y.len - 1) &&
    Addr(y, 0) <= Addr(x, x.len - 1)
  }

  /** inexactOverlap: false for an empty slice or for two slices whose first
      elements are at the same address; otherwise anyOverlap. */
  predicate InexactOverlap(x: Slice, y: Slice) {
    if x.len == 0 || y.len == 0 || Addr(x, 0) == Addr(y, 0) then false
    else AnyOverlap(x, y)
  }

  /** Element p of x and element q of y are the same byte of memory. */
  predicate SharedAt(x: Slice, y: Slice, p: int, q: int) {
    0 <= p < x.len && 0 <= q < y.len && Addr(x, p) == Addr(y, q)
  }

  /** anyOverlap holds exactly when the two slices share some byte of memory,
      at whatever indices. */
  lemma AnyOverlapIsSharing(x: Slice, y: Slice)
    ensures AnyOverlap(x, y) <==> exists p, q :: SharedAt(x, y, p, q)
  {
    if AnyOverlap(x, y) {
      if x.start <= y.start {
        assert SharedAt(x, y, y.start - x.start, 0);
      } else {
        assert SharedAt(x, y, 0, x.start - y.start);
      }
    }
  }

  /** inexactOverlap holds exactly when the slices share a byte of memory at
      two different indices; slices of different lengths that start at the
      same address have no inexact overlap. */
  lemma InexactOverlapIsNonCorresponding(x: Slice, y: Slice)
    ensures InexactOverlap(x, y) <==> exists p, q :: SharedAt(x, y, p, q) && p != q
  {
    AnyOverlapIsSharing(x, y);
    if InexactOverlap(x, y) {
      var p, q :| SharedAt(x, y, p, q);
      assert p != q;
    }
  }

  /** Two slices of the same non-zero length without inexact overlap are
      either the very same bytes or share no byte at all. */
  lemma ExactOrDisjoint(x: Slice, y: Slice)
    requires x.len == y.len > 0
    requires !InexactOverlap(x, y)
    ensures x.start == y.start || x.start + x.len <= y.start || y.start + y.len <= x.start
  {
  }

  /** The bytes of slice `x` in memory `m`. */
  function Load(m: seq<byte>, x: Slice): (r: seq<byte>)
    requires InMemory(x, |m|)
    ensures |r| == x.len
  {
    m[x.start..x.start + x.len]
  }

  /** Memory `m` with `data` written from address `at` on and every other
      byte unchanged. */
  function Store(m: seq<byte>, at: nat, data: seq<byte>): (r: seq<byte>)
    requires at + |data| <= |m|
    ensures |r| == |m|
  {
    m[..at] + data + m[at + |data|..]
  }

  /** Byte p of a loaded slice is the byte at its address. */
  lemma LoadAt(m: seq<byte>, x: Slice, p: nat)
    requires InMemory(x, |m|) && p < x.len
    ensures Load(m, x)[p] == m[Addr(x, p)]
  {
  }

  /** After a store, the bytes from `at` on hold `data` and every other
      byte is as before. */
  lemma StoreAt(m: seq<byte>, at: nat, data: seq<byte>, a: nat)
    requires at + |data| <= |m| && a < |m|
    ensures Store(m, at, data)[a] == if at <= a < at + |data| then data[a - at] else m[a]
  {
  }

  /** Storing one more byte after `data` is storing `data` and then writing
      that byte at the next address. */
  lemma StoreExtend(m: seq<byte>, at: nat, data: seq<byte>, b: byte)
    requires at + |data| < |m|
    ensures Store(m, at, data + [b]) == Store(m, at, data)[at + |data| := b]
  {
  }
}
