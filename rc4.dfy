/** The RC4 cipher object: a 256-entry table and two indices that
    NewCipher fills in, XORKeyStream advances in place, and Reset wipes.
    Every method is proved against the functions of `Rc4Spec`.

    The caller's buffers live in one memory array `mem`; a destination or a
    source slice is an interval of it (see `Memory`). */
module Rc4 {

  import opened Bytes
  import opened Memory
  import opened Rc4Spec

  /** An instance of RC4 using a particular key. */
  class Cipher {
    /** The permutation table. */
    const s: array<byte>
    /** The running indices of the PRGA. */
    var i: byte
    var j: byte

    /** The table always has its 256 entries. */
    ghost predicate Valid()
      reads this
    {
      s.Length == 256
    }

    /** The cipher's state as a value. */
    ghost function Current(): (r: State)
      reads this, s
      ensures Valid() ==> WellSized(r)
    {
      State(s[..], i, j)
    }

    /** The zero value of the cipher: every entry and both indices zero. */
    constructor ()
      ensures Valid() && fresh(s)
      ensures Current() == State(Zeroed(), 0, 0)
    {
      s := new byte[256](p => 0);
      i, j := 0, 0;
    }

    /** Reset: every table entry and both indices become zero. The table is
        then no permutation, so the cipher no longer produces RC4 output
        (see `ZeroedIsNoPermutation`). */
    method Reset()
      requires Valid()
      modifies this, s
      ensures Valid()
      ensures Current() == State(Zeroed(), 0, 0)
    {
      var n := 0;
      while n < s.Length
        invariant 0 <= n <= s.Length
        invariant forall p :: 0 <= p < n ==> s[p] == 0
      {
        s[n] := 0;
        n := n + 1;
      }
      i, j := 0, 0;
    }

    /** XORKeyStream: writes src XOR the next |src| keystream bytes to the
        first |src| bytes of dst and advances the state by |src| steps. No
        other memory changes. Source and destination must be the very same
        bytes or not overlap at all; an empty source changes nothing. */
    method XORKeyStream(mem: array<byte>, dst: Slice, src: Slice)
      requires Valid() && mem != s
      requires InMemory(dst, mem.Length) && InMemory(src, mem.Length)
      requires src.len > 0 ==> dst.len >= src.len && !InexactOverlap(Prefix(dst, src.len), src)
      modifies this, s, mem
      ensures Valid()
      ensures var (out, st) := XorKeyStream(old(Current()), Load(old(mem[..]), src));
              mem[..] == Store(old(mem[..]), dst.start, out) && Current() == st
      ensures src.len == 0 ==> mem[..] == old(mem[..]) && Current() == old(Current())
    {
      if src.len == 0 {
        assert Load(mem[..], src) == [];
        assert Store(mem[..], dst.start, []) == mem[..];
        return;
      }
      ExactOrDisjoint(Prefix(dst, src.len), src);
      Stream(mem, dst.start, src);
    }

    /** The loop of XORKeyStream: for k = 0 .. |src| - 1, one PRGA step,
        then byte k of src XOR the keystream byte is written to address
        `at + k`; the indices are stored back at the end. The destination
        either starts where src does or shares no byte with it. */
    method Stream(mem: array<byte>, at: nat, src: Slice)
      requires Valid() && mem != s
      requires InMemory(src, mem.Length) && at + src.len <= mem.Length
      requires at == src.start || at + src.len <= src.start || src.start + src.len <= at
      modifies this, s, mem
      ensures var (out, st) := XorKeyStream(old(Current()), Load(old(mem[..]), src));
              mem[..] == Store(old(mem[..]), at, out) && Current() == st
    {
      ghost var m0 := mem[..];
      ghost var st0 := Current();
      ghost var data := Load(m0, src);
      ghost var out := XorKeyStream(st0, data).0;
      var ii, jj := i, j;
      var k := 0;
      while k < src.len
        invariant 0 <= k <= src.len
        invariant State(s[..], ii, jj) == Advance(st0, k)
        invariant mem[..] == Store(m0, at, out[..k])
      {
        WriteNext(m0, at, src, st0, k);
        var v := mem[src.start + k];
        var w;
        ii, jj, w := Step(ii, jj);
        mem[at + k] := XorByte(v, w);
        k := k + 1;
      }
      i, j := ii, jj;
      assert out[..src.len] == out;
    }

    /** The body of the XORKeyStream loop on the table, with the running
        indices held in locals: i moves on by one, j gains the entry at i,
        the two entries trade places, and the entry at x + y is the
        keystream byte `w`. */
    method Step(i0: byte, j0: byte) returns (i1: byte, j1: byte, w: byte)
      requires Valid()
      modifies s
      ensures State(s[..], i1, j1) == Next(old(State(s[..], i0, j0)))
      ensures w == Output(State(s[..], i1, j1))
    {
      ghost var prev := State(s[..], i0, j0);
      i1 := Add8(i0, 1);
      var x := s[i1];
      j1 := Add8(j0, x);
      var y := s[j1];
      s[i1], s[j1] := y, x;
      w := s[Add8(x, y)];
      NextStep(prev);
    }

    /** Encrypt is XORKeyStream. */
    method Encrypt(mem: array<byte>, dst: Slice, src: Slice)
      requires Valid() && mem != s
      requires InMemory(dst, mem.Length) && InMemory(src, mem.Length)
      requires src.len > 0 ==> dst.len >= src.len && !InexactOverlap(Prefix(dst, src.len), src)
      modifies this, s, mem
      ensures Valid()
      ensures var (out, st) := XorKeyStream(old(Current()), Load(old(mem[..]), src));
              mem[..] == Store(old(mem[..]), dst.start, out) && Current() == st
    {
      XORKeyStream(mem, dst, src);
    }

    /** Decrypt is XORKeyStream. */
    method Decrypt(mem: array<byte>, dst: Slice, src: Slice)
      requires Valid() && mem != s
      requires InMemory(dst, mem.Length) && InMemory(src, mem.Length)
      requires src.len > 0 ==> dst.len >= src.len && !InexactOverlap(Prefix(dst, src.len), src)
      modifies this, s, mem
      ensures Valid()
      ensures var (out, st) := XorKeyStream(old(Current()), Load(old(mem[..]), src));
              mem[..] == Store(old(mem[..]), dst.start, out) && Current() == st
    {
      XORKeyStream(mem, dst, src);
    }
  }

  /** NewCipher: a key of 1 to 256 bytes yields a fresh cipher holding the
      scheduled state (a permutation, both indices zero); any other length
      yields a KeySizeError carrying that length. */
  method NewCipher(key: seq<byte>) returns (r: Result<Cipher>)
    ensures r.Failure? <==> |key| < 1 || |key| > 256
    ensures r.Failure? ==> r.error == KeySizeError(|key|)
    ensures r.Success? ==> fresh(r.value) && fresh(r.value.s) && r.value.Valid() &&
                           r.value.Current() == Schedule(key).value
  {
    var k := |key|;
    if k < 1 || k > 256 {
      return Failure(KeySizeError(k));
    }
    var c := new Cipher();
    FillIdentity(c.s);
    Scramble(c.s, key);
    return Success(c);
  }

  /** The first loop of NewCipher: entry p of the table becomes p. */
  method FillIdentity(t: array<byte>)
    requires t.Length == 256
    modifies t
    ensures t[..] == Identity()
  {
    var n := 0;
    while n < 256
      invariant 0 <= n <= 256
      invariant forall p :: 0 <= p < n ==> t[p] == p
    {
      t[n] := n;
      n := n + 1;
    }
  }

  /** The second loop of NewCipher: the 256 KSA rounds over the identity
      table. */
  method Scramble(t: array<byte>, key: seq<byte>)
    requires t.Length == 256 && 1 <= |key| <= 256
    requires t[..] == Identity()
    modifies t
    ensures t[..] == KsaRounds(key, 256).0
  {
    var j: byte := 0;
    var n := 0;
    while n < 256
      invariant 0 <= n <= 256
      invariant t[..] == KsaRounds(key, n).0 && j == KsaRounds(key, n).1
    {
      ghost var prev := t[..];
      j := Add8(j, Add8(t[n], key[n % |key|]));
      t[n], t[j] := t[j], t[n];
      assert t[..] == Swap(prev, n, j);
      assert (t[..], j) == KsaRound(key, n, prev, KsaRounds(key, n).1);
      n := n + 1;
    }
  }

  /** One iteration of the XORKeyStream loop on memory: with the first k
      output bytes written, the source byte k is still the original one (the
      destination either starts where the source does or lies apart from
      it), and writing output byte k next extends what is written by one
      byte. */
  lemma WriteNext(m0: seq<byte>, at: nat, src: Slice, st0: State, k: nat)
    requires InMemory(src, |m0|) && at + src.len <= |m0| && k < src.len
    requires at == src.start || at + src.len <= src.start || src.start + src.len <= at
    ensures var data := Load(m0, src);
            var out := XorKeyStream(st0, data).0;
            var written := Store(m0, at, out[..k]);
            written[src.start + k] == data[k] &&
            Store(m0, at, out[..k + 1]) ==
              written[at + k := XorByte(data[k], Output(Advance(st0, k + 1)))]
  {
    var data := Load(m0, src);
    var out := XorKeyStream(st0, data).0;
    StoreAt(m0, at, out[..k], src.start + k);
    LoadAt(m0, src, k);
    XorKeyStreamStep(st0, data, k);
    StoreExtend(m0, at, out[..k], XorByte(data[k], Output(Advance(st0, k + 1))));
  }
}
