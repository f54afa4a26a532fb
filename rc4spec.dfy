/** The RC4 algorithm as pure functions: the key-scheduling algorithm (KSA),
    the pseudorandom generation algorithm (PRGA) and the XOR of a keystream
    into data, with the properties the cipher relies on.

    Table entries, key bytes, data bytes and the indices `i` and `j` are all
    bytes (0 .. 255), and every index sum wraps modulo 256 (`Add8`), as the
    source's `uint8` arithmetic does. */
module Rc4Spec {

  import opened Bytes

  /** The cipher state: the table of 256 entries and the two running
      indices. */
  datatype State = State(s: seq<byte>, i: byte, j: byte)

  /** The table has its 256 entries. */
  predicate WellSized(st: State) {
    |st.s| == 256
  }

  /** The values 0 .. n-1 in increasing order. */
  function Iota(n: nat): (r: seq<byte>)
    requires n <= 256
    ensures |r| == n
  {
    if n == 0 then [] else Iota(n - 1) + [n - 1]
  }

  /** Entry p of `Iota(n)` is p. */
  lemma {:induction false} IotaAt(n: nat)
    requires n <= 256
    ensures forall p :: 0 <= p < n ==> Iota(n)[p] == p
  {
    if n > 0 {
      IotaAt(n - 1);
    }
  }

  /** The identity table the KSA starts from: entry p holds p. */
  function Identity(): (r: seq<byte>)
    ensures |r| == 256
    ensures forall p :: 0 <= p < 256 ==> r[p] == p
  {
    IotaAt(256);
    Iota(256)
  }

  /** `t` holds each of the values 0 .. 255 as often as the identity does. */
  ghost predicate IsPermutation(t: seq<byte>) {
    multiset(t) == multiset(Identity())
  }

  /** Each value below n occurs exactly once among the first n values, and
      no other value occurs. */
  lemma {:induction false} IotaCounts(n: nat, v: int)
    requires n <= 256
    ensures multiset(Iota(n))[v] == if 0 <= v < n then 1 else 0
  {
    if n > 0 {
      IotaCounts(n - 1, v);
      var prev, last: seq<byte> := Iota(n - 1), [n - 1];
      assert multiset(Iota(n)) == multiset(prev) + multiset(last);
      assert multiset(last)[v] == if v == n - 1 then 1 else 0;
    }
  }

  /** A permutation table has 256 entries, holds every value 0 .. 255
      exactly once and holds nothing else. */
  lemma PermutationHoldsEachValueOnce(t: seq<byte>)
    requires IsPermutation(t)
    ensures |t| == 256
    ensures forall v :: multiset(t)[v] == if 0 <= v < 256 then 1 else 0
  {
    assert |t| == |multiset(t)| == |multiset(Identity())| == 256;
    forall v ensures multiset(t)[v] == if 0 <= v < 256 then 1 else 0 {
      IotaCounts(256, v);
    }
  }

  /** The table that Reset leaves behind: 256 zero entries. */
  function Zeroed(): (r: seq<byte>)
    ensures |r| == 256 && forall p :: 0 <= p < 256 ==> r[p] == 0
  {
    seq(256, p => 0)
  }

  /** A wiped table is not a permutation: it lacks the value 1. */
  lemma ZeroedIsNoPermutation()
    ensures !IsPermutation(Zeroed())
  {
    IotaCounts(256, 1);
    assert 1 !in multiset(Zeroed());
  }

  /** Exchange entries a and b of the table. */
  function Swap(t: seq<byte>, a: byte, b: byte): (r: seq<byte>)
    requires a < |t| && b < |t|
    ensures |r| == |t|
  {
    t[a := t[b]][b := t[a]]
  }

  /** Exchanging two entries keeps the multiset of entries. */
  lemma SwapKeepsEntries(t: seq<byte>, a: byte, b: byte)
    requires a < |t| && b < |t|
    ensures multiset(Swap(t, a, b)) == multiset(t)
  {
  }

  /** The state (table and accumulator j) after round r of the KSA: j gains
      entry r and key byte `r mod |key|`, then entries r and j trade places. */
  function KsaRound(key: seq<byte>, r: byte, t: seq<byte>, j: byte): (res: (seq<byte>, byte))
    requires |key| >= 1 && |t| == 256
    ensures |res.0| == 256
  {
    var j' := Add8(j, Add8(t[r], key[r % |key|]));
    (Swap(t, r, j'), j')
  }

  /** The first `n` rounds of the KSA, from the identity table and j = 0. */
  function KsaRounds(key: seq<byte>, n: nat): (r: (seq<byte>, byte))
    requires 1 <= |key| && n <= 256
    ensures |r.0| == 256
  {
    if n == 0 then (Identity(), 0)
    else
      var prev := KsaRounds(key, n - 1);
      KsaRound(key, n - 1, prev.0, prev.1)
  }

  /** Every KSA round only exchanges two entries, so the table stays a
      permutation throughout key scheduling. */
  lemma {:induction false} KsaRoundsPermute(key: seq<byte>, n: nat)
    requires 1 <= |key| && n <= 256
    ensures IsPermutation(KsaRounds(key, n).0)
  {
    if n > 0 {
      KsaRoundsPermute(key, n - 1);
      var prev := KsaRounds(key, n - 1);
      var j' := Add8(prev.1, Add8(prev.0[n - 1], key[(n - 1) % |key|]));
      SwapKeepsEntries(prev.0, n - 1, j');
    }
  }

  /** Why key scheduling fails: the offending key length. */
  datatype KeySizeError = KeySizeError(size: int)

  /** The outcome of key scheduling. */
  datatype Result<T> = Success(value: T) | Failure(error: KeySizeError)

  /** Key scheduling: a key of 1 to 256 bytes yields the table after all 256
      KSA rounds with both indices zero; any other length yields a
      KeySizeError carrying that length. */
  function Schedule(key: seq<byte>): (r: Result<State>)
    ensures r.Failure? <==> |key| < 1 || |key| > 256
    ensures r.Failure? ==> r.error == KeySizeError(|key|)
    ensures r.Success? ==> WellSized(r.value) && IsPermutation(r.value.s) && r.value.i == 0 && r.value.j == 0
  {
    if |key| < 1 || |key| > 256 then Failure(KeySizeError(|key|))
    else
      KsaRoundsPermute(key, 256);
      Success(State(KsaRounds(key, 256).0, 0, 0))
  }

  /** The state update of one PRGA step: i advances by one, j gains the
      entry at the new i, and the entries at i and j trade places. (A state
      without its 256 entries, which the cipher never holds, is left as it
      is.) */
  function Next(st: State): (r: State)
    ensures |r.s| == |st.s|
  {
    if !WellSized(st) then st else
    var i := Add8(st.i, 1);
    var j := Add8(st.j, st.s[i]);
    State(Swap(st.s, i, j), i, j)
  }

  /** One PRGA step keeps the multiset of entries; on a full table it moves
      i one place on, adds the new entry at i to j, and exchanges exactly
      the entries at i and j. */
  lemma NextStep(st: State)
    ensures multiset(Next(st).s) == multiset(st.s)
    ensures var r := Next(st);
            WellSized(st) ==>
              r.i == Add8(st.i, 1) && r.j == Add8(st.j, st.s[r.i]) &&
              r.s[r.i] == st.s[r.j] && r.s[r.j] == st.s[r.i] &&
              forall p :: 0 <= p < 256 && p != r.i && p != r.j ==> r.s[p] == st.s[p]
  {
  }

  /** The keystream byte a PRGA step emits, read from the state the step
      produced: with x the entry that moved from i to j and y the entry that
      moved from j to i, it is the entry at x + y (mod 256). */
  function Output(st: State): (r: byte)
  {
    if !WellSized(st) then 0 else
    st.s[Add8(st.s[st.j], st.s[st.i])]
  }

  /** The state after n PRGA steps. */
  function Advance(st: State, n: nat): (r: State)
  {
    if n == 0 then st else Next(Advance(st, n - 1))
  }

  /** The first n keystream bytes produced from `st`, one per PRGA step. */
  function KeyStream(st: State, n: nat): (r: seq<byte>)
    ensures |r| == n
  {
    if n == 0 then [] else KeyStream(st, n - 1) + [Output(Advance(st, n))]
  }

  /** Byte-wise exclusive or of `data` with the first |data| keystream bytes. */
  function Xor(data: seq<byte>, ks: seq<byte>): (r: seq<byte>)
    requires |data| <= |ks|
    ensures |r| == |data|
  {
    if |data| == 0 then []
    else Xor(data[..|data| - 1], ks) + [XorByte(data[|data| - 1], ks[|data| - 1])]
  }

  /** XORKeyStream on values: the output and the state after it. */
  function XorKeyStream(st: State, src: seq<byte>): (r: (seq<byte>, State))
    ensures |r.0| == |src|
  {
    (Xor(src, KeyStream(st, |src|)), Advance(st, |src|))
  }

  /** Keystream byte k is the byte emitted by step k + 1, however many bytes
      are produced. */
  lemma {:induction false} KeyStreamAt(st: State, n: nat)
    ensures forall k :: 0 <= k < n ==> KeyStream(st, n)[k] == Output(Advance(st, k + 1))
  {
    if n > 0 {
      KeyStreamAt(st, n - 1);
    }
  }

  /** Byte k of the XOR is data byte k XOR keystream byte k. */
  lemma {:induction false} XorAt(data: seq<byte>, ks: seq<byte>)
    requires |data| <= |ks|
    ensures forall k :: 0 <= k < |data| ==> Xor(data, ks)[k] == XorByte(data[k], ks[k])
  {
    if |data| > 0 {
      XorAt(data[..|data| - 1], ks);
    }
  }

  /** XorKeyStream emits its output byte by byte: output byte k is data
      byte k XOR the byte emitted by step k + 1. */
  lemma XorKeyStreamStep(st: State, data: seq<byte>, k: nat)
    requires k < |data|
    ensures var out := XorKeyStream(st, data).0;
            out[..k + 1] == out[..k] + [XorByte(data[k], Output(Advance(st, k + 1)))]
  {
    KeyStreamAt(st, |data|);
    XorAt(data, KeyStream(st, |data|));
  }

  /** m steps followed by n steps are m + n steps. */
  lemma {:induction false} AdvanceAdd(st: State, m: nat, n: nat)
    ensures Advance(st, m + n) == Advance(Advance(st, m), n)
  {
    if n > 0 {
      AdvanceAdd(st, m, n - 1);
      assert Advance(st, m + n) == Next(Advance(st, m + (n - 1)));
    }
  }

  /** Generating keystream never changes the multiset of table entries, so
      a permutation stays a permutation. */
  lemma {:induction false} AdvanceKeepsEntries(st: State, n: nat)
    ensures multiset(Advance(st, n).s) == multiset(st.s)
  {
    if n > 0 {
      AdvanceKeepsEntries(st, n - 1);
      NextStep(Advance(st, n - 1));
    }
  }

  /** XORKeyStream leaves a permutation table a permutation, whatever the
      data. */
  lemma XorKeyStreamKeepsPermutation(st: State, src: seq<byte>)
    requires IsPermutation(st.s)
    ensures IsPermutation(XorKeyStream(st, src).1.s)
  {
    AdvanceKeepsEntries(st, |src|);
  }

  /** Generating keystream never changes the size of the table. */
  lemma {:induction false} AdvanceLength(st: State, n: nat)
    ensures |Advance(st, n).s| == |st.s|
  {
    if n > 0 {
      AdvanceLength(st, n - 1);
    }
  }

  /** A PRGA step moves i on by one. */
  lemma NextIndex(st: State)
    requires WellSized(st)
    ensures Next(st).i == Add8(st.i, 1)
  {
  }

  /** Adding one with wrap-around to a residue modulo 256. */
  lemma Add8OneMod(x: nat)
    ensures Add8(x % 256, 1) == (x + 1) % 256
  {
  }

  /** Index i counts the steps taken, modulo 256. */
  lemma {:induction false} AdvanceIndex(st: State, n: nat)
    requires WellSized(st)
    ensures Advance(st, n).i == (st.i + n) % 256
  {
    if n > 0 {
      var prev := Advance(st, n - 1);
      assert prev.i == (st.i + (n - 1)) % 256 && WellSized(prev) by {
        AdvanceIndex(st, n - 1);
        AdvanceLength(st, n - 1);
      }
      assert Advance(st, n) == Next(prev);
      NextIndex(prev);
      Add8OneMod(st.i + (n - 1));
    }
  }

  /** Producing m and then n keystream bytes is producing m + n bytes. */
  lemma {:induction false} KeyStreamSplit(st: State, m: nat, n: nat)
    ensures KeyStream(st, m + n) == KeyStream(st, m) + KeyStream(Advance(st, m), n)
  {
    if n > 0 {
      KeyStreamSplit(st, m, n - 1);
      AdvanceAdd(st, m, n);
      assert KeyStream(st, m + n) == KeyStream(st, m + (n - 1)) + [Output(Advance(st, m + n))];
    }
  }

  /** Chunking does not matter: processing `a + b` in one call gives the
      output and final state of processing `a` and then `b`. */
  lemma XorKeyStreamChunks(st: State, a: seq<byte>, b: seq<byte>)
    ensures var (out1, st1) := XorKeyStream(st, a);
            var (out2, st2) := XorKeyStream(st1, b);
            XorKeyStream(st, a + b) == (out1 + out2, st2)
  {
    KeyStreamSplit(st, |a|, |b|);
    AdvanceAdd(st, |a|, |b|);
    var ks1, ks2 := KeyStream(st, |a|), KeyStream(Advance(st, |a|), |b|);
    XorAt(a + b, ks1 + ks2);
    XorAt(a, ks1);
    XorAt(b, ks2);
    assert Xor(a + b, ks1 + ks2) == Xor(a, ks1) + Xor(b, ks2);
  }

  /** Encryption and decryption are the same operation and undo each other:
      two states scheduled from the same key map the ciphertext of `plain`
      back to `plain`. */
  lemma EncryptThenDecrypt(key: seq<byte>, plain: seq<byte>)
    requires 1 <= |key| <= 256
    ensures var st := Schedule(key).value;
            XorKeyStream(st, XorKeyStream(st, plain).0).0 == plain
  {
    var st := Schedule(key).value;
    var ks := KeyStream(st, |plain|);
    XorAt(plain, ks);
    XorAt(Xor(plain, ks), ks);
    forall k | 0 <= k < |plain| ensures Xor(Xor(plain, ks), ks)[k] == plain[k] {
      XorByteTwice(plain[k], ks[k]);
    }
  }
}
