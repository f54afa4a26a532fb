# RC4 stream cipher (pschou/go-cipher, `rc4.go`)

This project models the RC4 implementation of the Go package `rc4` and
proves properties of the model in Dafny. It covers:

- the cipher object `rc4Cipher`: a 256-entry permutation table `s` and the
  two indices `i` and `j`;
- `NewCipher`: the key-scheduling algorithm (KSA), which rejects keys
  shorter than 1 or longer than 256 bytes with a `KeySizeError`;
- `XORKeyStream`: the pseudorandom generation algorithm (PRGA), which XORs
  the keystream into a destination buffer;
- `Encrypt` and `Decrypt`, which are both `XORKeyStream`;
- `Reset`, which wipes the state;
- the buffer-overlap guard `inexactOverlap` / `anyOverlap`.

Layout:

- `bytes.dfy` (module `Bytes`): bytes as integers 0 .. 255, the
  wrap-around sum of Go's `uint8` (`Add8`) and Go's `^` on bytes, defined
  bit by bit (`XorByte`).
- `memory.dfy` (module `Memory`): Go byte slices as address intervals
  `Slice(start, len)` in one memory array, `AnyOverlap` / `InexactOverlap`,
  and `Load` / `Store` of a slice's bytes.
- `rc4spec.dfy` (module `Rc4Spec`): RC4 as pure functions on a value
  `State(s, i, j)` (`Schedule`, `Next`, `Output`, `Advance`, `KeyStream`,
  `XorKeyStream`), with the lemmas about them.
- `rc4.dfy` (module `Rc4`): the imperative code.
  - Class `Cipher` holds the table as an `array<byte>` and the indices as
    fields.
  - `NewCipher`, `Reset` and `XORKeyStream` run the source's loops.
  - Each is proved against the functions of `Rc4Spec`.

`Cipher.Valid()` asks only that the table has 256 entries, not that it is
a permutation: the zero-value constructor and `Reset` leave an all-zero
table, which is none (`ZeroedIsNoPermutation`). A caller obtains the
permutation from `NewCipher`'s ensures (`Schedule`) and keeps it across
`XORKeyStream` calls through `XorKeyStreamKeepsPermutation`.

Only the table's entries are modelled, not the representation of the
state as a whole. `Next` and `Output` are total: they leave a state
without 256 entries unchanged or emit 0. No state the cipher holds is ever
of that kind, so this does not affect any result.

## Model

| member | source | states |
|---|---|---|
| Bytes.XorByteTwice | rc4.go:88 | XOR with the same keystream byte twice gives the original byte back: `(v ^ k) ^ k == v` |
| Memory.AnyOverlapIsSharing | rc4.go:93-99 | anyOverlap holds exactly when the two slices share a byte of memory at some pair of indices |
| Memory.InexactOverlapIsNonCorresponding | rc4.go:101-112 | inexactOverlap holds exactly when the slices share a byte of memory at two different indices |
| Memory.ExactOrDisjoint | rc4.go:71 | slices of equal non-zero length with no inexact overlap either start at the same address or share no byte ("overlap entirely or not at all") |
| Memory.StoreAt | rc4.go:81-88 | after writing the output, the bytes from the destination start on hold the output and every other byte is unchanged (dst beyond len(src) included) |
| Rc4Spec.IotaCounts | rc4.go:38-40 | the identity fill holds each value below n exactly once and nothing else |
| Rc4Spec.PermutationHoldsEachValueOnce | rc4.go:19-22 | a permutation table has 256 entries and holds every value 0 .. 255 exactly once |
| Rc4Spec.ZeroedIsNoPermutation | rc4.go:49-58 | the all-zero table Reset leaves is not a permutation, so a reset cipher is unusable |
| Rc4Spec.SwapKeepsEntries | rc4.go:44 | exchanging two table entries keeps the multiset of entries |
| Rc4Spec.KsaRoundsPermute | rc4.go:41-45 | after any number of KSA rounds the table is still a permutation |
| Rc4Spec.Schedule | rc4.go:32-47 | key scheduling fails exactly when the key length is below 1 or above 256, the error carries exactly that length, and on success the table is a permutation and i = j = 0 |
| Rc4Spec.NextStep | rc4.go:83-87 | one PRGA step moves i on by one, adds the new entry at i to j (mod 256), exchanges exactly the entries at i and j, and keeps the multiset of entries |
| Rc4Spec.AdvanceAdd | rc4.go:82-90 | m steps followed by n steps are m + n steps |
| Rc4Spec.AdvanceKeepsEntries | rc4.go:82-89 | any number of PRGA steps keeps the multiset of table entries |
| Rc4Spec.AdvanceLength | rc4.go:19-22 | PRGA steps never change the size of the table |
| Rc4Spec.AdvanceIndex | rc4.go:83 | after n steps i has advanced by n modulo 256 |
| Rc4Spec.KeyStreamAt | rc4.go:82-88 | keystream byte k is the byte emitted by step k + 1, however many bytes are produced |
| Rc4Spec.XorAt | rc4.go:88 | output byte k is data byte k XOR keystream byte k |
| Rc4Spec.XorKeyStreamStep | rc4.go:82-88 | the output grows one byte per loop iteration: byte k is src byte k XOR the byte step k + 1 emits |
| Rc4Spec.KeyStreamSplit | rc4.go:79-90 | producing m and then n keystream bytes is producing m + n bytes |
| Rc4Spec.XorKeyStreamChunks | rc4.go:72-91 | processing `a + b` in one call gives the same output and final state as processing `a` and then `b` |
| Rc4Spec.XorKeyStreamKeepsPermutation | rc4.go:82-90 | XORKeyStream leaves a permutation table a permutation |
| Rc4Spec.EncryptThenDecrypt | rc4.go:62-68 | two ciphers from the same key: decrypting the ciphertext of `plain` gives `plain` back |
| Rc4.Cipher.constructor | rc4.go:37 | the zero value of the cipher: all table entries and both indices are zero |
| Rc4.Cipher.Reset | rc4.go:53-58 | every table entry and both indices become zero |
| Rc4.Cipher.XORKeyStream | rc4.go:72-91 | memory afterwards is the old memory with src XOR the next len(src) keystream bytes written at dst; the state has advanced len(src) steps; an empty src changes nothing; requires dst at least as long as src and no inexact overlap |
| Rc4.Cipher.Stream | rc4.go:79-90 | the loop of XORKeyStream, with the same result, for a destination that starts where src does or lies apart from it |
| Rc4.Cipher.Step | rc4.go:83-88 | the loop body on the table: the new state is one PRGA step on the old one, and the byte read at x + y is that step's keystream byte |
| Rc4.WriteNext | rc4.go:81-88 | in iteration k, source byte k is still the original byte (exact aliasing is safe), and writing output byte k extends the written prefix by one |
| Rc4.Cipher.Encrypt | rc4.go:66-68 | the same result as XORKeyStream |
| Rc4.Cipher.Decrypt | rc4.go:62-64 | the same result as XORKeyStream |
| Rc4.NewCipher | rc4.go:32-47 | fails exactly for key lengths outside 1 .. 256 with KeySizeError(len(key)); otherwise returns a fresh cipher whose state is the scheduled one (a permutation, i = j = 0) |
| Rc4.FillIdentity | rc4.go:38-40 | the first loop leaves entry p holding p |
| Rc4.Scramble | rc4.go:41-45 | the second loop leaves the table after all 256 KSA rounds |

## Left out

- `KeySizeError.Error` (rc4.go:26-28) builds a message with `strconv`. String formatting is not modelled. The error value carries the key length, and that is modelled.
- `BlockSize` and the `cipher.Block` interface are not modelled. `NewCipher` returns the concrete `Cipher`.
- The source stores table entries as `uint32` (rc4.go:20); the model stores bytes. Every value stored is below 256, and only `uint8` views of entries feed the index arithmetic (rc4.go:43, :85, :88). At rc4.go:88 the sum `x + y` of two entries is below 512, so it cannot wrap in `uint32`, and `uint8(x+y)` equals `Add8(x, y)`.
- Memory addresses come from `unsafe.Pointer` in the source. The model uses the intervals of one memory array instead.
  - The cipher's own table is not part of that memory (`mem != s`).
  - Slice capacities are not modelled. The source panics unless len(dst) >= len(src), so only the lengths matter.
- The two panics of XORKeyStream are preconditions: an inexact overlap, and a destination shorter than the source.
- Reset's caveat that the key may survive elsewhere in process memory is not modelled. Neither is the memory-hygiene intent behind it.
- The known-answer test in `rc4_test.go` is not reproduced as a concrete evaluation. It would take the verifier through 256 concrete KSA rounds.
- Concurrent use of one cipher is not modelled. The source does not synchronise it either.
