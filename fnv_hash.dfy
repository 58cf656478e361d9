/** The default byte hash of the hash map: 64-bit FNV-1a (Fowler–Noll–Vo).
    bv64 arithmetic wraps modulo 2^64 exactly as uint64_t does. */
module Fnv {

  /** The starting value as the code writes it. The published 64-bit FNV
      offset basis is 14695981039346656037; the code's literal lacks its
      last digit. */
  const OffsetBasis: bv64 := 1469598103934665603

  /** The 64-bit FNV prime. */
  const Prime: bv64 := 1099511628211

  /** One round: xor in a byte, then multiply by the prime (mod 2^64). */
  function Mix(hash: bv64, b: bv8): bv64 {
    (hash ^ (b as bv64)) * Prime
  }

  /** Feed `bytes` into an accumulator, first byte first. */
  function Fold(hash: bv64, bytes: seq<bv8>): bv64
    decreases |bytes|
  {
    if |bytes| == 0 then hash else Fold(Mix(hash, bytes[0]), bytes[1..])
  }

  /** FNV-1a of a byte string. */
  function Fnv1a(bytes: seq<bv8>): bv64 {
    Fold(OffsetBasis, bytes)
  }

  /** Folding a string with one more byte at the end mixes that byte into
      the fold of the string. */
  lemma {:induction false} FoldSnoc(hash: bv64, bytes: seq<bv8>, b: bv8)
    ensures Fold(hash, bytes + [b]) == Mix(Fold(hash, bytes), b)
    decreases |bytes|
  {
    if |bytes| == 0 {
      assert bytes + [b] == [b];
    } else {
      assert (bytes + [b])[1..] == bytes[1..] + [b];
      FoldSnoc(Mix(hash, bytes[0]), bytes[1..], b);
    }
  }

  /** The hash of the empty string is the offset constant, and appending a
      byte xors it in and multiplies by the prime, modulo 2^64. */
  lemma Fnv1aAppend(bytes: seq<bv8>, b: bv8)
    ensures Fnv1a([]) == 1469598103934665603
    ensures Fnv1a(bytes + [b]) == Mix(Fnv1a(bytes), b)
  {
    FoldSnoc(OffsetBasis, bytes, b);
  }

  /** fnv_1a_hash_bytes: the accumulating loop over `data`; each round is
      the xor-then-multiply of Mix. */
  method HashBytes(data: seq<bv8>) returns (hash: bv64)
    ensures hash == Fnv1a(data)
  {
    hash := OffsetBasis;
    for i := 0 to |data|
      invariant Fold(hash, data[i..]) == Fnv1a(data)
    {
      assert data[i..][1..] == data[i + 1..];
      hash := Mix(hash, data[i]);
    }
    assert data[|data|..] == [];
  }
}
