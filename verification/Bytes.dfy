/** Raw memory: bytes, eight-byte little-endian words, and writes at an offset. */
module Bytes {

  type byte = x: int | 0 <= x < 256

  /** sizeof(size_t) and sizeof(uint64_t). */
  const WORD: nat := 8

  /** One more than the largest value a word holds. */
  const WORD_LIMIT: nat := 0x1_0000_0000_0000_0000

  function Pow256(n: nat): (r: nat)
    ensures r > 0
  {
    if n == 0 then 1 else 256 * Pow256(n - 1)
  }

  /** The `width` low bytes of `n`, least significant first. */
  function Encode(n: nat, width: nat): (b: seq<byte>)
    ensures |b| == width
  {
    if width == 0 then [] else [n % 256] + Encode(n / 256, width - 1)
  }

  function Decode(b: seq<byte>): nat {
    if b == [] then 0 else b[0] + 256 * Decode(b[1..])
  }

  function EncodeWord(n: nat): (b: seq<byte>)
    ensures |b| == WORD
  {
    Encode(n, WORD)
  }

  /** The word stored at byte offset `off` of `m`. */
  function WordAt(m: seq<byte>, off: nat): nat
    requires off + WORD <= |m|
  {
    Decode(m[off..off + WORD])
  }

  /** `m` with the bytes `b` written at offset `off`. */
  function Patch<T>(m: seq<T>, off: nat, b: seq<T>): (r: seq<T>)
    requires off + |b| <= |m|
    ensures |r| == |m|
    ensures r[off..off + |b|] == b
    ensures forall i :: 0 <= i < |m| && (i < off || off + |b| <= i) ==> r[i] == m[i]
  {
    m[..off] + b + m[off + |b|..]
  }

  lemma {:induction false} DecodeEncode(n: nat, width: nat)
    requires n < Pow256(width)
    ensures Decode(Encode(n, width)) == n
  {
    if width == 0 {
    } else {
      assert n / 256 < Pow256(width - 1);
      DecodeEncode(n / 256, width - 1);
      assert Encode(n, width)[1..] == Encode(n / 256, width - 1);
    }
  }

  lemma WordRange()
    ensures Pow256(WORD) == WORD_LIMIT
  {
  }

  lemma DecodeWord(n: nat)
    requires n < WORD_LIMIT
    ensures Decode(EncodeWord(n)) == n
  {
    WordRange();
    DecodeEncode(n, WORD);
  }

  /** Two memories that agree on a range hold the same bytes and words there. */
  lemma SameRange<T>(m: seq<T>, m': seq<T>, lo: nat, hi: nat)
    requires lo <= hi <= |m| && hi <= |m'|
    requires forall i :: lo <= i < hi ==> m[i] == m'[i]
    ensures m[lo..hi] == m'[lo..hi]
  {
  }

  lemma JoinSlices<T>(m: seq<T>, a: nat, b: nat, c: nat)
    requires a <= b <= c <= |m|
    ensures m[a..c] == m[a..b] + m[b..c]
  {
  }

  /** The first byte of a word is its lowest. */
  lemma LowestFirst()
    ensures EncodeWord(258) == [2, 1, 0, 0, 0, 0, 0, 0]
  {
    assert Encode(0, 2) == [0, 0];
    assert Encode(0, 4) == [0, 0, 0, 0];
    assert Encode(0, 6) == [0, 0, 0, 0, 0, 0];
  }
}
