/**
 * The byte rearrangements behind the three ROM byte orders, shared by the
 * converter (n64rom-rs/src/convert.rs) and the swapper (src/bytes.rs).
 *
 * A conversion permutes the four bytes of every 4-byte word the same way. A
 * word permutation p says that byte k of a converted word is byte p[k] of the
 * original word.
 */
module ByteOrder {
  import opened Common

  const WORD: nat := 4

  type WordPerm = p: seq<nat> | |p| == WORD && p[0] < WORD && p[1] < WORD && p[2] < WORD && p[3] < WORD
    witness [0, 1, 2, 3]

  const IDENTITY: WordPerm := [0, 1, 2, 3]

  /** `swap_big_little`: bytes 0 and 3, then 1 and 2 swapped, reversing the word. */
  const BIG_LITTLE: WordPerm := [3, 2, 1, 0]

  /** `swap_big_mixed`: bytes 0 and 1, then 2 and 3 swapped. */
  const BIG_MIXED: WordPerm := [1, 0, 3, 2]

  /** `swap_little_mixed`: bytes 0 and 2, then 1 and 3 swapped. */
  const LITTLE_MIXED: WordPerm := [2, 3, 0, 1]

  /** Applying p and then q rearranges each word by this permutation. */
  function Compose(p: WordPerm, q: WordPerm): WordPerm {
    [p[q[0]], p[q[1]], p[q[2]], p[q[3]]]
  }

  /** The start of the word that holds byte k. */
  function WordBase(k: nat): (b: nat)
    ensures b % WORD == 0 && b <= k < b + WORD && k - b == k % WORD
  {
    k - k % WORD
  }

  /** Any position inside a word belongs to that word. */
  lemma WordBaseOf(b: nat, j: nat)
    requires b % WORD == 0 && j < WORD
    ensures WordBase(b + j) == b && (b + j) % WORD == j
  {
    DivModOf(b / WORD, WORD, j);
  }

  /** s with its first n words rearranged by p; later bytes untouched. */
  function Permuted(s: seq<u8>, p: WordPerm, n: nat): (r: seq<u8>)
    requires WORD * n <= |s|
    ensures |r| == |s|
  {
    seq(|s|, k requires 0 <= k < |s| =>
      if k < WORD * n then s[WordBase(k) + p[k % WORD]] else s[k])
  }

  /**
   * `chunks_exact_mut(4)` with the same swap for each chunk: every whole word
   * rearranged, a trailing partial word left alone.
   */
  function WordPermuted(s: seq<u8>, p: WordPerm): (r: seq<u8>)
    ensures |r| == |s|
  {
    Permuted(s, p, |s| / WORD)
  }

  /** The word permutation p applied to the single word at position at. */
  function PermutedAt(s: seq<u8>, at: nat, p: WordPerm): (r: seq<u8>)
    requires at + WORD <= |s|
    ensures |r| == |s|
  {
    seq(|s|, k requires 0 <= k < |s| => if at <= k < at + WORD then s[at + p[k - at]] else s[k])
  }

  /** Rearranging word n of a partly rearranged buffer extends it by one word. */
  lemma PermutedStep(s: seq<u8>, p: WordPerm, n: nat)
    requires WORD * (n + 1) <= |s|
    ensures PermutedAt(Permuted(s, p, n), WORD * n, p) == Permuted(s, p, n + 1)
  {
    var at := WORD * n;
    forall k | at <= k < at + WORD
      ensures WordBase(k) == at && k % WORD == k - at
    {
      WordBaseOf(at, k - at);
    }
  }

  /** Rearranging by p and then by q is rearranging by their composition. */
  lemma PermutedTwice(s: seq<u8>, p: WordPerm, q: WordPerm, n: nat)
    requires WORD * n <= |s|
    ensures Permuted(Permuted(s, p, n), q, n) == Permuted(s, Compose(p, q), n)
  {
    var t := Permuted(s, p, n);
    forall k | 0 <= k < WORD * n
      ensures Permuted(t, q, n)[k] == Permuted(s, Compose(p, q), n)[k]
    {
      var b, j := WordBase(k), q[k % WORD];
      WordBaseOf(b, j);
    }
  }

  lemma PermutedIdentity(s: seq<u8>, n: nat)
    requires WORD * n <= |s|
    ensures Permuted(s, IDENTITY, n) == s
  {
    forall k | 0 <= k < WORD * n ensures Permuted(s, IDENTITY, n)[k] == s[k] {
      assert IDENTITY[k % WORD] == k % WORD;
    }
  }

  /** Each of the three swaps undoes itself. */
  lemma SwapsAreInvolutions()
    ensures Compose(BIG_LITTLE, BIG_LITTLE) == IDENTITY
    ensures Compose(BIG_MIXED, BIG_MIXED) == IDENTITY
    ensures Compose(LITTLE_MIXED, LITTLE_MIXED) == IDENTITY
  {
  }

  /** Big-to-little reverses each whole word. */
  lemma BigLittleReverses(s: seq<u8>, i: nat)
    requires WORD * (i + 1) <= |s|
    ensures var r := WordPermuted(s, BIG_LITTLE); var b := WORD * i;
      r[b..b + WORD] == [s[b + 3], s[b + 2], s[b + 1], s[b]]
  {
    var b := WORD * i;
    assert |s| / WORD >= i + 1 by {
      DivModOf(i + 1, WORD, 0);
    }
    WordBaseOf(b, 0);
    WordBaseOf(b, 1);
    WordBaseOf(b, 2);
    WordBaseOf(b, 3);
  }

  // ---------------------------------------------------------------------------
  // Between byte orders

  /**
   * The rearrangement that turns data stored in byte order `current` into
   * byte order `target`, as the converter for `current` chooses it.
   */
  function Conversion(current: Endianness, target: Endianness): WordPerm {
    if current == target then IDENTITY
    else if {current, target} == {Big, Little} then BIG_LITTLE
    else if {current, target} == {Big, Mixed} then BIG_MIXED
    else LITTLE_MIXED
  }

  /** Converting to or from big-endian is the same rearrangement in both directions. */
  lemma ConversionWithBig(e: Endianness)
    ensures Conversion(Big, e) == Conversion(e, Big)
    ensures e == Little ==> Conversion(Big, e) == BIG_LITTLE
    ensures e == Mixed ==> Conversion(Big, e) == BIG_MIXED
  {
  }

  /** The rearrangements compose like the byte orders they connect. */
  lemma ConversionCompose(a: Endianness, b: Endianness, c: Endianness)
    ensures Compose(Conversion(a, b), Conversion(b, c)) == Conversion(a, c)
  {
  }

  /** A buffer stored in byte order `current` as it reads in byte order `target`. */
  function Converted(s: seq<u8>, current: Endianness, target: Endianness): (r: seq<u8>)
    ensures |r| == |s|
  {
    WordPermuted(s, Conversion(current, target))
  }

  /** Converting a to b and then b to c is converting a to c. */
  lemma ConvertedCompose(s: seq<u8>, a: Endianness, b: Endianness, c: Endianness)
    ensures Converted(Converted(s, a, b), b, c) == Converted(s, a, c)
  {
    PermutedTwice(s, Conversion(a, b), Conversion(b, c), |s| / WORD);
    ConversionCompose(a, b, c);
  }

  /** Converting to the same byte order changes nothing. */
  lemma ConvertedSame(s: seq<u8>, a: Endianness)
    ensures Converted(s, a, a) == s
  {
    PermutedIdentity(s, |s| / WORD);
  }

  /** Converting there and back restores the buffer. */
  lemma ConvertRoundTrip(s: seq<u8>, a: Endianness, b: Endianness)
    ensures Converted(Converted(s, a, b), b, a) == s
  {
    ConvertedCompose(s, a, b, a);
    ConvertedSame(s, a);
  }

  // ---------------------------------------------------------------------------
  // Swapping adjacent bytes

  /** s with every pair of bytes 2i, 2i+1 exchanged. */
  function PairSwapped(s: seq<u8>): (r: seq<u8>)
    requires |s| % 2 == 0
    ensures |r| == |s|
  {
    seq(|s|, k requires 0 <= k < |s| => if k % 2 == 0 then s[k + 1] else s[k - 1])
  }

  lemma PairSwappedTwice(s: seq<u8>)
    requires |s| % 2 == 0
    ensures PairSwapped(PairSwapped(s)) == s
  {
  }

  /** On whole words, swapping adjacent bytes is the big-to-mixed rearrangement. */
  lemma PairSwapIsBigMixed(s: seq<u8>)
    requires |s| % WORD == 0
    ensures PairSwapped(s) == WordPermuted(s, BIG_MIXED)
  {
    var n := |s| / WORD;
    assert WORD * n == |s|;
    forall k | 0 <= k < |s| ensures PairSwapped(s)[k] == WordPermuted(s, BIG_MIXED)[k] {
      var b := WordBase(k);
      WordBaseOf(b, k % WORD);
      DivModOf(b / 2, 2, k % WORD % 2);
    }
  }
}
