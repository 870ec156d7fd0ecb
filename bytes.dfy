/**
 * The older byte swapper (src/bytes.rs): in-place swaps that bring a buffer
 * in one of the three byte orders to big-endian, or back.
 */
module Bytes {
  import opened Common
  import opened ByteOrder

  /** What `Endianness::swap` makes of a buffer: every swap is a fixed rearrangement. */
  function Swapped(s: seq<u8>, e: Endianness): (r: seq<u8>)
    requires e == Mixed ==> |s| % 2 == 0
    ensures |r| == |s|
  {
    match e
    case Big => s
    case Little => WordPermuted(s, BIG_LITTLE)
    case Mixed => PairSwapped(s)
  }

  /** The lengths each swap accepts: its length assertion. */
  predicate SwapAccepts(len: nat, e: Endianness) {
    match e
    case Big => true
    case Little => len % WORD == 0
    case Mixed => len % 2 == 0
  }

  /** `Swap for BigEndian`: nothing to do. */
  method SwapBig(buf: array<u8>)
    modifies buf
    ensures buf[..] == Swapped(old(buf[..]), Big)
  {
  }

  /** `Swap for LittleEndian`: reverses each 4-byte group; asserts the length is a multiple of 4. */
  method SwapLittle(buf: array<u8>)
    requires buf.Length % WORD == 0
    modifies buf
    ensures buf[..] == Swapped(old(buf[..]), Little)
  {
    ghost var s := buf[..];
    var swaps := buf.Length / WORD;
    for i := 0 to swaps
      invariant buf[..] == Permuted(s, BIG_LITTLE, i)
    {
      WordFits(buf.Length, i);
      PermutedStep(s, BIG_LITTLE, i);
      ReverseGroup(buf, WORD * i);
    }
  }

  /** Word i of a buffer holding more than i whole words lies inside it. */
  lemma WordFits(len: nat, i: nat)
    requires i < len / WORD
    ensures WORD * (i + 1) <= len
  {
    assert WORD * (len / WORD) + len % WORD == len;
  }

  /** The body of the little-endian loop: the group at idx, reversed through two temporaries. */
  method ReverseGroup(buf: array<u8>, idx: nat)
    requires idx + WORD <= buf.Length
    modifies buf
    ensures buf[..] == PermutedAt(old(buf[..]), idx, BIG_LITTLE)
  {
    var temp2, temp1 := buf[idx], buf[idx + 1];
    buf[idx] := buf[idx + 3];
    buf[idx + 1] := buf[idx + 2];
    buf[idx + 2] := temp1;
    buf[idx + 3] := temp2;
  }

  /** `Swap for Mixed`: swaps each adjacent byte pair; asserts the length is even. */
  method SwapMixed(buf: array<u8>)
    requires buf.Length % 2 == 0
    modifies buf
    ensures buf[..] == Swapped(old(buf[..]), Mixed)
  {
    ghost var s := buf[..];
    var swaps := buf.Length / 2;
    for i := 0 to swaps
      invariant forall k :: 0 <= k < 2 * i ==> buf[k] == PairSwapped(s)[k]
      invariant forall k :: 2 * i <= k < buf.Length ==> buf[k] == s[k]
    {
      var idx := i * 2;
      buf[idx], buf[idx + 1] := buf[idx + 1], buf[idx];
    }
    assert buf[..] == PairSwapped(s);
  }

  /** `Endianness::swap` and `swap_bytes`: the swap for the given byte order. */
  method Swap(e: Endianness, buf: array<u8>)
    requires SwapAccepts(buf.Length, e)
    modifies buf
    ensures buf[..] == Swapped(old(buf[..]), e)
  {
    match e
    case Big => SwapBig(buf);
    case Little => SwapLittle(buf);
    case Mixed => SwapMixed(buf);
  }

  /** Swapping twice restores the buffer. */
  lemma SwapInvolution(s: seq<u8>, e: Endianness)
    requires SwapAccepts(|s|, e)
    ensures Swapped(Swapped(s, e), e) == s
  {
    match e
    case Big =>
    case Little =>
      PermutedTwice(s, BIG_LITTLE, BIG_LITTLE, |s| / WORD);
      SwapsAreInvolutions();
      PermutedIdentity(s, |s| / WORD);
    case Mixed =>
      PairSwappedTwice(s);
  }

  /**
   * On whole words the older swapper and the converter agree: swapping for a
   * byte order is converting between big-endian and that order.
   */
  lemma SwapIsConversion(s: seq<u8>, e: Endianness)
    requires |s| % WORD == 0
    ensures Swapped(s, e) == Converted(s, Big, e) == Converted(s, e, Big)
  {
    ConversionWithBig(e);
    assert Converted(s, Big, e) == Converted(s, e, Big);
    match e
    case Big =>
      ConvertedSame(s, Big);
    case Little =>
      assert Converted(s, Big, e) == WordPermuted(s, BIG_LITTLE);
    case Mixed =>
      PairSwapIsBigMixed(s);
      assert Converted(s, Big, e) == WordPermuted(s, BIG_MIXED);
  }
}
