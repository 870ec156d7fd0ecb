/**
 * Machine integers, byte strings, half-open ranges and results shared by the
 * whole model. Rust's fixed-width integers are subset types of `int`; where the
 * source masks or shifts, the model divides and takes remainders by the
 * corresponding power of two.
 */
module Common {

  type u8 = x: int | 0 <= x < 0x100
  type u16 = x: int | 0 <= x < 0x1_0000
  type u32 = x: int | 0 <= x < 0x1_0000_0000
  type i16 = x: int | -0x8000 <= x < 0x8000
  type u64 = x: int | 0 <= x < 0x1_0000_0000_0000_0000
  type isize = x: int | -0x8000_0000_0000_0000 <= x < 0x8000_0000_0000_0000

  const U32_MAX: u32 := 0xFFFF_FFFF

  datatype Option<+T> = None | Some(value: T)

  datatype Result<+T, +E> = Ok(value: T) | Err(error: E) {
    predicate IsFailure() { Err? }

    function PropagateFailure<U>(): Result<U, E>
      requires Err?
    {
      Err(error)
    }

    function Extract(): T
      requires Ok?
    {
      value
    }
  }

  /**
   * The two `io::ErrorKind`s the model produces: a read that finds fewer bytes
   * than it needs, and a write that finds no room left.
   */
  datatype IoError = UnexpectedEof | WriteZero

  /** Byte order of a ROM image (declared alike in n64rom-rs/src/rom.rs and src/bytes.rs). */
  datatype Endianness = Big | Little | Mixed

  /** `std::ops::Range` over unsigned integers: the half-open interval [start, end). */
  datatype Range = Range(start: nat, end: nat) {
    /** `Range::len`: the number of values the range yields, 0 when start > end. */
    function Len(): (n: nat)
      ensures start <= end ==> start + n == end
      ensures start > end ==> n == 0
    {
      if start <= end then end - start else 0
    }

    predicate Contains(k: int) { start <= k < end }
  }

  /** The big-endian unsigned 32-bit word stored in s[i..i+4]. */
  function BeU32At(s: seq<u8>, i: nat): u32
    requires i + 4 <= |s|
  {
    (s[i] as int) * 0x100_0000 + (s[i + 1] as int) * 0x1_0000 + (s[i + 2] as int) * 0x100 + s[i + 3]
  }

  /** The big-endian unsigned 16-bit half-word stored in s[i..i+2]. */
  function BeU16At(s: seq<u8>, i: nat): u16
    requires i + 2 <= |s|
  {
    (s[i] as int) * 0x100 + s[i + 1]
  }

  /** Reinterprets a 16-bit pattern as a two's-complement signed value. */
  function U16ToI16(v: u16): (r: i16)
    ensures 0 <= r ==> r == v
    ensures r < 0 ==> r + 0x1_0000 == v
  {
    if v < 0x8000 then v else v - 0x1_0000
  }

  /** The four bytes of v, most significant first (`write_u32::<BigEndian>`). */
  function BeU32Bytes(v: u32): (b: seq<u8>)
    ensures |b| == 4
    ensures BeU32At(b, 0) == v
  {
    BeU32Split(v);
    [v / 0x100_0000, v / 0x1_0000 % 0x100, v / 0x100 % 0x100, v % 0x100]
  }

  /** The four base-256 digits of a 32-bit word put it back together. */
  lemma BeU32Split(v: u32)
    ensures v / 0x100_0000 < 0x100
    ensures (v / 0x100_0000) * 0x100_0000 + (v / 0x1_0000 % 0x100) * 0x1_0000 + (v / 0x100 % 0x100) * 0x100 + v % 0x100 == v
  {
    var a0, r0 := v / 0x100, v % 0x100;
    var a1, r1 := a0 / 0x100, a0 % 0x100;
    var a2, r2 := a1 / 0x100, a1 % 0x100;
    assert v == a0 * 0x100 + r0;
    assert a0 == a1 * 0x100 + r1;
    assert a1 == a2 * 0x100 + r2;
    assert v == a2 * 0x100_0000 + r2 * 0x1_0000 + r1 * 0x100 + r0;
    DivModOf(a2, 0x100_0000, r2 * 0x1_0000 + r1 * 0x100 + r0);
    DivModOf(a2 * 0x100 + r2, 0x1_0000, r1 * 0x100 + r0);
    DivModOf(a2, 0x100, r2);
    DivModOf((a2 * 0x100 + r2) * 0x100 + r1, 0x100, r0);
    DivModOf(a2 * 0x100 + r2, 0x100, r1);
  }

  lemma {:induction false} MulAtLeast(t: int, d: nat)
    requires t >= 1
    ensures t * d >= d
  {
    if t > 1 {
      MulAtLeast(t - 1, d);
      assert t * d == (t - 1) * d + d;
    }
  }

  /** Euclidean division undoes q * d + r for a remainder r below d. */
  lemma DivModOf(q: nat, d: nat, r: nat)
    requires 0 <= r < d
    ensures (q * d + r) / d == q && (q * d + r) % d == r
  {
    var n := q * d + r;
    var k, m := n / d, n % d;
    assert (k - q) * d == r - m;
    if k - q >= 1 {
      MulAtLeast(k - q, d);
    } else if q - k >= 1 {
      MulAtLeast(q - k, d);
    }
  }

  /** Encoding a word and decoding it again gives back the same bytes. */
  lemma BeU32BytesOfDecoded(s: seq<u8>, i: nat)
    requires i + 4 <= |s|
    ensures BeU32Bytes(BeU32At(s, i)) == s[i..i + 4]
  {
    var v := BeU32At(s, i);
    var b0, b1, b2, b3 := s[i] as nat, s[i + 1] as nat, s[i + 2] as nat, s[i + 3] as nat;
    var low2 := b2 * 0x100 + b3;
    var low3 := b1 * 0x1_0000 + low2;
    assert v == b0 * 0x100_0000 + low3;
    DivModOf(b0, 0x100_0000, low3);
    assert v / 0x1_0000 == b0 * 0x100 + b1 by {
      assert v == (b0 * 0x100 + b1) * 0x1_0000 + low2;
      DivModOf(b0 * 0x100 + b1, 0x1_0000, low2);
    }
    DivModOf(b0, 0x100, b1);
    assert v / 0x100 == (b0 * 0x100 + b1) * 0x100 + b2 by {
      assert v == ((b0 * 0x100 + b1) * 0x100 + b2) * 0x100 + b3;
      DivModOf((b0 * 0x100 + b1) * 0x100 + b2, 0x100, b3);
    }
    DivModOf(b0 * 0x100 + b1, 0x100, b2);
    assert v == (v / 0x100) * 0x100 + b3;
    DivModOf(v / 0x100, 0x100, b3);
  }

  /**
   * `ReadBytesExt::read_u32::<BigEndian>` on a reader positioned at pos: the word,
   * or UnexpectedEof when fewer than four bytes remain.
   */
  function ReadU32(s: seq<u8>, pos: nat): (r: Result<u32, IoError>)
    ensures r.Ok? <==> pos + 4 <= |s|
    ensures r.Ok? ==> r.value == BeU32At(s, pos)
  {
    if pos + 4 <= |s| then Ok(BeU32At(s, pos)) else Err(UnexpectedEof)
  }

  /** s with bytes replaced from position at onwards; nothing else changes. */
  function Overwrite(s: seq<u8>, at: nat, bytes: seq<u8>): (r: seq<u8>)
    requires at + |bytes| <= |s|
    ensures |r| == |s|
    ensures r[at..at + |bytes|] == bytes
    ensures forall k :: 0 <= k < |s| && !(at <= k < at + |bytes|) ==> r[k] == s[k]
  {
    s[..at] + bytes + s[at + |bytes|..]
  }

  lemma SliceOfLeft<T>(a: seq<T>, b: seq<T>, lo: nat, hi: nat)
    requires lo <= hi <= |a|
    ensures (a + b)[lo..hi] == a[lo..hi]
  {
  }

  lemma SliceOfRight<T>(a: seq<T>, b: seq<T>)
    ensures (a + b)[|a|..|a| + |b|] == b
  {
  }

  /** Writing back the bytes already there changes nothing. */
  lemma OverwriteSame(s: seq<u8>, at: nat, n: nat)
    requires at + n <= |s|
    ensures Overwrite(s, at, s[at..at + n]) == s
  {
    assert s[..at] + s[at..at + n] + s[at + n..] == s;
  }

  /** A write that ends before position from leaves everything from there on alone. */
  lemma OverwriteTail(s: seq<u8>, at: nat, bytes: seq<u8>, from: nat)
    requires at + |bytes| <= from <= |s|
    ensures Overwrite(s, at, bytes)[from..] == s[from..]
  {
  }

  /**
   * `Cursor::write` on a byte slice positioned at pos: writes as much of bytes
   * as fits before the end and reports how much that was (nothing when pos is
   * past the end).
   */
  function CursorWriteCount(len: nat, pos: nat, n: nat): (c: nat)
    ensures c <= n && (pos <= len ==> pos + c <= len)
    ensures pos + n <= len ==> c == n
    ensures pos >= len ==> c == 0
  {
    if pos <= len then Min(n, len - pos) else 0
  }

  function Min(a: int, b: int): int { if a <= b then a else b }

  function Zeros(n: nat): (z: seq<u8>)
    ensures |z| == n && forall k :: 0 <= k < n ==> z[k] == 0
  {
    seq(n, _ => 0)
  }
}
