/**
 * Skeleton hierarchies of object files (src/models/hierarchy.rs): the header,
 * the two limb layouts, and the reader that follows the limb index table.
 *
 * A slice `&bytes[start..]` with start past the end panics in the source; the
 * model reports it as SliceOutOfRange.
 */
module Hierarchy {
  import opened Common
  import opened Segment
  import opened Primitive

  /** `Limb::SIZE`. */
  const LIMB_SIZE: nat := 0xC

  /** The bytes a player limb occupies: a limb and one more address. */
  const PLAYER_LIMB_SIZE: nat := 0x10

  datatype Header = Header(limbs: SegAddr, count: u8, displayLists: u8)

  datatype Limb = Limb(translation: Vec3s, child: u8, next: u8, displayList: SegAddr)

  datatype PlayerLimb = PlayerLimb(base: Limb, farModelDisplayList: SegAddr)

  datatype HierarchyWith<T> = HierarchyWith(header: Header, limbs: seq<Relative<T>>)

  datatype ReadError = Io(io: IoError) | SliceOutOfRange(start: nat, len: nat)

  /** `read_u8` at pos. */
  function ReadU8(s: seq<u8>, pos: nat): (r: Result<u8, IoError>)
    ensures r.Ok? <==> pos < |s|
    ensures r.Ok? ==> r.value == s[pos]
  {
    if pos < |s| then Ok(s[pos]) else Err(UnexpectedEof)
  }

  /** The top byte of a big-endian word is its first byte. */
  lemma TopByte(s: seq<u8>, i: nat)
    requires i + 4 <= |s|
    ensures BeU32At(s, i) / SEGMENT_UNIT == s[i]
  {
    DivModOf(s[i], SEGMENT_UNIT, (s[i + 1] as int) * 0x1_0000 + (s[i + 2] as int) * 0x100 + s[i + 3]);
  }

  /**
   * `Header::from_bytes`: the limb index address is the word at 0; the two
   * counts are the top bytes of the words at 4 and 8. Fewer than 12 bytes is an
   * end-of-input error.
   */
  function HeaderFromBytes(b: seq<u8>): (r: Result<Header, IoError>)
    ensures r.Ok? <==> |b| >= 12
    ensures r.Err? ==> r.error == UnexpectedEof
    ensures r.Ok? ==> r.value.limbs.Raw() == BeU32At(b, 0)
    ensures r.Ok? ==> r.value.count == b[4] && r.value.displayLists == b[8]
  {
    var address :- ReadU32(b, 0);
    var word1 :- ReadU32(b, 4);
    var word2 :- ReadU32(b, 8);
    TopByte(b, 4);
    TopByte(b, 8);
    Ok(Header(FromRaw(address), word1 / SEGMENT_UNIT, word2 / SEGMENT_UNIT))
  }

  /**
   * `Limb::from_bytes`: the translation from bytes 0..6, then child, next
   * and the display list address from the rest.
   */
  function LimbFromBytes(b: seq<u8>): (r: Result<Limb, IoError>)
    ensures r.Ok? <==> |b| >= LIMB_SIZE
    ensures r.Err? ==> r.error == UnexpectedEof
    ensures r.Ok? ==> r.value.translation == Primitive.FromBytes(b).value
    ensures r.Ok? ==> r.value.child == b[6] && r.value.next == b[7]
    ensures r.Ok? ==> r.value.displayList.Raw() == BeU32At(b, 8)
  {
    var translation :- Primitive.FromBytes(b);
    var rest := b[VEC3S_SIZE..];
    var child :- ReadU8(rest, 0);
    var next :- ReadU8(rest, 1);
    var address :- ReadU32(rest, 2);
    Ok(Limb(translation, child, next, FromRaw(address)))
  }

  /** `PlayerLimb::from_bytes`: a limb, then the far-model display list at 12..16. */
  function PlayerLimbFromBytes(b: seq<u8>): (r: Result<PlayerLimb, IoError>)
    ensures r.Ok? <==> |b| >= PLAYER_LIMB_SIZE
    ensures r.Err? ==> r.error == UnexpectedEof
    ensures r.Ok? ==> r.value.base == LimbFromBytes(b).value
    ensures r.Ok? ==> r.value.farModelDisplayList.Raw() == BeU32At(b, 12)
  {
    var base :- LimbFromBytes(b);
    var rest := b[LIMB_SIZE..];
    var address :- ReadU32(rest, 0);
    Ok(PlayerLimb(base, FromRaw(address)))
  }

  /** The serialised form of a limb. */
  function LimbBytes(l: Limb): (b: seq<u8>)
    ensures |b| == LIMB_SIZE
  {
    ToBytes(l.translation) + [l.child, l.next] + BeU32Bytes(l.displayList.Raw())
  }

  /** Decoding a serialised limb, whatever follows it, gives the limb. */
  lemma LimbRoundTrip(l: Limb, rest: seq<u8>)
    ensures LimbFromBytes(LimbBytes(l) + rest) == Ok(l)
  {
    var b := LimbBytes(l) + rest;
    FromToBytes(l.translation, [l.child, l.next] + BeU32Bytes(l.displayList.Raw()) + rest);
    assert b == ToBytes(l.translation) + ([l.child, l.next] + BeU32Bytes(l.displayList.Raw()) + rest);
    assert b[8..12] == BeU32Bytes(l.displayList.Raw());
    assert BeU32At(b, 8) == BeU32At(BeU32Bytes(l.displayList.Raw()), 0);
  }

  /** The serialised form of a player limb. */
  function PlayerLimbBytes(p: PlayerLimb): (b: seq<u8>)
    ensures |b| == PLAYER_LIMB_SIZE
  {
    LimbBytes(p.base) + BeU32Bytes(p.farModelDisplayList.Raw())
  }

  /** Decoding a serialised player limb, whatever follows it, gives it back. */
  lemma PlayerLimbRoundTrip(p: PlayerLimb, rest: seq<u8>)
    ensures PlayerLimbFromBytes(PlayerLimbBytes(p) + rest) == Ok(p)
  {
    var b := PlayerLimbBytes(p) + rest;
    LimbRoundTrip(p.base, BeU32Bytes(p.farModelDisplayList.Raw()) + rest);
    assert b == LimbBytes(p.base) + (BeU32Bytes(p.farModelDisplayList.Raw()) + rest);
    assert b[12..16] == BeU32Bytes(p.farModelDisplayList.Raw());
    assert BeU32At(b, 12) == BeU32At(BeU32Bytes(p.farModelDisplayList.Raw()), 0);
  }

  function Lift<X>(r: Result<X, IoError>): (q: Result<X, ReadError>)
    ensures r.Ok? <==> q.Ok?
    ensures r.Ok? ==> q.value == r.value
    ensures r.Err? ==> q.error == Io(r.error)
  {
    match r
    case Ok(v) => Ok(v)
    case Err(e) => Err(Io(e))
  }

  /**
   * One pass of the limb loop: the j-th index word of the table at indexes,
   * and the limb parsed at that address's 24-bit offset.
   */
  function ReadLimb<T>(bytes: seq<u8>, indexes: nat, j: nat, parse: seq<u8> -> Result<T, IoError>)
    : (r: Result<Relative<T>, ReadError>)
    requires indexes <= |bytes|
  {
    var raw :- Lift(ReadU32(bytes[indexes..], 4 * j));
    var index := FromRaw(raw);
    var at := index.Offset();
    if at > |bytes| then Err(SliceOutOfRange(at, |bytes|))
    else
      var limb :- Lift(parse(bytes[at..]));
      Ok(Relative(index, limb))
  }

  /** The first n limbs, or the first error among them. */
  function Limbs<T>(bytes: seq<u8>, indexes: nat, n: nat, parse: seq<u8> -> Result<T, IoError>)
    : (r: Result<seq<Relative<T>>, ReadError>)
    requires indexes <= |bytes|
    ensures r.Ok? ==> |r.value| == n
  {
    if n == 0 then Ok([])
    else
      var front :- Limbs(bytes, indexes, n - 1, parse);
      var last :- ReadLimb(bytes, indexes, n - 1, parse);
      Ok(front + [last])
  }

  /** What `HierarchyWith::read_from` computes. */
  function ReadFromSpec<T>(bytes: seq<u8>, offset: nat, parse: seq<u8> -> Result<T, IoError>)
    : Result<HierarchyWith<T>, ReadError>
  {
    if offset > |bytes| then Err(SliceOutOfRange(offset, |bytes|))
    else
      var header :- Lift(HeaderFromBytes(bytes[offset..]));
      var indexes := header.limbs.Offset();
      if indexes > |bytes| then Err(SliceOutOfRange(indexes, |bytes|))
      else
        var limbs :- Limbs(bytes, indexes, header.count, parse);
        Ok(HierarchyWith(header, limbs))
  }

  /**
   * `HierarchyWith::read_from`: reads the header at offset, then `count` index
   * words from the header's limb address, parsing each limb at the 24-bit
   * offset of its index. The base address argument is not used.
   */
  method ReadFrom<T>(bytes: seq<u8>, offset: u32, base: SegAddr, parse: seq<u8> -> Result<T, IoError>)
    returns (r: Result<HierarchyWith<T>, ReadError>)
    ensures r == ReadFromSpec(bytes, offset, parse)
  {
    if offset > |bytes| {
      return Err(SliceOutOfRange(offset, |bytes|));
    }
    var header := HeaderFromBytes(bytes[offset..]);
    if header.Err? {
      return Err(Io(header.error));
    }
    var indexes := header.value.limbs.Offset();
    if indexes > |bytes| {
      return Err(SliceOutOfRange(indexes, |bytes|));
    }
    var cursor := bytes[indexes..];
    var limbs: seq<Relative<T>> := [];
    var i := 0;
    while i < header.value.count
      invariant 0 <= i <= header.value.count
      invariant Limbs(bytes, indexes, i, parse) == Ok(limbs)
    {
      var raw := ReadU32(cursor, 4 * i);
      if raw.Err? {
        r := Err(Io(raw.error));
        LimbsStopsAtError(bytes, indexes, i, header.value.count, parse);
        return;
      }
      var index := FromRaw(raw.value);
      var at := index.Offset();
      if at > |bytes| {
        r := Err(SliceOutOfRange(at, |bytes|));
        LimbsStopsAtError(bytes, indexes, i, header.value.count, parse);
        return;
      }
      var limb := parse(bytes[at..]);
      if limb.Err? {
        r := Err(Io(limb.error));
        LimbsStopsAtError(bytes, indexes, i, header.value.count, parse);
        return;
      }
      limbs := limbs + [Relative(index, limb.value)];
      i := i + 1;
    }
    r := Ok(HierarchyWith(header.value, limbs));
  }

  /** The first failing limb decides the error of every longer read. */
  lemma {:induction false} LimbsStopsAtError<T>(bytes: seq<u8>, indexes: nat, i: nat, n: nat,
                                                parse: seq<u8> -> Result<T, IoError>)
    requires indexes <= |bytes| && i < n
    requires Limbs(bytes, indexes, i, parse).Ok? && ReadLimb(bytes, indexes, i, parse).Err?
    ensures Limbs(bytes, indexes, n, parse) == Err(ReadLimb(bytes, indexes, i, parse).error)
    decreases n
  {
    if n - 1 > i {
      LimbsStopsAtError(bytes, indexes, i, n - 1, parse);
    }
  }

  /**
   * The limb reads succeed exactly when every one of them does, and then the
   * j-th limb is tagged with the j-th index word and parsed at its offset.
   */
  lemma {:induction false} LimbsAt<T>(bytes: seq<u8>, indexes: nat, n: nat, parse: seq<u8> -> Result<T, IoError>)
    requires indexes <= |bytes|
    ensures Limbs(bytes, indexes, n, parse).Ok? <==>
      forall j :: 0 <= j < n ==> ReadLimb(bytes, indexes, j, parse).Ok?
    ensures Limbs(bytes, indexes, n, parse).Ok? ==> forall j :: 0 <= j < n ==>
      var l := Limbs(bytes, indexes, n, parse).value[j];
      && indexes + 4 * j + 4 <= |bytes|
      && l.address == FromRaw(BeU32At(bytes, indexes + 4 * j))
      && l.address.Offset() <= |bytes|
      && parse(bytes[l.address.Offset()..]) == Ok(l.value)
    decreases n
  {
    if n > 0 {
      LimbsAt(bytes, indexes, n - 1, parse);
      var r := Limbs(bytes, indexes, n, parse);
      var last := ReadLimb(bytes, indexes, n - 1, parse);
      if last.Ok? {
        var c := bytes[indexes..];
        assert BeU32At(c, 4 * (n - 1)) == BeU32At(bytes, indexes + 4 * (n - 1));
      }
    }
  }

  /**
   * A successful read yields the header at offset and exactly `count` limbs,
   * the j-th found through the index word at the header's limb offset plus 4j.
   */
  lemma ReadFromShape<T>(bytes: seq<u8>, offset: nat, parse: seq<u8> -> Result<T, IoError>)
    requires ReadFromSpec(bytes, offset, parse).Ok?
    ensures var h := ReadFromSpec(bytes, offset, parse).value;
      && offset <= |bytes|
      && Ok(h.header) == HeaderFromBytes(bytes[offset..])
      && |h.limbs| == h.header.count
      && forall j :: 0 <= j < |h.limbs| ==>
        && h.header.limbs.Offset() + 4 * j + 4 <= |bytes|
        && h.limbs[j].address == FromRaw(BeU32At(bytes, h.header.limbs.Offset() + 4 * j))
        && h.limbs[j].address.Offset() <= |bytes|
        && parse(bytes[h.limbs[j].address.Offset()..]) == Ok(h.limbs[j].value)
  {
    var header := HeaderFromBytes(bytes[offset..]).value;
    LimbsAt(bytes, header.limbs.Offset(), header.count, parse);
  }
}
