/**
 * The `Vec3s` primitive (zelda64-rs/src/primitive.rs): three signed 16-bit
 * coordinates stored big-endian.
 */
module Primitive {
  import opened Common

  /** `Vec3s::SIZE`. */
  const VEC3S_SIZE: nat := 6

  datatype Vec3s = Vec3s(x: i16, y: i16, z: i16) {
    /** `to_tuple`. */
    function ToTuple(): (i16, i16, i16) { (x, y, z) }
  }

  /** `Vec3s::from`: its tuple is the three coordinates it was given. */
  function From(x: i16, y: i16, z: i16): (v: Vec3s)
    ensures v.ToTuple() == (x, y, z)
  {
    Vec3s(x, y, z)
  }

  /** `read_i16::<BigEndian>` at pos: two bytes, two's complement. */
  function ReadI16(s: seq<u8>, pos: nat): (r: Result<i16, IoError>)
    ensures r.Ok? <==> pos + 2 <= |s|
    ensures r.Err? ==> r.error == UnexpectedEof
  {
    if pos + 2 <= |s| then Ok(U16ToI16(BeU16At(s, pos))) else Err(UnexpectedEof)
  }

  /** The two bytes `write_i16::<BigEndian>` produces. */
  function I16Bytes(v: i16): (b: seq<u8>)
    ensures |b| == 2
  {
    var u := if v < 0 then v + 0x1_0000 else v;
    [u / 0x100, u % 0x100]
  }

  /** A decoded half-word encodes back to the same two bytes. */
  lemma I16RoundTrip(v: i16)
    ensures U16ToI16(BeU16At(I16Bytes(v), 0)) == v
  {
  }

  /**
   * `Vec3s::from_bytes`: x, y and z from bytes 0-1, 2-3 and 4-5; fewer than
   * six bytes is an end-of-input error. Later bytes are not looked at.
   */
  function FromBytes(b: seq<u8>): (r: Result<Vec3s, IoError>)
    ensures r.Ok? <==> |b| >= VEC3S_SIZE
    ensures r.Err? ==> r.error == UnexpectedEof
  {
    var x :- ReadI16(b, 0);
    var y :- ReadI16(b, 2);
    var z :- ReadI16(b, 4);
    Ok(From(x, y, z))
  }

  /** The six bytes of a vector, coordinates in order. */
  function ToBytes(v: Vec3s): (b: seq<u8>)
    ensures |b| == VEC3S_SIZE
  {
    I16Bytes(v.x) + I16Bytes(v.y) + I16Bytes(v.z)
  }

  /** Decoding the encoding of a vector, whatever follows it, gives the vector. */
  lemma FromToBytes(v: Vec3s, rest: seq<u8>)
    ensures FromBytes(ToBytes(v) + rest) == Ok(v)
  {
    var b := ToBytes(v) + rest;
    I16RoundTrip(v.x);
    I16RoundTrip(v.y);
    I16RoundTrip(v.z);
    assert b[0..2] == I16Bytes(v.x) && b[2..4] == I16Bytes(v.y) && b[4..6] == I16Bytes(v.z);
    assert BeU16At(b, 0) == BeU16At(I16Bytes(v.x), 0);
    assert BeU16At(b, 2) == BeU16At(I16Bytes(v.y), 0);
    assert BeU16At(b, 4) == BeU16At(I16Bytes(v.z), 0);
  }

  /** Only the first six bytes matter: decoding consumes exactly VEC3S_SIZE bytes. */
  lemma FromBytesPrefix(b: seq<u8>)
    requires |b| >= VEC3S_SIZE
    ensures FromBytes(b) == FromBytes(b[..VEC3S_SIZE])
  {
    var p := b[..VEC3S_SIZE];
    assert b[0] == p[0] && b[1] == p[1] && b[2] == p[2] && b[3] == p[3] && b[4] == p[4] && b[5] == p[5];
  }
}
