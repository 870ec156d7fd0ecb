/**
 * Segmented addresses (zelda64-rs/src/segment.rs): an 8-bit segment index in
 * the top byte of a 32-bit word and a 24-bit offset in the rest. The source's
 * shifts, masks and bitwise or are divisions, remainders and an addition of
 * disjoint parts here.
 */
module Segment {
  import opened Common

  const SEGMENT_UNIT: nat := 0x100_0000

  /** `SegAddr`: a wrapped u32. */
  datatype SegAddr = SegAddr(value: u32) {
    /** `offset`: the low 24 bits. */
    function Offset(): (o: u32)
      ensures o < SEGMENT_UNIT
    {
      value % SEGMENT_UNIT
    }

    /** `raw`. */
    function Raw(): u32 { value }

    /** `segment`: the top 8 bits. */
    function Segment(): u8 {
      value / SEGMENT_UNIT
    }
  }

  /** `SegAddr::from`: the segment in the top byte, the offset masked to 24 bits below it. */
  function From(segment: u8, offset: u32): (a: SegAddr)
    ensures a.Segment() == segment
    ensures a.Offset() == offset % SEGMENT_UNIT
  {
    var low := offset % SEGMENT_UNIT;
    DivModOf(segment, SEGMENT_UNIT, low);
    SegAddr(segment * SEGMENT_UNIT + low)
  }

  /** `SegAddr::from_raw`. */
  function FromRaw(raw: u32): (a: SegAddr)
    ensures a.Raw() == raw
  {
    SegAddr(raw)
  }

  /** Every raw value is its segment shifted up, joined with its offset. */
  lemma RawSplits(a: SegAddr)
    ensures a.Raw() == a.Segment() * SEGMENT_UNIT + a.Offset()
  {
  }

  /** Building from the parts of an address gives the address back. */
  lemma FromParts(a: SegAddr)
    ensures From(a.Segment(), a.Offset()) == a
  {
  }

  /** `Relative`: a value tagged with the segmented address it was read from. */
  datatype Relative<T> = Relative(address: SegAddr, value: T)
}
