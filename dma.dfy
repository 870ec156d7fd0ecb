/**
 * The `dmadata` virtual filesystem table (src/dma.rs): 16-byte entries mapping a
 * virtual address range to a physical one, their classification by sentinel
 * values, validation, the big-endian encoding, and the table scan.
 *
 * A `Read`/`Seek` stream is modelled as the byte sequence it reads from plus
 * the position it is at; a short read is the error UnexpectedEof.
 */
module Dma {
  import opened Common

  /** `Entry::SIZE`. */
  const ENTRY_SIZE: nat := 0x10

  /** Which address axis a validation error is about. */
  datatype Mapping = Physical | Virtual

  datatype Error =
    | IOError(io: IoError)
    | InvalidHeader
    | InvalidRange(mapping: Mapping, range: Range)

  datatype EntryType = Compressed | Decompressed | DoesNotExist | Empty

  /** What `Entry::validate` returns on success: virtual range, real range, kind. */
  datatype Validated = Validated(virt: Range, realRange: Option<Range>, kind: EntryType)

  /** One table entry: four unsigned 32-bit fields. */
  datatype Entry = Entry(virtStart: u32, virtEnd: u32, physStart: u32, physEnd: u32) {

    function Virt(): Range { Range(virtStart, virtEnd) }

    function Phys(): Range { Range(physStart, physEnd) }

    /** `Entry::kind`: the classification, tested in this order. */
    function Kind(): EntryType {
      if virtStart == 0 && virtEnd == 0 && physStart == 0 && physEnd == 0 then Empty
      else if physStart == U32_MAX && physEnd == U32_MAX then DoesNotExist
      else if physEnd == 0 then Decompressed
      else Compressed
    }

    /** The u32 addition in `range` for a decompressed entry does not overflow. */
    predicate RangeFits() {
      Kind() == Decompressed ==> physStart + Virt().Len() <= U32_MAX
    }

    /**
     * `Entry::range`: the real location of the file data. A compressed entry
     * states it; a decompressed one stores 0 as its physical end, so the length
     * is taken from the virtual range. Empty and missing files have none.
     */
    function RealRange(): (r: Option<Range>)
      requires RangeFits()
      ensures r.Some? <==> Kind() == Compressed || Kind() == Decompressed
      ensures Kind() == Compressed ==> r == Some(Phys())
      ensures Kind() == Decompressed ==>
        r.value.start == physStart && r.value.start <= r.value.end &&
        r.value.Len() == Virt().Len() && r.value.end <= U32_MAX
    {
      match Kind()
      case Compressed => Some(Phys())
      case Decompressed => Some(Range(physStart, physStart + Virt().Len()))
      case _ => None
    }

    /**
     * `Entry::validate`: the virtual axis is checked first, then the real
     * physical range; on success the virtual range, real range and kind.
     */
    function Validate(): (r: Result<Validated, Error>)
      requires RangeFits()
      ensures virtStart > virtEnd ==> r == Err(InvalidRange(Virtual, Virt()))
      ensures virtStart <= virtEnd && RealRange().Some? && RealRange().value.start > RealRange().value.end
        ==> r == Err(InvalidRange(Physical, RealRange().value))
      ensures r.Ok? <==>
        virtStart <= virtEnd && (RealRange().Some? ==> RealRange().value.start <= RealRange().value.end)
      ensures r.Ok? ==> r.value == Validated(Virt(), RealRange(), Kind())
    {
      var rr := RealRange();
      if virtStart > virtEnd then Err(InvalidRange(Virtual, Virt()))
      else match rr
        case Some(phys) =>
          if phys.start > phys.end then Err(InvalidRange(Physical, phys))
          else Ok(Validated(Virt(), rr, Kind()))
        case None => Ok(Validated(Virt(), rr, Kind()))
    }

    /**
     * `Entry::diff`: virtual length minus real physical length for entries that
     * have file data, None for the others; validation errors propagate.
     */
    function Diff(): (r: Result<Option<isize>, Error>)
      requires RangeFits()
      ensures Validate().Err? ==> r == Err(Validate().error)
      ensures Validate().Ok? && RealRange().Some? ==>
        r == Ok(Some(Virt().Len() - RealRange().value.Len()))
      ensures Validate().Ok? && RealRange().None? ==> r == Ok(None)
    {
      var v :- Validate();
      match v.realRange
      case Some(phys) => Ok(Some(v.virt.Len() - phys.Len()))
      case None => Ok(None)
    }
  }

  /** `Entry::from_decompressed`: a decompressed entry at phys_start (physical end 0). */
  function FromDecompressed(virtStart: u32, virtEnd: u32, physStart: u32): Entry {
    Entry(virtStart, virtEnd, physStart, 0)
  }

  /** `Entry::from_range`. */
  function FromRange(virt: Range, phys: Range): Entry
    requires virt.start <= U32_MAX && virt.end <= U32_MAX
    requires phys.start <= U32_MAX && phys.end <= U32_MAX
  {
    Entry(virt.start, virt.end, phys.start, phys.end)
  }

  /** `Entry::initial`: the first entry of every table, which the scan looks for. */
  function Initial(): Entry {
    Entry(0, 0x1060, 0, 0)
  }

  /** `Entry::write`: the four fields as big-endian words, in declaration order. */
  function Encode(e: Entry): (b: seq<u8>)
    ensures |b| == ENTRY_SIZE
  {
    BeU32Bytes(e.virtStart) + BeU32Bytes(e.virtEnd) + BeU32Bytes(e.physStart) + BeU32Bytes(e.physEnd)
  }

  /** `Entry::read` from a reader positioned at pos: four big-endian words. */
  function Read(s: seq<u8>, pos: nat): (r: Result<Entry, Error>)
    ensures r.Ok? <==> pos + ENTRY_SIZE <= |s|
    ensures r.Err? ==> r.error == IOError(UnexpectedEof)
  {
    if pos + ENTRY_SIZE <= |s| then
      Ok(Entry(BeU32At(s, pos), BeU32At(s, pos + 4), BeU32At(s, pos + 8), BeU32At(s, pos + 12)))
    else Err(IOError(UnexpectedEof))
  }

  /** The j-th 16-byte record of a stream that starts at base. */
  function Record(s: seq<u8>, base: nat, j: nat): Result<Entry, Error> {
    Read(s, base + ENTRY_SIZE * j)
  }

  /** The cursor of `Table::read_at` after j entries have been pushed. */
  function CursorAt(begin: nat, j: nat): nat { begin + ENTRY_SIZE * j }

  // ---------------------------------------------------------------------------
  // Properties of single entries

  lemma InitialIsDecompressed()
    ensures Initial().Kind() == Decompressed
    ensures Initial().RealRange() == Some(Range(0, 0x1060))
  {
  }

  /** An entry built by `from_decompressed` is Decompressed unless all its fields are zero. */
  lemma FromDecompressedKind(virtStart: u32, virtEnd: u32, physStart: u32)
    ensures var e := FromDecompressed(virtStart, virtEnd, physStart);
      e.Kind() == (if virtStart == 0 && virtEnd == 0 && physStart == 0 then Empty else Decompressed)
  {
  }

  /** The classification is exhaustive and follows the sentinel encoding. */
  lemma KindSentinels(e: Entry)
    ensures e.Kind() == Empty <==> e == Entry(0, 0, 0, 0)
    ensures e.physStart == U32_MAX && e.physEnd == U32_MAX ==> e.Kind() == DoesNotExist
    ensures e.Kind() == Decompressed ==> e.physEnd == 0
    ensures e.Kind() == Compressed ==> e.physEnd != 0 && !(e.physStart == U32_MAX && e.physEnd == U32_MAX)
  {
  }

  /**
   * The inferred range of a decompressed entry is never reversed, so a
   * Physical validation error can only come from a compressed entry whose stated
   * start exceeds its end.
   */
  lemma PhysicalErrorOnlyForCompressed(e: Entry)
    requires e.RangeFits()
    ensures e.Validate().Err? && e.Validate().error.mapping == Physical <==>
      e.virtStart <= e.virtEnd && e.Kind() == Compressed && e.physStart > e.physEnd
  {
  }

  /** A decompressed entry that validates has no size difference. */
  lemma DiffOfDecompressed(e: Entry)
    requires e.RangeFits() && e.Kind() == Decompressed && e.virtStart <= e.virtEnd
    ensures e.Diff() == Ok(Some(0))
  {
  }

  /** A 100-byte file stored in 40 compressed bytes differs by 60. */
  lemma DiffExample()
    ensures Entry(0x1060, 0x10C4, 0x2000, 0x2028).Diff() == Ok(Some(60))
  {
  }

  /** Decoding what `Entry::write` emitted gives the entry back. */
  lemma ReadEncode(e: Entry)
    ensures Read(Encode(e), 0) == Ok(e)
  {
    var b := Encode(e);
    assert b[0..4] == BeU32Bytes(e.virtStart);
    assert b[4..8] == BeU32Bytes(e.virtEnd);
    assert b[8..12] == BeU32Bytes(e.physStart);
    assert b[12..16] == BeU32Bytes(e.physEnd);
  }

  /** Encoding a decoded entry reproduces the 16 bytes it was read from. */
  lemma EncodeRead(s: seq<u8>, pos: nat)
    requires pos + ENTRY_SIZE <= |s|
    ensures Encode(Read(s, pos).value) == s[pos..pos + ENTRY_SIZE]
  {
    BeU32BytesOfDecoded(s, pos);
    BeU32BytesOfDecoded(s, pos + 4);
    BeU32BytesOfDecoded(s, pos + 8);
    BeU32BytesOfDecoded(s, pos + 12);
    assert s[pos..pos + ENTRY_SIZE] ==
      s[pos..pos + 4] + s[pos + 4..pos + 8] + s[pos + 8..pos + 12] + s[pos + 12..pos + 16];
  }

  // ---------------------------------------------------------------------------
  // The table

  datatype Table = Table(entries: seq<Entry>)

  /** `Table::write`'s output: each entry's 16 bytes, in order, with nothing between. */
  function EncodeTable(es: seq<Entry>): (b: seq<u8>)
    ensures |b| == ENTRY_SIZE * |es|
  {
    if es == [] then [] else EncodeTable(es[..|es| - 1]) + Encode(es[|es| - 1])
  }

  lemma EncodeTableLast(es: seq<Entry>)
    requires es != []
    ensures EncodeTable(es) == EncodeTable(es[..|es| - 1]) + Encode(es[|es| - 1])
  {
  }

  /** Every entry sits at its own 16-byte slot of the encoding. */
  lemma {:induction false} EncodeTableSlot(es: seq<Entry>, j: nat)
    requires j < |es|
    ensures EncodeTable(es)[ENTRY_SIZE * j..ENTRY_SIZE * j + ENTRY_SIZE] == Encode(es[j])
  {
    var n := |es| - 1;
    var front, last := EncodeTable(es[..n]), Encode(es[n]);
    var lo, hi := 16 * j, 16 * j + 16;
    EncodeTableLast(es);
    if j < n {
      EncodeTableSlot(es[..n], j);
      SliceOfLeft(front, last, lo, hi);
    } else {
      SliceOfRight(front, last);
    }
  }

  /** A record depends only on its own 16 bytes. */
  lemma ReadWindow(s: seq<u8>, p: nat)
    requires p + ENTRY_SIZE <= |s|
    ensures Read(s, p) == Read(s[p..p + ENTRY_SIZE], 0)
  {
    var w := s[p..p + ENTRY_SIZE];
    assert s[p] == w[0] && s[p + 1] == w[1] && s[p + 2] == w[2] && s[p + 3] == w[3];
    assert s[p + 4] == w[4] && s[p + 5] == w[5] && s[p + 6] == w[6] && s[p + 7] == w[7];
    assert s[p + 8] == w[8] && s[p + 9] == w[9] && s[p + 10] == w[10] && s[p + 11] == w[11];
    assert s[p + 12] == w[12] && s[p + 13] == w[13] && s[p + 14] == w[14] && s[p + 15] == w[15];
  }

  /** Reading the j-th record of an encoded table gives its j-th entry. */
  lemma ReadEncodedTable(es: seq<Entry>, j: nat)
    requires j < |es|
    ensures Record(EncodeTable(es), 0, j) == Ok(es[j])
  {
    var b := EncodeTable(es);
    var p := ENTRY_SIZE * j;
    EncodeTableSlot(es, j);
    ReadEncode(es[j]);
    ReadWindow(b, p);
  }

  /**
   * `Table::write`: writes every entry in order and returns the accumulated
   * length, 16 bytes per entry.
   */
  method Write(t: Table) returns (bytes: seq<u8>, length: nat)
    ensures bytes == EncodeTable(t.entries)
    ensures length == |bytes| == ENTRY_SIZE * |t.entries|
  {
    bytes, length := [], 0;
    var i := 0;
    while i < |t.entries|
      invariant 0 <= i <= |t.entries|
      invariant bytes == EncodeTable(t.entries[..i])
      invariant length == ENTRY_SIZE * i
    {
      var e := t.entries[i];
      bytes := bytes + Encode(e);
      length := length + ENTRY_SIZE;
      assert t.entries[..i + 1][..i] == t.entries[..i];
      i := i + 1;
    }
    assert t.entries[..i] == t.entries;
  }

  // ---------------------------------------------------------------------------
  // Parsing: `Table::read_at`

  /**
   * Record k is the first record of the table whose virtual start is the
   * table's own address; every record before it was read in full.
   */
  ghost predicate SelfEntryAt(s: seq<u8>, base: nat, begin: nat, k: nat) {
    && Record(s, base, k).Ok?
    && Record(s, base, k).value.virtStart == begin
    && forall j :: 0 <= j < k ==> Record(s, base, j).Ok? && Record(s, base, j).value.virtStart != begin
  }

  /**
   * entries is what `read_at` returns for a table at stream position base with
   * address begin, k being the index of the table's entry about itself: the
   * entries are the consecutive records from base; the record after them was
   * read and not kept; the cursor first reached the table's end at exactly that
   * record; and that end is the virtual end of the first self entry.
   */
  ghost predicate Parsed(s: seq<u8>, base: nat, begin: nat, entries: seq<Entry>, k: nat) {
    var n := |entries|;
    && SelfEntryAt(s, base, begin, k)
    && k <= n
    && Record(s, base, n).Ok?
    && (forall j :: 0 <= j < n ==> Record(s, base, j) == Ok(entries[j]))
    && CursorAt(begin, n) >= Record(s, base, k).value.virtEnd
    && (n > k ==> CursorAt(begin, n - 1) < Record(s, base, k).value.virtEnd)
  }

  ghost predicate Parses(s: seq<u8>, base: nat, begin: nat, entries: seq<Entry>) {
    exists k :: Parsed(s, base, begin, entries, k)
  }

  lemma RecordOkShorter(s: seq<u8>, base: nat, i: nat, n: nat)
    requires i <= n && Record(s, base, n).Ok?
    ensures Record(s, base, i).Ok?
  {
  }

  /** The first self entry is unique. */
  lemma {:induction false} SelfEntryUnique(s: seq<u8>, base: nat, begin: nat, k1: nat, k2: nat)
    requires SelfEntryAt(s, base, begin, k1) && SelfEntryAt(s, base, begin, k2)
    ensures k1 == k2
  {
  }

  /** The description of a parse fixes its result: at most one entry list fits it. */
  lemma ParsedUnique(s: seq<u8>, base: nat, begin: nat, e1: seq<Entry>, k1: nat, e2: seq<Entry>, k2: nat)
    requires Parsed(s, base, begin, e1, k1) && Parsed(s, base, begin, e2, k2)
    ensures e1 == e2
  {
    SelfEntryUnique(s, base, begin, k1, k2);
    var end := Record(s, base, k1).value.virtEnd;
    assert |e1| == |e2|;
    forall j | 0 <= j < |e1| ensures e1[j] == e2[j] {
      assert Record(s, base, j) == Ok(e1[j]);
    }
  }

  /**
   * Re-encoding a parsed table reproduces exactly the bytes it was read from,
   * so patching it back unchanged leaves an image as it was.
   */
  lemma {:induction false} EncodeParsed(s: seq<u8>, base: nat, entries: seq<Entry>)
    requires Record(s, base, |entries|).Ok?
    requires forall j :: 0 <= j < |entries| ==> Record(s, base, j) == Ok(entries[j])
    ensures base + ENTRY_SIZE * |entries| <= |s|
    ensures EncodeTable(entries) == s[base..base + ENTRY_SIZE * |entries|]
  {
    var n := |entries|;
    if n > 0 {
      var m := n - 1;
      var p, q := base + ENTRY_SIZE * m, base + ENTRY_SIZE * n;
      assert q == p + ENTRY_SIZE;
      RecordOkShorter(s, base, m, n);
      forall j | 0 <= j < m ensures Record(s, base, j) == Ok(entries[..m][j]) {
        assert Record(s, base, j) == Ok(entries[j]);
      }
      EncodeParsed(s, base, entries[..m]);
      assert Record(s, base, m) == Ok(entries[m]);
      EncodeRead(s, p);
      assert EncodeTable(entries) == EncodeTable(entries[..m]) + Encode(entries[m]);
      assert s[base..q] == s[base..p] + s[p..q];
    }
  }

  /** A table read from an image lies inside it, so it can be written back over itself. */
  lemma ParsedFits(s: seq<u8>, base: nat, begin: nat, entries: seq<Entry>)
    requires Parses(s, base, begin, entries)
    ensures base + ENTRY_SIZE * |entries| <= |s|
    ensures EncodeTable(entries) == s[base..base + ENTRY_SIZE * |entries|]
    ensures Overwrite(s, base, EncodeTable(entries)) == s
  {
    var k :| Parsed(s, base, begin, entries, k);
    EncodeParsed(s, base, entries);
    OverwriteSame(s, base, ENTRY_SIZE * |entries|);
  }

  /**
   * `Table::read_at`: reads entries from the stream at base until the cursor,
   * which starts at the table's address begin and advances 16 per kept entry,
   * reaches the end named by the first entry whose virtual start is begin. The
   * record read when the end is reached is not kept. Running out of input
   * before that is an I/O error.
   */
  method ReadAt(s: seq<u8>, base: nat, begin: u32) returns (r: Result<Table, Error>)
    ensures r.Ok? ==> Parses(s, base, begin, r.value.entries)
    ensures r.Err? ==> r.error == IOError(UnexpectedEof)
    ensures r.Err? ==> forall es: seq<Entry>, k: nat :: !Parsed(s, base, begin, es, k)
  {
    var current: nat := begin;
    var entries: seq<Entry> := [];
    var end: Option<nat> := None;
    var pos := base;
    ghost var k: nat := 0;
    while true
      invariant pos == base + ENTRY_SIZE * |entries| && current == CursorAt(begin, |entries|)
      invariant forall j :: 0 <= j < |entries| ==> Record(s, base, j) == Ok(entries[j])
      invariant end.None? ==> forall j :: 0 <= j < |entries| ==> Record(s, base, j).value.virtStart != begin
      invariant end.Some? ==> k < |entries| && SelfEntryAt(s, base, begin, k)
      invariant end.Some? ==> end.value == Record(s, base, k).value.virtEnd
      invariant end.Some? ==> CursorAt(begin, |entries| - 1) < end.value
      decreases |s| - pos
    {
      var read := Read(s, pos);
      if read.Err? {
        assert forall es: seq<Entry>, k': nat :: !Parsed(s, base, begin, es, k');
        return Err(read.error);
      }
      var entry := read.value;
      assert Record(s, base, |entries|) == Ok(entry);
      pos := pos + ENTRY_SIZE;
      if end == None && entry.virtStart == begin {
        end := Some(entry.virtEnd);
        k := |entries|;
      }
      if end.Some? && current >= end.value {
        break;
      }
      entries := entries + [entry];
      current := current + ENTRY_SIZE;
    }
    r := Ok(Table(entries));
    assert Parsed(s, base, begin, entries, k);
  }

  /** `Table::read`: read_at with the stream position, truncated to 32 bits, as address. */
  method ReadTable(s: seq<u8>, pos: nat) returns (r: Result<Table, Error>)
    ensures r.Ok? ==> Parses(s, pos, pos % 0x1_0000_0000, r.value.entries)
    ensures r.Err? ==> r.error == IOError(UnexpectedEof)
    ensures r.Err? ==> forall es: seq<Entry>, k: nat :: !Parsed(s, pos, pos % 0x1_0000_0000, es, k)
  {
    r := ReadAt(s, pos, pos % 0x1_0000_0000);
  }

  // ---------------------------------------------------------------------------
  // Discovery: `Table::find_offset` and `Table::find`

  /** offset is the first 16-aligned window from 0 that holds the initial entry. */
  ghost predicate FirstInitialAt(s: seq<u8>, offset: nat) {
    && offset % ENTRY_SIZE == 0
    && Read(s, offset) == Ok(Initial())
    && forall j :: 0 <= j < offset / ENTRY_SIZE ==> Record(s, 0, j) != Ok(Initial())
  }

  /** No complete 16-aligned window from 0 holds the initial entry. */
  ghost predicate NoInitial(s: seq<u8>) {
    forall j: nat :: Record(s, 0, j).Ok? ==> Record(s, 0, j) != Ok(Initial())
  }

  /**
   * `Table::find_offset`: compares the 16-byte windows at 0, 16, 32, ... with
   * the initial entry and returns the start of the first match. It never
   * returns None: without a match it reads past the end and fails.
   */
  method FindOffset(s: seq<u8>) returns (r: Result<Option<nat>, Error>)
    ensures r.Ok? ==> r.value.Some? && FirstInitialAt(s, r.value.value)
    ensures r.Err? ==> r.error == IOError(UnexpectedEof) && NoInitial(s)
  {
    var pos := 0;
    while true
      invariant pos % ENTRY_SIZE == 0
      invariant forall j :: 0 <= j < pos / ENTRY_SIZE ==> Record(s, 0, j) != Ok(Initial())
      decreases |s| - pos
    {
      var read := Read(s, pos);
      if read.Err? {
        assert NoInitial(s);
        return Err(read.error);
      }
      assert Record(s, 0, pos / ENTRY_SIZE) == read;
      pos := pos + ENTRY_SIZE;
      if read.value == Initial() {
        return Ok(Some(pos - ENTRY_SIZE));
      }
    }
  }

  /**
   * `Table::find`: locate the table and read it from there. On success the
   * offset is the first match and the table is read with that offset as its
   * address (truncated to 32 bits).
   */
  method Find(s: seq<u8>) returns (r: Result<Option<(Table, nat)>, Error>)
    ensures r.Ok? ==> r.value.Some?
    ensures r.Ok? ==> (FirstInitialAt(s, r.value.value.1) &&
      Parses(s, r.value.value.1, r.value.value.1 % 0x1_0000_0000, r.value.value.0.entries))
    ensures r.Err? ==> r.error == IOError(UnexpectedEof)
    ensures r.Err? ==> NoInitial(s) || exists o: nat :: (FirstInitialAt(s, o) &&
      forall es: seq<Entry>, k: nat :: !Parsed(s, o, o % 0x1_0000_0000, es, k))
  {
    var offset := FindOffset(s);
    if offset.Err? {
      return Err(offset.error);
    }
    match offset.value
    case Some(o) =>
      var table := ReadTable(s, o);
      if table.Err? {
        return Err(table.error);
      }
      r := Ok(Some((table.value, o)));
    case None =>
      r := Ok(None);
  }

  // ---------------------------------------------------------------------------
  // Files of a table

  /** Every entry's real range can be computed without a u32 overflow. */
  predicate AllFit(es: seq<Entry>) {
    forall i :: 0 <= i < |es| ==> es[i].RangeFits()
  }

  /** Entries with file data: those with a real range. */
  predicate IsFile(e: Entry)
    requires e.RangeFits()
  {
    e.RealRange().Some?
  }

  /** The entries of es that carry file data, in table order. */
  function Files(es: seq<Entry>): (r: seq<Entry>)
    requires AllFit(es)
    ensures |r| <= |es| && AllFit(r)
    ensures forall j :: 0 <= j < |r| ==> IsFile(r[j])
    decreases |es|
  {
    if es == [] then []
    else if IsFile(es[|es| - 1]) then Files(es[..|es| - 1]) + [es[|es| - 1]]
    else Files(es[..|es| - 1])
  }
}
