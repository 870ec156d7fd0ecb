/**
 * The filesystem-aware ROM of the older library (src/rom.rs): an N64
 * container and the DMA table found in its body together with the body
 * offset it was found at.
 */
module LegacyRom {
  import opened Common
  import opened Dma
  import N64Rom

  datatype Error = DMAError(dma: Dma.Error) | HeaderError | IOError(io: IoError)

  class Rom {
    const rom: N64Rom.Rom
    var table: Option<(Table, nat)>

    /** `Rom::from`. */
    constructor From(rom: N64Rom.Rom, table: Option<(Table, nat)>)
      ensures this.rom == rom && this.table == table
    {
      this.rom := rom;
      this.table := table;
    }

    /**
     * `patch`: a cursor over the body (`data_mut`), positioned at offset,
     * writes min(|bytes|, max(0, |body| - offset)) bytes and returns that
     * count. The head is never touched and nothing outside the written span
     * changes; it never fails. (The offset is a u64, which every usize table
     * offset converts to without loss.)
     */
    method Patch(offset: nat, bytes: seq<u8>) returns (written: nat)
      requires N64Rom.HEAD_SIZE <= rom.image.Length
      modifies rom.image
      ensures written == CursorWriteCount(rom.image.Length - N64Rom.HEAD_SIZE, offset, |bytes|)
      ensures written > 0 ==>
        rom.image[..] == Overwrite(old(rom.image[..]), N64Rom.HEAD_SIZE + offset, bytes[..written])
      ensures written == 0 ==> rom.image[..] == old(rom.image[..])
      ensures rom.image[..N64Rom.HEAD_SIZE] == old(rom.image[..N64Rom.HEAD_SIZE])
    {
      var body := rom.image.Length - N64Rom.HEAD_SIZE;
      written := CursorWriteCount(body, offset, |bytes|);
      if written > 0 {
        rom.WriteData(offset, bytes[..written]);
      }
    }

    /** The image after writing the table's encoding back through `patch` at its body offset. */
    ghost function Patched(image: seq<u8>): seq<u8>
      reads this
      requires N64Rom.HEAD_SIZE <= |image|
    {
      match table
      case None => image
      case Some((t, offset)) =>
        var bytes := EncodeTable(t.entries);
        var n := CursorWriteCount(|image| - N64Rom.HEAD_SIZE, offset, |bytes|);
        if n > 0 then Overwrite(image, N64Rom.HEAD_SIZE + offset, bytes[..n]) else image
    }

    /**
     * `update_table_data`: with a table, its encoding is patched into the body
     * at the stored offset (as much as fits); without one nothing happens.
     */
    method UpdateTableData() returns (r: Result<(), Error>)
      requires N64Rom.HEAD_SIZE <= rom.image.Length
      modifies rom.image
      ensures r.Ok?
      ensures rom.image[..] == Patched(old(rom.image[..]))
    {
      match table
      case Some((t, offset)) =>
        var bytes, _ := Write(t);
        var _ := Patch(offset, bytes);
        r := Ok(());
      case None =>
        r := Ok(());
    }

    /** `update`: the table is patched back first, then the checksums are corrected over the result. */
    method Update() returns (r: Result<(), Error>)
      requires N64Rom.HEAD_SIZE <= rom.image.Length
      modifies rom, rom.image
      ensures r.Ok?
      ensures rom.image[..] == Patched(old(rom.image[..]))
      ensures rom.header.fields == old(rom.header.fields)
      ensures rom.CheckCrc().0
    {
      r := UpdateTableData();
      var _ := rom.CorrectCrc();
    }

    /** `write`: the container's own write in its own byte order. */
    method WriteOut(encodeHead: (N64Rom.Header, N64Rom.Ipl3) -> seq<u8>, emit: (seq<u8>, Endianness) -> seq<u8>)
      returns (r: Result<seq<u8>, IoError>)
      requires N64Rom.HEAD_SIZE <= rom.image.Length
      modifies rom.image
      ensures var head := encodeHead(rom.header, rom.ipl3);
        if |head| > N64Rom.HEAD_SIZE then r == Err(WriteZero) && rom.image[..] == Overwrite(old(rom.image[..]), 0, head[..N64Rom.HEAD_SIZE])
        else rom.image[..] == Overwrite(old(rom.image[..]), 0, head) && r == Ok(emit(rom.image[..], rom.order))
    {
      r := rom.Write(encodeHead, emit, None);
    }

    /** `write_with_update`: `update` always runs before the write. */
    method WriteWithUpdate(encodeHead: (N64Rom.Header, N64Rom.Ipl3) -> seq<u8>,
                           emit: (seq<u8>, Endianness) -> seq<u8>)
      returns (r: Result<seq<u8>, Error>)
      requires N64Rom.HEAD_SIZE <= rom.image.Length
      modifies rom, rom.image
      ensures rom.CheckCrc().0
      ensures var patched := Patched(old(rom.image[..]));
        var head := encodeHead(rom.header, rom.ipl3);
        if |head| > N64Rom.HEAD_SIZE then r == Err(Error.IOError(WriteZero)) && rom.image[..] == Overwrite(patched, 0, head[..N64Rom.HEAD_SIZE])
        else rom.image[..] == Overwrite(patched, 0, head) && r == Ok(emit(rom.image[..], rom.order))
    {
      var _ := Update();
      ghost var before := rom.image[..];
      var w := WriteOut(encodeHead, emit);
      var head := encodeHead(rom.header, rom.ipl3);
      OverwriteTail(before, 0, if |head| > N64Rom.HEAD_SIZE then head[..N64Rom.HEAD_SIZE] else head, N64Rom.HEAD_SIZE);
      assert rom.Data() == before[N64Rom.HEAD_SIZE..];
      if w.Err? {
        return Err(Error.IOError(w.error));
      }
      r := Ok(w.value);
    }
  }

  /**
   * `Rom::read` once the container is read, as written: the table search runs
   * over the body (`data`), and the table is read with the body offset it was
   * found at as its address. The entries record image addresses, so the
   * table's entry about itself is looked for HEAD_SIZE too low (see
   * `BodyAddressMissesSelfEntry`).
   */
  method ReadAsWritten(n64rom: N64Rom.Rom) returns (r: Result<Rom, Error>)
    requires N64Rom.HEAD_SIZE <= n64rom.image.Length
    ensures r.Ok? ==> fresh(r.value) && r.value.rom == n64rom
    ensures r.Ok? ==> r.value.table.Some?
    ensures r.Ok? && r.value.table.Some? ==>
      var (t, offset) := r.value.table.value;
      && FirstInitialAt(n64rom.Data(), offset)
      && Parses(n64rom.Data(), offset, offset % 0x1_0000_0000, t.entries)
    ensures r.Err? ==> r.error == DMAError(Dma.IOError(UnexpectedEof))
    ensures r.Err? ==> NoInitial(n64rom.Data()) || exists o: nat :: (FirstInitialAt(n64rom.Data(), o) &&
      forall es: seq<Entry>, k: nat :: !Parsed(n64rom.Data(), o, o % 0x1_0000_0000, es, k))
  {
    var found := Find(n64rom.Data());
    if found.Err? {
      return Err(DMAError(found.error));
    }
    var rom := new Rom.From(n64rom, found.value);
    r := Ok(rom);
  }

  /**
   * `Rom::read` with the table address corrected: the search still runs over
   * the body and the body offset is kept for patching back, but the table is
   * read with the image address of that offset, HEAD_SIZE further on, which
   * is what its entry about itself records.
   */
  method Read(n64rom: N64Rom.Rom) returns (r: Result<Rom, Error>)
    requires N64Rom.HEAD_SIZE <= n64rom.image.Length
    ensures r.Ok? ==> fresh(r.value) && r.value.rom == n64rom
    ensures r.Ok? ==> r.value.table.Some?
    ensures r.Ok? && r.value.table.Some? ==>
      var (t, offset) := r.value.table.value;
      && FirstInitialAt(n64rom.Data(), offset)
      && Parses(n64rom.Data(), offset, ImageAddress(offset), t.entries)
      && offset + ENTRY_SIZE * |t.entries| <= |n64rom.Data()|
    ensures r.Err? ==> r.error == DMAError(Dma.IOError(UnexpectedEof))
    ensures r.Err? ==> ReadFails(n64rom.Data())
  {
    var data := n64rom.Data();
    var found := FindOffset(data);
    if found.Err? {
      return Err(DMAError(found.error));
    }
    var offset := found.value.value;
    var table := ReadAt(data, offset, ImageAddress(offset));
    if table.Err? {
      return Err(DMAError(table.error));
    }
    ParsedFits(data, offset, ImageAddress(offset), table.value.entries);
    var rom := new Rom.From(n64rom, Some((table.value, offset)));
    r := Ok(rom);
  }

  /**
   * When the corrected read fails: no window holds the initial entry, or the
   * first one that does starts no table at its image address.
   */
  ghost predicate ReadFails(s: seq<u8>) {
    NoInitial(s) || exists o: nat :: (FirstInitialAt(s, o) &&
      forall es: seq<Entry>, k: nat :: !Parsed(s, o, ImageAddress(o), es, k))
  }

  /** The image address of a body offset, as a u32 table address. */
  function ImageAddress(offset: nat): (a: u32)
    ensures offset + N64Rom.HEAD_SIZE <= U32_MAX ==> a == offset + N64Rom.HEAD_SIZE
  {
    (offset + N64Rom.HEAD_SIZE) % 0x1_0000_0000
  }

  /** A body with a zero record, then a two-entry table and the record after it. */
  function ExampleBody(): seq<u8> {
    EncodeTable(ExampleRecordsList())
  }

  function ExampleRecordsList(): seq<Entry> {
    [Entry(0, 0, 0, 0), Initial(), ExampleSelf(), Entry(0, 0, 0, 0)]
  }

  /** The table's entry about itself: it starts at image address 0x1010, body offset 16. */
  function ExampleSelf(): Entry {
    Entry(0x1010, 0x1030, 0x1010, 0)
  }

  /** The j-th record of the example body read from offset 16. */
  lemma ExampleRecords()
    ensures Record(ExampleBody(), ENTRY_SIZE, 0) == Ok(Initial())
    ensures Record(ExampleBody(), ENTRY_SIZE, 1) == Ok(ExampleSelf())
    ensures Record(ExampleBody(), ENTRY_SIZE, 2) == Ok(Entry(0, 0, 0, 0))
    ensures forall j: nat :: j >= 3 ==> Record(ExampleBody(), ENTRY_SIZE, j).Err?
    ensures Record(ExampleBody(), 0, 0) == Ok(Entry(0, 0, 0, 0))
    ensures Record(ExampleBody(), 0, 1) == Ok(Initial())
  {
    var es := ExampleRecordsList();
    var s := ExampleBody();
    assert |s| == 64;
    ReadEncodedTable(es, 0);
    ReadEncodedTable(es, 1);
    ReadEncodedTable(es, 2);
    ReadEncodedTable(es, 3);
    assert Record(s, ENTRY_SIZE, 0) == Record(s, 0, 1);
    assert Record(s, ENTRY_SIZE, 1) == Record(s, 0, 2);
    assert Record(s, ENTRY_SIZE, 2) == Record(s, 0, 3);
  }

  /** On the example body the search finds the initial entry at body offset 16 and nowhere before. */
  lemma ExampleFoundAt16()
    ensures FirstInitialAt(ExampleBody(), ENTRY_SIZE)
    ensures forall o: nat :: FirstInitialAt(ExampleBody(), o) ==> o == ENTRY_SIZE
  {
    ExampleRecords();
    InitialSecond(ExampleBody());
  }

  /** A stream whose first record is not the initial entry and whose second is finds it at 16 only. */
  lemma InitialSecond(s: seq<u8>)
    requires Record(s, 0, 0) != Ok(Initial()) && Record(s, 0, 1) == Ok(Initial())
    ensures FirstInitialAt(s, ENTRY_SIZE)
    ensures forall o: nat :: FirstInitialAt(s, o) ==> o == ENTRY_SIZE
  {
    forall o: nat | FirstInitialAt(s, o)
      ensures o == ENTRY_SIZE
    {
      assert o == 0 || o == ENTRY_SIZE || o >= 2 * ENTRY_SIZE;
    }
  }

  /**
   * Read with the body offset 16 as its address, as `ReadAsWritten` does, the
   * example table has no record starting at that address, so the end is never
   * learnt and the read runs out of input: nothing parses.
   */
  lemma BodyAddressMissesSelfEntry()
    ensures forall es: seq<Entry>, k: nat :: !Parsed(ExampleBody(), ENTRY_SIZE, ENTRY_SIZE, es, k)
  {
    ExampleRecords();
    ThreeRecordsNoParse(ExampleBody(), ENTRY_SIZE, ENTRY_SIZE);
  }

  /** `NoSelfEntryNoParse` for a stream of exactly three records. */
  lemma ThreeRecordsNoParse(s: seq<u8>, base: nat, begin: nat)
    requires Record(s, base, 0).Ok? && Record(s, base, 0).value.virtStart != begin
    requires Record(s, base, 1).Ok? && Record(s, base, 1).value.virtStart != begin
    requires Record(s, base, 2).Ok? && Record(s, base, 2).value.virtStart != begin
    requires forall j: nat :: j >= 3 ==> Record(s, base, j).Err?
    ensures forall es: seq<Entry>, k: nat :: !Parsed(s, base, begin, es, k)
  {
    NoSelfEntryNoParse(s, base, begin, 3);
  }

  /**
   * A table address that none of the first n records starts at, with no
   * record readable after them, lets nothing parse.
   */
  lemma NoSelfEntryNoParse(s: seq<u8>, base: nat, begin: nat, n: nat)
    requires forall j: nat :: j < n ==> Record(s, base, j).Ok? && Record(s, base, j).value.virtStart != begin
    requires forall j: nat :: j >= n ==> Record(s, base, j).Err?
    ensures forall es: seq<Entry>, k: nat :: !Parsed(s, base, begin, es, k)
  {
  }

  /** Read with the image address of offset 16, as `Read` does, the example table gives its two entries. */
  lemma ImageAddressFindsSelfEntry()
    ensures Parses(ExampleBody(), ENTRY_SIZE, ImageAddress(ENTRY_SIZE), [Initial(), ExampleSelf()])
  {
    ExampleRecords();
    assert ImageAddress(ENTRY_SIZE) == 0x1010;
    SecondIsSelf(ExampleBody(), ENTRY_SIZE, 0x1010);
  }

  /** The corrected read cannot fail on the example body. */
  lemma ExampleReadSucceeds()
    ensures !ReadFails(ExampleBody())
  {
    ExampleRecords();
    ExampleFoundAt16();
    ImageAddressFindsSelfEntry();
    assert !NoInitial(ExampleBody()) by {
      assert Record(ExampleBody(), 0, 1) == Ok(Initial());
    }
  }

  /**
   * A table whose second record is its entry about itself and ends two
   * records past the address parses as its first two records.
   */
  lemma SecondIsSelf(s: seq<u8>, base: nat, begin: nat)
    requires Record(s, base, 0).Ok? && Record(s, base, 0).value.virtStart != begin
    requires Record(s, base, 1).Ok? && Record(s, base, 1).value.virtStart == begin
    requires begin + ENTRY_SIZE < Record(s, base, 1).value.virtEnd <= begin + 2 * ENTRY_SIZE
    requires Record(s, base, 2).Ok?
    ensures Parses(s, base, begin, [Record(s, base, 0).value, Record(s, base, 1).value])
  {
    assert Parsed(s, base, begin, [Record(s, base, 0).value, Record(s, base, 1).value], 1);
  }

  /**
   * Patching back a table just as it was read from the body, whatever address
   * it was read with, writes all of it and leaves the image unchanged.
   */
  lemma PatchBackUnchanged(image: seq<u8>, t: Table, offset: nat, begin: nat)
    requires N64Rom.HEAD_SIZE <= |image|
    requires Parses(image[N64Rom.HEAD_SIZE..], offset, begin, t.entries)
    ensures var bytes := EncodeTable(t.entries);
      CursorWriteCount(|image| - N64Rom.HEAD_SIZE, offset, |bytes|) == |bytes|
    ensures Overwrite(image, N64Rom.HEAD_SIZE + offset, EncodeTable(t.entries)) == image
  {
    var body, w := image[N64Rom.HEAD_SIZE..], EncodeTable(t.entries);
    ParsedFits(body, offset, begin, t.entries);
    assert offset + |w| <= |body| && body[offset..offset + |w|] == w;
    SuffixWindow(image, N64Rom.HEAD_SIZE, offset, w);
  }

  /** A window of the body that repeats its bytes is a window of the image that does. */
  lemma SuffixWindow(s: seq<u8>, h: nat, o: nat, w: seq<u8>)
    requires h <= |s| && o + |w| <= |s| - h
    requires s[h..][o..o + |w|] == w
    ensures Overwrite(s, h + o, w) == s
  {
    assert s[h..][o..o + |w|] == s[h + o..h + o + |w|];
    OverwriteSame(s, h + o, |w|);
  }
}
