/**
 * The filesystem-aware ROM of the newer library (zelda64-rs/src/rom.rs): an
 * N64 container and the DMA table found in it, with patch-back of the table
 * and checksum correction.
 *
 * The dma module of this library is not part of this model. Its `Table`
 * is the entry list of src/dma.rs plus the address it was found at, and
 * its `size()` is 16 bytes per entry.
 */
module ZRom {
  import opened Common
  import opened Dma
  import N64Rom

  /** `Table` with its discovery address. */
  datatype AddressedTable = AddressedTable(address: nat, entries: seq<Entry>) {
    /** `Table::size`. */
    function Size(): (n: nat)
      ensures n == |EncodeTable(entries)|
    {
      ENTRY_SIZE * |entries|
    }
  }

  datatype Error = DMAError(dma: Dma.Error) | HeaderError | IOError(io: IoError)

  class Rom {
    const rom: N64Rom.Rom
    var table: Option<AddressedTable>

    /** `Rom::from`. */
    constructor From(rom: N64Rom.Rom, table: Option<AddressedTable>)
      ensures this.rom == rom && this.table == table
    {
      this.rom := rom;
      this.table := table;
    }

    /** The table's bytes lie inside the image (the slice in `update_table_data` is in bounds). */
    predicate TableFits()
      reads this, rom
    {
      table.Some? ==> table.value.address + table.value.Size() <= rom.image.Length
    }

    /**
     * `patch`: a cursor over the body, positioned at offset, writes what fits
     * of bytes and returns the count. The head and every byte outside the
     * written span keep their values; it never fails.
     */
    method Patch(offset: u64, bytes: seq<u8>) returns (written: nat)
      requires N64Rom.HEAD_SIZE <= rom.image.Length
      modifies rom.image
      ensures written == CursorWriteCount(rom.image.Length - N64Rom.HEAD_SIZE, offset, |bytes|)
      ensures written > 0 ==>
        rom.image[..] == Overwrite(old(rom.image[..]), N64Rom.HEAD_SIZE + offset, bytes[..written])
      ensures written == 0 ==> rom.image[..] == old(rom.image[..])
      ensures rom.image[..N64Rom.HEAD_SIZE] == old(rom.image[..N64Rom.HEAD_SIZE])
    {
      var body := rom.image.Length - N64Rom.HEAD_SIZE;
      written := CursorWriteCount(body, offset, |bytes|);
      if written > 0 {
        rom.WriteData(offset, bytes[..written]);
      }
    }

    /**
     * `slice`: the image bytes of an entry's real range. Unwrapping a missing
     * range or slicing outside the image panics, so both are required.
     */
    function Slice(entry: Entry): (s: seq<u8>)
      reads rom, rom.image
      requires entry.RangeFits() && entry.RealRange().Some?
      requires entry.RealRange().value.start <= entry.RealRange().value.end <= rom.image.Length
      ensures |s| == entry.RealRange().value.Len()
      ensures forall k :: 0 <= k < |s| ==> s[k] == rom.image[entry.RealRange().value.start + k]
    {
      rom.Full()[entry.RealRange().value.start..entry.RealRange().value.end]
    }

    /**
     * `update_table_data`: without a table nothing happens; with one, exactly
     * the bytes [address, address + size) of the image are replaced by the
     * table's encoding.
     */
    method UpdateTableData() returns (r: Result<(), Error>)
      requires TableFits()
      modifies rom.image
      ensures r.Ok?
      ensures table.None? ==> rom.image[..] == old(rom.image[..])
      ensures table.Some? ==>
        rom.image[..] == Overwrite(old(rom.image[..]), table.value.address, EncodeTable(table.value.entries))
    {
      match table
      case Some(t) =>
        var bytes, _ := Write(Table(t.entries));
        rom.WriteFull(t.address, bytes);
        r := Ok(());
      case None =>
        r := Ok(());
    }

    /** `update`: the table is written back first, then the checksums are corrected over the result. */
    method Update() returns (r: Result<(), Error>)
      requires TableFits() && N64Rom.HEAD_SIZE <= rom.image.Length
      modifies rom, rom.image
      ensures r.Ok?
      ensures table.None? ==> rom.image[..] == old(rom.image[..])
      ensures table.Some? ==>
        rom.image[..] == Overwrite(old(rom.image[..]), table.value.address, EncodeTable(table.value.entries))
      ensures rom.header.fields == old(rom.header.fields)
      ensures rom.CheckCrc().0
    {
      r := UpdateTableData();
      var _ := rom.CorrectCrc();
    }

    /** `write`: the container's own write in its own byte order. */
    method WriteOut(encodeHead: (N64Rom.Header, N64Rom.Ipl3) -> seq<u8>, emit: (seq<u8>, Endianness) -> seq<u8>)
      returns (r: Result<seq<u8>, IoError>)
      requires N64Rom.HEAD_SIZE <= rom.image.Length
      modifies rom.image
      ensures var head := encodeHead(rom.header, rom.ipl3);
        if |head| > N64Rom.HEAD_SIZE then r == Err(WriteZero) && rom.image[..] == Overwrite(old(rom.image[..]), 0, head[..N64Rom.HEAD_SIZE])
        else rom.image[..] == Overwrite(old(rom.image[..]), 0, head) && r == Ok(emit(rom.image[..], rom.order))
    {
      r := rom.Write(encodeHead, emit, None);
    }

    /**
     * `write_with_update`: always runs `update` before writing, so what is
     * emitted carries the patched table and checksums that match the body.
     */
    method WriteWithUpdate(encodeHead: (N64Rom.Header, N64Rom.Ipl3) -> seq<u8>,
                           emit: (seq<u8>, Endianness) -> seq<u8>)
      returns (r: Result<seq<u8>, Error>)
      requires TableFits() && N64Rom.HEAD_SIZE <= rom.image.Length
      modifies rom, rom.image
      ensures rom.CheckCrc().0
      ensures var patched := if table.Some? then
          Overwrite(old(rom.image[..]), table.value.address, EncodeTable(table.value.entries))
        else old(rom.image[..]);
        var head := encodeHead(rom.header, rom.ipl3);
        if |head| > N64Rom.HEAD_SIZE then r == Err(Error.IOError(WriteZero)) && rom.image[..] == Overwrite(patched, 0, head[..N64Rom.HEAD_SIZE])
        else rom.image[..] == Overwrite(patched, 0, head) && r == Ok(emit(rom.image[..], rom.order))
    {
      var _ := Update();
      ghost var before := rom.image[..];
      var w := WriteOut(encodeHead, emit);
      var head := encodeHead(rom.header, rom.ipl3);
      OverwriteTail(before, 0, if |head| > N64Rom.HEAD_SIZE then head[..N64Rom.HEAD_SIZE] else head, N64Rom.HEAD_SIZE);
      assert rom.Data() == before[N64Rom.HEAD_SIZE..];
      if w.Err? {
        return Err(Error.IOError(w.error));
      }
      r := Ok(w.value);
    }
  }

  /**
   * `Rom::read` once the container is read: the table search runs over the
   * full image; a table that is found is kept with its address, and a failed
   * search is a DMA error.
   */
  method Read(n64rom: N64Rom.Rom) returns (r: Result<Rom, Error>)
    ensures r.Ok? ==> fresh(r.value) && r.value.rom == n64rom && r.value.TableFits()
    ensures r.Ok? ==> r.value.table.Some?
    ensures r.Ok? && r.value.table.Some? ==>
      var t := r.value.table.value;
      && FirstInitialAt(n64rom.Full(), t.address)
      && Parses(n64rom.Full(), t.address, t.address % 0x1_0000_0000, t.entries)
    ensures r.Err? ==> r.error == DMAError(Dma.IOError(UnexpectedEof))
    ensures r.Err? ==> NoInitial(n64rom.Full()) || exists o: nat :: (FirstInitialAt(n64rom.Full(), o) &&
      forall es: seq<Entry>, k: nat :: !Parsed(n64rom.Full(), o, o % 0x1_0000_0000, es, k))
  {
    var found := Find(n64rom.Full());
    if found.Err? {
      return Err(DMAError(found.error));
    }
    var table: Option<AddressedTable> := None;
    if found.value.Some? {
      var (t, offset) := found.value.value;
      ParsedFits(n64rom.Full(), offset, offset % 0x1_0000_0000, t.entries);
      table := Some(AddressedTable(offset, t.entries));
    }
    var rom := new Rom.From(n64rom, table);
    r := Ok(rom);
  }

  /** Writing back a table exactly as it was read leaves the image unchanged. */
  lemma PatchBackUnchanged(s: seq<u8>, t: AddressedTable)
    requires Parses(s, t.address, t.address % 0x1_0000_0000, t.entries)
    ensures t.address + t.Size() <= |s|
    ensures Overwrite(s, t.address, EncodeTable(t.entries)) == s
  {
    ParsedFits(s, t.address, t.address % 0x1_0000_0000, t.entries);
  }
}
