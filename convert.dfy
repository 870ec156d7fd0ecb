/**
 * In-memory byte-order conversion of ROM images (n64rom-rs/src/convert.rs).
 * Each converter rewrites the buffer in place, one 4-byte chunk at a time.
 */
module Convert {
  import opened Common
  import opened ByteOrder
  import N64Rom

  datatype Error = AlignmentError(len: nat) | FileTooBigError(size: nat)

  datatype ConvertStatus = AlreadyConverted | Complete

  /** `validate_alignment`: only lengths that are a multiple of 4 pass. */
  function ValidateAlignment(value: nat): (r: Result<(), Error>)
    ensures r.Ok? <==> value % WORD == 0
    ensures r.Err? ==> r.error == AlignmentError(value)
  {
    if value % WORD == 0 then Ok(()) else Err(AlignmentError(value))
  }

  /**
   * `validate_rom_file_size`: the size limit is checked before the alignment;
   * a size that passes both is returned.
   */
  function ValidateRomFileSize(filesize: u64): (r: Result<nat, Error>)
    ensures N64Rom.MAX_SIZE < filesize ==> r == Err(FileTooBigError(filesize))
    ensures filesize <= N64Rom.MAX_SIZE && filesize % WORD != 0 ==> r == Err(AlignmentError(filesize))
    ensures r.Ok? <==> filesize <= N64Rom.MAX_SIZE && filesize % WORD == 0
    ensures r.Ok? ==> r.value == filesize
  {
    if N64Rom.MAX_SIZE < filesize then Err(FileTooBigError(filesize))
    else
      var size: nat := filesize;
      var _ :- ValidateAlignment(size);
      Ok(size)
  }

  /** The three chunk swaps. */
  datatype Swap = BigLittle | BigMixed | LittleMixed {
    function Perm(): WordPerm {
      match this
      case BigLittle => BIG_LITTLE
      case BigMixed => BIG_MIXED
      case LittleMixed => LITTLE_MIXED
    }
  }

  /** `swap_big_little`, `swap_big_mixed` and `swap_little_mixed` on the chunk at at. */
  method SwapChunk(buf: array<u8>, at: nat, swap: Swap)
    requires at + WORD <= buf.Length
    modifies buf
    ensures buf[..] == PermutedAt(old(buf[..]), at, swap.Perm())
  {
    match swap
    case BigLittle =>
      buf[at], buf[at + 3] := buf[at + 3], buf[at];
      buf[at + 1], buf[at + 2] := buf[at + 2], buf[at + 1];
    case BigMixed =>
      buf[at], buf[at + 1] := buf[at + 1], buf[at];
      buf[at + 2], buf[at + 3] := buf[at + 3], buf[at + 2];
    case LittleMixed =>
      buf[at], buf[at + 2] := buf[at + 2], buf[at];
      buf[at + 1], buf[at + 3] := buf[at + 3], buf[at + 1];
  }

  /** `for chunk in buf.chunks_exact_mut(4) { swap(chunk) }`. */
  method SwapChunks(buf: array<u8>, swap: Swap)
    modifies buf
    ensures buf[..] == WordPermuted(old(buf[..]), swap.Perm())
  {
    ghost var s := buf[..];
    var n := buf.Length / WORD;
    for i := 0 to n
      invariant buf[..] == Permuted(s, swap.Perm(), i)
    {
      PermutedStep(s, swap.Perm(), i);
      SwapChunk(buf, WORD * i, swap);
    }
  }

  /**
   * The converters and `convert_with`: the converter for `current` reports
   * AlreadyConverted for its own byte order and otherwise swaps every chunk.
   */
  method ConvertWith(buf: array<u8>, current: Endianness, target: Endianness) returns (status: ConvertStatus)
    modifies buf
    ensures status == (if current == target then AlreadyConverted else Complete)
    ensures buf[..] == Converted(old(buf[..]), current, target)
  {
    if current == target {
      ConvertedSame(buf[..], current);
      return AlreadyConverted;
    }
    var swap := match (current, target)
      case (Big, Little) => BigLittle
      case (Little, Big) => BigLittle
      case (Big, Mixed) => BigMixed
      case (Mixed, Big) => BigMixed
      case _ => LittleMixed;
    SwapChunks(buf, swap);
    status := Complete;
  }

  /**
   * `convert`: buffers whose length is not a multiple of 4 are refused and left
   * as they are; others are converted.
   */
  method ConvertBuffer(buf: array<u8>, current: Endianness, target: Endianness)
    returns (r: Result<ConvertStatus, Error>)
    modifies buf
    ensures buf.Length % WORD != 0 ==> r == Err(AlignmentError(buf.Length)) && buf[..] == old(buf[..])
    ensures buf.Length % WORD == 0 ==>
      && r == Ok(if current == target then AlreadyConverted else Complete)
      && buf[..] == Converted(old(buf[..]), current, target)
  {
    if buf.Length % WORD == 0 {
      var status := ConvertWith(buf, current, target);
      r := Ok(status);
    } else {
      r := Err(AlignmentError(buf.Length));
    }
  }

  /** `convert_rom`: converts the container's image from its recorded byte order. */
  method ConvertRom(rom: N64Rom.Rom, target: Endianness) returns (r: Result<ConvertStatus, Error>)
    modifies rom.image
    ensures rom.image.Length % WORD != 0 ==>
      r == Err(AlignmentError(rom.image.Length)) && rom.image[..] == old(rom.image[..])
    ensures rom.image.Length % WORD == 0 ==>
      && r == Ok(if rom.order == target then AlreadyConverted else Complete)
      && rom.image[..] == Converted(old(rom.image[..]), rom.order, target)
  {
    r := ConvertBuffer(rom.image, rom.Order(), target);
  }
}
