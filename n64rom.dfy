/**
 * The N64 ROM container (n64rom-rs/src/rom.rs): a header and boot code (IPL3)
 * followed by the body, kept together as one image buffer, plus the byte order
 * the file was read in.
 *
 * The header layout, the IPL3 checksum algorithm and the byte-order streams
 * live in modules that are not part of this model. The header is its two
 * checksum words and the rest of its bytes; the checksum algorithm is a
 * function value carried by the IPL3; reading and serialising are function
 * parameters.
 */
module N64Rom {
  import opened Common

  /** `Header::SIZE` and `IPL_SIZE`: the 64-byte header and the 4032-byte boot code. */
  const HEADER_SIZE: nat := 0x40
  const IPL_SIZE: nat := 0xFC0

  /** `HEAD_SIZE`: where the body begins. */
  const HEAD_SIZE: nat := HEADER_SIZE + IPL_SIZE

  /** `MAX_SIZE`: 64 MiB. */
  const MAX_SIZE: nat := 1024 * 1024 * 64

  datatype Error = IOError(io: IoError) | HeaderError | UnsupportedEndianness(order: Endianness)

  datatype Header = Header(crc1: u32, crc2: u32, fields: seq<u8>)

  /** The boot code and the checksum algorithm that goes with it (`IPL3::compute_crcs`). */
  datatype Ipl3 = Ipl3(code: seq<u8>, computeCrcs: seq<u8> -> (u32, u32))

  datatype FileExt = N64 | V64 | Z64

  /** `Endianness::from_file_ext`. */
  function FromFileExt(ext: FileExt): Endianness {
    match ext
    case N64 => Little
    case V64 => Mixed
    case Z64 => Big
  }

  /** `FileExt::from_endianness`: every byte order has an extension. */
  function FromEndianness(e: Endianness): (r: Option<FileExt>)
    ensures r.Some?
  {
    match e
    case Big => Some(Z64)
    case Little => Some(N64)
    case Mixed => Some(V64)
  }

  /** `FileExt::as_str`. */
  function AsStr(ext: FileExt): string {
    match ext
    case N64 => "n64"
    case V64 => "v64"
    case Z64 => "z64"
  }

  /** The two maps are inverse bijections between extensions and byte orders. */
  lemma ExtensionsBijective(ext: FileExt, e: Endianness)
    ensures FromEndianness(FromFileExt(ext)) == Some(ext)
    ensures FromFileExt(FromEndianness(e).value) == e
    ensures FromFileExt(ext) == e <==> FromEndianness(e) == Some(ext)
  {
  }

  /** Different extensions print differently. */
  lemma AsStrInjective(a: FileExt, b: FileExt)
    ensures AsStr(a) == AsStr(b) ==> a == b
  {
    if a != b {
      assert AsStr(a)[0] != AsStr(b)[0];
    }
  }

  class Rom {
    var header: Header
    const ipl3: Ipl3
    /** The full image: head, then body. */
    const image: array<u8>
    const order: Endianness

    /** `Rom::from`: takes the image buffer over without copying. */
    constructor From(header: Header, ipl3: Ipl3, image: array<u8>, order: Endianness)
      ensures this.header == header && this.ipl3 == ipl3
      ensures this.image == image && this.order == order
    {
      this.header := header;
      this.ipl3 := ipl3;
      this.image := image;
      this.order := order;
    }

    /** `data`: the image after the head. */
    function Data(): (d: seq<u8>)
      reads this, image
      requires HEAD_SIZE <= image.Length
      ensures |d| + HEAD_SIZE == image.Length
      ensures forall k :: 0 <= k < |d| ==> d[k] == image[HEAD_SIZE + k]
    {
      image[HEAD_SIZE..]
    }

    /** `full`: the whole image. */
    function Full(): (f: seq<u8>)
      reads this, image
      ensures |f| == image.Length
      ensures f[..] == image[..]
    {
      image[..]
    }

    /** `len` is the image length; `is_empty` holds exactly for an empty image. */
    function Len(): (n: nat)
      reads this
      ensures n == |Full()|
    {
      image.Length
    }

    function IsEmpty(): (b: bool)
      reads this
      ensures b <==> |Full()| == 0
    {
      Len() == 0
    }

    /** `order`. */
    function Order(): Endianness
      reads this
    {
      order
    }

    /**
     * `check_crc`: the checksums computed over the body by the IPL3's
     * algorithm, and whether the header holds them.
     */
    function CheckCrc(): (r: (bool, (u32, u32)))
      reads this, image
      requires HEAD_SIZE <= image.Length
      ensures r.1 == ipl3.computeCrcs(Data())
      ensures r.0 <==> header.crc1 == r.1.0 && header.crc2 == r.1.1
    {
      var crcs := ipl3.computeCrcs(Data());
      ((header.crc1, header.crc2) == crcs, crcs)
    }

    /**
     * `correct_crc`: reports whether the checksums were already right, and
     * otherwise writes the computed ones into the header. The image and every
     * other header field stay as they were, and afterwards the check passes.
     */
    method CorrectCrc() returns (result: bool)
      requires HEAD_SIZE <= image.Length
      modifies this
      ensures result == old(CheckCrc()).0
      ensures result ==> header == old(header)
      ensures !result ==> header == old(header).(crc1 := old(CheckCrc()).1.0, crc2 := old(CheckCrc()).1.1)
      ensures CheckCrc().0 && CheckCrc().1 == old(CheckCrc()).1
    {
      var check := CheckCrc();
      result := check.0;
      if !result {
        header := header.(crc1 := check.1.0, crc2 := check.1.1);
      }
    }

    /** Writing through `data_mut`: bytes placed at offset at of the body. */
    method WriteData(at: nat, bytes: seq<u8>)
      requires HEAD_SIZE + at + |bytes| <= image.Length
      modifies image
      ensures image[..] == Overwrite(old(image[..]), HEAD_SIZE + at, bytes)
    {
      WriteFull(HEAD_SIZE + at, bytes);
    }

    /** Writing through `full_mut`: bytes placed at offset at of the image. */
    method WriteFull(at: nat, bytes: seq<u8>)
      requires at + |bytes| <= image.Length
      modifies image
      ensures image[..] == Overwrite(old(image[..]), at, bytes)
    {
      forall k | 0 <= k < |bytes| {
        image[at + k] := bytes[k];
      }
    }

    /**
     * `write`: `flush` serialises header and IPL3 through a cursor over the head,
     * then the image is emitted in the requested byte order, or the original
     * one. When the serialised head does not fit, the cursor takes what fits
     * and the write fails with WriteZero.
     */
    method Write(encodeHead: (Header, Ipl3) -> seq<u8>, emit: (seq<u8>, Endianness) -> seq<u8>,
                 endianness: Option<Endianness>)
      returns (r: Result<seq<u8>, IoError>)
      requires HEAD_SIZE <= image.Length
      modifies image
      ensures var head := encodeHead(header, ipl3);
        if |head| > HEAD_SIZE then r == Err(WriteZero) && image[..] == Overwrite(old(image[..]), 0, head[..HEAD_SIZE])
        else && image[..] == Overwrite(old(image[..]), 0, head)
             && r == Ok(emit(image[..], if endianness.Some? then endianness.value else order))
    {
      var head := encodeHead(header, ipl3);
      if |head| > HEAD_SIZE {
        WriteFull(0, head[..HEAD_SIZE]);
        return Err(WriteZero);
      }
      WriteFull(0, head);
      var target := if endianness.Some? then endianness.value else order;
      r := Ok(emit(image[..], target));
    }
  }

  /**
   * `Rom::from_image`: reads the header from the head (which also tells the
   * byte order) and, for a big-endian image only, the IPL3 that follows it.
   */
  method FromImage(image: array<u8>, readOrdered: seq<u8> -> Result<(Header, Endianness), Error>,
                   readIpl3: seq<u8> -> Result<Ipl3, Error>)
    returns (r: Result<Rom, Error>)
    requires HEAD_SIZE <= image.Length
    ensures var head := image[..HEAD_SIZE];
      match readOrdered(head)
      case Err(e) => r == Err(e)
      case Ok(ho) =>
        if ho.1 != Big then r == Err(UnsupportedEndianness(ho.1))
        else match readIpl3(head[HEADER_SIZE..])
          case Err(e) => r == Err(e)
          case Ok(ipl3) =>
            (r.Ok? && r.value.image == image && r.value.header == ho.0 &&
             r.value.order == Big && r.value.ipl3 == ipl3)
  {
    var head := image[..HEAD_SIZE];
    var ho := readOrdered(head);
    if ho.Err? {
      return Err(ho.error);
    }
    var (header, order) := ho.value;
    if order == Big {
      var ipl3 := readIpl3(head[HEADER_SIZE..]);
      if ipl3.Err? {
        return Err(ipl3.error);
      }
      var rom := new Rom.From(header, ipl3.value, image, order);
      r := Ok(rom);
    } else {
      r := Err(UnsupportedEndianness(order));
    }
  }
}
