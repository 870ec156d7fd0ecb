/**
 * The Yaz0 codec is a foreign crate; the model keeps it as a decoder function
 * passed in by the caller and states only how its result is used.
 */
module Yaz0 {
  import opened Common

  datatype Error = DecodeError(code: nat) | SizeMismatch(dest: nat, decoded: nat)

  /** `Yaz0Archive::new` followed by `decompress`: the file a compressed stream holds, or an error. */
  type Decoder = seq<u8> -> Result<seq<u8>, Error>

  /**
   * `Yaz0Archive::decompress_into`: decodes into a destination of len bytes;
   * a decoded file of any other size is an error.
   */
  function DecompressInto(decode: Decoder, input: seq<u8>, len: nat): (r: Result<seq<u8>, Error>)
    ensures r.Ok? <==> decode(input).Ok? && |decode(input).value| == len
    ensures r.Ok? ==> r.value == decode(input).value && |r.value| == len
    ensures decode(input).Err? ==> r == Err(decode(input).error)
  {
    var d :- decode(input);
    if |d| == len then Ok(d) else Err(SizeMismatch(len, |d|))
  }
}
