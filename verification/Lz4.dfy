/** Compression followed by either decompression gives back the input. */
module Lz4 {
  import opened Common
  import opened Lz4Format
  import Lz4Encode
  import Lz4Decode
  import Lz4RoundTrip

  /** LZ4_uncompress on the buffer LZ4_compress wrote to (whatever it holds past
      the compressed bytes) restores the input and returns what LZ4_compress returned,
      which is the compressed size wherever the bound on it fits an int. */
  method CompressThenUncompress(s: seq<byte>, packed: array<byte>, out: array<byte>)
    returns (written: int, ret: Option<int>, ghost size: nat)
    requires |s| < INT_LIMIT
    requires CompressBound(|s|) <= packed.Length && out.Length == |s| && packed != out
    modifies packed, out
    ensures out[..] == s && ret == Some(written) && written == Int32(size) && size <= CompressBound(|s|)
    ensures |s| < 2139095025 ==> written == size
  {
    ghost var b;
    written, b := Lz4Encode.Compress(s, packed);
    size := |Encode(b)|;
    Lz4Encode.BoundFits(|s|);
    Lz4RoundTrip.KnownRoundTrip(b, packed[..]);
    ret := Lz4Decode.Uncompress(packed[..], out);
  }

  /** LZ4_uncompress_unknownOutputSize on the compressed bytes restores the input
      into any buffer that can hold it and returns the input's size. */
  method CompressThenUncompressUnknown(s: seq<byte>, packed: array<byte>, out: array<byte>) returns (ret: Option<int>)
    requires CompressBound(|s|) < INT_LIMIT
    requires CompressBound(|s|) <= packed.Length && |s| <= out.Length < INT_LIMIT && packed != out
    modifies packed, out
    ensures ret == Some(|s|) && out[..|s|] == s
  {
    var written;
    ghost var b;
    written, b := Lz4Encode.Compress(s, packed);
    assert packed[..written] == Encode(b);
    Lz4RoundTrip.BoundedRoundTrip(b, out.Length);
    ret := Lz4Decode.UncompressUnknownOutputSize(packed[..written], out);
  }
}
