/** What the codecs are for, end to end: compress into a fresh buffer, decompress into another of exactly the
    original size, and get the input back. The decompressors run on nothing but the compressed block. */
module RoundTrips {
  import opened Bytes
  import opened Room
  import opened LengthCode
  import ReturnCodes
  import Lzo1Format
  import Lzo1Compressor
  import Lzo1Decoder
  import Lzo1fFormat
  import Lzo1fParse
  import Lzo1fCompressor
  import Lzo1fDecoder
  import Lzo1xFormat
  import Lzo1xMachine
  import Lzo1xEmitter
  import Lzo1xParse
  import Lzo1xCompressor
  import Lzo1xDecoder
  import Lzo2aFormat
  import Lzo2aCodec

  type Hash = (seq<byte>, nat) -> nat

  /** lzo1_compress, lzo1_decompress, for every way of hashing positions to dictionary slots. */
  method Lzo1(inp: seq<byte>, hash0: Hash, hash: Hash)
    returns (packed: seq<byte>, r: ReturnCodes.EndCode, back: seq<byte>)
    ensures r == ReturnCodes.Ok && back == inp
    ensures |packed| <= if inp == [] then 0 else |inp| + |inp| / 32 + 1
  {
    hide *;
    var out := NewBuffer(Bound(|inp|));
    var dict := new int[Lzo1Format.D_SIZE];
    var op := Lzo1Compressor.CompressLzo1(inp, out, dict, hash0, hash);
    packed := out[..op];
    var restored := NewBuffer(|inp|);
    var n;
    r, n := Lzo1Decoder.DecompressLzo1(packed, restored);
    back := restored[..n];
  }

  /** lzo1a_compress, lzo1a_decompress. */
  method Lzo1a(inp: seq<byte>, hash0: Hash, hash: Hash)
    returns (packed: seq<byte>, r: ReturnCodes.EndCode, back: seq<byte>)
    ensures r == ReturnCodes.Ok && back == inp
    ensures |packed| <= if inp == [] then 0 else |inp| + |inp| / 32 + 1
  {
    hide *;
    var out := NewBuffer(Bound(|inp|));
    var dict := new int[Lzo1Format.D_SIZE];
    var op := Lzo1Compressor.CompressLzo1a(inp, out, dict, hash0, hash);
    packed := out[..op];
    var restored := NewBuffer(|inp|);
    var n;
    r, n := Lzo1Decoder.DecompressLzo1a(packed, restored);
    back := restored[..n];
  }

  /** lzo1f_1_compress, lzo1f_decompress, with work memory that holds anything at all. */
  method Lzo1f(inp: seq<byte>, junk: seq<int>, hash: Hash)
    returns (packed: seq<byte>, r: ReturnCodes.EndCode, back: seq<byte>)
    requires |junk| == Lzo1fParse.D_SIZE && |inp| < WORD
    ensures r == ReturnCodes.Ok && back == inp
    ensures |packed| <= |inp| + |inp| / 32 + 4
  {
    hide Lzo1fFormat.Decode;
    var out := NewBuffer(Bound(|inp|) + 3);
    var dict := new int[Lzo1fParse.D_SIZE](i requires 0 <= i < |junk| => junk[i]);
    var op := Lzo1fCompressor.Compress(inp, out, dict, hash);
    packed := out[..op];
    var restored := NewBuffer(|inp|);
    var n;
    r, n := Lzo1fDecoder.Decompress(packed, restored);
    back := restored[..n];
  }

  /** lzo1x_999_compress_dict and lzo1x_decompress_dict_safe, or their LZO1Y twins, with the same preset
      dictionary on both sides and all tuning parameters. A block of 2^32 bytes and more has no length in C. */
  method Lzo1x(f: Lzo1xFormat.Flavour, inp: seq<byte>, dict: seq<byte>, prm: Lzo1xParse.Params)
    returns (packed: seq<byte>, r: Option<Lzo1xDecoder.ReturnCode>, back: seq<byte>)
    requires |inp| < WORD
    ensures |packed| <= |inp| + |inp| / 4 + 4
    ensures |packed| < WORD ==> r == Some(Lzo1xDecoder.Ok) && back == inp
  {
    hide Lzo1xFormat.Decode, Lzo1xMachine.MachineDecode, Lzo1xDecoder.Trim, Lzo1xParse.Complete;
    var out := NewBuffer(Lzo1xEmitter.Bound(|inp|) + 3);
    var op, enc;
    ghost var t;
    op, enc, t := Lzo1xCompressor.Compress(f, inp, out, dict, prm);
    packed, r, back := out[..op], None, [];
    if op < WORD {
      ghost var d := Lzo1xDecoder.Trim(dict);
      Lzo1xMachine.AcceptedAgrees(f, d, |inp|, packed);
      var restored := NewBuffer(|inp|);
      var code, n := Lzo1xDecoder.Decompress(f, packed, restored, dict);
      r, back := Some(code), restored[..n];
      assert d + inp == d + back;
      assert inp == (d + inp)[|d|..] && back == (d + back)[|d|..];
    }
  }

  /** lzo2a_999_compress, lzo2a_decompress. */
  method Lzo2a(inp: seq<byte>, maxChain: nat)
    returns (packed: seq<byte>, r: ReturnCodes.EndCode, back: seq<byte>)
    requires |inp| < WORD
    ensures r == ReturnCodes.Ok && back == inp
    ensures 8 * |packed| <= 9 * |inp| + 25
  {
    hide Lzo2aFormat.Decode;
    var out := NewBuffer((9 * |inp| + 25) / 8 + 1);
    var op;
    ghost var ts, seen, marks;
    op, ts, seen, marks := Lzo2aCodec.Compress(inp, out, maxChain);
    packed := out[..op];
    var restored := NewBuffer(|inp|);
    var n;
    r, n := Lzo2aCodec.Decompress(packed, restored);
    back := restored[..n];
  }

  method NewBuffer(n: nat) returns (buffer: array<byte>)
    ensures fresh(buffer) && buffer.Length == n
  {
    buffer := new byte[n];
  }
}
