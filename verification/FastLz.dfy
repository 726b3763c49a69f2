/** The FastLZ interface: level dispatch and what the pair of calls promises. */
module FastLz {
  import opened Bytes
  import opened FastLzFormat
  import opened FastLzDecode
  import opened FastLzCompress
  import opened FastLzRoundTrip
  import opened FastLzCompressor
  import opened FastLzDecompressor

  /** Short blocks use level 1. */
  function BlockLevel(length: nat): Level
  {
    if length < 65536 then Level1 else Level2
  }

  function CompressBytes(x: seq<byte>): seq<byte>
  {
    Compress(BlockLevel(|x|), x)
  }

  /** The three high bits of the first byte choose the decoder; an unknown level yields nothing. */
  function DecodeBytes(m: seq<byte>, n: nat, maxout: nat): (r: Outcome)
    requires n <= |m|
    ensures r.Done? ==> 0 < |r.out| <= maxout
  {
    if |m| == 0 then Overrun
    else if m[0] / 32 == 0 then Decode(Level1, m, n, maxout)
    else if m[0] / 32 == 1 then Decode(Level2, m, n, maxout)
    else Corrupt
  }

  /** A block by its first byte: below 32 it is one of level 1, below 64 one of level 2, and no block otherwise. */
  lemma LevelByFirst(m: seq<byte>, n: nat, maxout: nat)
    requires n <= |m| && m != []
    ensures DecodeBytes(m, n, maxout)
         == if m[0] < 32 then Decode(Level1, m, n, maxout)
            else if m[0] < 64 then Decode(Level2, m, n, maxout)
            else Corrupt
  {
    hide Decode;
  }

  method CompressWithLevel(level: int, input: array<byte>, length: nat, beyond: byte, output: array<byte>)
    returns (r: nat)
    requires input != output && length <= input.Length
    requires length > 0 ==> Room(length) <= output.Length
    modifies output
    ensures r <= output.Length
    ensures output[..r] == if level == 1 then Compress(Level1, input[..length])
                           else if level == 2 then Compress(Level2, input[..length])
                           else []
    ensures SameOutside(old(output[..]), output[..], 0, if length == 0 then 0 else Room(length))
  {
    hide Compress;
    if level == 1 {
      r := CompressBlock(Level1, input, length, beyond, output);
    } else if level == 2 {
      r := CompressBlock(Level2, input, length, beyond, output);
    } else {
      r := 0;
    }
  }

  method CompressArray(input: array<byte>, length: nat, beyond: byte, output: array<byte>) returns (r: nat)
    requires input != output && length <= input.Length
    requires length > 0 ==> Room(length) <= output.Length
    modifies output
    ensures r <= output.Length
    ensures output[..r] == CompressBytes(input[..length])
    ensures SameOutside(old(output[..]), output[..], 0, if length == 0 then 0 else Room(length))
  {
    hide Compress;
    if length < 65536 {
      r := CompressBlock(Level1, input, length, beyond, output);
    } else {
      r := CompressBlock(Level2, input, length, beyond, output);
    }
  }

  method DecompressArray(words: bool, input: array<byte>, length: nat, output: array<byte>, maxout: nat)
    returns (r: nat)
    requires input != output && length <= input.Length && maxout <= output.Length
    requires DecodeBytes(input[..], length, maxout) != Overrun
    modifies output
    ensures match DecodeBytes(input[..], length, maxout)
            case Done(out) => r == |out| && output[..r] == out
            case _ => r == 0
    ensures SameOutside(old(output[..]), output[..], 0, maxout)
  {
    hide Decode;
    var level := input[0] / 32 + 1;
    if level == 1 {
      r := Decompress(Level1, words, input, length, output, maxout);
      return;
    }
    if level == 2 {
      r := Decompress(Level2, words, input, length, output, maxout);
      return;
    }
    r := 0;
  }

  /** Whatever level compressed it, a block decodes to what went in, in any room that holds it,
      without a byte read past the block. */
  lemma BlockRoundTrip(level: Level, x: seq<byte>, maxout: nat)
    requires 1 <= |x| <= maxout
    ensures DecodeBytes(Compress(level, x), |Compress(level, x)|, maxout) == Done(x)
  {
    hide Compress, Decode;
    AnnouncedLevel(level, x);
    RoundTrip(level, x, maxout);
  }

  /** The same when other bytes follow the block in memory. */
  lemma BlockRoundTripInBuffer(x: seq<byte>, rest: seq<byte>, maxout: nat)
    requires 1 <= |x| <= maxout
    ensures (var s := CompressBytes(x);
             DecodeBytes(s + rest, |s|, maxout) == Done(x))
  {
    hide Compress, Decode;
    var s := CompressBytes(x);
    AnnouncedLevel(BlockLevel(|x|), x);
    RoundTrip(BlockLevel(|x|), x, maxout);
    DecodeLocal(StreamLevel(BlockLevel(|x|), x), s, rest, |s|, maxout);
  }

  /** The output buffer the interface asks for, 5% more than the input and at least 66 bytes, is enough. */
  lemma DocumentedBufferSuffices(n: nat, outputLength: nat)
    requires 20 * outputLength >= 21 * n && outputLength >= 66
    ensures Room(n) <= outputLength
  {
  }
}
