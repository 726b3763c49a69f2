/** What a run of writes leaves in the image, and that any run of reads takes the same data back out. */
module StreamRoundTrip {
  import opened Bytes
  import opened FastLz
  import FastLzCompress
  import FastLzRoundTrip
  import opened StreamFormat

  function Concat(chunks: seq<seq<byte>>): seq<byte>
  {
    if chunks == [] then [] else chunks[0] + Concat(chunks[1..])
  }

  // ------------------------------------------------------------------ writing

  /** The frames of the full blocks of `data`. */
  function Frames(size: nat, data: seq<byte>): seq<byte>
    requires size > 0
    decreases |data|
  {
    if |data| < size then [] else Frame(data[..size]) + Frames(size, data[size..])
  }

  /** What the full blocks leave over. */
  function Remainder(size: nat, data: seq<byte>): (r: seq<byte>)
    requires size > 0
    ensures |r| < size
    decreases |data|
  {
    if |data| < size then data else Remainder(size, data[size..])
  }

  lemma {:induction false} FramesAppend(size: nat, a: seq<byte>, b: seq<byte>)
    requires size > 0
    ensures Frames(size, a + b) == Frames(size, a) + Frames(size, Remainder(size, a) + b)
    ensures Remainder(size, a + b) == Remainder(size, Remainder(size, a) + b)
    decreases |a|
  {
    hide Frame;
    if |a| >= size {
      FramesAppend(size, a[size..], b);
      assert (a + b)[..size] == a[..size] && (a + b)[size..] == a[size..] + b;
    }
  }

  /** One call of any length, whatever was buffered before it. */
  lemma {:induction false} WriteShape(size: nat, w: Writer, data: seq<byte>)
    requires |w.buffered| < size
    ensures (var all := w.buffered + data;
             Write(size, w, data)
             == Writer(Remainder(size, all), w.image + Frames(size, all), w.total + |data|,
                       w.compressed + |Frames(size, all)|))
    decreases |data|
  {
    hide Write, Frame;
    var all := w.buffered + data;
    if |all| < size {
      WriteFills(size, w, data);
      assert w.image + [] == w.image;
    } else {
      var k := size - |w.buffered|;
      var next := Writer([], w.image + Frame(all[..size]), w.total + k, w.compressed + |Frame(all[..size])|);
      WriteBlock(size, w, data);
      WriteShape(size, next, data[k..]);
      assert [] + data[k..] == all[size..];
    }
  }

  /** Data that does not fill the buffer stays in it. */
  lemma WriteFills(size: nat, w: Writer, data: seq<byte>)
    requires |w.buffered| + |data| < size
    ensures Write(size, w, data) == Writer(w.buffered + data, w.image, w.total + |data|, w.compressed)
  {
    hide Frame, CompressBytes;
    if data == [] {
      assert w.buffered + data == w.buffered;
    } else {
      assert data[..|data|] == data && data[|data|..] == [];
    }
  }

  /** Data that fills it puts out a block first. */
  lemma WriteBlock(size: nat, w: Writer, data: seq<byte>)
    requires |w.buffered| < size <= |w.buffered| + |data|
    ensures (var (k, block) := (size - |w.buffered|, (w.buffered + data)[..size]);
             Write(size, w, data)
             == Write(size, Writer([], w.image + Frame(block), w.total + k, w.compressed + |Frame(block)|), data[k..]))
  {
    hide CompressBytes;
    var k := size - |w.buffered|;
    assert w.buffered + data[..k] == (w.buffered + data)[..size];
  }

  lemma {:induction false} WriteAllShape(size: nat, w: Writer, chunks: seq<seq<byte>>)
    requires |w.buffered| < size
    ensures (var all := w.buffered + Concat(chunks);
             WriteAll(size, w, chunks)
             == Writer(Remainder(size, all), w.image + Frames(size, all), w.total + |Concat(chunks)|,
                       w.compressed + |Frames(size, all)|))
    decreases |chunks|
  {
    hide Write, Frames, Remainder;
    var all := w.buffered + Concat(chunks);
    if chunks == [] {
      assert all == w.buffered;
      NoFrames(size, w.buffered);
    } else {
      var next := Write(size, w, chunks[0]);
      WriteShape(size, w, chunks[0]);
      WriteAllShape(size, next, chunks[1..]);
      FramesAppend(size, w.buffered + chunks[0], Concat(chunks[1..]));
      assert all == w.buffered + chunks[0] + Concat(chunks[1..]);
    }
  }

  lemma NoFrames(size: nat, data: seq<byte>)
    requires |data| < size
    ensures Frames(size, data) == [] && Remainder(size, data) == data
  {
  }

  /** How the data was cut into writes leaves no trace: not in the image, the buffer or the counters. */
  lemma SplitOfWritesIrrelevant(size: nat, w: Writer, chunks: seq<seq<byte>>, others: seq<seq<byte>>)
    requires |w.buffered| < size && Concat(chunks) == Concat(others)
    ensures WriteAll(size, w, chunks) == WriteAll(size, w, others)
  {
    WriteAllShape(size, w, chunks);
    WriteAllShape(size, w, others);
  }

  /** The whole stream: a frame for every block, the last one as long as what is left. */
  function Encoded(size: nat, data: seq<byte>): seq<byte>
    requires size > 0
    decreases |data|
  {
    if data == [] then []
    else if |data| < size then Frame(data)
    else Frame(data[..size]) + Encoded(size, data[size..])
  }

  lemma {:induction false} EncodedIsFrames(size: nat, data: seq<byte>)
    requires size > 0
    ensures Encoded(size, data)
         == Frames(size, data) + if Remainder(size, data) == [] then [] else Frame(Remainder(size, data))
    decreases |data|
  {
    hide Frame;
    if |data| >= size { EncodedIsFrames(size, data[size..]); }
  }

  const EMPTY := Writer([], [], 0, 0)

  /** The stream a fresh writer leaves after a run of writes and a flush. */
  function Written(size: nat, chunks: seq<seq<byte>>): Writer
    requires size > 0
  {
    Output(size, WriteAll(size, EMPTY, chunks), true)
  }

  /** After a flush nothing is buffered, the image is the encoded data, and both counters tell the truth. */
  lemma WrittenShape(size: nat, chunks: seq<seq<byte>>)
    requires size > 0
    ensures (var data := Concat(chunks);
             Written(size, chunks) == Writer([], Encoded(size, data), |data|, |Encoded(size, data)|))
  {
    hide Frames, Remainder, Encoded, CompressBytes;
    var data := Concat(chunks);
    WriteAllShape(size, EMPTY, chunks);
    assert [] + data == data;
    EncodedIsFrames(size, data);
  }

  // ------------------------------------------------------------------ reading

  /** The sizes at which blocks survive: the I/O buffer holds every frame and two bytes hold every frame's size. */
  predicate SizeWorks(size: nat)
  {
    10 <= size <= 63549
  }

  // ------------------------------------------------------------------ the bytes of a frame

  /** A frame in the image: the compressed size in two bytes, the high one first, and the compressed block. */
  lemma FrameBytes(size: nat, block: seq<byte>)
    requires SizeWorks(size) && 1 <= |block| <= size
    ensures (var (f, s) := (Frame(block), CompressBytes(block));
             |f| >= 2 && f[0] as nat * 256 + f[1] == |s| && f[2..] == s)
  {
    hide CompressBytes;
    FrameFits(size, block);
    var n := |CompressBytes(block)|;
    assert n / 256 < 256 && n / 256 * 256 + n % 256 == n;
  }

  /** Fetching takes the size from two bytes, the high one first, then as many bytes, and leaves the rest ahead. */
  lemma InputTakes(size: nat, r: Reader, s: seq<byte>, rest: seq<byte>)
    requires r.buffered == [] && 0 < |s| < 65536 && |s| <= |r.io|
    requires r.ahead == [|s| / 256, |s| % 256] + s + rest
    ensures (var (next, fault) := Input(size, r);
             var io := s + r.io[|s|..];
             && next.ahead == rest && next.io == io && next.total == r.total
             && next.compressed == r.compressed + 2 + |s|
             && match DecodeBytes(io, |s|, size)
                case Done(x) => fault == NoFault && next.buffered == x
                case Corrupt => fault == NoFault && next.buffered == []
                case Overrun => fault == OutOfBounds)
  {
    hide DecodeBytes;
    var n := |s|;
    assert n / 256 * 256 + n % 256 == n;
    assert r.ahead[0] == n / 256 && r.ahead[1] == n % 256 && r.ahead[2..2 + n] == s && r.ahead[2 + n..] == rest;
  }

  /** Nothing can be fetched at the end of the image, a size of zero is an error, and so is a block that is cut. */
  lemma InputFaults(size: nat, r: Reader)
    requires r.buffered == []
    ensures |r.ahead| < 2 ==> Input(size, r) == (r.(ahead := []), NoFault)
    ensures |r.ahead| >= 2 && r.ahead[0] == 0 && r.ahead[1] == 0 ==>
      Input(size, r) == (r.(ahead := r.ahead[2..]), BlockSizeZero)
    ensures 2 <= |r.ahead| < 2 + r.ahead[0] as nat * 256 + r.ahead[1] && |r.ahead| - 2 <= |r.io| ==>
      Input(size, r).1 == ReadPastEnd && Input(size, r).0.ahead == []
  {
  }

  /** The reader's image and buffer hold exactly `data`. */
  ghost predicate Holds(size: nat, r: Reader, data: seq<byte>)
    requires size > 0
  {
    && |r.io| == size + size / 10
    && r.buffered <= data
    && r.ahead == Encoded(size, data[|r.buffered|..])
  }

  lemma FrameFits(size: nat, block: seq<byte>)
    requires SizeWorks(size) && 1 <= |block| <= size
    ensures 0 < |CompressBytes(block)| <= size + size / 10
    ensures |CompressBytes(block)| < 65536
  {
    hide FastLzCompress.Compress;
    FastLzRoundTrip.SizeBound(BlockLevel(|block|), block);
    FastLzRoundTrip.AnnouncedLevel(BlockLevel(|block|), block);
  }

  /** A frame at the front of the image is fetched whole and decompressed to the block it was made of. */
  lemma InputFrame(size: nat, r: Reader, block: seq<byte>, rest: seq<byte>)
    requires SizeWorks(size) && 1 <= |block| <= size && |r.io| == size + size / 10
    requires r.buffered == [] && r.ahead == Frame(block) + rest
    ensures (var (next, fault) := Input(size, r);
             && fault == NoFault && next.buffered == block && next.ahead == rest && |next.io| == |r.io|
             && next.total == r.total && next.compressed == r.compressed + |Frame(block)|)
  {
    hide CompressBytes, DecodeBytes;
    FrameFits(size, block);
    var s := CompressBytes(block);
    assert r.ahead[2..2 + |s|] == s;
    assert r.ahead[2 + |s|..] == rest;
    assert BlockSize(r.ahead) == |s|;
    BlockRoundTripInBuffer(block, r.io[|s|..], size);
  }

  lemma InputHolds(size: nat, r: Reader, data: seq<byte>)
    requires SizeWorks(size) && Holds(size, r, data)
    ensures (var (next, fault) := Input(size, r);
             && fault == NoFault && Holds(size, next, data)
             && (next.buffered == [] <==> data == [])
             && next.total == r.total && next.compressed + |next.ahead| == r.compressed + |r.ahead|)
  {
    hide Frame, InputBlock;
    if r.buffered == [] && data != [] {
      assert data[0..] == data;
      if |data| < size {
        assert data[|data|..] == [];
        InputFrame(size, r, data, []);
      } else {
        InputFrame(size, r, data[..size], Encoded(size, data[size..]));
      }
    }
  }

  function Least(a: nat, b: nat): nat
  {
    if a < b then a else b
  }

  /** One read takes what it asks for from the front of the data, or all there is. */
  lemma {:induction false} ReadHolds(size: nat, r: Reader, data: seq<byte>, length: nat)
    requires SizeWorks(size) && Holds(size, r, data)
    ensures (var (result, k) := (Read(size, r, length), Least(length, |data|));
             && result.fault == NoFault && result.out == data[..k]
             && Holds(size, result.reader, data[k..])
             && result.reader.total == r.total + k
             && result.reader.compressed + |result.reader.ahead| == r.compressed + |r.ahead|)
    decreases length
  {
    hide Input, Encoded;
    if length == 0 {
      assert data[0..] == data;
    } else {
      InputHolds(size, r, data);
      var next := Input(size, r).0;
      if next.buffered == [] {
        assert data[0..] == data;
      } else {
        var k := if length > |next.buffered| then |next.buffered| else length;
        var taken := next.Drop(k);
        assert data[k..][|taken.buffered|..] == data[|next.buffered|..];
        ReadHolds(size, taken, data[k..], length - k);
        var j := Least(length - k, |data| - k);
        assert next.buffered[..k] + data[k..][..j] == data[..k + j];
        assert data[k..][j..] == data[k + j..];
      }
    }
  }

  /** The byte strings a run of reads gives. */
  function ReadAll(size: nat, r: Reader, wants: seq<nat>): seq<ReadResult>
    decreases |wants|
  {
    if wants == [] then []
    else
      var result := Read(size, r, wants[0]);
      [result] + ReadAll(size, result.reader, wants[1..])
  }

  /** What the same reads give on a plain sequence of bytes. */
  function Slices(data: seq<byte>, wants: seq<nat>): (r: seq<seq<byte>>)
    ensures |r| == |wants|
  {
    if wants == [] then []
    else
      var k := Least(wants[0], |data|);
      [data[..k]] + Slices(data[k..], wants[1..])
  }

  lemma {:induction false} ReadAllHolds(size: nat, r: Reader, data: seq<byte>, wants: seq<nat>)
    requires SizeWorks(size) && Holds(size, r, data)
    ensures |ReadAll(size, r, wants)| == |wants|
    ensures forall i :: 0 <= i < |wants| ==>
      ReadAll(size, r, wants)[i].fault == NoFault && ReadAll(size, r, wants)[i].out == Slices(data, wants)[i]
    decreases |wants|
  {
    hide Read, Holds;
    if wants != [] {
      ReadHolds(size, r, data, wants[0]);
      ReadAllHolds(size, Read(size, r, wants[0]).reader, data[Least(wants[0], |data|)..], wants[1..]);
    }
  }

  /** Any run of writes, a flush, then any run of reads: the reads see the written bytes as one plain sequence,
      raise no fault, and give nothing once it is used up. */
  lemma StreamRoundTrip(size: nat, chunks: seq<seq<byte>>, wants: seq<nat>, io: seq<byte>)
    requires SizeWorks(size) && |io| == size + size / 10
    ensures (var results := ReadAll(size, Reader(Written(size, chunks).image, [], io, 0, 0), wants);
             && |results| == |wants|
             && forall i :: 0 <= i < |wants| ==>
                  results[i].fault == NoFault && results[i].out == Slices(Concat(chunks), wants)[i])
  {
    hide Written;
    WrittenShape(size, chunks);
    var data := Concat(chunks);
    assert data[0..] == data;
    ReadAllHolds(size, Reader(Written(size, chunks).image, [], io, 0, 0), data, wants);
  }

  /** Read back in the sizes it was written in, every chunk comes back. */
  lemma {:induction false} ChunksComeBack(chunks: seq<seq<byte>>, rest: seq<byte>)
    ensures Slices(Concat(chunks) + rest, seq(|chunks|, i requires 0 <= i < |chunks| => |chunks[i]|)) == chunks
    decreases |chunks|
  {
    if chunks != [] {
      var wants: seq<nat> := seq(|chunks|, i requires 0 <= i < |chunks| => |chunks[i]|);
      var tail := chunks[1..];
      var data := Concat(chunks) + rest;
      ChunksComeBack(tail, rest);
      assert wants[1..] == seq(|tail|, i requires 0 <= i < |tail| => |tail[i]|);
      assert data == chunks[0] + (Concat(tail) + rest);
      assert data[..|chunks[0]|] == chunks[0] && data[|chunks[0]|..] == Concat(tail) + rest;
    }
  }

  /** A word to write: its value and its width in bytes. */
  datatype Word = Word(value: nat, width: nat)

  function WordChunks(words: seq<Word>): (r: seq<seq<byte>>)
    ensures |r| == |words|
    ensures forall i :: 0 <= i < |words| ==> r[i] == WordBytes(words[i].value, words[i].width)
  {
    seq(|words|, i requires 0 <= i < |words| => WordBytes(words[i].value, words[i].width))
  }

  /** Words written to a stream and read back in the same widths keep their values. */
  lemma WordsRoundTrip(size: nat, words: seq<Word>, io: seq<byte>)
    requires SizeWorks(size) && |io| == size + size / 10
    requires forall i :: 0 <= i < |words| ==> words[i].value < Power256(words[i].width)
    ensures (var wants: seq<nat> := seq(|words|, i requires 0 <= i < |words| => words[i].width);
             var results := ReadAll(size, Reader(Written(size, WordChunks(words)).image, [], io, 0, 0), wants);
             && |results| == |words|
             && forall i :: 0 <= i < |words| ==>
                  |results[i].out| == words[i].width && BytesWord(results[i].out) == words[i].value)
  {
    hide Written, ReadAll, Slices, Concat, WordBytes, BytesWord;
    var chunks := WordChunks(words);
    var wants: seq<nat> := seq(|words|, i requires 0 <= i < |words| => words[i].width);
    StreamRoundTrip(size, chunks, wants, io);
    ChunksComeBack(chunks, []);
    assert Concat(chunks) + [] == Concat(chunks);
    assert wants == seq(|chunks|, i requires 0 <= i < |chunks| => |chunks[i]|);
    forall i | 0 <= i < |words|
      ensures BytesWord(chunks[i]) == words[i].value
    {
      WordRoundTrip(words[i].value, words[i].width);
    }
  }
}
