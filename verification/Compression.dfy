/** The compressor stream over a file image, in its compressing mode. */
module Compression {
  import opened Bytes
  import opened RldImage
  import opened FastLz
  import opened FastLzFormat
  import opened FastLzCompressor
  import opened StreamFormat

  const SIZE_LIMIT := 0xffff

  method CopyInto(dst: array<byte>, at: nat, src: array<byte>, from: nat, n: nat)
    requires dst != src && at + n <= dst.Length && from + n <= src.Length
    modifies dst
    ensures dst[..] == old(dst[..at]) + src[from..from + n] + old(dst[at + n..])
  {
    forall i | 0 <= i < n {
      dst[at + i] := src[from + i];
    }
  }

  lemma TakeOfSlice(s: seq<byte>, from: nat, end: nat, n: nat)
    requires from + n <= end <= |s|
    ensures s[from..][..n] == s[from..end][..n] == s[from..from + n]
  {
  }

  /** Moves `n` bytes down by `shift` places, where they may overlap. */
  method ShiftDown(a: array<byte>, shift: nat, n: nat)
    requires shift + n <= a.Length
    modifies a
    ensures a[..n] == old(a[shift..shift + n])
  {
    forall i | 0 <= i < n {
      a[i] := a[shift + i];
    }
  }

  class Compressor {
    const image: Image
    const size: nat
    const out: bool
    const buffer: array<byte>
    const io: array<byte>
    var level: nat
    var total: nat
    var totalCompressed: nat

    ghost predicate Valid()
      reads this, image, buffer, io
    {
      && image.Valid() && buffer != io
      && buffer.Length == size && io.Length == size + size / 10 && size <= SIZE_LIMIT
      && level <= size
    }

    /** A writer between calls: its buffer is never full. */
    ghost predicate ValidWriter()
      reads this, image, buffer, io
    {
      Valid() && out && level < size
    }

    ghost function AsWriter(): Writer
      reads this, image, buffer, io
      requires Valid()
    {
      Writer(buffer[..level], image.Before(), total, totalCompressed)
    }

    ghost function AsReader(): Reader
      reads this, image, buffer, io
      requires Valid()
    {
      Reader(image.Ahead(), buffer[..level], io[..], total, totalCompressed)
    }

    constructor (image: Image, size: nat, out: bool)
      requires image.Valid() && size <= SIZE_LIMIT
      ensures Valid() && this.image == image && this.size == size && this.out == out
      ensures fresh(this) && fresh(buffer) && fresh(io)
      ensures AsWriter() == Writer([], image.Before(), 0, 0)
      ensures AsReader() == Reader(image.Ahead(), [], io[..], 0, 0)
    {
      this.image, this.size, this.out := image, size, out;
      buffer := new byte[size](_ => 0);
      io := new byte[size + size / 10](_ => 0);
      level, total, totalCompressed := 0, 0, 0;
    }

    // ---------------------------------------------------------------- writing

    /** Writes a block of `n` bytes from the I/O buffer behind its header. */
    method PutFrame(n: nat)
      requires Valid() && n <= io.Length
      modifies image
      ensures Valid() && io[..] == old(io[..]) && buffer[..] == old(buffer[..])
      ensures image.Before() == old(image.Before()) + (Header(n) + io[..n])
    {
      var header := new byte[2];
      header[0] := n / 256 % 256;
      header[1] := n % 256;
      assert header[..2] == Header(n);
      image.Write(header, 2);
      image.Write(io, n);
    }

    /** Compresses the buffer into the image when it is full, or when that is forced and it holds anything. */
    method PutBlock(forced: bool)
      requires Valid() && size >= 10
      modifies this, image, buffer, io
      ensures Valid()
      ensures out ==> AsWriter() == old(Output(size, AsWriter(), forced))
      ensures !out ==> AsReader() == old(AsReader())
    {
      hide CompressBytes;
      if out && ((forced && level > 0) || level >= size) {
        RoomInIo(size, level);
        var writing := CompressArray(buffer, level, 0, io);
        PutFrame(writing);
        totalCompressed := totalCompressed + 2 + writing;
        level := 0;
      }
    }

    /** Appends `length` bytes of `data`, putting out a block whenever the buffer fills. */
    method Write(data: array<byte>, length: nat) returns (fault: Fault)
      requires Valid() && size >= 10 && (out ==> level < size)
      requires data != buffer && data != io && length <= data.Length
      modifies this, image, buffer, io
      ensures Valid() && fault == if out then NoFault else WriteOnReadOnly
      ensures out ==> ValidWriter() && AsWriter() == old(StreamFormat.Write(size, AsWriter(), data[..length]))
      ensures !out ==> AsReader() == old(AsReader())
    {
      hide CompressBytes, Output, StreamFormat.Write;
      if !out {
        return WriteOnReadOnly;
      }
      var from: nat, left: nat := 0, length;
      ghost var contents := data[..];
      assert contents[from..length] == data[..length];
      while left > 0
        invariant ValidWriter() && from + left == length
        invariant data[..] == contents
        invariant StreamFormat.Write(size, AsWriter(), contents[from..length])
               == old(StreamFormat.Write(size, AsWriter(), data[..length]))
        decreases left
      {
        ghost var before, rest := AsWriter(), contents[from..length];
        WriteUnfold(size, before, rest);
        var appending := if left > size - level then size - level else left;
        TakeOfSlice(contents, from, length, appending);
        FillWith(data, from, appending);
        from, left := from + appending, left - appending;
        assert rest[appending..] == contents[from..length];
        PutBlock(false);
      }
      WriteNothing(size, AsWriter());
      assert contents[from..length] == [];
      fault := NoFault;
    }

    /** Puts out what is buffered, however little. */
    method Flush()
      requires Valid() && size >= 10
      modifies this, image, buffer, io
      ensures Valid()
      ensures out ==> AsWriter() == old(Output(size, AsWriter(), true))
      ensures !out ==> AsReader() == old(AsReader())
    {
      PutBlock(true);
    }

    /** Fills the buffer with `n` bytes of `data`. */
    method FillWith(data: array<byte>, from: nat, n: nat)
      requires Valid() && level + n <= size && data != buffer && data != io && from + n <= data.Length
      modifies this`level, this`total, buffer
      ensures Valid() && level == old(level) + n
      ensures AsWriter() == old(AsWriter().Fill(data[from..from + n]))
    {
      CopyInto(buffer, level, data, from, n);
      level, total := level + n, total + n;
    }

    /** Fills the buffer with `n` bytes from an image. */
    method FillFrom(input: Image, n: nat)
      requires Valid() && level + n <= size && input != image && input.Valid() && n <= |input.Ahead()|
      modifies this`level, this`total, buffer, input
      ensures Valid() && input.Valid() && input.data == old(input.data) && input.pos == old(input.pos) + n
      ensures level == old(level) + n
      ensures AsWriter() == old(AsWriter().Fill(input.Ahead()[..n]))
    {
      var got := input.Read(buffer, level, n);
      level, total := level + n, total + n;
    }

    /** The same from another image, read from `offset`. */
    method WriteImage(input: Image, offset: nat, length: nat) returns (fault: Fault)
      requires Valid() && size >= 10 && (out ==> level < size)
      requires input != image && input.Valid() && offset + length <= |input.data|
      modifies this, image, buffer, io, input
      ensures Valid() && fault == if out then NoFault else WriteOnReadOnly
      ensures input.data == old(input.data)
      ensures out ==> ValidWriter()
      ensures out ==> AsWriter() == old(StreamFormat.Write(size, AsWriter(), input.data[offset..offset + length]))
      ensures !out ==> AsReader() == old(AsReader())
    {
      hide CompressBytes, Output, StreamFormat.Write;
      if !out {
        return WriteOnReadOnly;
      }
      input.Seek(offset);
      var left: nat := length;
      ghost var contents := input.data;
      ghost var end := offset + length;
      while left > 0
        invariant ValidWriter() && input.Valid() && input.data == contents && input.pos + left == end
        invariant StreamFormat.Write(size, AsWriter(), contents[input.pos..end])
               == old(StreamFormat.Write(size, AsWriter(), input.data[offset..offset + length]))
        decreases left
      {
        ghost var before, rest := AsWriter(), contents[input.pos..end];
        WriteUnfold(size, before, rest);
        var appending := if left > size - level then size - level else left;
        TakeOfSlice(contents, input.pos, end, appending);
        FillFrom(input, appending);
        left := left - appending;
        assert rest[appending..] == contents[input.pos..end];
        PutBlock(false);
      }
      WriteNothing(size, AsWriter());
      assert contents[input.pos..end] == [];
      fault := NoFault;
    }

    // ---------------------------------------------------------------- reading

    /** Decompresses the block that is in the I/O buffer into the buffer. */
    method Unpack(n: nat)
      requires Valid() && n <= io.Length && level == 0 && DecodeBytes(io[..], n, size) != Overrun
      modifies this`level, buffer
      ensures Valid() && io[..] == old(io[..])
      ensures buffer[..level] == match DecodeBytes(io[..], n, size)
                                 case Done(bytes) => bytes
                                 case _ => []
    {
      hide DecodeBytes;
      level := DecompressArray(false, io, n, buffer, size);
    }

    method GetHeader() returns (found: bool, blockSize: nat)
      requires Valid()
      modifies image
      ensures Valid() && buffer[..] == old(buffer[..]) && io[..] == old(io[..])
      ensures found <==> |old(image.Ahead())| >= 2
      ensures found ==> blockSize == BlockSize(old(image.Ahead())) && image.Ahead() == old(image.Ahead())[2..]
      ensures !found ==> image.Ahead() == []
    {
      var header := new byte[2];
      ghost var ahead := image.Ahead();
      var got := image.Read(header, 0, 2);
      found, blockSize := got == 2, 0;
      if found {
        assert header[..] == ahead[..2];
        blockSize := 256 * (header[0] as nat) + header[1];
      }
    }

    /** Reads a block over the start of the I/O buffer, as far as the image goes. */
    method GetBytes(n: nat) returns (got: nat)
      requires Valid() && (n <= io.Length || |image.Ahead()| <= io.Length)
      modifies image, io
      ensures Valid() && buffer[..] == old(buffer[..])
      ensures got == if n <= |old(image.Ahead())| then n else |old(image.Ahead())|
      ensures io[..] == Overlay(old(io[..]), old(image.Ahead())[..got]) && image.Ahead() == old(image.Ahead())[got..]
    {
      got := image.Read(io, 0, n);
    }

    /** Fetches and decompresses the next block when nothing is buffered. */
    method GetBlock() returns (fault: Fault)
      requires Valid() && (!out ==> Input(size, AsReader()).1 != OutOfBounds)
      modifies this, image, buffer, io
      ensures Valid()
      ensures !out ==> (AsReader(), fault) == old(Input(size, AsReader()))
      ensures out ==> AsWriter() == old(AsWriter())
    {
      hide DecodeBytes, Overlay, BlockSize;
      fault := NoFault;
      if !out && level == 0 {
        ghost var ahead := image.Ahead();
        var found, blockSize := GetHeader();
        if found {
          if blockSize == 0 {
            return BlockSizeZero;
          }
          totalCompressed := totalCompressed + 2 + blockSize;
          var got := GetBytes(blockSize);
          assert ahead[2..][..got] == ahead[2..2 + got] && ahead[2..][got..] == ahead[2 + got..];
          if got != blockSize {
            assert ahead[2..2 + got] == ahead[2..];
            return ReadPastEnd;
          }
          Unpack(blockSize);
        }
      }
    }

    /** Copies `k` buffered bytes out and moves the others to the front. */
    method HandOut(data: array<byte>, at: nat, k: nat)
      requires Valid() && data != buffer && data != io && k <= level && at + k <= data.Length
      modifies this`level, this`total, buffer, data
      ensures Valid()
      ensures data[..at + k] == old(data[..at] + AsReader().buffered[..k])
      ensures AsReader() == old(AsReader().Drop(k))
    {
      CopyInto(data, at, buffer, 0, k);
      ShiftDown(buffer, k, level - k);
      level, total := level - k, total + k;
    }

    /** Hands out up to `length` bytes; fewer only when the image has ended. */
    method Read(data: array<byte>, length: nat) returns (amount: nat, fault: Fault)
      requires Valid() && data != buffer && data != io && length <= data.Length
      requires !out ==> StreamFormat.Read(size, AsReader(), length).fault != OutOfBounds
      modifies this, image, buffer, io, data
      ensures Valid() && amount <= length
      ensures out ==> fault == ReadOnWriteOnly && amount == 0 && AsWriter() == old(AsWriter())
      ensures !out ==> ReadResult(AsReader(), data[..amount], fault) == old(StreamFormat.Read(size, AsReader(), length))
    {
      hide StreamFormat.Read, Input, Continues;
      if out {
        return 0, ReadOnWriteOnly;
      }
      amount, fault := 0, NoFault;
      var left: nat := length;
      ghost var result := StreamFormat.Read(size, AsReader(), length);
      ContinuesInit(size, AsReader(), [], length);
      while left > 0
        invariant Valid() && amount + left == length && fault == NoFault
        invariant Continues(size, AsReader(), data[..amount], left, result)
        decreases left
      {
        ContinuesStep(size, AsReader(), data[..amount], left, result);
        fault := GetBlock();
        if fault != NoFault {
          return;
        }
        if level == 0 {
          return;
        }
        var appending := if left > level then level else left;
        HandOut(data, amount, appending);
        amount, left := amount + appending, left - appending;
      }
      ContinuesEnd(size, AsReader(), data[..amount], result);
    }

    /** Writes `k` buffered bytes to an image and moves the others to the front. */
    method HandOutTo(output: Image, k: nat)
      requires Valid() && output != image && output.Valid() && k <= level
      modifies this`level, this`total, buffer, output
      ensures Valid() && output.Valid()
      ensures output.Before() == old(output.Before() + AsReader().buffered[..k])
      ensures AsReader() == old(AsReader().Drop(k))
    {
      output.Write(buffer, k);
      ShiftDown(buffer, k, level - k);
      level, total := level - k, total + k;
    }

    /** The same, into another image at its position. */
    method ReadImage(output: Image, length: nat) returns (amount: nat, fault: Fault)
      requires Valid() && output != image && output.Valid()
      requires !out ==> StreamFormat.Read(size, AsReader(), length).fault != OutOfBounds
      modifies this, image, buffer, io, output
      ensures Valid() && output.Valid() && amount <= length
      ensures out ==> fault == ReadOnWriteOnly && amount == 0 && AsWriter() == old(AsWriter())
      ensures !out ==> (var result := old(StreamFormat.Read(size, AsReader(), length));
                        && AsReader() == result.reader && fault == result.fault && amount == |result.out|
                        && output.Before() == old(output.Before()) + result.out)
    {
      hide StreamFormat.Read, Input, Continues;
      if out {
        return 0, ReadOnWriteOnly;
      }
      amount, fault := 0, NoFault;
      var left: nat := length;
      ghost var start := output.Before();
      ghost var result := StreamFormat.Read(size, AsReader(), length);
      ghost var target := result.(out := start + result.out);
      ContinuesInit(size, AsReader(), start, length);
      while left > 0
        invariant Valid() && output.Valid() && amount + left == length && fault == NoFault
        invariant |output.Before()| == |start| + amount
        invariant Continues(size, AsReader(), output.Before(), left, target)
        decreases left
      {
        ContinuesStep(size, AsReader(), output.Before(), left, target);
        fault := GetBlock();
        if fault != NoFault {
          return;
        }
        if level == 0 {
          return;
        }
        var appending := if left > level then level else left;
        HandOutTo(output, appending);
        amount, left := amount + appending, left - appending;
      }
      ContinuesEnd(size, AsReader(), output.Before(), target);
    }

    /** The same, from a given offset in the other image. */
    method ReadImageAt(output: Image, offset: nat, length: nat) returns (amount: nat, fault: Fault)
      requires Valid() && output != image && output.Valid() && offset <= |output.data|
      requires !out ==> StreamFormat.Read(size, AsReader(), length).fault != OutOfBounds
      modifies this, image, buffer, io, output
      ensures Valid() && output.Valid() && amount <= length
      ensures out ==> fault == ReadOnWriteOnly && amount == 0 && AsWriter() == old(AsWriter())
      ensures !out ==> (var result := old(StreamFormat.Read(size, AsReader(), length));
                        && AsReader() == result.reader && fault == result.fault && amount == |result.out|
                        && output.Before() == old(output.data)[..offset] + result.out)
    {
      if out {
        return 0, ReadOnWriteOnly;
      }
      output.Seek(offset);
      amount, fault := ReadImage(output, length);
    }

    /** What is read so far and what is still to be read make up the result. */
    static ghost predicate Continues(size: nat, r: Reader, sofar: seq<byte>, left: nat, result: ReadResult)
    {
      var rest := StreamFormat.Read(size, r, left);
      result == rest.(out := sofar + rest.out)
    }

    /** The I/O buffer takes any block the compressor makes of a full buffer. */
    static lemma RoomInIo(size: nat, level: nat)
      requires 10 <= size && level <= size
      ensures Room(level) <= size + size / 10
    {
    }

    static lemma WriteUnfold(size: nat, w: Writer, data: seq<byte>)
      requires |w.buffered| < size && data != []
      ensures (var k := Appending(size, |w.buffered|, |data|);
               && |Output(size, w.Fill(data[..k]), false).buffered| < size
               && StreamFormat.Write(size, w, data)
                  == StreamFormat.Write(size, Output(size, w.Fill(data[..k]), false), data[k..]))
    {
      hide CompressBytes;
    }

    static lemma WriteNothing(size: nat, w: Writer)
      requires |w.buffered| < size
      ensures StreamFormat.Write(size, w, []) == w
    {
    }

    static lemma ContinuesInit(size: nat, r: Reader, start: seq<byte>, length: nat)
      ensures (var result := StreamFormat.Read(size, r, length);
               Continues(size, r, start, length, result.(out := start + result.out)))
      ensures [] + StreamFormat.Read(size, r, length).out == StreamFormat.Read(size, r, length).out
    {
    }

    static lemma ContinuesEnd(size: nat, r: Reader, sofar: seq<byte>, result: ReadResult)
      requires Continues(size, r, sofar, 0, result)
      ensures result == ReadResult(r, sofar, NoFault)
    {
      assert sofar + [] == sofar;
    }

    static lemma ContinuesStep(size: nat, r: Reader, sofar: seq<byte>, left: nat, result: ReadResult)
      requires left > 0 && Continues(size, r, sofar, left, result)
      ensures (var (next, fault) := Input(size, r);
               if fault != NoFault || next.buffered == [] then result == ReadResult(next, sofar, fault)
               else
                 var k := if left > |next.buffered| then |next.buffered| else left;
                 Continues(size, next.Drop(k), sofar + next.buffered[..k], left - k, result))
    {
      hide Input;
      var (next, fault) := Input(size, r);
      assert sofar + [] == sofar;
      if fault == NoFault && next.buffered != [] {
        var k := if left > |next.buffered| then |next.buffered| else left;
        var rest := StreamFormat.Read(size, next.Drop(k), left - k);
        assert sofar + (next.buffered[..k] + rest.out) == sofar + next.buffered[..k] + rest.out;
      }
    }
  }

  // ------------------------------------------------------------------ words

  /** Writes an unsigned word of `width` bytes, most significant first. */
  method WriteWord(comp: Compressor, value: nat, width: nat) returns (fault: Fault)
    requires comp.Valid() && comp.size >= 10 && (comp.out ==> comp.level < comp.size)
    requires value < Power256(width)
    modifies comp, comp.image, comp.buffer, comp.io
    ensures comp.Valid() && fault == if comp.out then NoFault else WriteOnReadOnly
    ensures comp.out ==> comp.ValidWriter()
    ensures comp.out ==>
      comp.AsWriter() == old(StreamFormat.Write(comp.size, comp.AsWriter(), WordBytes(value, width)))
    ensures !comp.out ==> comp.AsReader() == old(comp.AsReader())
  {
    hide StreamFormat.Write;
    var bytes := new byte[width];
    FillWord(bytes, value);
    assert bytes[..width] == WordBytes(value, width);
    fault := comp.Write(bytes, width);
  }

  method FillWord(bytes: array<byte>, value: nat)
    modifies bytes
    ensures bytes[..] == WordBytes(value, bytes.Length)
  {
    var v, b := value, bytes.Length - 1;
    assert bytes[b + 1..] == [];
    while b >= 0
      invariant -1 <= b < bytes.Length
      invariant WordBytes(v, b + 1) + bytes[b + 1..] == WordBytes(value, bytes.Length)
    {
      ghost var rest := bytes[b + 1..];
      bytes[b] := v % 256;
      assert bytes[b..] == [v % 256] + rest;
      assert WordBytes(v / 256, b) + [v % 256] + rest == WordBytes(v / 256, b) + bytes[b..];
      v, b := v / 256, b - 1;
    }
    assert WordBytes(v, 0) + bytes[0..] == bytes[..];
  }

  /** Reads a word of `width` bytes; a stream that ends inside it has no value. */
  method ReadWord(comp: Compressor, width: nat) returns (value: nat, fault: Fault)
    requires comp.Valid()
    requires !comp.out ==> StreamFormat.Read(comp.size, comp.AsReader(), width).fault != OutOfBounds
    modifies comp, comp.image, comp.buffer, comp.io
    ensures comp.Valid()
    ensures comp.out ==> fault == ReadOnWriteOnly
    ensures !comp.out ==> (var result := old(StreamFormat.Read(comp.size, comp.AsReader(), width));
                           && comp.AsReader() == result.reader
                           && fault == (if result.fault != NoFault then result.fault
                                        else if |result.out| != width then ValueFailed
                                        else NoFault)
                           && (fault == NoFault ==> value == BytesWord(result.out)))
  {
    hide StreamFormat.Read;
    var bytes := new byte[width];
    var amount;
    value := 0;
    amount, fault := comp.Read(bytes, width);
    if fault != NoFault {
      return;
    }
    if amount != width {
      return 0, ValueFailed;
    }
    var b := 0;
    while b < width
      invariant b <= width && value == BytesWord(bytes[..b])
    {
      assert bytes[..b + 1] == bytes[..b] + [bytes[b]];
      value, b := value * 256 + bytes[b], b + 1;
    }
  }
}
