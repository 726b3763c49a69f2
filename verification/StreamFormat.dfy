/** The block-framed stream as a function of the data: what a run of writes puts in the image
    and what a run of reads takes from it. */
module StreamFormat {
  import opened Bytes
  import opened FastLz

  // ------------------------------------------------------------------ writing

  /** The block's size in two bytes, high byte first, each cut to eight bits. */
  function Header(n: nat): (r: seq<byte>)
  {
    [n / 256 % 256, n % 256]
  }

  function Frame(block: seq<byte>): seq<byte>
  {
    Header(|CompressBytes(block)|) + CompressBytes(block)
  }

  /** A writer: the bytes not yet compressed, the image so far, the bytes accepted and the bytes put out. */
  datatype Writer = Writer(buffered: seq<byte>, image: seq<byte>, total: nat, compressed: nat) {
    function Fill(data: seq<byte>): Writer
    {
      Writer(buffered + data, image, total + |data|, compressed)
    }
  }

  function Output(size: nat, w: Writer, forced: bool): Writer
  {
    if (forced && |w.buffered| > 0) || |w.buffered| >= size then
      Writer([], w.image + Frame(w.buffered), w.total, w.compressed + 2 + |CompressBytes(w.buffered)|)
    else w
  }

  /** How much of `length` bytes the buffer takes. */
  function Appending(size: nat, level: nat, length: nat): (k: nat)
    requires level <= size
  {
    if length > size - level then size - level else length
  }

  function Write(size: nat, w: Writer, data: seq<byte>): (r: Writer)
    requires |w.buffered| < size
    ensures |r.buffered| < size
    decreases |data|
  {
    if data == [] then w
    else
      var k := Appending(size, |w.buffered|, |data|);
      Write(size, Output(size, w.Fill(data[..k]), false), data[k..])
  }

  function WriteAll(size: nat, w: Writer, chunks: seq<seq<byte>>): (r: Writer)
    requires |w.buffered| < size
    ensures |r.buffered| < size
    decreases |chunks|
  {
    if chunks == [] then w else WriteAll(size, Write(size, w, chunks[0]), chunks[1..])
  }

  // ------------------------------------------------------------------ reading

  /** What a call throws. `OutOfBounds` is never thrown: it stands for an image whose next block
      the buffers cannot take, which the reader does not check. */
  datatype Fault =
    | NoFault
    | WriteOnReadOnly
    | ReadOnWriteOnly
    | BlockSizeZero
    | ReadPastEnd
    | ValueFailed
    | OutOfBounds

  /** A reader: the image still ahead, the decompressed bytes not yet handed out, the I/O buffer and the counters. */
  datatype Reader = Reader(ahead: seq<byte>, buffered: seq<byte>, io: seq<byte>, total: nat, compressed: nat) {
    /** Hands out `k` of the buffered bytes. */
    function Drop(k: nat): Reader
      requires k <= |buffered|
    {
      this.(buffered := buffered[k..], total := total + k)
    }
  }

  function BlockSize(ahead: seq<byte>): nat
    requires |ahead| >= 2
  {
    256 * (ahead[0] as nat) + ahead[1]
  }

  /** The I/O buffer after `n` bytes have been read over its start. */
  function Overlay(io: seq<byte>, bytes: seq<byte>): (r: seq<byte>)
    requires |bytes| <= |io|
    ensures |r| == |io|
  {
    bytes + io[|bytes|..]
  }

  function InputBlock(size: nat, r: Reader, n: nat): (Reader, Fault)
    requires 0 < n && 2 + n <= |r.ahead| && n <= |r.io|
  {
    var io := Overlay(r.io, r.ahead[2..2 + n]);
    var next := r.(ahead := r.ahead[2 + n..], io := io, compressed := r.compressed + 2 + n);
    match DecodeBytes(io, n, size)
    case Done(out) => (next.(buffered := out), NoFault)
    case Corrupt => (next, NoFault)
    case Overrun => (next, OutOfBounds)
  }

  /** Fetches a block when nothing is buffered; an image with fewer than two bytes ahead has ended. */
  function Input(size: nat, r: Reader): (Reader, Fault)
  {
    if r.buffered != [] then (r, NoFault)
    else if |r.ahead| < 2 then (r.(ahead := []), NoFault)
    else
      var n := BlockSize(r.ahead);
      var got := if n <= |r.ahead| - 2 then n else |r.ahead| - 2;
      if n == 0 then (r.(ahead := r.ahead[2..]), BlockSizeZero)
      else if got > |r.io| then (r, OutOfBounds)
      else if got < n then
        (r.(ahead := [], io := Overlay(r.io, r.ahead[2..]), compressed := r.compressed + 2 + n), ReadPastEnd)
      else InputBlock(size, r, n)
  }

  datatype ReadResult = ReadResult(reader: Reader, out: seq<byte>, fault: Fault)

  /** One call that asks for `length` bytes. */
  function Read(size: nat, r: Reader, length: nat): ReadResult
    decreases length
  {
    if length == 0 then ReadResult(r, [], NoFault)
    else
      var (next, fault) := Input(size, r);
      if fault != NoFault then ReadResult(next, [], fault)
      else if next.buffered == [] then ReadResult(next, [], NoFault)
      else
        var k := if length > |next.buffered| then |next.buffered| else length;
        var rest := Read(size, next.Drop(k), length - k);
        rest.(out := next.buffered[..k] + rest.out)
  }

  // ------------------------------------------------------------------ words

  function Power256(width: nat): (p: nat)
    ensures p >= 1
  {
    if width == 0 then 1 else 256 * Power256(width - 1)
  }

  /** The low `width` bytes of a value, most significant first. */
  function WordBytes(value: nat, width: nat): (r: seq<byte>)
    ensures |r| == width
  {
    if width == 0 then [] else WordBytes(value / 256, width - 1) + [value % 256]
  }

  function BytesWord(bytes: seq<byte>): nat
  {
    if bytes == [] then 0 else BytesWord(bytes[..|bytes| - 1]) * 256 + bytes[|bytes| - 1]
  }

  lemma {:induction false} WordRoundTrip(value: nat, width: nat)
    requires value < Power256(width)
    ensures BytesWord(WordBytes(value, width)) == value
  {
    if width > 0 {
      WordRoundTrip(value / 256, width - 1);
      var high := WordBytes(value / 256, width - 1);
      assert (high + [value % 256])[..width - 1] == high;
    }
  }

  /** The bytes of a word by their places: the first is the most significant one. */
  lemma {:induction false} WordByteAt(value: nat, width: nat, i: nat)
    requires i < width
    ensures WordBytes(value, width)[i] == value / Power256(width - 1 - i) % 256
    decreases width
  {
    if i < width - 1 {
      WordByteAt(value / 256, width - 1, i);
      DivideTwice(value, Power256(width - 2 - i));
    }
  }

  lemma DivideTwice(value: nat, p: nat)
    requires p >= 1
    ensures value / 256 / p == value / (256 * p)
  {
    var q := value / 256 / p;
    var (r, s) := (value % 256, value / 256 % p);
    assert value / 256 == q * p + s;
    assert value == (256 * p) * q + (256 * s + r);
    assert 256 * s + r < 256 * p;
    QuotientIs(value, 256 * p, q, 256 * s + r);
  }

  lemma QuotientIs(n: nat, d: nat, q: nat, r: nat)
    requires d >= 1 && n == d * q + r && r < d
    ensures n / d == q
  {
    var k: int := n / d as int - q;
    assert d * k == r - n % d;
    Multiple(d, k);
  }

  lemma Multiple(d: nat, k: int)
    ensures k >= 1 ==> d * k >= d
    ensures k <= -1 ==> d * k <= -(d as int)
  {
  }

  lemma {:induction false} BytesRoundTrip(bytes: seq<byte>)
    ensures BytesWord(bytes) < Power256(|bytes|)
    ensures WordBytes(BytesWord(bytes), |bytes|) == bytes
  {
    if bytes != [] {
      BytesRoundTrip(bytes[..|bytes| - 1]);
    }
  }
}
