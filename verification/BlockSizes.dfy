/** Exactly which buffer sizes the stream's own buffers and its 16-bit block header can serve. */
module BlockSizes {
  import opened Bytes
  import opened FastLz
  import opened FastLzFormat
  import opened FastLzHash
  import opened FastLzCompress
  import FastLzCompressor
  import opened StreamFormat
  import opened StreamRoundTrip

  /** The three bytes at `i` are not the three at `j`. */
  ghost predicate Differ(x: seq<byte>, i: nat, j: nat)
    requires i + 2 < |x| && j + 2 < |x|
  {
    x[i] != x[j] || x[i + 1] != x[j + 1] || x[i + 2] != x[j + 2]
  }

  /** No three bytes occur again within the reach of level 1. */
  ghost predicate NoRepeats(x: seq<byte>)
  {
    forall i: nat, j: nat :: i < j < i + 8192 && j + 2 < |x| ==> Differ(x, i, j)
  }

  lemma NothingFound(x: seq<byte>, htab: seq<nat>, ip: nat)
    requires NoRepeats(x) && |htab| == HASH_SIZE && 1 <= ip && ip + 12 < |x|
    requires forall h :: 0 <= h < |htab| ==> htab[h] < ip
    ensures Search(Level1, x, htab, ip).None?
  {
    hide HashAt;
    var ref := htab[HashAt(x, ip)];
    if ref + 8192 > ip { assert Differ(x, ref, ip); }
  }

  /** With `i` bytes out as literals, the output has a count byte for every 32 begun. */
  ghost predicate LiteralsOnly(ip: nat, copy: nat, out: seq<byte>)
  {
    copy == ip % 32 && |out| == ip + ip / 32 + 1
  }

  lemma {:induction false} TailLength(x: seq<byte>, ip: nat, copy: nat, out: seq<byte>)
    requires ip <= |x| && copy < MAX_COPY && LiteralsOnly(ip, copy, out) && copy < |out|
    ensures |Tail(x, ip, copy, out)| == |x| + (|x| + 31) / 32
    decreases |x| - ip
  {
    if ip < |x| {
      var (copy', out') := PushLiteral(out, copy, x[ip]);
      TailLength(x, ip + 1, copy', out');
    }
  }

  lemma {:induction false} RunLength(x: seq<byte>, st: State)
    requires Ok(x, st) && NoRepeats(x) && LiteralsOnly(st.ip, st.copy, st.out)
    ensures |Run(Level1, x, st)| == |x| + (|x| + 31) / 32
    decreases |x| - st.ip
  {
    hide Search, NoRepeats, TableAfter, Tail, Step;
    if st.ip + 12 < |x| {
      NothingFound(x, st.htab, st.ip);
      FastLzCompressor.StepIsLiteral(Level1, x, st);
      RunLength(x, Step(Level1, x, st));
    } else {
      TailLength(x, st.ip, st.copy, st.out);
    }
  }

  /** Input without repeats costs the most any input can: one byte in 32, rounded up. */
  lemma WorstCase(x: seq<byte>)
    requires 1 <= |x| < 65536 && NoRepeats(x)
    ensures |CompressBytes(x)| == |x| + (|x| + 31) / 32
  {
    hide Run, NoRepeats;
    if |x| >= 4 { RunLength(x, Init(x)); }
  }

  /** Bytes whose position can be told from any three of them, over a long stretch. */
  function VariedByte(i: nat): byte
  {
    if i % 3 == 0 then i / 3 / 128 % 64
    else if i % 3 == 1 then 64
    else 128 + i / 3 % 128
  }

  function Varied(n: nat): (x: seq<byte>)
    ensures |x| == n
  {
    seq(n, i requires 0 <= i < n => VariedByte(i))
  }

  /** Two numbers less than 8192 apart differ in their last seven bits or the six above. */
  lemma CountersDiffer(a: nat, b: nat)
    requires a < b < a + 8192
    ensures a % 128 != b % 128 || a / 128 % 64 != b / 128 % 64
  {
  }

  lemma CountersGoOn(a: nat, b: nat)
    requires a % 128 == b % 128
    ensures (a + 1) % 128 == (b + 1) % 128
  {
  }

  /** The bytes that belong to group `p`. */
  lemma VariedGroup(p: nat)
    ensures VariedByte(3 * p) == p / 128 % 64
    ensures VariedByte(3 * p + 1) == 64
    ensures VariedByte(3 * p + 2) == 128 + p % 128
  {
    assert (3 * p) / 3 == p && (3 * p + 1) / 3 == p && (3 * p + 2) / 3 == p;
    assert (3 * p) % 3 == 0 && (3 * p + 1) % 3 == 1 && (3 * p + 2) % 3 == 2;
  }

  lemma VariedDiffers(i: nat, j: nat)
    requires i < j < i + 8192
    ensures VariedByte(i) != VariedByte(j) || VariedByte(i + 1) != VariedByte(j + 1)
         || VariedByte(i + 2) != VariedByte(j + 2)
  {
    hide VariedByte;
    var (p, q) := (i / 3, j / 3);
    VariedGroup(p);
    VariedGroup(p + 1);
    VariedGroup(q);
    VariedGroup(q + 1);
    if i % 3 == j % 3 {
      // the group of the bytes behind a group's first starts with the next counter value
      if p % 128 == q % 128 { CountersGoOn(p, q); }
      CountersDiffer(p, q);
      CountersDiffer(p + 1, q + 1);
    }
    assert i == 3 * p || i == 3 * p + 1 || i == 3 * p + 2;
    assert j == 3 * q || j == 3 * q + 1 || j == 3 * q + 2;
  }

  lemma VariedNoRepeats(n: nat)
    ensures NoRepeats(Varied(n))
  {
    hide VariedByte;
    var x := Varied(n);
    forall i: nat, j: nat | i < j < i + 8192 && j + 2 < |x|
      ensures Differ(x, i, j)
    {
      VariedDiffers(i, j);
    }
  }

  // ------------------------------------------------------------------ the sizes

  /** The blocks that a buffer of this size puts out: any that fit it but the empty one, and of size 0, where every turn
      finds the buffer full, only that. */
  predicate IsPutOut(size: nat, block: seq<byte>)
  {
    if size == 0 then block == [] else 1 <= |block| <= size
  }

  /** Every block that is put out fits the I/O buffer, and its header tells its size and is not the one for errors. */
  ghost predicate BlocksSurvive(size: nat)
  {
    forall block: seq<byte> :: IsPutOut(size, block) ==>
      && |CompressBytes(block)| <= size + size / 10
      && 0 < BlockSize(Frame(block)) == |CompressBytes(block)|
  }

  /** A buffer of size 0 is full in every turn: it puts out one more empty block, takes nothing in, and what it puts out
      is an error to read. */
  lemma SizeZero(w: Writer, io: seq<byte>, data: seq<byte>)
    requires w.buffered == []
    ensures Appending(0, 0, |data|) == 0
    ensures Output(0, w.Fill(data[..0]), false) == w.(image := w.image + [0, 0], compressed := w.compressed + 2)
    ensures Input(0, Reader([0, 0], [], io, 0, 0)).1 == BlockSizeZero
  {
    NoBytes();
    assert w.buffered + data[..0] == [];
  }

  lemma NoBytes()
    ensures CompressBytes([]) == [] && Frame([]) == [0, 0]
  {
  }

  lemma SmallBlockGrows(x: seq<byte>)
    requires 1 <= |x| < 10
    ensures |CompressBytes(x)| == |x| + 1
  {
    if |x| >= 4 {
      var st := Init(x);
      TailLength(x, st.ip, st.copy, st.out);
    }
  }

  /** Of the sizes the constructor accepts, exactly those from 10 to 63549 work for every block. */
  lemma WorkingSizes(size: nat)
    requires size <= 0xffff
    ensures BlocksSurvive(size) <==> SizeWorks(size)
  {
    hide CompressBytes, VariedByte, NoRepeats;
    if SizeWorks(size) {
      forall block: seq<byte> | 1 <= |block| <= size
        ensures |CompressBytes(block)| <= size + size / 10
        ensures 0 < BlockSize(Frame(block)) == |CompressBytes(block)|
      {
        FrameFits(size, block);
      }
    } else {
      var block := Varied(size);
      if size == 0 {
        NoBytes();
      } else if size < 10 {
        SmallBlockGrows(block);
      } else {
        VariedNoRepeats(size);
        WorstCase(block);
      }
      assert IsPutOut(size, block);
      assert |CompressBytes(block)| > size + size / 10 || BlockSize(Frame(block)) != |CompressBytes(block)|
          || BlockSize(Frame(block)) == 0;
    }
  }
}
