/** How far behind its block the decoder reads: exactly what must be readable there. */
module FastLzReach {
  import opened Bytes
  import opened FastLzFormat
  import opened Lz77

  // ------------------------------------------------------------------ what must be there

  /** A chain of 255s that starts here ends, the byte of the distance is there behind it and, if that is 255 as well,
      the two bytes of a far distance. */
  predicate ChainFits(tail: seq<byte>)
  {
    if tail == [] then false
    else if tail[0] == 255 then ChainFits(tail[1..])
    else |tail| >= 2 && (tail[1] == 255 ==> |tail| >= 4)
  }

  /** What must lie behind a block of `n` bytes so that the decoder stays in memory, whatever the block holds. Blocks
      of one and two bytes have room for literals only. */
  predicate Behind(level: Level, n: nat, tail: seq<byte>)
  {
    if n == 0 then tail != []
    else if n < 3 then true
    else if level == Level1 then |tail| >= 2
    else ChainFits(tail)
  }

  // ------------------------------------------------------------------ it is enough

  /** From any place in the block a chain is read to its end, and what follows it is there. */
  lemma {:induction false} ChainStays(m: seq<byte>, n: nat, at: nat, ctrl: byte, len: nat)
    requires at <= n <= |m| && ChainFits(m[n..])
    ensures ReadChain(m, at).Some?
    ensures ReadBack2(m, ReadChain(m, at).value.1, ctrl, len).Some?
    decreases |m| - at
  {
    TailGoesOn(m, n);
    if m[at] == 255 {
      if at < n {
        ChainStays(m, n, at + 1, ctrl, len);
      } else {
        ChainStays(m, n + 1, at + 1, ctrl, len);
      }
    } else if at < n {
      BackStays(m, n, at + 1, ctrl, len);
    }
  }

  lemma {:induction false} ChainIsLong(tail: seq<byte>)
    requires ChainFits(tail)
    ensures |tail| >= 2
    decreases |tail|
  {
    if tail[0] == 255 { ChainIsLong(tail[1..]); }
  }

  lemma TailGoesOn(m: seq<byte>, n: nat)
    requires n <= |m| && ChainFits(m[n..])
    ensures n + 2 <= |m| && (m[n] == 255 ==> ChainFits(m[n + 1..]))
    ensures m[n] == 255 ==> n + 3 <= |m|
    ensures m[n] != 255 && m[n + 1] == 255 ==> n + 4 <= |m|
  {
    var tail := m[n..];
    assert tail[0] == m[n];
    if tail[0] == 255 {
      ChainIsLong(tail[1..]);
      assert tail[1..] == m[n + 1..];
    } else {
      assert tail[1] == m[n + 1];
    }
  }

  lemma BackStays(m: seq<byte>, n: nat, at: nat, ctrl: byte, len: nat)
    requires at <= n <= |m| && ChainFits(m[n..])
    ensures ReadBack2(m, at, ctrl, len).Some?
  {
    TailGoesOn(m, n);
  }

  lemma ReadMatchStays(level: Level, m: seq<byte>, n: nat, ip: nat, ctrl: byte)
    requires 3 <= n <= |m| && Behind(level, n, m[n..]) && ip <= n && ctrl >= 32
    ensures ReadMatch(level, m, ip, ctrl).Some?
  {
    if level == Level2 {
      var len := ctrl / 32 - 1;
      if len == 6 {
        ChainStays(m, n, ip, ctrl, len + (if ReadChain(m, ip).Some? then ReadChain(m, ip).value.0 else 0));
      } else {
        BackStays(m, n, ip, ctrl, len);
      }
    }
  }

  lemma PassStays(level: Level, m: seq<byte>, n: nat, maxout: nat, ip: nat, ctrl: byte, out: seq<byte>)
    requires n <= |m| && ip <= n && (ctrl >= 32 ==> 3 <= n && Behind(level, n, m[n..]))
    ensures Pass(level, m, n, maxout, ip, ctrl, out) != Stop(Overrun)
  {
    hide ReadMatch, CopyBack, ChainFits;
    if ctrl >= 32 { ReadMatchStays(level, m, n, ip, ctrl); }
  }

  lemma {:induction false} DecodeFromStays(level: Level, m: seq<byte>, n: nat, maxout: nat, ip: nat, ctrl: byte,
                                           out: seq<byte>)
    requires 3 <= n <= |m| && Behind(level, n, m[n..]) && ip <= n
    ensures DecodeFrom(level, m, n, maxout, ip, ctrl, out) != Overrun
    decreases n - ip
  {
    hide Pass, Behind;
    PassStays(level, m, n, maxout, ip, ctrl, out);
    var p := Pass(level, m, n, maxout, ip, ctrl, out);
    if p.Go? && p.next < n {
      DecodeFromStays(level, m, n, maxout, p.next + 1, m[p.next], p.out);
    }
  }

  /** Blocks of up to two bytes: one run of literals, and then the block is over. */
  lemma ShortStays(level: Level, m: seq<byte>, n: nat, maxout: nat)
    requires n < 3 && n <= |m| && m != []
    ensures Decode(level, m, n, maxout) != Overrun
  {
    hide CopyBack;
    var ctrl := m[0] % 32;
    if n > 0 {
      PassStays(level, m, n, maxout, 1, ctrl, []);
    } else {
      assert Pass(level, m, n, maxout, 1, ctrl, []) == Stop(Corrupt);
    }
  }

  /** With these bytes behind it, no block makes the decoder read further. */
  lemma DecodeStays(level: Level, m: seq<byte>, n: nat, maxout: nat)
    requires n <= |m| && Behind(level, n, m[n..])
    ensures Decode(level, m, n, maxout) != Overrun
  {
    if n < 3 {
      assert n == 0 ==> m[n..] == m;
      ShortStays(level, m, n, maxout);
    } else {
      DecodeFromStays(level, m, n, maxout, 1, m[0] % 32, []);
    }
  }

  // ------------------------------------------------------------------ it is needed

  /** Runs of one literal, the last of two if need be: `n` bytes of block. */
  function Literals(n: nat): (r: seq<byte>)
    requires n != 1
    ensures |r| == n
  {
    if n == 0 then [] else if n == 3 then [1, 0, 0] else [0, 0] + Literals(n - 2)
  }

  /** How many bytes they stand for. */
  function LiteralCount(n: nat): (r: nat)
    requires n != 1
    ensures r <= (n + 1) / 2
  {
    if n == 0 then 0 else if n == 3 then 2 else 1 + LiteralCount(n - 2)
  }

  /** A block that ends with the head of a match: literals and a byte that asks for a long and far one. */
  function Reaching(n: nat): (r: seq<byte>)
    requires n >= 3
    ensures |r| == n
  {
    Literals(n - 1) + [255]
  }

  /** The decoder gets through the literals to the last byte of the block. */
  lemma {:induction false} ThroughLiterals(level: Level, m: seq<byte>, n: nat, maxout: nat, at: nat, out: seq<byte>)
    requires 3 <= n <= |m| && at < n - 1 && n - 1 - at != 1
    requires m[at..n] == Literals(n - 1 - at) + [255] && |out| + LiteralCount(n - 1 - at) <= maxout
    ensures exists out' :: DecodeFrom(level, m, n, maxout, at + 1, m[at], out)
                        == DecodeFrom(level, m, n, maxout, n, 255, out')
    decreases n - at
  {
    var k := n - 1 - at;
    var s := Literals(k) + [255];
    assert m[at] == m[at..n][0] == s[0];
    var count := if k == 3 then 2 else 1;
    var next := at + 1 + count;
    assert Pass(level, m, n, maxout, at + 1, m[at], out) == Go(next, out + m[at + 1..next]);
    assert m[next] == m[at..n][1 + count] == s[1 + count];
    var out' := out + m[at + 1..next];
    if next < n - 1 {
      assert m[next..n] == m[at..n][2..] == s[2..] == Literals(k - 2) + [255];
      ThroughLiterals(level, m, n, maxout, next, out');
    } else {
      assert next == n - 1 && m[next] == 255;
      assert DecodeFrom(level, m, n, maxout, at + 1, m[at], out) == DecodeFrom(level, m, n, maxout, n, 255, out');
    }
  }

  lemma {:induction false} ChainLeaves(m: seq<byte>, n: nat, len: nat)
    requires n <= |m| && !ChainFits(m[n..])
    ensures ReadChain(m, n).None? || ReadBack2(m, ReadChain(m, n).value.1, 255, len).None?
    decreases |m| - n
  {
    var tail := m[n..];
    if tail != [] {
      assert tail[0] == m[n] && (|tail| > 1 ==> tail[1] == m[n + 1]);
      if m[n] == 255 {
        assert tail[1..] == m[n + 1..];
        ChainLeaves(m, n + 1, len);
      }
    }
  }

  /** The head of a long and far match at the end of the block makes the decoder leave its memory. */
  lemma LeavesFromHead(level: Level, m: seq<byte>, n: nat, maxout: nat, out: seq<byte>)
    requires 3 <= n <= |m| && !Behind(level, n, m[n..])
    ensures DecodeFrom(level, m, n, maxout, n, 255, out) == Overrun
  {
    hide CopyBack;
    if level == Level2 {
      ChainLeaves(m, n, 6 + (if ReadChain(m, n).Some? then ReadChain(m, n).value.0 else 0));
    }
  }

  /** The block that shows it. */
  lemma ReachingLeaves(level: Level, n: nat, tail: seq<byte>, maxout: nat)
    requires n >= 3 && !Behind(level, n, tail) && maxout >= n / 2
    ensures Decode(level, Reaching(n) + tail, n, maxout) == Overrun
  {
    hide DecodeFrom, Behind;
    var m := Reaching(n) + tail;
    assert m[n..] == tail && m[0..n] == Reaching(n);
    assert m[0] == Literals(n - 1)[0] < 32;
    ThroughLiterals(level, m, n, maxout, 0, []);
    var out' :| DecodeFrom(level, m, n, maxout, 1, m[0], []) == DecodeFrom(level, m, n, maxout, n, 255, out');
    LeavesFromHead(level, m, n, maxout, out');
  }

  /** What lies behind the block keeps the decoder in memory, for every block of that length, if and only if it is
      `Behind`; the output need only hold the literals of one block. */
  lemma ReachExactly(level: Level, n: nat, tail: seq<byte>, maxout: nat)
    requires maxout >= n / 2
    ensures (forall block: seq<byte> :: |block| == n ==> Decode(level, block + tail, n, maxout) != Overrun)
       <==> Behind(level, n, tail)
  {
    hide Decode, Behind;
    if Behind(level, n, tail) {
      forall block: seq<byte> | |block| == n
        ensures Decode(level, block + tail, n, maxout) != Overrun
      {
        assert (block + tail)[n..] == tail;
        DecodeStays(level, block + tail, n, maxout);
      }
    } else {
      BehindFails(level, n, tail);
      if n == 0 {
        NothingReadable(level, maxout);
        assert [] + tail == [];
      } else {
        ReachingLeaves(level, n, tail, maxout);
        assert |Reaching(n)| == n;
      }
    }
  }

  lemma BehindFails(level: Level, n: nat, tail: seq<byte>)
    requires !Behind(level, n, tail)
    ensures n >= 3 || (n == 0 && tail == [])
  {
  }

  lemma NothingReadable(level: Level, maxout: nat)
    ensures Decode(level, [], 0, maxout) == Overrun
  {
  }

  /** By number: level 1 reads up to two bytes behind any block of three bytes or more. */
  lemma Level1Reach(n: nat, k: nat, maxout: nat)
    requires n >= 3 && maxout >= n / 2
    ensures (forall m: seq<byte> :: |m| == n + k ==> Decode(Level1, m, n, maxout) != Overrun) <==> k >= 2
  {
    hide Decode;
    if k >= 2 {
      forall m: seq<byte> | |m| == n + k
        ensures Decode(Level1, m, n, maxout) != Overrun
      {
        DecodeStays(Level1, m, n, maxout);
      }
    } else {
      var tail: seq<byte> := seq(k, _ => 0);
      ReachingLeaves(Level1, n, tail, maxout);
      assert |Reaching(n) + tail| == n + k;
    }
  }

  /** Two small blocks that make the decoder read behind itself. */
  lemma BlocksThatReach()
    ensures Decode(Level1, [0, 65, 224, 0], 3, 100) == Overrun
    ensures Decode(Level2, [0, 65, 224, 255, 255], 3, 100) == Overrun
  {
    var m1: seq<byte> := [0, 65, 224, 0];
    var m2: seq<byte> := [0, 65, 224, 255, 255];
    assert Pass(Level1, m1, 3, 100, 1, 0, []) == Go(2, [65]) && Pass(Level2, m2, 3, 100, 1, 0, []) == Go(2, [65]);
    assert ReadMatch(Level1, m1, 3, 224) == None;
    assert ReadChain(m2, 5) == None && ReadChain(m2, 4) == None && ReadChain(m2, 3) == None;
    assert ReadMatch(Level2, m2, 3, 224) == None;
  }
}
