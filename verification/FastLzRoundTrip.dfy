/** What every pass of the compressor keeps, and with it the round trip and the size bound. */
module FastLzRoundTrip {
  import opened Bytes
  import opened Lz77
  import opened FastLzFormat
  import opened FastLzDecode
  import opened FastLzCompress

  /** The bytes written for tokens that stand for `covered` input bytes take at most one byte in 32 extra. */
  predicate Cheap(written: nat, covered: nat)
  {
    32 * written <= 33 * covered
  }

  /** The closed part of the output is the tokens `ts`, which mean the input up to the pending literals. */
  ghost predicate Pending(level: Level, x: seq<byte>, ip: nat, copy: nat, out: seq<byte>, ts: seq<Token>)
  {
    && copy <= ip <= |x| && copy < MAX_COPY
    && WellFormed(level, ts)
    && Expand(ts) == x[..ip - copy]
    && out == Serialize(level, ts) + [HEADER] + x[ip - copy..ip]
    && Cheap(|Serialize(level, ts)|, ip - copy)
    && (ts == [] ==> copy > 0)
  }

  /** A finished output: tokens that mean all of the input. */
  ghost predicate Finished(level: Level, x: seq<byte>, out: seq<byte>, ts: seq<Token>)
  {
    && WellFormed(level, ts) && ts != []
    && Expand(ts) == x
    && out == Serialize(level, ts)
    && |out| <= |x| + (|x| + 31) / 32
  }

  /** Closing the open run yields tokens for all input up to the cursor. */
  lemma CloseRunKeeps(level: Level, x: seq<byte>, ip: nat, copy: nat, out: seq<byte>, ts: seq<Token>)
    returns (ts': seq<Token>)
    requires Pending(level, x, ip, copy, out, ts)
    ensures WellFormed(level, ts') && ts' != []
    ensures Expand(ts') == x[..ip]
    ensures CloseRun(out, copy) == Serialize(level, ts')
    ensures |Serialize(level, ts')| == |Serialize(level, ts)| + if copy > 0 then 1 + copy else 0
  {
    hide Serialize, Expand, TokenBytes;
    var s := Serialize(level, ts);
    if copy == 0 {
      ts' := ts;
      assert out[..|out| - 1] == s;
      assert x[..ip - copy] == x[..ip];
    } else {
      var t := Literal(x[ip - copy..ip]);
      ts' := ts + [t];
      WellFormedSnoc(level, ts, t);
      LiteralBytes(level, t.bytes);
      assert x[..ip - copy] + t.bytes == x[..ip];
      assert out[|out| - copy - 1 := copy - 1] == s + ([copy - 1] + t.bytes);
    }
  }

  lemma LiteralBytes(level: Level, bytes: seq<byte>)
    requires 1 <= |bytes| <= MAX_COPY
    ensures TokenOk(level, Literal(bytes))
    ensures TokenBytes(level, Literal(bytes)) == [|bytes| - 1] + bytes
  {
  }

  /** A literal joins the open run; the thirty-second closes it and opens the next. */
  lemma PushLiteralKeeps(level: Level, x: seq<byte>, ip: nat, copy: nat, out: seq<byte>, ts: seq<Token>)
    returns (ts': seq<Token>)
    requires Pending(level, x, ip, copy, out, ts) && ip < |x|
    ensures var (copy', out') := PushLiteral(out, copy, x[ip]);
            Pending(level, x, ip + 1, copy', out', ts')
  {
    hide Serialize, Expand, TokenBytes;
    var s := Serialize(level, ts);
    assert x[ip - copy..ip] + [x[ip]] == x[ip - copy..ip + 1];
    if copy + 1 == MAX_COPY {
      var t := Literal(x[ip - copy..ip + 1]);
      ts' := ts + [t];
      WellFormedSnoc(level, ts, t);
      LiteralBytes(level, t.bytes);
      assert x[..ip - copy] + t.bytes == x[..ip + 1];
      assert x[ip + 1..ip + 1] == [];
      assert out + [x[ip]] + [HEADER] == s + ([HEADER] + t.bytes) + [HEADER] + [];
    } else {
      ts' := ts;
      assert out + [x[ip]] == s + [HEADER] + x[ip - copy..ip + 1];
    }
  }

  /** A cut match means the same as the whole one and still costs less than it stands for. */
  lemma {:induction false} SplitKeeps(x: seq<byte>, ip: nat, d: nat, n: nat, ts: seq<Token>)
    returns (ts': seq<Token>)
    requires ip + n <= |x| && WellFormed(Level1, ts) && ts != [] && Expand(ts) == x[..ip]
    requires 1 <= d <= ip && d < 8192 && n >= 3
    requires forall j :: ip <= j < ip + n ==> x[j] == x[j - d]
    ensures WellFormed(Level1, ts') && ts' != []
    ensures Expand(ts') == x[..ip + n]
    ensures Serialize(Level1, ts') == Serialize(Level1, ts) + SplitBytes(d, n)
    ensures |SplitBytes(d, n)| <= n - 1
    decreases n
  {
    hide Serialize, Expand, WellFormed, CopyBack, MatchBytes1;
    var first := if n - 2 > MAX_LEN - 2 then MAX_LEN - 2 else n;
    var t := Match(d, first);
    MatchReproduces(x, ip, d, first);
    WellFormedSnoc(Level1, ts, t);
    MatchSaves(Level1, d, first);
    ts' := ts + [t];
    if n - 2 > MAX_LEN - 2 {
      ts' := SplitKeeps(x, ip + first, d, n - first, ts');
    }
  }

  lemma MatchKeeps(level: Level, x: seq<byte>, ip: nat, d: nat, n: nat, ts: seq<Token>)
    returns (ts': seq<Token>)
    requires ip + n <= |x| && WellFormed(level, ts) && ts != [] && Expand(ts) == x[..ip]
    requires d <= ip && Encodable(level, d, n)
    requires forall j :: ip <= j < ip + n ==> x[j] == x[j - d]
    ensures WellFormed(level, ts') && ts' != []
    ensures Expand(ts') == x[..ip + n]
    ensures Serialize(level, ts') == Serialize(level, ts) + MatchBytes(level, d, n)
    ensures |MatchBytes(level, d, n)| <= n - 1
  {
    hide Serialize, Expand, WellFormed, CopyBack, MatchBytes2;
    match level
    case Level1 => ts' := SplitKeeps(x, ip, d, n, ts);
    case Level2 =>
      var t := Match(d, n);
      MatchReproduces(x, ip, d, n);
      WellFormedSnoc(Level2, ts, t);
      MatchSaves(Level2, d, n);
      ts' := ts + [t];
  }

  /** The bytes up to where comparing stopped repeat those `distance` back, and the match is long enough. */
  lemma MatchIsTrue(level: Level, x: seq<byte>, htab: seq<nat>, ip: nat)
    requires |htab| == FastLzHash.HASH_SIZE && 1 <= ip && ip + 12 < |x|
    requires forall h :: 0 <= h < |htab| ==> htab[h] < ip
    requires Search(level, x, htab, ip).Some?
    ensures (var c := Search(level, x, htab, ip).value;
             && 1 <= c.distance <= ip && 3 <= c.len && ip + c.len + 8 <= |x|
             && var n := MatchEnd(x, ip, c) - 1 - ip;
             && n >= 3 && Encodable(level, c.distance, n)
             && forall j :: ip <= j < ip + n ==> x[j] == x[j - c.distance])
  {
    hide Search, Scan, Encodable;
    CandidateEncodable(level, x, htab, ip);
  }

  lemma StepKeeps(level: Level, x: seq<byte>, st: State, ts: seq<Token>) returns (ts': seq<Token>)
    requires Ok(x, st) && st.ip + 12 < |x| && Pending(level, x, st.ip, st.copy, st.out, ts)
    ensures var st' := Step(level, x, st);
            Pending(level, x, st'.ip, st'.copy, st'.out, ts')
  {
    hide Serialize, Expand, WellFormed, Search, MatchEnd, HashAt, TableAfter, Encodable, MatchBytes;
    match Search(level, x, st.htab, st.ip)
    case None => ts' := PushLiteralKeeps(level, x, st.ip, st.copy, st.out, ts);
    case Some(c) =>
      MatchIsTrue(level, x, st.htab, st.ip);
      var n := MatchEnd(x, st.ip, c) - 1 - st.ip;
      var closed := CloseRunKeeps(level, x, st.ip, st.copy, st.out, ts);
      ts' := MatchKeeps(level, x, st.ip, c.distance, n, closed);
      assert x[st.ip + n..st.ip + n] == [];
  }

  lemma {:induction false} TailKeeps(level: Level, x: seq<byte>, ip: nat, copy: nat, out: seq<byte>, ts: seq<Token>)
    returns (ts': seq<Token>)
    requires Pending(level, x, ip, copy, out, ts)
    ensures Finished(level, x, Tail(x, ip, copy, out), ts')
    decreases |x| - ip
  {
    hide Serialize, Expand, WellFormed, PushLiteral;
    if ip < |x| {
      ts' := PushLiteralKeeps(level, x, ip, copy, out, ts);
      var (copy', out') := PushLiteral(out, copy, x[ip]);
      ts' := TailKeeps(level, x, ip + 1, copy', out', ts');
    } else {
      ts' := CloseRunKeeps(level, x, ip, copy, out, ts);
      assert x[..ip] == x;
    }
  }

  lemma {:induction false} RunKeeps(level: Level, x: seq<byte>, st: State, ts: seq<Token>) returns (ts': seq<Token>)
    requires Ok(x, st) && Pending(level, x, st.ip, st.copy, st.out, ts)
    ensures Finished(level, x, Run(level, x, st), ts')
    decreases |x| - st.ip
  {
    hide Serialize, Expand, WellFormed, Step, Tail, Pending, Finished;
    if st.ip + 12 < |x| {
      ts' := StepKeeps(level, x, st, ts);
      ts' := RunKeeps(level, x, Step(level, x, st), ts');
    } else {
      ts' := TailKeeps(level, x, st.ip, st.copy, st.out, ts);
    }
  }

  /** The level a stream announces: two for level 2 output of at least four bytes, one otherwise. */
  function StreamLevel(level: Level, x: seq<byte>): Level
  {
    if |x| < 4 then Level1 else level
  }

  lemma InitPending(level: Level, x: seq<byte>)
    requires |x| >= 4
    ensures Pending(level, x, 2, 2, Init(x).out, [])
  {
  }

  /** `s` is the stream of `ts`, with the marker of its level in the first byte. */
  ghost predicate MarkedStream(level: Level, s: seq<byte>, ts: seq<Token>)
  {
    && WellFormed(level, ts) && ts != []
    && StreamOf(level, s, ts)
    && |s| >= 2 && s[0] == |ts[0].bytes| - 1 + if level == Level2 then 32 else 0
  }

  lemma FirstByte(level: Level, ts: seq<Token>)
    requires WellFormed(level, ts) && ts != []
    ensures |Serialize(level, ts)| >= 2 && Serialize(level, ts)[0] == |ts[0].bytes| - 1 < 32
  {
    SerializeNotEmpty(level, ts);
    TokenPosition(level, ts, 0);
    assert ts[..0] == [];
    assert Serialize(level, ts[..0]) == [];
    HoldsAt(Serialize(level, ts), 0, TokenBytes(level, ts[0]), 0);
  }

  lemma MarkStream(level: Level, ts: seq<Token>)
    requires WellFormed(level, ts) && ts != []
    ensures MarkedStream(level, Mark(level, Serialize(level, ts)), ts)
  {
    hide Serialize;
    FirstByte(level, ts);
  }

  lemma CompressIsTokens(level: Level, x: seq<byte>) returns (ts: seq<Token>)
    requires |x| > 0
    ensures MarkedStream(StreamLevel(level, x), Compress(level, x), ts)
    ensures Expand(ts) == x
    ensures |Compress(level, x)| <= |x| + (|x| + 31) / 32
  {
    hide Run, Pending, Serialize, Mark, MarkedStream;
    if |x| < 4 {
      ts := ShortIsToken(x);
    } else {
      InitPending(level, x);
      ts := RunKeeps(level, x, Init(x), []);
    }
    MarkStream(StreamLevel(level, x), ts);
    if |x| < 4 { MarkLevel1(Serialize(Level1, ts)); }
  }

  lemma MarkLevel1(s: seq<byte>)
    ensures Mark(Level1, s) == s
  {
  }

  lemma ShortIsToken(x: seq<byte>) returns (ts: seq<Token>)
    requires 1 <= |x| < 4
    ensures WellFormed(Level1, ts) && ts != [] && Expand(ts) == x
    ensures Serialize(Level1, ts) == [|x| - 1] + x
  {
    var t := Literal(x);
    WellFormedSnoc(Level1, [], t);
    ts := [t];
    assert [] + [t] == ts;
  }

  /** Decoding what was compressed gives the input back, at either level, with any output room that holds it,
      and without reading one byte past the compressed block. */
  lemma RoundTrip(level: Level, x: seq<byte>, maxout: nat)
    requires 1 <= |x| <= maxout
    ensures Decode(StreamLevel(level, x), Compress(level, x), |Compress(level, x)|, maxout) == Done(x)
  {
    hide Serialize, Compress, Decode;
    var ts := CompressIsTokens(level, x);
    FirstByte(StreamLevel(level, x), ts);
    DecodeTokens(StreamLevel(level, x), Compress(level, x), ts, maxout);
  }

  /** The first byte tells the decoder which level to use. */
  lemma AnnouncedLevel(level: Level, x: seq<byte>)
    requires |x| > 0
    ensures |Compress(level, x)| >= 2
    ensures Compress(level, x)[0] / 32 == if StreamLevel(level, x) == Level2 then 1 else 0
  {
    hide Serialize, Compress, TokenOk;
    var ts := CompressIsTokens(level, x);
    FirstByte(StreamLevel(level, x), ts);
  }

  /** Compressing never costs more than one byte in 32, rounded up. */
  lemma SizeBound(level: Level, x: seq<byte>)
    ensures |Compress(level, x)| <= |x| + (|x| + 31) / 32
  {
    hide Run;
    if |x| > 0 { var ts := CompressIsTokens(level, x); }
  }
}
