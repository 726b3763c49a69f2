/** What the compressor finds and what its tokens mean, in the numbers of the format. */
module FastLzMatches {
  import opened Bytes
  import opened FastLz
  import opened FastLzCompress
  import opened FastLzFormat
  import opened FastLzHash
  import opened Lz77

  // ------------------------------------------------------------------ where a match ends

  /** The furthest a match may reach whose first `start` bytes have been compared: three bytes in front of the end, or
      seven behind the start if that is further. */
  function Furthest(x: seq<byte>, start: nat): int
  {
    if start + 7 > |x| - 3 then start + 7 else |x| - 3
  }

  /** The text from `ip` repeats itself `d` back up to `m`, and no further or as far as a match may reach. */
  ghost predicate EndsAt(x: seq<byte>, ip: nat, d: nat, start: nat, m: nat)
  {
    && 1 <= d <= ip && ip <= start <= m < |x| && m <= Furthest(x, start)
    && (forall j :: ip <= j < m ==> x[j] == x[j - d])
    && (m == Furthest(x, start) || x[m] != x[m - d])
  }

  lemma {:induction false} ScanEnds(x: seq<byte>, ref: nat, ip: nat, limit: nat)
    requires ref < ip < limit <= |x|
    ensures (var (m, d) := (Scan(x, ref, ip, limit) - 1, ip - ref);
             && ip <= m < limit
             && (forall j :: ip <= j < m ==> x[j] == x[j - d]) && (m == limit - 1 || x[m] != x[m - d]))
    decreases limit - ip
  {
    if x[ref] == x[ip] && ip + 1 < limit { ScanEnds(x, ref + 1, ip + 1, limit); }
  }

  lemma MatchEnds(x: seq<byte>, ip: nat, c: Candidate)
    requires 1 <= c.distance <= ip && 3 <= c.len && ip + c.len + 8 <= |x|
    requires forall j :: ip <= j < ip + c.len ==> x[j] == x[j - c.distance]
    ensures EndsAt(x, ip, c.distance, ip + c.len, MatchEnd(x, ip, c) - 1)
  {
    hide Scan;
    var start := ip + c.len;
    ScanEnds(x, start - c.distance, start, ScanLimit(x, start));
  }

  // ------------------------------------------------------------------ what is found

  predicate SameBytes(x: seq<byte>, ref: nat, ip: nat, k: nat)
    requires ref <= ip && ip + k <= |x|
  {
    x[ref..ref + k] == x[ip..ip + k]
  }

  /** A step of level 1. If the position that the table has for the bytes at hand is less than 8192 back and has the
      same three bytes, a match is written, and a literal if not. */
  lemma StepLevel1(x: seq<byte>, st: State)
    requires Ok(x, st) && st.ip + 12 < |x|
    ensures (var (ip, r) := (st.ip, Step(Level1, x, st));
             var ref := st.htab[HashAt(x, ip)];
             var htab := st.htab[HashAt(x, ip) := ip];
             if ip - ref < 8192 && SameBytes(x, ref, ip, 3) then
               && EndsAt(x, ip, ip - ref, ip + 3, r.ip)
               && r.copy == 0 && r.out == CloseRun(st.out, st.copy) + SplitBytes(ip - ref, r.ip - ip) + [31]
               && r.htab == htab[HashAt(x, r.ip - 2) := r.ip - 2][HashAt(x, r.ip - 1) := r.ip - 1]
             else
               && r.ip == ip + 1 && r.htab == htab && (r.copy, r.out) == PushLiteral(st.out, st.copy, x[ip]))
  {
    hide HashAt, MatchEnd, SplitBytes, CloseRun, PushLiteral, Furthest;
    var (ip, ref) := (st.ip, st.htab[HashAt(x, st.ip)]);
    SameThree(x, ref, ip);
    var found := Search(Level1, x, st.htab, ip);
    if found.Some? {
      CandidateEncodable(Level1, x, st.htab, ip);
      MatchEnds(x, ip, found.value);
    }
  }

  lemma SameThree(x: seq<byte>, ref: nat, ip: nat)
    requires ref < ip && ip + 12 < |x|
    ensures SameBytes(x, ref, ip, 3) <==> x[ref] == x[ip] && x[ref + 1] == x[ip + 1] && x[ref + 2] == x[ip + 2]
    ensures SameBytes(x, ref, ip, 5) <==>
      SameBytes(x, ref, ip, 3) && x[ref + 3] == x[ip + 3] && x[ref + 4] == x[ip + 4]
  {
    assert x[ref..ref + 3] == [x[ref], x[ref + 1], x[ref + 2]] && x[ip..ip + 3] == [x[ip], x[ip + 1], x[ip + 2]];
    Five(x, ref);
    Five(x, ip);
  }

  lemma Five(x: seq<byte>, i: nat)
    requires i + 5 <= |x|
    ensures x[i..i + 5] == [x[i], x[i + 1], x[i + 2], x[i + 3], x[i + 4]]
  {
  }

  /** What level 2 finds: a run of the byte in front, or what the table has, which must be the same in three bytes up to
      8190 back and in five from 8191 to 73724. */
  function Found2(x: seq<byte>, htab: seq<nat>, ip: nat): Option<Candidate>
    requires |htab| == HASH_SIZE && 1 <= ip && ip + 12 < |x|
    requires forall h :: 0 <= h < |htab| ==> htab[h] < ip
  {
    var ref := htab[HashAt(x, ip)];
    if SameBytes(x, ip - 1, ip, 3) then Some(Candidate(1, 3))
    else if ip - ref < 8191 && SameBytes(x, ref, ip, 3) then Some(Candidate(ip - ref, 3))
    else if 8191 <= ip - ref < 73725 && SameBytes(x, ref, ip, 5) then Some(Candidate(ip - ref, 5))
    else None
  }

  /** A step of level 2. A run leaves the table alone until its end. */
  lemma StepLevel2(x: seq<byte>, st: State)
    requires Ok(x, st) && st.ip + 12 < |x|
    ensures (var (ip, r) := (st.ip, Step(Level2, x, st));
             var htab := if SameBytes(x, ip - 1, ip, 3) then st.htab else st.htab[HashAt(x, ip) := ip];
             match Found2(x, st.htab, ip)
             case Some(c) =>
               && EndsAt(x, ip, c.distance, ip + c.len, r.ip) && Encodable(Level2, c.distance, r.ip - ip)
               && r.copy == 0 && r.out == CloseRun(st.out, st.copy) + MatchBytes2(c.distance, r.ip - ip) + [31]
               && r.htab == htab[HashAt(x, r.ip - 2) := r.ip - 2][HashAt(x, r.ip - 1) := r.ip - 1]
             case None =>
               && r.ip == ip + 1 && r.htab == htab && (r.copy, r.out) == PushLiteral(st.out, st.copy, x[ip]))
  {
    hide HashAt, MatchEnd, MatchBytes2, CloseRun, PushLiteral, Furthest, SameBytes;
    var (ip, ref) := (st.ip, st.htab[HashAt(x, st.ip)]);
    SameThree(x, ref, ip);
    SameThree(x, ip - 1, ip);
    var found := Search(Level2, x, st.htab, ip);
    assert found == Found2(x, st.htab, ip);
    if found.Some? {
      CandidateEncodable(Level2, x, st.htab, ip);
      MatchEnds(x, ip, found.value);
    }
  }

  // ------------------------------------------------------------------ runs are short

  function Same(b: byte, n: nat): (x: seq<byte>)
    ensures |x| == n && forall i :: 0 <= i < n ==> x[i] == b
  {
    seq(n, _ => b)
  }

  lemma TailGoes(x: seq<byte>, ip: nat, copy: nat, out: seq<byte>)
    requires ip < |x| && copy + 1 < MAX_COPY && copy < |out|
    ensures Tail(x, ip, copy, out) == Tail(x, ip + 1, copy + 1, out + [x[ip]])
  {
    hide CloseRun;
  }

  /** Three literals with their count. */
  function Three(count: byte, a: byte, b: byte, c: byte): seq<byte>
  {
    [count, a, b, c]
  }

  lemma TailEnds(x: seq<byte>, front: seq<byte>, a: byte, b: byte, c: byte)
    ensures Tail(x, |x|, 3, front + Three(31, a, b, c)) == front + Three(2, a, b, c)
  {
    var all := front + Three(31, a, b, c);
    assert all[|all| - 4 := 2] == front + Three(31, a, b, c)[0 := 2];
    assert Three(31, a, b, c)[0 := 2] == Three(2, a, b, c);
  }

  lemma Pushed(front: seq<byte>, a: byte, b: byte, c: byte)
    ensures front + [31] + [a] + [b] + [c] == front + Three(31, a, b, c)
  {
  }

  /** The three bytes left over behind a match. */
  lemma TailOfThree(x: seq<byte>, front: seq<byte>, ip: nat)
    requires ip + 3 == |x|
    ensures Tail(x, ip, 0, front + [31]) == front + Three(2, x[ip], x[ip + 1], x[ip + 2])
  {
    hide Tail, Three;
    Pushed(front, x[ip], x[ip + 1], x[ip + 2]);
    var out := front + [31];
    TailOfTwo(x, out + [x[ip]], ip + 1);
    TailGoes(x, ip, 0, out);
    TailEnds(x, front, x[ip], x[ip + 1], x[ip + 2]);
  }

  lemma TailOfTwo(x: seq<byte>, out: seq<byte>, ip: nat)
    requires ip + 2 == |x| && |out| >= 2
    ensures Tail(x, ip, 1, out) == Tail(x, ip + 2, 3, out + [x[ip]] + [x[ip + 1]])
  {
    hide Tail;
    TailGoes(x, ip, 1, out);
    TailGoes(x, ip + 1, 2, out + [x[ip]]);
  }

  /** Equal bytes at level 1: two literals, a match 2 back, three literals. */
  lemma RunAtLevel1(b: byte, n: nat)
    requires n >= 15
    ensures Compress(Level1, Same(b, n)) == [1, b, b] + SplitBytes(2, n - 5) + [2, b, b, b]
  {
    hide Step, SplitBytes, Tail, Run, HashAt;
    var x := Same(b, n);
    var st := Init(x);
    assert CloseRun(st.out, 2) == [1, b, b];
    StepLevel1(x, st);
    var r := Step(Level1, x, st);
    OneStep(Level1, x);
    assert r.out == [1, b, b] + SplitBytes(2, n - 5) + [31];
    TailOfThree(x, [1, b, b] + SplitBytes(2, n - 5), n - 3);
  }

  /** A block that one step brings to its last three bytes. */
  lemma OneStep(level: Level, x: seq<byte>)
    requires |x| >= 15 && Step(level, x, Init(x)).ip == |x| - 3 && Step(level, x, Init(x)).copy == 0
    ensures Step(level, x, Init(x)).out != []
    ensures Run(level, x, Init(x)) == Tail(x, |x| - 3, 0, Step(level, x, Init(x)).out)
  {
    hide Step, Tail;
    var r := Step(level, x, Init(x));
    assert Run(level, x, Init(x)) == Run(level, x, r);
  }

  /** And at level 2: the match is 1 back. */
  lemma RunAtLevel2(b: byte, n: nat)
    requires n >= 15
    ensures Compress(Level2, Same(b, n)) == [33, b, b] + MatchBytes2(1, n - 5) + [2, b, b, b]
  {
    hide Step, MatchBytes2, Tail, Run, HashAt;
    var x := Same(b, n);
    var st := Init(x);
    assert CloseRun(st.out, 2) == [1, b, b];
    StepLevel2(x, st);
    var r := Step(Level2, x, st);
    OneStep(Level2, x);
    assert r.out == [1, b, b] + MatchBytes2(1, n - 5) + [31];
    TailOfThree(x, [1, b, b] + MatchBytes2(1, n - 5), n - 3);
    var match2 := MatchBytes2(1, n - 5);
    assert ([1, b, b] + match2 + [2, b, b, b])[0 := 33] == [33, b, b] + match2 + [2, b, b, b];
  }

  lemma {:induction false} SplitSize(d: nat, n: nat)
    requires 1 <= d <= 8192 && n >= 3
    ensures |SplitBytes(d, n)| == 3 * ((n - 3) / 262) + if (n - 3) % 262 < 6 then 2 else 3
    decreases n
  {
    if n - 2 > 262 { SplitSize(d, n - 262); }
  }

  /** So equal bytes take three bytes for each 262, at most ten more, or with level 2 one for each 255. */
  lemma RunsAreShort(b: byte, n: nat)
    requires n >= 15
    ensures |CompressBytes(Same(b, n))|
         == if n < 65536 then 7 + 3 * ((n - 8) / 262) + (if (n - 8) % 262 < 6 then 2 else 3) else 10 + (n - 14) / 255
    ensures n < 65536 ==> |CompressBytes(Same(b, n))| <= 10 + 3 * (n / 262)
  {
    hide Compress, SplitBytes;
    if n < 65536 {
      RunAtLevel1(b, n);
      SplitSize(2, n - 5);
    } else {
      RunAtLevel2(b, n);
    }
  }

  // ------------------------------------------------------------------ what tokens mean

  /** A literal token: its first byte is one less than how many follow. */
  lemma LiteralMeans(level: Level, m: seq<byte>, n: nat, maxout: nat, ip: nat, ctrl: byte, out: seq<byte>)
    requires n <= |m| && ctrl < 32
    ensures Pass(level, m, n, maxout, ip, ctrl, out)
         == if |out| + ctrl + 1 > maxout || ip + ctrl + 1 > n then Stop(Corrupt)
            else Go(ip + ctrl + 1, out + m[ip..ip + ctrl + 1])
  {
  }

  /** A match of `len` bytes from `d` back: an error if it does not fit or reaches too far back. */
  function MatchTo(next: nat, d: nat, len: nat, maxout: nat, out: seq<byte>): PassResult
    requires d >= 1
  {
    if |out| + len > maxout || d > |out| then Stop(Corrupt) else Go(next, CopyBack(out, d, len))
  }

  /** A match token of level 1: the length in three bits or, if they are all set, in a byte, and 13 bits of distance. */
  lemma MatchMeans1(m: seq<byte>, n: nat, maxout: nat, ip: nat, ctrl: byte, out: seq<byte>)
    requires n <= |m| && ctrl >= 32
    ensures 32 <= ctrl < 224 && ip < |m| ==>
      Pass(Level1, m, n, maxout, ip, ctrl, out)
      == MatchTo(ip + 1, ctrl % 32 * 256 + m[ip] + 1, ctrl / 32 + 2, maxout, out)
    ensures ctrl >= 224 && ip + 1 < |m| ==>
      Pass(Level1, m, n, maxout, ip, ctrl, out)
      == MatchTo(ip + 2, ctrl % 32 * 256 + m[ip + 1] + 1, 9 + m[ip] as nat, maxout, out)
  {
  }

  /** The distance of a level 2 token at `at`: 13 bits, or 16 behind the bits that are all set. */
  function Distance2(m: seq<byte>, at: nat, ctrl: byte): (r: (nat, nat))
    requires at + 2 < |m|
  {
    if ctrl % 32 == 31 && m[at] == 255 then (m[at + 1] as nat * 256 + m[at + 2] + 8192, at + 3)
    else (ctrl % 32 * 256 + m[at] + 1, at + 1)
  }

  lemma {:induction false} ChainMeans(m: seq<byte>, at: nat, k: nat)
    requires at + k < |m| && m[at + k] != 255 && forall i :: at <= i < at + k ==> m[i] == 255
    ensures ReadChain(m, at) == Some((255 * k + m[at + k], at + k + 1))
    decreases k
  {
    if k > 0 { ChainMeans(m, at + 1, k - 1); }
  }

  /** A match token of level 2: a length that the three bits do not hold goes on in bytes, as long as they are 255. */
  lemma MatchMeans2(m: seq<byte>, n: nat, maxout: nat, ip: nat, ctrl: byte, k: nat, out: seq<byte>)
    requires n <= |m| && ctrl >= 32
    ensures ctrl < 224 && ip + 2 < |m| ==>
      (var (d, next) := Distance2(m, ip, ctrl);
       Pass(Level2, m, n, maxout, ip, ctrl, out) == MatchTo(next, d, ctrl / 32 + 2, maxout, out))
    ensures ctrl >= 224 && ip + k + 3 < |m| && m[ip + k] != 255 && (forall i :: ip <= i < ip + k ==> m[i] == 255) ==>
      (var (d, next) := Distance2(m, ip + k + 1, ctrl);
       Pass(Level2, m, n, maxout, ip, ctrl, out) == MatchTo(next, d, 255 * k + m[ip + k] + 9, maxout, out))
  {
    hide ReadChain;
    if ip + k + 3 < |m| && m[ip + k] != 255 && forall i :: ip <= i < ip + k ==> m[i] == 255 { ChainMeans(m, ip, k); }
  }
}
