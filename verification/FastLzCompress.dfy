/** The FastLZ compressor as a function of its input: one state per pass of its main loop. */
module FastLzCompress {
  import opened Bytes
  import opened FastLzFormat
  import opened FastLzHash

  const HEADER: byte := 31

  /** The compressor's variables: the hash table, the read cursor, the literals pending and what is written. */
  datatype State = State(htab: seq<nat>, ip: nat, copy: nat, out: seq<byte>)

  /** The hash at `i`. Past the end of the input, where the last hash of a block may look, the byte is taken as 0. */
  function HashAt(x: seq<byte>, i: nat): (h: nat)
    requires i + 1 < |x|
    ensures h < HASH_SIZE
  {
    Hash(x[i], x[i + 1], if i + 2 < |x| then x[i + 2] else 0)
  }

  ghost predicate Ok(x: seq<byte>, st: State)
  {
    && |st.htab| == HASH_SIZE
    && 2 <= st.ip <= |x|
    && (forall h :: 0 <= h < |st.htab| ==> st.htab[h] < st.ip)
    && st.copy < MAX_COPY && st.copy < |st.out| && st.copy <= st.ip
  }

  predicate IsRun(x: seq<byte>, ip: nat)
    requires 1 <= ip && ip + 2 < |x|
  {
    x[ip] == x[ip - 1] && x[ip - 1] == x[ip + 1] && x[ip] == x[ip + 2]
  }

  function FarLimit(level: Level): nat
  {
    match level
    case Level1 => 8192
    case Level2 => 65535 + MAX_DISTANCE2 - 1
  }

  datatype Candidate = Candidate(distance: nat, len: nat)

  /** Checks the position the hash table gave: three equal bytes, or five when it is far away. */
  function Check(level: Level, x: seq<byte>, ref: nat, ip: nat): (r: Option<Candidate>)
    requires ref <= ip && ip + 12 < |x|
  {
    var distance := ip - ref;
    if distance == 0 || distance >= FarLimit(level) then None
    else if x[ref] != x[ip] || x[ref + 1] != x[ip + 1] || x[ref + 2] != x[ip + 2] then None
    else if level == Level2 && distance >= MAX_DISTANCE2 then
      if x[ref + 3] != x[ip + 3] || x[ref + 4] != x[ip + 4] then None
      else Some(Candidate(distance, 5))
    else Some(Candidate(distance, 3))
  }

  predicate TakesRun(level: Level, x: seq<byte>, ip: nat)
    requires 1 <= ip && ip + 12 < |x|
  {
    level == Level2 && IsRun(x, ip)
  }

  function Search(level: Level, x: seq<byte>, htab: seq<nat>, ip: nat): (r: Option<Candidate>)
    requires |htab| == HASH_SIZE && 1 <= ip && ip + 12 < |x|
    requires forall h :: 0 <= h < |htab| ==> htab[h] < ip
  {
    if TakesRun(level, x, ip) then Some(Candidate(1, 3))
    else Check(level, x, htab[HashAt(x, ip)], ip)
  }

  function TableAfter(level: Level, x: seq<byte>, htab: seq<nat>, ip: nat): (r: seq<nat>)
    requires |htab| == HASH_SIZE && 1 <= ip && ip + 12 < |x|
  {
    if TakesRun(level, x, ip) then htab else htab[HashAt(x, ip) := ip]
  }

  /** Where comparing stops: one past the first difference, or at `limit`. */
  function Scan(x: seq<byte>, ref: nat, ip: nat, limit: nat): (e: nat)
    requires ref < ip <= limit <= |x|
    ensures ip <= e <= limit && (ip < limit ==> ip < e)
    ensures forall j :: ip <= j < e - 1 ==> x[j] == x[j - (ip - ref)]
    decreases limit - ip
  {
    if ip == limit then ip
    else if x[ref] != x[ip] then ip + 1
    else Scan(x, ref + 1, ip + 1, limit)
  }

  /** The first eight comparisons do not look at the bound. */
  function ScanLimit(x: seq<byte>, start: nat): (limit: nat)
    requires start + 8 <= |x|
    ensures start < limit <= |x|
  {
    if start + 8 > |x| - 2 then start + 8 else |x| - 2
  }

  function MatchEnd(x: seq<byte>, ip: nat, c: Candidate): (e: nat)
    requires 1 <= c.distance <= ip && 3 <= c.len && ip + c.len + 8 <= |x|
    ensures ip + c.len < e <= |x|
  {
    Scan(x, ip + c.len - c.distance, ip + c.len, ScanLimit(x, ip + c.len))
  }

  /** Level 1 cuts a long match into matches of 262 bytes. */
  function SplitBytes(d: nat, n: nat): seq<byte>
    requires 1 <= d <= 8192 && n >= 3
  {
    if n - 2 > MAX_LEN - 2 then MatchBytes1(d, MAX_LEN - 2) + SplitBytes(d, n - (MAX_LEN - 2))
    else MatchBytes1(d, n)
  }

  predicate Encodable(level: Level, d: nat, n: nat)
  {
    && n >= 3
    && match level
       case Level1 => 1 <= d < 8192
       case Level2 => 1 <= d < 65535 + MAX_DISTANCE2 - 1 && (d > MAX_DISTANCE2 ==> n >= 5)
  }

  function MatchBytes(level: Level, d: nat, n: nat): seq<byte>
    requires Encodable(level, d, n)
  {
    match level
    case Level1 => SplitBytes(d, n)
    case Level2 => MatchBytes2(d, n)
  }

  /** Writes the literal count back into the byte kept for it, or gives that byte up. */
  function CloseRun(out: seq<byte>, copy: nat): seq<byte>
    requires copy < |out| && copy <= MAX_COPY
  {
    if copy > 0 then out[|out| - copy - 1 := copy - 1] else out[..|out| - 1]
  }

  /** One literal byte; a full run of literals opens the next one. */
  function PushLiteral(out: seq<byte>, copy: nat, b: byte): (r: (nat, seq<byte>))
  {
    if copy + 1 == MAX_COPY then (0, out + [b] + [HEADER]) else (copy + 1, out + [b])
  }

  function MatchStep(level: Level, x: seq<byte>, st: State, htab: seq<nat>, c: Candidate, e: nat): State
    requires Ok(x, st) && |htab| == HASH_SIZE && st.ip + 3 < e <= |x| && Encodable(level, c.distance, e - 1 - st.ip)
  {
    var out := CloseRun(st.out, st.copy) + MatchBytes(level, c.distance, e - 1 - st.ip) + [HEADER];
    State(htab[HashAt(x, e - 3) := e - 3][HashAt(x, e - 2) := e - 2], e - 1, 0, out)
  }

  lemma CandidateEncodable(level: Level, x: seq<byte>, htab: seq<nat>, ip: nat)
    requires |htab| == HASH_SIZE && 1 <= ip && ip + 12 < |x|
    requires forall h :: 0 <= h < |htab| ==> htab[h] < ip
    requires Search(level, x, htab, ip).Some?
    ensures var c := Search(level, x, htab, ip).value;
      && 1 <= c.distance <= ip && 3 <= c.len <= 5 && ip + c.len + 8 <= |x|
      && forall n :: n >= c.len ==> Encodable(level, c.distance, n)
    ensures var c := Search(level, x, htab, ip).value;
      forall j :: ip <= j < ip + c.len ==> x[j] == x[j - c.distance]
  {
    hide Hash;
  }

  /** One pass of the main loop. */
  function Step(level: Level, x: seq<byte>, st: State): (r: State)
    requires Ok(x, st) && st.ip + 12 < |x|
    ensures Ok(x, r) && st.ip < r.ip
  {
    hide Hash, Check;
    var htab := TableAfter(level, x, st.htab, st.ip);
    match Search(level, x, st.htab, st.ip)
    case None =>
      var (copy, out) := PushLiteral(st.out, st.copy, x[st.ip]);
      State(htab, st.ip + 1, copy, out)
    case Some(c) =>
      CandidateEncodable(level, x, st.htab, st.ip);
      MatchStep(level, x, st, htab, c, MatchEnd(x, st.ip, c))
  }

  /** What is left over goes out as literals. */
  function Tail(x: seq<byte>, ip: nat, copy: nat, out: seq<byte>): seq<byte>
    requires ip <= |x| && copy < MAX_COPY && copy < |out|
    decreases |x| - ip
  {
    if ip < |x| then
      var (copy', out') := PushLiteral(out, copy, x[ip]);
      Tail(x, ip + 1, copy', out')
    else CloseRun(out, copy)
  }

  function Run(level: Level, x: seq<byte>, st: State): seq<byte>
    requires Ok(x, st)
    decreases |x| - st.ip
  {
    if st.ip + 12 < |x| then Run(level, x, Step(level, x, st)) else Tail(x, st.ip, st.copy, st.out)
  }

  function Init(x: seq<byte>): (st: State)
    requires |x| >= 4
    ensures Ok(x, st)
  {
    State(seq(HASH_SIZE, _ => 0), 2, 2, [HEADER, x[0], x[1]])
  }

  /** Sets the bit that tells level 2 from level 1. */
  function Mark(level: Level, s: seq<byte>): (r: seq<byte>)
    ensures |r| == |s|
  {
    if level == Level2 && s != [] && s[0] / 32 % 2 == 0 then s[0 := s[0] + 32] else s
  }

  function Compress(level: Level, x: seq<byte>): seq<byte>
  {
    if |x| == 0 then []
    else if |x| < 4 then [|x| - 1] + x
    else Mark(level, Run(level, x, Init(x)))
  }
}
