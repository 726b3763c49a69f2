/** How FastLZ writes tokens as bytes, at both levels, and the decoder as a function of the bytes. */
module FastLzFormat {
  import opened Bytes
  import opened Lz77

  datatype Level = Level1 | Level2

  const MAX_COPY := 32
  const MAX_LEN := 264

  /** The distance, already reduced by one, from which level 2 uses its 16-bit escape. */
  const MAX_DISTANCE2 := 8191

  // ------------------------------------------------------------------ writing

  predicate TokenOk(level: Level, t: Token)
  {
    match t
    case Literal(bytes) => 1 <= |bytes| <= MAX_COPY
    case Match(d, n) =>
      d >= 1 && n >= 3 &&
      match level
      case Level1 => d <= 8192 && n <= MAX_LEN
      case Level2 => d - 1 < MAX_DISTANCE2 + 65536
  }

  /** A length continued in bytes of 255. */
  function LengthChain(k: nat): (r: seq<byte>)
    ensures |r| == 1 + k / 255
  {
    if k >= 255 then [255] + LengthChain(k - 255) else [k]
  }

  function MatchBytes1(d: nat, n: nat): (r: seq<byte>)
    requires TokenOk(Level1, Match(d, n))
  {
    var (dist, len) := (d - 1, n - 2);
    if len < 7 then [len * 32 + dist / 256, dist % 256]
    else [224 + dist / 256, len - 7, dist % 256]
  }

  function MatchBytes2(d: nat, n: nat): (r: seq<byte>)
    requires TokenOk(Level2, Match(d, n))
  {
    var (dist, len) := (d - 1, n - 2);
    if dist < MAX_DISTANCE2 then
      if len < 7 then [len * 32 + dist / 256, dist % 256]
      else [224 + dist / 256] + LengthChain(len - 7) + [dist % 256]
    else
      var far := dist - MAX_DISTANCE2;
      if len < 7 then [len * 32 + 31, 255, far / 256, far % 256]
      else [255] + LengthChain(len - 7) + [255, far / 256, far % 256]
  }

  function TokenBytes(level: Level, t: Token): (r: seq<byte>)
    requires TokenOk(level, t)
    ensures |r| >= 2
  {
    match t
    case Literal(bytes) => [|bytes| - 1] + bytes
    case Match(d, n) =>
      match level
      case Level1 => MatchBytes1(d, n)
      case Level2 => MatchBytes2(d, n)
  }

  /** A match never takes as many bytes as it stands for. */
  lemma MatchSaves(level: Level, d: nat, n: nat)
    requires TokenOk(level, Match(d, n))
    requires level == Level2 && d > MAX_DISTANCE2 ==> n >= 5
    ensures |TokenBytes(level, Match(d, n))| <= n - 1
  {
  }

  ghost predicate AllOk(level: Level, ts: seq<Token>)
  {
    forall i :: 0 <= i < |ts| ==> TokenOk(level, ts[i])
  }

  function Serialize(level: Level, ts: seq<Token>): seq<byte>
    requires forall i :: 0 <= i < |ts| ==> TokenOk(level, ts[i])
  {
    if ts == [] then [] else Serialize(level, ts[..|ts| - 1]) + TokenBytes(level, ts[|ts| - 1])
  }

  lemma SerializeSnoc(level: Level, ts: seq<Token>, t: Token)
    requires AllOk(level, ts) && TokenOk(level, t)
    ensures AllOk(level, ts + [t])
    ensures Serialize(level, ts + [t]) == Serialize(level, ts) + TokenBytes(level, t)
  {
    assert (ts + [t])[..|ts|] == ts;
  }

  lemma {:induction false} SerializePrefix(level: Level, ts: seq<Token>, k: nat)
    requires AllOk(level, ts) && k <= |ts|
    ensures Serialize(level, ts[..k]) <= Serialize(level, ts)
    decreases |ts|
  {
    if k < |ts| {
      SerializePrefix(level, ts[..|ts| - 1], k);
      assert ts[..|ts| - 1][..k] == ts[..k];
    } else {
      assert ts[..k] == ts;
    }
  }

  /** Every match reaches only into text already produced. */
  ghost predicate WellFormed(level: Level, ts: seq<Token>)
  {
    && AllOk(level, ts)
    && (forall i :: 0 <= i < |ts| && ts[i].Match? ==> ts[i].distance <= |Expand(ts[..i])|)
    && (ts != [] ==> ts[0].Literal?)
  }

  lemma WellFormedSnoc(level: Level, ts: seq<Token>, t: Token)
    requires WellFormed(level, ts) && TokenOk(level, t)
    requires ts == [] ==> t.Literal?
    requires t.Match? ==> t.distance <= |Expand(ts)|
    ensures WellFormed(level, ts + [t])
    ensures Serialize(level, ts + [t]) == Serialize(level, ts) + TokenBytes(level, t)
    ensures Expand(ts + [t]) == Apply(Expand(ts), t)
  {
    SerializeSnoc(level, ts, t);
    ExpandSnoc(ts, t);
    var us := ts + [t];
    forall i | 0 <= i < |us| && us[i].Match?
      ensures us[i].distance <= |Expand(us[..i])|
    {
      assert us[..i] == ts[..i];
      if i == |ts| { assert ts[..i] == ts; }
    }
  }

  // ------------------------------------------------------------------ reading

  /** What decoding comes to: it needed memory past `m`, it returned 0, or it produced `out`. */
  datatype Outcome = Overrun | Corrupt | Done(out: seq<byte>)

  datatype MatchHead = MatchHead(len: nat, back: nat, next: nat)

  /** Sums bytes up to and including the first one that is not 255. */
  function ReadChain(m: seq<byte>, at: nat): (r: Option<(nat, nat)>)
    ensures r.Some? ==> at < r.value.1 <= |m|
    decreases |m| - at
  {
    if at >= |m| then None
    else if m[at] != 255 then Some((m[at], at + 1))
    else
      match ReadChain(m, at + 1)
      case None => None
      case Some((k, next)) => Some((255 + k, next))
  }

  function ReadMatch1(m: seq<byte>, ip: nat, ctrl: byte): (r: Option<MatchHead>)
    requires ctrl >= 32
    ensures r.Some? ==> ip < r.value.next <= |m|
  {
    var len := ctrl / 32 - 1;
    var ofs := ctrl % 32 * 256;
    if len == 6 then
      if ip + 1 < |m| then Some(MatchHead(len + m[ip], ofs + m[ip + 1], ip + 2)) else None
    else
      if ip < |m| then Some(MatchHead(len, ofs + m[ip], ip + 1)) else None
  }

  function ReadBack2(m: seq<byte>, ip: nat, ctrl: byte, len: nat): (r: Option<MatchHead>)
    ensures r.Some? ==> ip < r.value.next <= |m|
  {
    var ofs := ctrl % 32 * 256;
    if ip >= |m| then None
    else if m[ip] == 255 && ofs == 31 * 256 then
      if ip + 2 < |m| then
        Some(MatchHead(len, m[ip + 1] * 256 + m[ip + 2] + MAX_DISTANCE2, ip + 3))
      else None
    else Some(MatchHead(len, ofs + m[ip], ip + 1))
  }

  function ReadMatch2(m: seq<byte>, ip: nat, ctrl: byte): (r: Option<MatchHead>)
    requires ctrl >= 32
    ensures r.Some? ==> ip < r.value.next <= |m|
  {
    var len := ctrl / 32 - 1;
    if len == 6 then
      match ReadChain(m, ip)
      case None => None
      case Some((k, next)) => ReadBack2(m, next, ctrl, len + k)
    else
      ReadBack2(m, ip, ctrl, len)
  }

  function ReadMatch(level: Level, m: seq<byte>, ip: nat, ctrl: byte): (r: Option<MatchHead>)
    requires ctrl >= 32
    ensures r.Some? ==> ip < r.value.next <= |m|
  {
    match level
    case Level1 => ReadMatch1(m, ip, ctrl)
    case Level2 => ReadMatch2(m, ip, ctrl)
  }

  /** What one pass of the decoder loop does: leave with an outcome, or go on behind `next` with `out`. */
  datatype PassResult = Stop(outcome: Outcome) | Go(next: nat, out: seq<byte>)

  function MatchPass(h: MatchHead, maxout: nat, out: seq<byte>): (r: PassResult)
  {
    if |out| + h.len + 3 > maxout || h.back + 1 > |out| then Stop(Corrupt)
    else Go(h.next, CopyBack(out, h.back + 1, h.len + 3))
  }

  function LiteralPass(m: seq<byte>, n: nat, maxout: nat, ip: nat, count: nat, out: seq<byte>): (r: PassResult)
    requires n <= |m|
  {
    if |out| + count > maxout || ip + count > n then Stop(Corrupt)
    else Go(ip + count, out + m[ip..ip + count])
  }

  function Pass(level: Level, m: seq<byte>, n: nat, maxout: nat, ip: nat, ctrl: byte, out: seq<byte>): (r: PassResult)
    requires n <= |m|
    ensures r.Go? ==> ip < r.next <= |m| && |out| < |r.out| <= maxout
    ensures r.Stop? ==> !r.outcome.Done?
  {
    if ctrl >= 32 then
      match ReadMatch(level, m, ip, ctrl)
      case None => Stop(Overrun)
      case Some(h) => MatchPass(h, maxout, out)
    else LiteralPass(m, n, maxout, ip, ctrl + 1, out)
  }

  /** The decoder loop from a control byte just read; `n` bytes of `m` are the block. */
  function DecodeFrom(level: Level, m: seq<byte>, n: nat, maxout: nat, ip: nat,
                      ctrl: byte, out: seq<byte>): (r: Outcome)
    requires n <= |m|
    ensures r.Done? ==> |out| < |r.out| <= maxout
    decreases n - ip
  {
    match Pass(level, m, n, maxout, ip, ctrl, out)
    case Stop(outcome) => outcome
    case Go(next, out') =>
      if next < n then DecodeFrom(level, m, n, maxout, next + 1, m[next], out') else Done(out')
  }

  function Decode(level: Level, m: seq<byte>, n: nat, maxout: nat): (r: Outcome)
    requires n <= |m|
    ensures r.Done? ==> 0 < |r.out| <= maxout
  {
    if |m| == 0 then Overrun else DecodeFrom(level, m, n, maxout, 1, m[0] % 32, [])
  }
}
