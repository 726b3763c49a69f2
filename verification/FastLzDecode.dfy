/** What the decoder makes of a token list's bytes, and what it may read of any other bytes. */
module FastLzDecode {
  import opened Bytes
  import opened Lz77
  import opened FastLzFormat

  // ------------------------------------------------- reading back what was written

  ghost predicate Holds(m: seq<byte>, at: nat, s: seq<byte>)
  {
    at + |s| <= |m| && m[at..at + |s|] == s
  }

  lemma HoldsAt(m: seq<byte>, at: nat, s: seq<byte>, i: nat)
    requires Holds(m, at, s) && i < |s|
    ensures m[at + i] == s[i]
  {
    assert m[at..at + |s|][i] == s[i];
  }

  lemma HoldsPart(m: seq<byte>, at: nat, a: seq<byte>, b: seq<byte>)
    requires Holds(m, at, a + b)
    ensures Holds(m, at, a) && Holds(m, at + |a|, b)
  {
    var s := a + b;
    assert m[at..at + |a|] == m[at..at + |s|][..|a|] == a;
    assert m[at + |a|..at + |s|] == m[at..at + |s|][|a|..] == b;
  }

  lemma {:induction false} ReadChainInverts(m: seq<byte>, at: nat, k: nat)
    requires Holds(m, at, LengthChain(k))
    ensures ReadChain(m, at) == Some((k, at + |LengthChain(k)|))
    decreases k
  {
    HoldsAt(m, at, LengthChain(k), 0);
    if k >= 255 {
      HoldsPart(m, at, [255], LengthChain(k - 255));
      ReadChainInverts(m, at + 1, k - 255);
    }
  }

  lemma ReadMatch1Inverts(m: seq<byte>, at: nat, d: nat, n: nat)
    requires TokenOk(Level1, Match(d, n)) && Holds(m, at, MatchBytes1(d, n))
    ensures m[at] >= 32
    ensures ReadMatch1(m, at + 1, m[at]) == Some(MatchHead(n - 3, d - 1, at + |MatchBytes1(d, n)|))
  {
    var s := MatchBytes1(d, n);
    HoldsAt(m, at, s, 0);
    HoldsAt(m, at, s, 1);
    if |s| == 3 { HoldsAt(m, at, s, 2); }
  }

  lemma ReadBackNearInverts(m: seq<byte>, at: nat, ctrl: byte, len: nat, dist: nat)
    requires dist < MAX_DISTANCE2 && ctrl % 32 == dist / 256 && Holds(m, at, [dist % 256])
    ensures ReadBack2(m, at, ctrl, len) == Some(MatchHead(len, dist, at + 1))
  {
    HoldsAt(m, at, [dist % 256], 0);
    // the largest near distance leaves 254 under a high part of 31, so it is never taken for the escape
    assert dist / 256 == 31 ==> dist % 256 <= 254;
  }

  lemma ReadBackFarInverts(m: seq<byte>, at: nat, ctrl: byte, len: nat, far: nat)
    requires far < 65536 && ctrl % 32 == 31 && Holds(m, at, [255, far / 256, far % 256])
    ensures ReadBack2(m, at, ctrl, len) == Some(MatchHead(len, far + MAX_DISTANCE2, at + 3))
  {
    var s := [255, far / 256, far % 256];
    HoldsAt(m, at, s, 0);
    HoldsAt(m, at, s, 1);
    HoldsAt(m, at, s, 2);
  }

  /** A level 2 head is followed by its length chain, if the length does not fit, and the distance bytes. */
  lemma ReadHead2Inverts(m: seq<byte>, at: nat, head: byte, chain: seq<byte>, len: nat, back: seq<byte>)
    requires len >= 1 && head / 32 == if len < 7 then len else 7
    requires chain == if len < 7 then [] else LengthChain(len - 7)
    requires Holds(m, at, [head] + (chain + back))
    ensures m[at] == head && Holds(m, at + 1 + |chain|, back)
    ensures ReadMatch2(m, at + 1, head) == ReadBack2(m, at + 1 + |chain|, head, len - 1)
  {
    hide ReadBack2, LengthChain;
    HoldsPart(m, at, [head], chain + back);
    HoldsAt(m, at, [head], 0);
    HoldsPart(m, at + 1, chain, back);
    if len >= 7 { ReadChainInverts(m, at + 1, len - 7); }
  }

  /** A near token: its head, its chain and its distance byte. */
  lemma NearForm(dist: nat, len: nat)
    requires dist < MAX_DISTANCE2 && len >= 1
    ensures MatchBytes2(dist + 1, len + 2)
         == [(if len < 7 then len * 32 else 224) + dist / 256]
            + ((if len < 7 then [] else LengthChain(len - 7)) + [dist % 256])
  {
    hide LengthChain;
    if len >= 7 { Associate([224 + dist / 256], LengthChain(len - 7), [dist % 256]); }
  }

  lemma FarForm(far: nat, len: nat)
    requires far < 65536 && len >= 1
    ensures MatchBytes2(far + MAX_DISTANCE2 + 1, len + 2)
         == [(if len < 7 then len * 32 else 224) + 31]
            + ((if len < 7 then [] else LengthChain(len - 7)) + [255, far / 256, far % 256])
  {
    hide LengthChain;
    if len >= 7 { Associate([255], LengthChain(len - 7), [255, far / 256, far % 256]); }
  }

  lemma ReadNear2Inverts(m: seq<byte>, at: nat, dist: nat, len: nat)
    requires dist < MAX_DISTANCE2 && len >= 1 && Holds(m, at, MatchBytes2(dist + 1, len + 2))
    ensures m[at] >= 32
    ensures ReadMatch2(m, at + 1, m[at]) == Some(MatchHead(len - 1, dist, at + |MatchBytes2(dist + 1, len + 2)|))
  {
    hide ReadMatch2, ReadBack2, LengthChain, Holds, MatchBytes2;
    var head: byte := (if len < 7 then len * 32 else 224) + dist / 256;
    var chain := if len < 7 then [] else LengthChain(len - 7);
    NearForm(dist, len);
    ReadHead2Inverts(m, at, head, chain, len, [dist % 256]);
    ReadBackNearInverts(m, at + 1 + |chain|, head, len - 1, dist);
  }

  lemma ReadFar2Inverts(m: seq<byte>, at: nat, far: nat, len: nat)
    requires far < 65536 && len >= 1 && Holds(m, at, MatchBytes2(far + MAX_DISTANCE2 + 1, len + 2))
    ensures m[at] >= 32
    ensures ReadMatch2(m, at + 1, m[at])
         == Some(MatchHead(len - 1, far + MAX_DISTANCE2, at + |MatchBytes2(far + MAX_DISTANCE2 + 1, len + 2)|))
  {
    hide ReadMatch2, ReadBack2, LengthChain, Holds, MatchBytes2;
    var head: byte := (if len < 7 then len * 32 else 224) + 31;
    var chain := if len < 7 then [] else LengthChain(len - 7);
    var back := [255, far / 256, far % 256];
    FarForm(far, len);
    ReadHead2Inverts(m, at, head, chain, len, back);
    ReadBackFarInverts(m, at + 1 + |chain|, head, len - 1, far);
  }

  lemma ReadMatch2Inverts(m: seq<byte>, at: nat, d: nat, n: nat)
    requires TokenOk(Level2, Match(d, n)) && Holds(m, at, MatchBytes2(d, n))
    ensures m[at] >= 32
    ensures ReadMatch2(m, at + 1, m[at]) == Some(MatchHead(n - 3, d - 1, at + |MatchBytes2(d, n)|))
  {
    hide ReadMatch2, MatchBytes2, Holds;
    if d - 1 < MAX_DISTANCE2 {
      ReadNear2Inverts(m, at, d - 1, n - 2);
    } else {
      ReadFar2Inverts(m, at, d - 1 - MAX_DISTANCE2, n - 2);
    }
  }

  lemma ReadMatchInverts(level: Level, m: seq<byte>, at: nat, d: nat, n: nat)
    requires TokenOk(level, Match(d, n)) && Holds(m, at, TokenBytes(level, Match(d, n)))
    ensures m[at] >= 32
    ensures ReadMatch(level, m, at + 1, m[at])
         == Some(MatchHead(n - 3, d - 1, at + |TokenBytes(level, Match(d, n))|))
  {
    hide ReadMatch1, ReadMatch2, MatchBytes1, MatchBytes2;
    match level
    case Level1 => ReadMatch1Inverts(m, at, d, n);
    case Level2 => ReadMatch2Inverts(m, at, d, n);
  }

  lemma DecodeOneMatch(level: Level, m: seq<byte>, maxout: nat, at: nat, out: seq<byte>, d: nat, n: nat)
    requires TokenOk(level, Match(d, n)) && Holds(m, at, TokenBytes(level, Match(d, n)))
    requires d <= |out| && |out| + n <= maxout
    ensures Pass(level, m, |m|, maxout, at + 1, m[at], out)
         == Go(at + |TokenBytes(level, Match(d, n))|, CopyBack(out, d, n))
  {
    hide ReadMatch, TokenBytes, CopyBack;
    ReadMatchInverts(level, m, at, d, n);
  }

  lemma DecodeOneLiteral(level: Level, m: seq<byte>, maxout: nat, at: nat, out: seq<byte>, bytes: seq<byte>)
    requires TokenOk(level, Literal(bytes)) && Holds(m, at + 1, bytes) && |out| + |bytes| <= maxout
    ensures Pass(level, m, |m|, maxout, at + 1, |bytes| - 1, out) == Go(at + 1 + |bytes|, out + bytes)
  {
  }

  /** The bytes of token `k` lie in the stream behind those of the tokens before it. */
  lemma TokenPosition(level: Level, ts: seq<Token>, k: nat)
    requires AllOk(level, ts) && k < |ts|
    ensures Holds(Serialize(level, ts), |Serialize(level, ts[..k])|, TokenBytes(level, ts[k]))
    ensures |Serialize(level, ts[..k + 1])| == |Serialize(level, ts[..k])| + |TokenBytes(level, ts[k])|
    ensures Expand(ts[..k + 1]) == Apply(Expand(ts[..k]), ts[k])
  {
    hide Serialize, Expand, TokenBytes, Apply;
    assert ts[..k + 1] == ts[..k] + [ts[k]];
    SerializeSnoc(level, ts[..k], ts[k]);
    ExpandSnoc(ts[..k], ts[k]);
    SerializePrefix(level, ts, k + 1);
    var (all, upto) := (Serialize(level, ts), Serialize(level, ts[..k + 1]));
    var p := |Serialize(level, ts[..k])|;
    assert all[p..|upto|] == upto[p..] == TokenBytes(level, ts[k]);
  }

  /** A stream of tokens, possibly with other high bits in its first byte. */
  ghost predicate StreamOf(level: Level, m: seq<byte>, ts: seq<Token>)
    requires AllOk(level, ts)
  {
    var s := Serialize(level, ts);
    |m| == |s| && forall i :: 1 <= i < |s| ==> m[i] == s[i]
  }

  /** Only a literal token can lose high bits of its first byte. */
  lemma TokenInStream(level: Level, m: seq<byte>, s: seq<byte>, at: nat, t: Token)
    requires TokenOk(level, t) && Holds(s, at, TokenBytes(level, t))
    requires |m| == |s| && forall i :: 1 <= i < |s| ==> m[i] == s[i]
    requires t.Match? ==> at > 0
    ensures t.Match? ==> Holds(m, at, TokenBytes(level, t)) && m[at] == s[at]
    ensures t.Literal? ==> Holds(m, at + 1, t.bytes) && s[at] == |t.bytes| - 1
  {
    hide MatchBytes1, MatchBytes2;
    var bytes := TokenBytes(level, t);
    if t.Match? {
      assert m[at..at + |bytes|] == s[at..at + |bytes|];
    } else {
      HoldsPart(s, at, [bytes[0]], t.bytes);
      HoldsAt(s, at, bytes, 0);
      assert m[at + 1..at + |bytes|] == s[at + 1..at + |bytes|];
    }
  }

  lemma PassToken(level: Level, m: seq<byte>, ts: seq<Token>, k: nat, maxout: nat)
    requires WellFormed(level, ts) && StreamOf(level, m, ts)
    requires k < |ts| && |Expand(ts)| <= maxout
    ensures |Serialize(level, ts[..k])| < |Serialize(level, ts[..k + 1])| <= |m|
    ensures Pass(level, m, |m|, maxout, |Serialize(level, ts[..k])| + 1,
                 Serialize(level, ts)[|Serialize(level, ts[..k])|], Expand(ts[..k]))
         == Go(|Serialize(level, ts[..k + 1])|, Expand(ts[..k + 1]))
  {
    hide Serialize, Expand, Pass, CopyBack, Holds, MatchBytes1, MatchBytes2;
    var s := Serialize(level, ts);
    var at := |Serialize(level, ts[..k])|;
    TokenPosition(level, ts, k);
    SerializePrefix(level, ts, k + 1);
    ExpandPrefix(ts, k + 1);
    if k > 0 { SerializeNotEmpty(level, ts[..k]); }
    TokenInStream(level, m, s, at, ts[k]);
    match ts[k]
    case Literal(bytes) => DecodeOneLiteral(level, m, maxout, at, Expand(ts[..k]), bytes);
    case Match(d, n) => DecodeOneMatch(level, m, maxout, at, Expand(ts[..k]), d, n);
  }

  lemma {:induction false} DecodeTokensFrom(level: Level, m: seq<byte>, ts: seq<Token>, k: nat, maxout: nat)
    requires WellFormed(level, ts) && StreamOf(level, m, ts)
    requires k < |ts| && |Expand(ts)| <= maxout
    ensures |Serialize(level, ts[..k])| < |m|
    ensures DecodeFrom(level, m, |m|, maxout, |Serialize(level, ts[..k])| + 1,
                       Serialize(level, ts)[|Serialize(level, ts[..k])|], Expand(ts[..k]))
         == Done(Expand(ts))
    decreases |ts| - k
  {
    hide Serialize, Expand, Pass;
    PassToken(level, m, ts, k, maxout);
    if k + 1 < |ts| {
      DecodeTokensFrom(level, m, ts, k + 1, maxout);
    } else {
      assert ts[..k + 1] == ts;
    }
  }

  lemma SerializeNotEmpty(level: Level, ts: seq<Token>)
    requires AllOk(level, ts) && ts != []
    ensures |Serialize(level, ts)| >= 2
  {
  }

  /** Decoding a stream of tokens gives their meaning and reads nothing past the stream. */
  lemma DecodeTokens(level: Level, m: seq<byte>, ts: seq<Token>, maxout: nat)
    requires WellFormed(level, ts) && ts != [] && StreamOf(level, m, ts)
    requires m[0] % 32 == |ts[0].bytes| - 1
    requires |Expand(ts)| <= maxout
    ensures Decode(level, m, |m|, maxout) == Done(Expand(ts))
  {
    DecodeTokensFrom(level, m, ts, 0, maxout);
    TokenPosition(level, ts, 0);
    HoldsAt(Serialize(level, ts), 0, TokenBytes(level, ts[0]), 0);
    assert ts[..0] == [];
  }

  // ------------------------------------------------- memory past what was read does not matter

  lemma {:induction false} ReadChainLocal(m: seq<byte>, more: seq<byte>, at: nat)
    requires ReadChain(m, at).Some?
    ensures ReadChain(m + more, at) == ReadChain(m, at)
    decreases |m| - at
  {
    if m[at] == 255 { ReadChainLocal(m, more, at + 1); }
  }

  lemma ReadMatchLocal(level: Level, m: seq<byte>, more: seq<byte>, ip: nat, ctrl: byte)
    requires ctrl >= 32 && ReadMatch(level, m, ip, ctrl).Some?
    ensures ReadMatch(level, m + more, ip, ctrl) == ReadMatch(level, m, ip, ctrl)
  {
    if level == Level2 && ctrl / 32 - 1 == 6 { ReadChainLocal(m, more, ip); }
  }

  lemma PassLocal(level: Level, m: seq<byte>, more: seq<byte>, n: nat, maxout: nat, ip: nat, ctrl: byte, out: seq<byte>)
    requires n <= |m| && Pass(level, m, n, maxout, ip, ctrl, out) != Stop(Overrun)
    ensures Pass(level, m + more, n, maxout, ip, ctrl, out) == Pass(level, m, n, maxout, ip, ctrl, out)
  {
    hide ReadMatch, CopyBack;
    if ctrl >= 32 {
      ReadMatchLocal(level, m, more, ip, ctrl);
    } else if ip + ctrl + 1 <= n {
      assert (m + more)[ip..ip + (ctrl + 1)] == m[ip..ip + (ctrl + 1)];
    }
  }

  lemma {:induction false} DecodeFromLocal(level: Level, m: seq<byte>, more: seq<byte>, n: nat, maxout: nat,
                                           ip: nat, ctrl: byte, out: seq<byte>)
    requires n <= |m| && DecodeFrom(level, m, n, maxout, ip, ctrl, out) != Overrun
    ensures DecodeFrom(level, m + more, n, maxout, ip, ctrl, out) == DecodeFrom(level, m, n, maxout, ip, ctrl, out)
    decreases n - ip
  {
    hide Pass;
    PassLocal(level, m, more, n, maxout, ip, ctrl, out);
    var p := Pass(level, m, n, maxout, ip, ctrl, out);
    if p.Go? && p.next < n {
      DecodeFromLocal(level, m, more, n, maxout, p.next + 1, m[p.next], p.out);
    }
  }

  lemma DecodeLocal(level: Level, m: seq<byte>, more: seq<byte>, n: nat, maxout: nat)
    requires n <= |m| && Decode(level, m, n, maxout) != Overrun
    ensures Decode(level, m + more, n, maxout) == Decode(level, m, n, maxout)
  {
    DecodeFromLocal(level, m, more, n, maxout, 1, m[0] % 32, []);
  }
}
