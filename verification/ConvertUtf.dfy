/** The six converter loops over source and target arrays, each proved to do what `Transcoding` says. */
module ConvertUtf {
  import opened Bytes
  import opened Unicode
  import opened Transcoding

  // ------------------------------------------------------------------ how far a loop has come

  /** With `n` source units consumed and `out` written, the rest of the run completes the conversion. */
  ghost predicate Sofar(from: Form, to: Form, src: seq<Unit>, strict: bool, room: nat, n: nat, out: seq<Unit>,
                        code: Code)
    requires from != to
  {
    && n <= |src| && |out| <= room
    && var rest := Run(from, to, src[n..], strict, room - |out|, code);
       Convert(from, to, src, strict, room) == Result(n + rest.n, out + rest.out, rest.code)
  }

  lemma SofarInit(from: Form, to: Form, src: seq<Unit>, strict: bool, room: nat)
    requires from != to
    ensures Sofar(from, to, src, strict, room, 0, [], ConversionOK)
  {
    hide Run;
    assert src[0..] == src;
    var r := Convert(from, to, src, strict, room);
    assert [] + r.out == r.out;
  }

  lemma SofarGo(from: Form, to: Form, src: seq<Unit>, strict: bool, room: nat, n: nat, out: seq<Unit>, code: Code,
                step: Step)
    requires from != to && Sofar(from, to, src, strict, room, n, out, code) && n < |src|
    requires StepOf(from, to, src[n..], strict, room - |out|) == step && step.Go?
    ensures Sofar(from, to, src, strict, room, n + step.n, out + step.units, if step.bad then SourceIllegal else code)
  {
    hide StepOf, Convert;
    var code' := if step.bad then SourceIllegal else code;
    var rest := Run(from, to, src[n..][step.n..], strict, room - |out| - |step.units|, code');
    assert src[n..][step.n..] == src[n + step.n..];
    assert out + (step.units + rest.out) == out + step.units + rest.out;
  }

  lemma SofarStop(from: Form, to: Form, src: seq<Unit>, strict: bool, room: nat, n: nat, out: seq<Unit>, code: Code)
    requires from != to && Sofar(from, to, src, strict, room, n, out, code)
    requires n < |src| ==> StepOf(from, to, src[n..], strict, room - |out|).Stop?
    ensures Convert(from, to, src, strict, room)
         == Result(n, out, if n < |src| then StepOf(from, to, src[n..], strict, room - |out|).code else code)
  {
    hide StepOf, Convert;
    assert out + [] == out;
  }

  // ------------------------------------------------------------------ reading and writing characters

  /** The legality test, from the last byte to the first. */
  method IsLegal(source: array<Unit>, at: nat, length: nat) returns (legal: bool)
    requires 1 <= length && at + length <= source.Length
    ensures legal == IsLegalUtf8(source[at..at + length])
    ensures legal ==> length <= 4
  {
    ghost var s := source[at..at + length];
    var first := source[at];
    if length > 4 {
      return false;
    }
    var a: Unit;
    if length >= 4 {
      a := source[at + 3];
      if a < 0x80 || a > 0xBF {
        assert s[3] == a;
        return false;
      }
    }
    if length >= 3 {
      a := source[at + 2];
      if a < 0x80 || a > 0xBF {
        assert s[2] == a;
        return false;
      }
    }
    if length >= 2 {
      a := source[at + 1];
      assert s[1] == a;
      if a > 0xBF {
        return false;
      }
      if first == 0xE0 {
        if a < 0xA0 { return false; }
      } else if first == 0xED {
        if a > 0x9F { return false; }
      } else if first == 0xF0 {
        if a < 0x90 { return false; }
      } else if first == 0xF4 {
        if a > 0x8F { return false; }
      } else {
        if a < 0x80 { return false; }
      }
    }
    if 0x80 <= first < 0xC2 {
      return false;
    }
    legal := first <= 0xF4;
  }

  /** The exported test takes the length from the first byte. */
  method IsLegalSequence(source: array<Unit>, at: nat, end: nat) returns (legal: bool)
    requires at < end <= source.Length
    ensures legal <==> (var length := TrailingBytes(source[at]) + 1;
                        at + length <= end && IsLegalUtf8(source[at..at + length]))
  {
    var length := TrailingBytes(source[at]) + 1;
    if at + length > end {
      return false;
    }
    legal := IsLegal(source, at, length);
  }

  /** Adds up the bytes of a legal character, shifting by six bits between them, and takes the markers off. */
  method GatherBytes(source: array<Unit>, at: nat, extra: nat) returns (ch: Unit)
    requires extra <= 3 && at + extra < source.Length
    requires extra == TrailingBytes(source[at]) && IsLegalUtf8(source[at..at + extra + 1])
    ensures ch == Gather(source[at..at + extra + 1]) - Offset(extra)
  {
    var sum: nat := source[at];
    var i := 1;
    assert source[at..at + 1] == [source[at]];
    assert Gather(source[at..at + 1]) == source[at] by { GatherFour(source[at..at + 1]); }
    while i <= extra
      invariant 1 <= i <= extra + 1
      invariant sum == Gather(source[at..at + i])
    {
      assert source[at..at + i + 1][..i] == source[at..at + i];
      sum := sum * 64 + source[at + i];
      i := i + 1;
    }
    LegalIsScalar(source[at..at + extra + 1]);
    ch := sum - Offset(extra);
  }

  /** Writes a character's bytes from the last to the first, six bits at a time. */
  method PutBytes(target: array<Unit>, at: nat, bytesToWrite: nat, ch: Unit)
    requires ch <= MAX_LEGAL && bytesToWrite == |Utf8Bytes(ch)| && at + bytesToWrite <= target.Length
    modifies target
    ensures target[..] == old(target[..at]) + Utf8Bytes(ch) + old(target[at + bytesToWrite..])
  {
    var t := at + bytesToWrite;
    var rest := ch;
    if bytesToWrite >= 4 {
      t := t - 1;
      target[t], rest := 0x80 + rest % 64, rest / 64;
    }
    if bytesToWrite >= 3 {
      t := t - 1;
      target[t], rest := 0x80 + rest % 64, rest / 64;
    }
    if bytesToWrite >= 2 {
      t := t - 1;
      target[t], rest := 0x80 + rest % 64, rest / 64;
    }
    t := t - 1;
    target[t] := rest + FirstByteMark(bytesToWrite);
    Shifts(ch);
  }

  function FirstByteMark(bytesToWrite: nat): Unit
  {
    if bytesToWrite == 2 then 0xC0 else if bytesToWrite == 3 then 0xE0 else if bytesToWrite == 4 then 0xF0 else 0
  }

  lemma Shifts(ch: nat)
    ensures ch / 64 / 64 == ch / 4096 && ch / 64 / 64 / 64 == ch / 262144
  {
  }

  function BytesFor(ch: Unit): (n: nat)
    ensures ch <= MAX_LEGAL ==> n == |Utf8Bytes(ch)|
  {
    if ch < 0x80 then 1 else if ch < 0x800 then 2 else if ch < 0x10000 then 3 else 4
  }

  method Put(target: array<Unit>, ghost start: nat, t: nat, u: Unit) returns (t': nat)
    requires start <= t < target.Length
    modifies target
    ensures t' == t + 1
    ensures target[start..t'] == old(target[start..t]) + [u]
    ensures SameOutside(old(target[..]), target[..], t, t')
  {
    target[t] := u;
    t' := t + 1;
  }

  method PutPair(target: array<Unit>, ghost start: nat, t: nat, ch: Unit) returns (t': nat)
    requires MAX_BMP < ch <= MAX_LEGAL && start <= t && t + 2 <= target.Length
    modifies target
    ensures t' == t + 2
    ensures target[start..t'] == old(target[start..t]) + Utf16Units(ch)
    ensures SameOutside(old(target[..]), target[..], t, t')
  {
    var rest := ch - HALF_BASE;
    t' := Put(target, start, t, rest / 1024 + SUR_HIGH_START);
    t' := Put(target, start, t', rest % 1024 + SUR_LOW_START);
  }

  method PutCharacter(target: array<Unit>, ghost start: nat, t: nat, bytesToWrite: nat, ch: Unit)
    requires ch <= MAX_LEGAL && bytesToWrite == |Utf8Bytes(ch)| && start <= t && t + bytesToWrite <= target.Length
    modifies target
    ensures target[start..t + bytesToWrite] == old(target[start..t]) + Utf8Bytes(ch)
    ensures SameOutside(old(target[..]), target[..], t, t + bytesToWrite)
  {
    hide Utf8Bytes;
    ghost var before := target[..];
    PutBytes(target, t, bytesToWrite, ch);
    assert forall i :: 0 <= i < t ==> target[..][i] == before[i];
    assert forall i :: 0 <= i < bytesToWrite ==> target[..][t + i] == Utf8Bytes(ch)[i];
    assert forall i :: t + bytesToWrite <= i < |before| ==> target[..][i] == before[i];
  }

  // ------------------------------------------------------------------ one character in, one out

  /** `stop` is `ConversionOK` when a character was read. */
  method ReadUtf8(source: array<Unit>, s: nat, end: nat) returns (stop: Code, ch: Unit, s': nat)
    requires s < end <= source.Length
    ensures match Take8(source[s..end])
            case Stopped(code) => stop == code && s' == s
            case Char(c, n) => stop == ConversionOK && ch == c && s' == s + n
    ensures stop == ConversionOK ==> Take8(source[s..end]).Char?
  {
    hide Gather, IsLegalUtf8;
    var extra := TrailingBytes(source[s]);
    if s + extra >= end {
      return SourceExhausted, 0, s;
    }
    assert source[s..end][..extra + 1] == source[s..s + extra + 1];
    var legal := IsLegal(source, s, extra + 1);
    if !legal {
      return SourceIllegal, 0, s;
    }
    ch := GatherBytes(source, s, extra);
    return ConversionOK, ch, s + extra + 1;
  }

  method ReadUtf16(source: array<Unit>, s: nat, end: nat, strict: bool) returns (stop: Code, ch: Unit, s': nat)
    requires s < end <= source.Length
    ensures match Take16(source[s..end], strict)
            case Stopped(code) => stop == code && s' == s
            case Char(c, n) => stop == ConversionOK && ch == c && s' == s + n
    ensures stop == ConversionOK ==> Take16(source[s..end], strict).Char?
  {
    ch, s' := source[s], s + 1;
    if SUR_HIGH_START <= ch <= SUR_HIGH_END {
      if s' < end {
        var ch2 := source[s'];
        assert source[s..end][1] == ch2;
        if SUR_LOW_START <= ch2 <= SUR_LOW_END {
          ch := (ch - SUR_HIGH_START) * 1024 + (ch2 - SUR_LOW_START) + HALF_BASE;
          s' := s' + 1;
        } else if strict {
          return SourceIllegal, ch, s;
        }
      } else {
        return SourceExhausted, ch, s;
      }
    } else if strict {
      if SUR_LOW_START <= ch <= SUR_LOW_END {
        return SourceIllegal, ch, s;
      }
    }
    stop := ConversionOK;
  }

  /** The outcome of writing one character agrees with a step. */
  ghost predicate Wrote(step: Step, before: seq<Unit>, after: seq<Unit>, start: nat, t: nat, t': nat, stop: Code,
                        bad: bool)
    requires start <= t <= |before| && |before| == |after|
  {
    match step
    case Stop(code) => stop == code && code != ConversionOK && t' == t && after == before
    case Go(_, units, reported) =>
      && stop == ConversionOK && bad == reported
      && t <= t' <= |after| && after[start..t'] == before[start..t] + units && SameOutside(before, after, t, t')
  }

  method WriteUtf16(target: array<Unit>, ghost start: nat, t: nat, end: nat, ch: Unit, strict: bool, skips: bool,
                    ghost n: nat)
    returns (stop: Code, bad: bool, t': nat)
    requires start <= t <= end <= target.Length
    modifies target
    ensures t <= t' <= end
    ensures Wrote(Put16(ch, n, strict, end - t, skips), old(target[..]), target[..], start, t, t', stop, bad)
  {
    stop, bad, t' := ConversionOK, false, t;
    if t >= end {
      return TargetExhausted, false, t;
    }
    if ch <= MAX_BMP {
      if SUR_HIGH_START <= ch <= SUR_LOW_END {
        if strict {
          return SourceIllegal, false, t;
        } else {
          t' := Put(target, start, t, REPLACEMENT);
        }
      } else {
        t' := Put(target, start, t, ch);
      }
    } else if ch > MAX_LEGAL {
      if strict {
        if !skips {
          return SourceIllegal, false, t;
        }
        bad := true;
      } else {
        t' := Put(target, start, t, REPLACEMENT);
      }
    } else {
      if t + 1 >= end {
        return TargetExhausted, false, t;
      }
      t' := PutPair(target, start, t, ch);
    }
  }

  method WriteUtf8(target: array<Unit>, ghost start: nat, t: nat, end: nat, ch: Unit, ghost n: nat)
    returns (stop: Code, bad: bool, t': nat)
    requires start <= t <= end <= target.Length
    modifies target
    ensures t <= t' <= end
    ensures Wrote(Put8(ch, n, end - t), old(target[..]), target[..], start, t, t', stop, bad)
  {
    hide Utf8Bytes;
    var ch' := ch;
    var bytesToWrite;
    bad := false;
    if ch <= MAX_LEGAL {
      bytesToWrite := BytesFor(ch);
    } else {
      bytesToWrite, ch', bad := 3, REPLACEMENT, true;
      assert BytesFor(REPLACEMENT) == 3;
    }
    t' := t + bytesToWrite;
    if t' > end {
      return TargetExhausted, bad, t;
    }
    PutCharacter(target, start, t, bytesToWrite, ch');
    stop := ConversionOK;
  }

  method WriteUtf32(target: array<Unit>, ghost start: nat, t: nat, end: nat, ch: Unit, strict: bool, ghost n: nat)
    returns (stop: Code, bad: bool, t': nat)
    requires start <= t <= end <= target.Length
    modifies target
    ensures t <= t' <= end
    ensures Wrote(Put32(ch, n, strict, end - t), old(target[..]), target[..], start, t, t', stop, bad)
  {
    stop, bad, t' := ConversionOK, false, t;
    if t >= end {
      return TargetExhausted, false, t;
    }
    if ch <= MAX_LEGAL {
      if SUR_HIGH_START <= ch <= SUR_LOW_END {
        if strict {
          return SourceIllegal, false, t;
        } else {
          t' := Put(target, start, t, REPLACEMENT);
        }
      } else {
        t' := Put(target, start, t, ch);
      }
    } else {
      bad := true;
      t' := Put(target, start, t, REPLACEMENT);
    }
  }

  // ------------------------------------------------------------------ the loops

  /** What the next step does to the conversion. */
  lemma SofarNext(from: Form, to: Form, src: seq<Unit>, strict: bool, room: nat, n: nat, out: seq<Unit>, code: Code)
    requires from != to && Sofar(from, to, src, strict, room, n, out, code) && n < |src|
    ensures |out| <= room
    ensures (match StepOf(from, to, src[n..], strict, room - |out|)
             case Stop(stop) => Convert(from, to, src, strict, room) == Result(n, out, stop)
             case Go(k, units, bad) =>
               Sofar(from, to, src, strict, room, n + k, out + units, if bad then SourceIllegal else code))
  {
    hide StepOf, Convert;
    var step := StepOf(from, to, src[n..], strict, room - |out|);
    match step
    case Stop(_) => SofarStop(from, to, src, strict, room, n, out, code);
    case Go(_, _, _) => SofarGo(from, to, src, strict, room, n, out, code, step);
  }

  // ------------------------------------------------------------------ from UTF-8

  lemma StepFrom8(to: Form, src: seq<Unit>, strict: bool, room: nat)
    requires to != Utf8 && src != []
    ensures (match Take8(src)
             case Stopped(code) => StepOf(Utf8, to, src, strict, room) == Stop(code)
             case Char(ch, n) =>
               StepOf(Utf8, to, src, strict, room)
               == if to == Utf16 then Put16(ch, n, strict, room, false) else Put32(ch, n, strict, room))
  {
    hide Take8, Put16, Put32;
  }

  method ConvertUTF8toUTF16(source: array<Unit>, sourceStart: nat, sourceEnd: nat,
                            target: array<Unit>, targetStart: nat, targetEnd: nat, strict: bool)
    returns (code: Code, s: nat, t: nat)
    requires sourceStart <= sourceEnd <= source.Length && targetStart <= targetEnd <= target.Length && source != target
    modifies target
    ensures sourceStart <= s <= sourceEnd && targetStart <= t <= targetEnd
    ensures Convert(Utf8, Utf16, source[sourceStart..sourceEnd], strict, targetEnd - targetStart)
         == Result(s - sourceStart, target[targetStart..t], code)
    ensures SameOutside(old(target[..]), target[..], targetStart, t)
  {
    hide Sofar, Take8, Put16, Convert, StepOf;
    ghost var src := source[sourceStart..sourceEnd];
    ghost var room := targetEnd - targetStart;
    code, s, t := ConversionOK, sourceStart, targetStart;
    SofarInit(Utf8, Utf16, src, strict, room);
    assert target[targetStart..t] == [];
    while s < sourceEnd
      invariant sourceStart <= s <= sourceEnd && targetStart <= t <= targetEnd
      invariant source[sourceStart..sourceEnd] == src
      invariant Sofar(Utf8, Utf16, src, strict, room, s - sourceStart, target[targetStart..t], code)
      invariant SameOutside(old(target[..]), target[..], targetStart, t)
      decreases sourceEnd - s
    {
      ghost var (n, out) := (s - sourceStart, target[targetStart..t]);
      assert src[n..] == source[s..sourceEnd];
      SofarNext(Utf8, Utf16, src, strict, room, n, out, code);
      StepFrom8(Utf16, src[n..], strict, room - |out|);
      var stop, ch, s' := ReadUtf8(source, s, sourceEnd);
      if stop != ConversionOK {
        code := stop;
        return;
      }
      assert target[..][targetStart..t] == out;
      var bad, t';
      stop, bad, t' := WriteUtf16(target, targetStart, t, targetEnd, ch, strict, false, s' - s);
      if stop != ConversionOK {
        code := stop;
        return;
      }
      assert target[..][targetStart..t'] == target[targetStart..t'];
      s, t, code := s', t', if bad then SourceIllegal else code;
    }
    SofarStop(Utf8, Utf16, src, strict, room, s - sourceStart, target[targetStart..t], code);
  }

  method ConvertUTF8toUTF32(source: array<Unit>, sourceStart: nat, sourceEnd: nat,
                            target: array<Unit>, targetStart: nat, targetEnd: nat, strict: bool)
    returns (code: Code, s: nat, t: nat)
    requires sourceStart <= sourceEnd <= source.Length && targetStart <= targetEnd <= target.Length && source != target
    modifies target
    ensures sourceStart <= s <= sourceEnd && targetStart <= t <= targetEnd
    ensures Convert(Utf8, Utf32, source[sourceStart..sourceEnd], strict, targetEnd - targetStart)
         == Result(s - sourceStart, target[targetStart..t], code)
    ensures SameOutside(old(target[..]), target[..], targetStart, t)
  {
    hide Sofar, Take8, Put32, Convert, StepOf;
    ghost var src := source[sourceStart..sourceEnd];
    ghost var room := targetEnd - targetStart;
    code, s, t := ConversionOK, sourceStart, targetStart;
    SofarInit(Utf8, Utf32, src, strict, room);
    assert target[targetStart..t] == [];
    while s < sourceEnd
      invariant sourceStart <= s <= sourceEnd && targetStart <= t <= targetEnd
      invariant source[sourceStart..sourceEnd] == src
      invariant Sofar(Utf8, Utf32, src, strict, room, s - sourceStart, target[targetStart..t], code)
      invariant SameOutside(old(target[..]), target[..], targetStart, t)
      decreases sourceEnd - s
    {
      ghost var (n, out) := (s - sourceStart, target[targetStart..t]);
      assert src[n..] == source[s..sourceEnd];
      SofarNext(Utf8, Utf32, src, strict, room, n, out, code);
      StepFrom8(Utf32, src[n..], strict, room - |out|);
      var stop, ch, s' := ReadUtf8(source, s, sourceEnd);
      if stop != ConversionOK {
        code := stop;
        return;
      }
      assert target[..][targetStart..t] == out;
      var bad, t';
      stop, bad, t' := WriteUtf32(target, targetStart, t, targetEnd, ch, strict, s' - s);
      if stop != ConversionOK {
        code := stop;
        return;
      }
      assert target[..][targetStart..t'] == target[targetStart..t'];
      s, t, code := s', t', if bad then SourceIllegal else code;
    }
    SofarStop(Utf8, Utf32, src, strict, room, s - sourceStart, target[targetStart..t], code);
  }

  // ------------------------------------------------------------------ from UTF-16

  lemma StepFrom16(to: Form, src: seq<Unit>, strict: bool, room: nat)
    requires to != Utf16 && src != []
    ensures (match Take16(src, strict)
             case Stopped(code) => StepOf(Utf16, to, src, strict, room) == Stop(code)
             case Char(ch, n) =>
               StepOf(Utf16, to, src, strict, room)
               == if to == Utf8 then Put8(ch, n, room)
                  else if room == 0 then Stop(TargetExhausted)
                  else Go(n, [ch], false))
  {
    hide Take16, Put8;
  }

  method ConvertUTF16toUTF8(source: array<Unit>, sourceStart: nat, sourceEnd: nat,
                            target: array<Unit>, targetStart: nat, targetEnd: nat, strict: bool)
    returns (code: Code, s: nat, t: nat)
    requires sourceStart <= sourceEnd <= source.Length && targetStart <= targetEnd <= target.Length && source != target
    modifies target
    ensures sourceStart <= s <= sourceEnd && targetStart <= t <= targetEnd
    ensures Convert(Utf16, Utf8, source[sourceStart..sourceEnd], strict, targetEnd - targetStart)
         == Result(s - sourceStart, target[targetStart..t], code)
    ensures SameOutside(old(target[..]), target[..], targetStart, t)
  {
    hide Sofar, Take16, Put8, Convert, StepOf;
    ghost var src := source[sourceStart..sourceEnd];
    ghost var room := targetEnd - targetStart;
    code, s, t := ConversionOK, sourceStart, targetStart;
    SofarInit(Utf16, Utf8, src, strict, room);
    assert target[targetStart..t] == [];
    while s < sourceEnd
      invariant sourceStart <= s <= sourceEnd && targetStart <= t <= targetEnd
      invariant source[sourceStart..sourceEnd] == src
      invariant Sofar(Utf16, Utf8, src, strict, room, s - sourceStart, target[targetStart..t], code)
      invariant SameOutside(old(target[..]), target[..], targetStart, t)
      decreases sourceEnd - s
    {
      ghost var (n, out) := (s - sourceStart, target[targetStart..t]);
      assert src[n..] == source[s..sourceEnd];
      SofarNext(Utf16, Utf8, src, strict, room, n, out, code);
      StepFrom16(Utf8, src[n..], strict, room - |out|);
      var stop, ch, s' := ReadUtf16(source, s, sourceEnd, strict);
      if stop != ConversionOK {
        code := stop;
        return;
      }
      assert target[..][targetStart..t] == out;
      var bad, t';
      stop, bad, t' := WriteUtf8(target, targetStart, t, targetEnd, ch, s' - s);
      if stop != ConversionOK {
        code := stop;
        return;
      }
      assert target[..][targetStart..t'] == target[targetStart..t'];
      s, t, code := s', t', if bad then SourceIllegal else code;
    }
    SofarStop(Utf16, Utf8, src, strict, room, s - sourceStart, target[targetStart..t], code);
  }

  method ConvertUTF16toUTF32(source: array<Unit>, sourceStart: nat, sourceEnd: nat,
                             target: array<Unit>, targetStart: nat, targetEnd: nat, strict: bool)
    returns (code: Code, s: nat, t: nat)
    requires sourceStart <= sourceEnd <= source.Length && targetStart <= targetEnd <= target.Length && source != target
    modifies target
    ensures sourceStart <= s <= sourceEnd && targetStart <= t <= targetEnd
    ensures Convert(Utf16, Utf32, source[sourceStart..sourceEnd], strict, targetEnd - targetStart)
         == Result(s - sourceStart, target[targetStart..t], code)
    ensures SameOutside(old(target[..]), target[..], targetStart, t)
  {
    hide Sofar, Take16, Convert, StepOf;
    ghost var src := source[sourceStart..sourceEnd];
    ghost var room := targetEnd - targetStart;
    code, s, t := ConversionOK, sourceStart, targetStart;
    SofarInit(Utf16, Utf32, src, strict, room);
    assert target[targetStart..t] == [];
    while s < sourceEnd
      invariant sourceStart <= s <= sourceEnd && targetStart <= t <= targetEnd
      invariant source[sourceStart..sourceEnd] == src
      invariant Sofar(Utf16, Utf32, src, strict, room, s - sourceStart, target[targetStart..t], code)
      invariant SameOutside(old(target[..]), target[..], targetStart, t)
      decreases sourceEnd - s
    {
      ghost var (n, out) := (s - sourceStart, target[targetStart..t]);
      assert src[n..] == source[s..sourceEnd];
      SofarNext(Utf16, Utf32, src, strict, room, n, out, code);
      StepFrom16(Utf32, src[n..], strict, room - |out|);
      var stop, ch, s' := ReadUtf16(source, s, sourceEnd, strict);
      if stop != ConversionOK {
        code := stop;
        return;
      }
      if t >= targetEnd {
        code := TargetExhausted;
        return;
      }
      t := Put(target, targetStart, t, ch);
      s := s';
    }
    SofarStop(Utf16, Utf32, src, strict, room, s - sourceStart, target[targetStart..t], code);
  }

  // ------------------------------------------------------------------ from UTF-32

  lemma StepFrom32(to: Form, src: seq<Unit>, strict: bool, room: nat)
    requires to != Utf32 && src != []
    ensures StepOf(Utf32, to, src, strict, room)
         == if to == Utf16 then Put16(src[0], 1, strict, room, true)
            else if strict && Surrogate(src[0]) then Stop(SourceIllegal)
            else Put8(src[0], 1, room)
  {
    hide Put8, Put16;
  }

  method ConvertUTF32toUTF16(source: array<Unit>, sourceStart: nat, sourceEnd: nat,
                             target: array<Unit>, targetStart: nat, targetEnd: nat, strict: bool)
    returns (code: Code, s: nat, t: nat)
    requires sourceStart <= sourceEnd <= source.Length && targetStart <= targetEnd <= target.Length && source != target
    modifies target
    ensures sourceStart <= s <= sourceEnd && targetStart <= t <= targetEnd
    ensures Convert(Utf32, Utf16, source[sourceStart..sourceEnd], strict, targetEnd - targetStart)
         == Result(s - sourceStart, target[targetStart..t], code)
    ensures SameOutside(old(target[..]), target[..], targetStart, t)
  {
    hide Sofar, Put16, Convert, StepOf;
    ghost var src := source[sourceStart..sourceEnd];
    ghost var room := targetEnd - targetStart;
    code, s, t := ConversionOK, sourceStart, targetStart;
    SofarInit(Utf32, Utf16, src, strict, room);
    assert target[targetStart..t] == [];
    while s < sourceEnd
      invariant sourceStart <= s <= sourceEnd && targetStart <= t <= targetEnd
      invariant source[sourceStart..sourceEnd] == src
      invariant Sofar(Utf32, Utf16, src, strict, room, s - sourceStart, target[targetStart..t], code)
      invariant SameOutside(old(target[..]), target[..], targetStart, t)
      decreases sourceEnd - s
    {
      ghost var (n, out) := (s - sourceStart, target[targetStart..t]);
      assert src[n..] == source[s..sourceEnd];
      SofarNext(Utf32, Utf16, src, strict, room, n, out, code);
      StepFrom32(Utf16, src[n..], strict, room - |out|);
      var stop: Code;
      var ch, s' := source[s], s + 1;
      assert target[..][targetStart..t] == out;
      var bad, t';
      stop, bad, t' := WriteUtf16(target, targetStart, t, targetEnd, ch, strict, true, s' - s);
      if stop != ConversionOK {
        code := stop;
        return;
      }
      assert target[..][targetStart..t'] == target[targetStart..t'];
      s, t, code := s', t', if bad then SourceIllegal else code;
    }
    SofarStop(Utf32, Utf16, src, strict, room, s - sourceStart, target[targetStart..t], code);
  }

  method ConvertUTF32toUTF8(source: array<Unit>, sourceStart: nat, sourceEnd: nat,
                            target: array<Unit>, targetStart: nat, targetEnd: nat, strict: bool)
    returns (code: Code, s: nat, t: nat)
    requires sourceStart <= sourceEnd <= source.Length && targetStart <= targetEnd <= target.Length && source != target
    modifies target
    ensures sourceStart <= s <= sourceEnd && targetStart <= t <= targetEnd
    ensures Convert(Utf32, Utf8, source[sourceStart..sourceEnd], strict, targetEnd - targetStart)
         == Result(s - sourceStart, target[targetStart..t], code)
    ensures SameOutside(old(target[..]), target[..], targetStart, t)
  {
    hide Sofar, Put8, Convert, StepOf;
    ghost var src := source[sourceStart..sourceEnd];
    ghost var room := targetEnd - targetStart;
    code, s, t := ConversionOK, sourceStart, targetStart;
    SofarInit(Utf32, Utf8, src, strict, room);
    assert target[targetStart..t] == [];
    while s < sourceEnd
      invariant sourceStart <= s <= sourceEnd && targetStart <= t <= targetEnd
      invariant source[sourceStart..sourceEnd] == src
      invariant Sofar(Utf32, Utf8, src, strict, room, s - sourceStart, target[targetStart..t], code)
      invariant SameOutside(old(target[..]), target[..], targetStart, t)
      decreases sourceEnd - s
    {
      ghost var (n, out) := (s - sourceStart, target[targetStart..t]);
      assert src[n..] == source[s..sourceEnd];
      SofarNext(Utf32, Utf8, src, strict, room, n, out, code);
      StepFrom32(Utf8, src[n..], strict, room - |out|);
      var stop: Code;
      var ch, s' := source[s], s + 1;
      if strict {
        if SUR_HIGH_START <= ch <= SUR_LOW_END {
          code := SourceIllegal;
          return;
        }
      }
      assert target[..][targetStart..t] == out;
      var bad, t';
      stop, bad, t' := WriteUtf8(target, targetStart, t, targetEnd, ch, s' - s);
      if stop != ConversionOK {
        code := stop;
        return;
      }
      assert target[..][targetStart..t'] == target[targetStart..t'];
      s, t, code := s', t', if bad then SourceIllegal else code;
    }
    SofarStop(Utf32, Utf8, src, strict, room, s - sourceStart, target[targetStart..t], code);
  }
}
