/** What the six converters promise: exact transcoding of scalar values, sufficient room, restartability. */
module TranscodingLaws {
  import opened Unicode
  import opened Transcoding

  // ------------------------------------------------------------------ transcoding

  lemma Take8Encoded(ch: Unit, rest: seq<Unit>)
    requires Scalar(ch)
    ensures Take8(Utf8Bytes(ch) + rest) == Char(ch, |Utf8Bytes(ch)|)
  {
    hide Utf8Bytes, Gather, IsLegalUtf8, RfcUtf8;
    var s := Utf8Bytes(ch);
    EncodingIsRfc(ch);
    LegalExactly(s);
    assert (s + rest)[..|s|] == s;
  }

  lemma Take16Encoded(ch: Unit, rest: seq<Unit>, strict: bool)
    requires Scalar(ch)
    ensures Take16(Utf16Units(ch) + rest, strict) == Char(ch, |Utf16Units(ch)|)
  {
  }

  /** A converter turns the encoding of one scalar value into its other encoding, in both modes. */
  lemma StepEncoded(from: Form, to: Form, ch: Unit, rest: seq<Unit>, strict: bool, room: nat)
    requires from != to && Scalar(ch) && |Encode(to, ch)| <= room
    ensures StepOf(from, to, Encode(from, ch) + rest, strict, room) == Go(|Encode(from, ch)|, Encode(to, ch), false)
  {
    hide Utf8Bytes, Take8, Take16;
    match from
    case Utf8 => Take8Encoded(ch, rest);
    case Utf16 => Take16Encoded(ch, rest, strict);
    case Utf32 =>
  }

  /** Given room, every converter is exact on every sequence of scalar values, in both modes. */
  lemma {:induction false} Transcodes(from: Form, to: Form, s: seq<Unit>, strict: bool, room: nat)
    requires from != to && Scalars(s) && |EncodeAll(to, s)| <= room
    ensures Convert(from, to, EncodeAll(from, s), strict, room)
         == Result(|EncodeAll(from, s)|, EncodeAll(to, s), ConversionOK)
    decreases |s|
  {
    hide StepOf, Encode;
    if s != [] {
      assert Scalar(s[0]);
      var first := Encode(from, s[0]);
      var rest := EncodeAll(from, s[1..]);
      StepEncoded(from, to, s[0], rest, strict, room);
      assert (first + rest)[|first|..] == rest;
      Transcodes(from, to, s[1..], strict, room - |Encode(to, s[0])|);
    }
  }

  /** There and back is the identity: what one converter writes, the opposite one turns back. */
  lemma ThereAndBack(from: Form, to: Form, s: seq<Unit>, strict: bool, strictBack: bool, room: nat, roomBack: nat)
    requires from != to && Scalars(s)
    requires |EncodeAll(to, s)| <= room && |EncodeAll(from, s)| <= roomBack
    ensures (var there := Convert(from, to, EncodeAll(from, s), strict, room);
             var back := Convert(to, from, there.out, strictBack, roomBack);
             && there.code == ConversionOK && back.code == ConversionOK
             && back.out == EncodeAll(from, s))
  {
    Transcodes(from, to, s, strict, room);
    Transcodes(to, from, s, strictBack, roomBack);
  }

  // ------------------------------------------------------------------ strict mode

  /** Strict mode accepts UTF-16 and UTF-32 sources exactly when they encode scalar values. */
  ghost predicate Encodes(form: Form, src: seq<Unit>, s: seq<Unit>)
  {
    Scalars(s) && src == EncodeAll(form, s)
  }

  lemma Take16Strict(src: seq<Unit>)
    requires src != [] && Take16(src, true).Char?
    requires forall i :: 0 <= i < |src| ==> src[i] < 65536
    ensures (var r := Take16(src, true);
             Scalar(r.ch) && r.n <= |src| && src[..r.n] == Utf16Units(r.ch))
  {
  }

  lemma StrictStep(from: Form, to: Form, src: seq<Unit>, room: nat)
    requires from != Utf8 && from != to && src != []
    requires from == Utf16 ==> forall i :: 0 <= i < |src| ==> src[i] < 65536
    requires StepOf(from, to, src, true, room).Go?
    ensures (var r := StepOf(from, to, src, true, room);
             r.bad || exists ch :: Scalar(ch) && src[..r.n] == Encode(from, ch))
  {
    hide Utf8Bytes;
    if from == Utf16 {
      Take16Strict(src);
      assert Scalar(Take16(src, true).ch);
    } else if !StepOf(from, to, src, true, room).bad {
      assert Scalar(src[0]) && src[..1] == [src[0]];
    }
  }

  /** Once a value has been reported, the code never becomes OK again. */
  lemma {:induction false} IllegalSticks(from: Form, to: Form, src: seq<Unit>, strict: bool, room: nat)
    requires from != to
    ensures Run(from, to, src, strict, room, SourceIllegal).code != ConversionOK
    decreases |src|
  {
    hide StepOf;
    if src != [] && StepOf(from, to, src, strict, room).Go? {
      var step := StepOf(from, to, src, strict, room);
      StepNotOk(from, to, src, strict, room);
      IllegalSticks(from, to, src[step.n..], strict, room - |step.units|);
    } else if src != [] {
      StepNotOk(from, to, src, strict, room);
    }
  }

  lemma StepNotOk(from: Form, to: Form, src: seq<Unit>, strict: bool, room: nat)
    requires from != to && src != []
    ensures StepOf(from, to, src, strict, room) != Stop(ConversionOK)
  {
    hide Gather, Utf8Bytes, IsLegalUtf8;
  }

  lemma {:induction false} StrictAccepts(from: Form, to: Form, src: seq<Unit>, room: nat) returns (s: seq<Unit>)
    requires from != Utf8 && from != to
    requires from == Utf16 ==> forall i :: 0 <= i < |src| ==> src[i] < 65536
    requires Convert(from, to, src, true, room).code == ConversionOK
    ensures Encodes(from, src, s)
    decreases |src|
  {
    hide StepOf, Encode;
    if src == [] {
      s := [];
    } else {
      StepNotOk(from, to, src, true, room);
      var step := StepOf(from, to, src, true, room);
      if step.bad {
        IllegalSticks(from, to, src[step.n..], true, room - |step.units|);
      }
      StrictStep(from, to, src, room);
      var ch :| Scalar(ch) && src[..step.n] == Encode(from, ch);
      var rest := StrictAccepts(from, to, src[step.n..], room - |step.units|);
      s := [ch] + rest;
      assert s[1..] == rest && src == src[..step.n] + src[step.n..];
    }
  }

  /** In strict mode a UTF-16 or UTF-32 source converts without complaint if and only if it encodes scalar values. */
  lemma StrictExactly(from: Form, to: Form, src: seq<Unit>, room: nat)
    requires from != Utf8 && from != to && room >= 4 * |src|
    requires from == Utf16 ==> forall i :: 0 <= i < |src| ==> src[i] < 65536
    ensures Convert(from, to, src, true, room).code == ConversionOK <==> exists s :: Encodes(from, src, s)
  {
    hide Run;
    if Convert(from, to, src, true, room).code == ConversionOK {
      var s := StrictAccepts(from, to, src, room);
    } else {
      forall s | Encodes(from, src, s)
        ensures false
      {
        LengthAtMost(from, to, s);
        Transcodes(from, to, s, true, room);
      }
    }
  }

  lemma {:induction false} LengthAtMost(from: Form, to: Form, s: seq<Unit>)
    requires Scalars(s)
    ensures |EncodeAll(to, s)| <= 4 * |EncodeAll(from, s)|
  {
    hide Encode;
    if s != [] { LengthAtMost(from, to, s[1..]); }
  }

  /** Strict and lenient conversion of UTF-8 never differ: what passes the legality test is always a scalar value. */
  lemma {:induction false} Utf8ModesAgree(to: Form, src: seq<Unit>, room: nat, code: Code)
    requires to != Utf8
    ensures Run(Utf8, to, src, true, room, code) == Run(Utf8, to, src, false, room, code)
    decreases |src|
  {
    hide StepOf, Run;
    if src == [] || StepOf(Utf8, to, src, true, room).Stop? { RunStops(Utf8, to, src, true, room, code); }
    if src == [] || StepOf(Utf8, to, src, false, room).Stop? { RunStops(Utf8, to, src, false, room, code); }
    if src != [] {
      Utf8StepsAgree(to, src, room);
      var step := StepOf(Utf8, to, src, true, room);
      if step.Go? {
        RunGoes(Utf8, to, src, true, room, code);
        RunGoes(Utf8, to, src, false, room, code);
        Utf8ModesAgree(to, src[step.n..], room - |step.units|, if step.bad then SourceIllegal else code);
      }
    }
  }

  lemma Take8Scalar(src: seq<Unit>)
    requires src != [] && Take8(src).Char?
    ensures Scalar(Take8(src).ch)
  {
    hide Gather, IsLegalUtf8;
    LegalIsScalar(src[..TrailingBytes(src[0]) + 1]);
  }

  lemma Utf8StepsAgree(to: Form, src: seq<Unit>, room: nat)
    requires to != Utf8 && src != []
    ensures StepOf(Utf8, to, src, true, room) == StepOf(Utf8, to, src, false, room)
    ensures StepOf(Utf8, to, src, true, room).Go? ==> !StepOf(Utf8, to, src, true, room).bad
  {
    hide Take8;
    if Take8(src).Char? { Take8Scalar(src); }
  }

  // ------------------------------------------------------------------ room

  /** How many target units a source unit can need. */
  function Ratio(from: Form, to: Form): nat
  {
    match to
    case Utf8 => if from == Utf16 then 3 else 4
    case Utf16 => if from == Utf32 then 2 else 1
    case Utf32 => 1
  }

  lemma StepFits(from: Form, to: Form, src: seq<Unit>, strict: bool, room: nat)
    requires from != to && src != [] && room >= Ratio(from, to) * |src|
    requires from == Utf16 ==> forall i :: 0 <= i < |src| ==> src[i] < 65536
    ensures (var step := StepOf(from, to, src, strict, room);
             && step != Stop(TargetExhausted)
             && (step.Go? ==> |step.units| <= Ratio(from, to) * step.n))
  {
    hide Gather, IsLegalUtf8;
    if from == Utf8 && Take8(src).Char? { Take8Long(src); }
  }

  /** A character beyond the first plane takes four bytes. */
  lemma Take8Long(src: seq<Unit>)
    requires src != [] && Take8(src).Char?
    ensures Take8(src).ch > MAX_BMP ==> Take8(src).n >= 2
  {
    hide IsLegalUtf8;
    if TrailingBytes(src[0]) == 0 { GatherFour(src[..1]); }
  }

  /** A target of `Ratio` units for each source unit is never exhausted. */
  lemma {:induction false} RoomSuffices(from: Form, to: Form, src: seq<Unit>, strict: bool, room: nat, code: Code)
    requires from != to && room >= Ratio(from, to) * |src| && code != TargetExhausted
    requires from == Utf16 ==> forall i :: 0 <= i < |src| ==> src[i] < 65536
    ensures Run(from, to, src, strict, room, code).code != TargetExhausted
    decreases |src|
  {
    hide StepOf, Ratio, Run;
    if src == [] || StepOf(from, to, src, strict, room).Stop? { RunStops(from, to, src, strict, room, code); }
    if src != [] {
      StepFits(from, to, src, strict, room);
      var step := StepOf(from, to, src, strict, room);
      if step.Go? {
        RunGoes(from, to, src, strict, room, code);
        RatioMinus(Ratio(from, to), |src|, step.n);
        RoomSuffices(from, to, src[step.n..], strict, room - |step.units|, if step.bad then SourceIllegal else code);
      }
    }
  }

  lemma RatioMinus(k: nat, a: nat, b: nat)
    requires b <= a
    ensures k * (a - b) == k * a - k * b
  {
  }

  /** One character of a terminated string: it ends in front of the terminator. */
  lemma StepTerminated(from: Form, src: seq<Unit>, strict: bool, room: nat)
    requires from != Utf8 && src != [] && room >= 4
    requires from == Utf16 ==> forall i :: 0 <= i < |src| ==> src[i] < 65536
    ensures (var step := StepOf(from, Utf8, src + [0], strict, room);
             && step != Stop(TargetExhausted)
             && (step.Go? ==> step.n <= |src| && |step.units| <= Ratio(from, Utf8) * step.n))
  {
    var s := src + [0];
    assert s[0] == src[0] && (|src| > 1 ==> s[1] == src[1]) && (|src| == 1 ==> s[1] == 0);
  }

  lemma StepTerminator(from: Form, strict: bool, room: nat)
    requires from != Utf8 && room >= 1
    ensures StepOf(from, Utf8, [0], strict, room) == Go(1, [0], false)
  {
  }

  /** A terminated string needs one unit beyond what its characters need. */
  lemma {:induction false} TerminatedSuffices(from: Form, src: seq<Unit>, strict: bool, room: nat, code: Code)
    requires from != Utf8 && room >= Ratio(from, Utf8) * |src| + 1 && code != TargetExhausted
    requires from == Utf16 ==> forall i :: 0 <= i < |src| ==> src[i] < 65536
    ensures Run(from, Utf8, src + [0], strict, room, code).code != TargetExhausted
    decreases |src|
  {
    hide StepOf, Run, Ratio, Utf8Bytes;
    var s := src + [0];
    if src == [] {
      assert s == [0] && s[1..] == [];
      StepTerminator(from, strict, room);
      RunGoes(from, Utf8, s, strict, room, code);
      RunStops(from, Utf8, s[1..], strict, room - 1, code);
    } else {
      assert room >= 4 by { RatioEnough(from, |src|); }
      StepTerminated(from, src, strict, room);
      var step := StepOf(from, Utf8, s, strict, room);
      if step.Stop? {
        RunStops(from, Utf8, s, strict, room, code);
      } else {
        RunGoes(from, Utf8, s, strict, room, code);
        RatioMinus(Ratio(from, Utf8), |src|, step.n);
        assert s[step.n..] == src[step.n..] + [0];
        TerminatedSuffices(from, src[step.n..], strict, room - |step.units|, if step.bad then SourceIllegal else code);
      }
    }
  }

  lemma RatioEnough(from: Form, n: nat)
    requires from != Utf8 && n >= 1
    ensures Ratio(from, Utf8) * n >= 3
  {
  }

  /** The buffer sizes of the INI reader and writer: as many wide characters as there are bytes, and for a terminated
      string six bytes for each wide character and one more. */
  lemma StoreEstimates(src: seq<Unit>, strict: bool)
    ensures Convert(Utf8, Utf16, src, strict, |src|).code != TargetExhausted
    ensures Convert(Utf8, Utf32, src, strict, |src|).code != TargetExhausted
    ensures Convert(Utf32, Utf8, src + [0], strict, 6 * |src| + 1).code != TargetExhausted
    ensures (forall i :: 0 <= i < |src| ==> src[i] < 65536) ==>
              Convert(Utf16, Utf8, src + [0], strict, 6 * |src| + 1).code != TargetExhausted
  {
    hide Run;
    RoomSuffices(Utf8, Utf16, src, strict, |src|, ConversionOK);
    RoomSuffices(Utf8, Utf32, src, strict, |src|, ConversionOK);
    TerminatedSuffices(Utf32, src, strict, 6 * |src| + 1, ConversionOK);
    if forall i :: 0 <= i < |src| ==> src[i] < 65536 {
      TerminatedSuffices(Utf16, src, strict, 6 * |src| + 1, ConversionOK);
    }
  }

  // ------------------------------------------------------------------ restarting

  /** Does the run pass a value that it reports as illegal without stopping? */
  predicate Reports(from: Form, to: Form, src: seq<Unit>, strict: bool, room: nat)
    requires from != to
    decreases |src|
  {
    src != [] &&
    match StepOf(from, to, src, strict, room)
    case Stop(_) => false
    case Go(n, units, bad) => bad || Reports(from, to, src[n..], strict, room - |units|)
  }

  /** Room matters to a step only by running out. */
  lemma StepSame(from: Form, to: Form, src: seq<Unit>, strict: bool, room: nat, other: nat)
    requires from != to && src != []
    requires StepOf(from, to, src, strict, room) != Stop(TargetExhausted)
    requires StepOf(from, to, src, strict, other) != Stop(TargetExhausted)
    ensures StepOf(from, to, src, strict, room) == StepOf(from, to, src, strict, other)
  {
    hide Utf8Bytes, Take8, Take16;
  }

  /** A converter restarted on what it left, each time with a new target, until it stops for another reason. */
  function Restart(from: Form, to: Form, src: seq<Unit>, strict: bool, rooms: seq<nat>): (r: Result)
    requires from != to && rooms != []
    ensures r.n <= |src|
    decreases |rooms|
  {
    var first := Convert(from, to, src, strict, rooms[0]);
    if first.code != TargetExhausted || |rooms| == 1 then first
    else
      var rest := Restart(from, to, src[first.n..], strict, rooms[1..]);
      Result(first.n + rest.n, first.out + rest.out, rest.code)
  }

  function Reported(reported: bool, code: Code): Code
  {
    if reported && code == ConversionOK then SourceIllegal else code
  }

  lemma RunGoes(from: Form, to: Form, src: seq<Unit>, strict: bool, room: nat, code: Code)
    requires from != to && src != [] && StepOf(from, to, src, strict, room).Go?
    ensures (var step := StepOf(from, to, src, strict, room);
             var left := room - |step.units|;
             var rest := Run(from, to, src[step.n..], strict, left, if step.bad then SourceIllegal else code);
             && Run(from, to, src, strict, room, code) == Result(step.n + rest.n, step.units + rest.out, rest.code)
             && Reports(from, to, src, strict, room) == (step.bad || Reports(from, to, src[step.n..], strict, left)))
  {
    hide StepOf;
  }

  lemma RunStops(from: Form, to: Form, src: seq<Unit>, strict: bool, room: nat, code: Code)
    requires from != to && (src == [] || StepOf(from, to, src, strict, room).Stop?)
    ensures Run(from, to, src, strict, room, code)
         == Result(0, [], if src == [] then code else StepOf(from, to, src, strict, room).code)
    ensures !Reports(from, to, src, strict, room)
  {
    hide StepOf;
  }

  /** A report only shows when nothing later decides the code. */
  lemma {:induction false} CodeLaw(from: Form, to: Form, src: seq<Unit>, strict: bool, room: nat, code: Code)
    requires from != to && (code == ConversionOK || code == SourceIllegal)
    ensures (var (plain, run) := (Convert(from, to, src, strict, room), Run(from, to, src, strict, room, code));
             run == Result(plain.n, plain.out, Reported(code == SourceIllegal, plain.code)))
    ensures Reports(from, to, src, strict, room) ==> Convert(from, to, src, strict, room).code != ConversionOK
    decreases |src|
  {
    hide StepOf, Run, Reports;
    if src != [] && StepOf(from, to, src, strict, room).Go? {
      var step := StepOf(from, to, src, strict, room);
      RunGoes(from, to, src, strict, room, code);
      RunGoes(from, to, src, strict, room, ConversionOK);
      CodeLaw(from, to, src[step.n..], strict, room - |step.units|, SourceIllegal);
      CodeLaw(from, to, src[step.n..], strict, room - |step.units|, ConversionOK);
    } else {
      if src != [] { StepNotOk(from, to, src, strict, room); }
      RunStops(from, to, src, strict, room, code);
      RunStops(from, to, src, strict, room, ConversionOK);
    }
  }

  /** `big` gives the rest of what `room` began. */
  ghost predicate Extends(from: Form, to: Form, src: seq<Unit>, strict: bool, room: nat, big: nat)
    requires from != to
  {
    var (part, whole) := (Convert(from, to, src, strict, room), Convert(from, to, src, strict, big));
    && |part.out| <= big
    && ExtendsBy(from, to, src[part.n..], strict, big - |part.out|, part, whole,
                 Reports(from, to, src, strict, room), Reports(from, to, src, strict, big))
  }

  ghost predicate ExtendsBy(from: Form, to: Form, src: seq<Unit>, strict: bool, left: nat, part: Result, whole: Result,
                            partReports: bool, wholeReports: bool)
    requires from != to
  {
    var rest := Convert(from, to, src, strict, left);
    && rest.code != TargetExhausted
    && whole.n == part.n + rest.n && whole.out == part.out + rest.out
    && whole.code == Reported(partReports, rest.code)
    && wholeReports == (partReports || Reports(from, to, src, strict, left))
  }

  /** Putting a step in front of both. */
  lemma ExtendsStep(from: Form, to: Form, src: seq<Unit>, strict: bool, left: nat, part: Result, whole: Result,
                    partReports: bool, wholeReports: bool, n: nat, units: seq<Unit>, bad: bool)
    requires from != to && ExtendsBy(from, to, src, strict, left, part, whole, partReports, wholeReports)
    ensures ExtendsBy(from, to, src, strict, left, Result(n + part.n, units + part.out, Reported(bad, part.code)),
                      Result(n + whole.n, units + whole.out, Reported(bad, whole.code)),
                      bad || partReports, bad || wholeReports)
  {
    hide Convert, Reports;
    var rest := Convert(from, to, src, strict, left);
    assert units + (part.out + rest.out) == units + part.out + rest.out;
  }

  /** The first step of a run, with the report it makes kept apart. */
  lemma ConvertGoes(from: Form, to: Form, src: seq<Unit>, strict: bool, room: nat)
    requires from != to && src != [] && StepOf(from, to, src, strict, room).Go?
    ensures (var step := StepOf(from, to, src, strict, room);
             var left := room - |step.units|;
             var rest := Convert(from, to, src[step.n..], strict, left);
             && Convert(from, to, src, strict, room)
                == Result(step.n + rest.n, step.units + rest.out, Reported(step.bad, rest.code))
             && Reports(from, to, src, strict, room) == (step.bad || Reports(from, to, src[step.n..], strict, left)))
  {
    hide StepOf, Run, Reports;
    var step := StepOf(from, to, src, strict, room);
    RunGoes(from, to, src, strict, room, ConversionOK);
    CodeLaw(from, to, src[step.n..], strict, room - |step.units|, if step.bad then SourceIllegal else ConversionOK);
  }

  /** A run that ran out of room is the start of the run that does not. */
  lemma {:induction false} ExhaustedIsPrefix(from: Form, to: Form, src: seq<Unit>, strict: bool, room: nat, big: nat)
    requires from != to
    requires Convert(from, to, src, strict, room).code == TargetExhausted
    requires Convert(from, to, src, strict, big).code != TargetExhausted
    ensures Extends(from, to, src, strict, room, big)
    decreases |src|
  {
    hide StepOf, Convert, Reports, ExtendsBy;
    if src == [] || StepOf(from, to, src, strict, room).Stop? {
      ConvertStops(from, to, src, strict, room);
      NothingTaken(from, to, src, strict, big);
      assert src[0..] == src;
    } else {
      if StepOf(from, to, src, strict, big).Stop? { ConvertStops(from, to, src, strict, big); }
      StepSame(from, to, src, strict, room, big);
      var step := StepOf(from, to, src, strict, room);
      var (n, k) := (step.n, |step.units|);
      ConvertGoes(from, to, src, strict, room);
      ConvertGoes(from, to, src, strict, big);
      ExhaustedIsPrefix(from, to, src[n..], strict, room - k, big - k);
      var part := Convert(from, to, src[n..], strict, room - k);
      var whole := Convert(from, to, src[n..], strict, big - k);
      ExtendsStep(from, to, src[n..][part.n..], strict, big - k - |part.out|, part, whole,
                  Reports(from, to, src[n..], strict, room - k), Reports(from, to, src[n..], strict, big - k),
                  n, step.units, step.bad);
      assert src[n..][part.n..] == src[n + part.n..];
    }
  }

  lemma ConvertStops(from: Form, to: Form, src: seq<Unit>, strict: bool, room: nat)
    requires from != to && (src == [] || StepOf(from, to, src, strict, room).Stop?)
    ensures Convert(from, to, src, strict, room)
         == Result(0, [], if src == [] then ConversionOK else StepOf(from, to, src, strict, room).code)
    ensures !Reports(from, to, src, strict, room)
  {
    hide StepOf, Run, Reports;
    RunStops(from, to, src, strict, room, ConversionOK);
  }

  lemma ConvertRoomIrrelevant(from: Form, to: Form, src: seq<Unit>, strict: bool, room: nat, other: nat)
    requires from != to
    requires Convert(from, to, src, strict, room).code != TargetExhausted
    requires Convert(from, to, src, strict, other).code != TargetExhausted
    ensures Convert(from, to, src, strict, room) == Convert(from, to, src, strict, other)
    ensures Reports(from, to, src, strict, room) == Reports(from, to, src, strict, other)
    ensures Reports(from, to, src, strict, room) ==> Convert(from, to, src, strict, room).code != ConversionOK
  {
    hide Run, Reports;
    RoomIrrelevant(from, to, src, strict, room, other, ConversionOK);
    CodeLaw(from, to, src, strict, room, ConversionOK);
  }

  lemma NothingTaken(from: Form, to: Form, src: seq<Unit>, strict: bool, big: nat)
    requires from != to && Convert(from, to, src, strict, big).code != TargetExhausted
    ensures ExtendsBy(from, to, src, strict, big, Result(0, [], TargetExhausted), Convert(from, to, src, strict, big),
                      false, Reports(from, to, src, strict, big))
  {
    hide Run, Reports;
  }

  lemma {:induction false} RoomIrrelevant(from: Form, to: Form, src: seq<Unit>, strict: bool, room: nat, other: nat,
                                          code: Code)
    requires from != to && code != TargetExhausted
    requires Run(from, to, src, strict, room, code).code != TargetExhausted
    requires Run(from, to, src, strict, other, code).code != TargetExhausted
    ensures Run(from, to, src, strict, room, code) == Run(from, to, src, strict, other, code)
    ensures Reports(from, to, src, strict, room) == Reports(from, to, src, strict, other)
    decreases |src|
  {
    hide StepOf, Run, Reports;
    if src == [] || StepOf(from, to, src, strict, room).Stop? {
      RunStops(from, to, src, strict, room, code);
    }
    if src == [] || StepOf(from, to, src, strict, other).Stop? {
      RunStops(from, to, src, strict, other, code);
    }
    if src != [] {
      StepSame(from, to, src, strict, room, other);
      var step := StepOf(from, to, src, strict, room);
      if step.Go? {
        RunGoes(from, to, src, strict, room, code);
        RunGoes(from, to, src, strict, other, code);
        RoomIrrelevant(from, to, src[step.n..], strict, room - |step.units|, other - |step.units|,
                       if step.bad then SourceIllegal else code);
      }
    }
  }

  lemma RestartUnfold(from: Form, to: Form, src: seq<Unit>, strict: bool, rooms: seq<nat>)
    requires from != to && rooms != []
    ensures (var first := Convert(from, to, src, strict, rooms[0]);
             Restart(from, to, src, strict, rooms)
             == if first.code != TargetExhausted || |rooms| == 1 then first
                else
                  var rest := Restart(from, to, src[first.n..], strict, rooms[1..]);
                  Result(first.n + rest.n, first.out + rest.out, rest.code))
  {
    hide Convert;
  }

  /** Restarting through targets of any sizes, when it gets to the end, consumes and writes what one call with
      enough room does. The code is the same too, except that a value above 0x10FFFF reported in a part that
      then ran out of room is forgotten. */
  lemma {:induction false} RestartIsOneCall(from: Form, to: Form, src: seq<Unit>, strict: bool, rooms: seq<nat>,
                                            big: nat)
    requires from != to && rooms != []
    requires Restart(from, to, src, strict, rooms).code != TargetExhausted
    requires Convert(from, to, src, strict, big).code != TargetExhausted
    ensures (var (parts, one) := (Restart(from, to, src, strict, rooms), Convert(from, to, src, strict, big));
             && parts.n == one.n && parts.out == one.out
             && one.code == Reported(Reports(from, to, src, strict, big), parts.code))
    decreases |rooms|
  {
    hide Convert, Reports, Restart;
    var first := Convert(from, to, src, strict, rooms[0]);
    RestartUnfold(from, to, src, strict, rooms);
    if first.code != TargetExhausted {
      ConvertRoomIrrelevant(from, to, src, strict, rooms[0], big);
    } else {
      ExhaustedIsPrefix(from, to, src, strict, rooms[0], big);
      RestartIsOneCall(from, to, src[first.n..], strict, rooms[1..], big - |first.out|);
    }
  }

  /** Only UTF-32 sources have values to report, and only ones that hold a value above 0x10FFFF. */
  lemma {:induction false} ReportsOnlyTooLarge(from: Form, to: Form, src: seq<Unit>, strict: bool, room: nat)
    requires from != to
    requires from == Utf16 ==> forall i :: 0 <= i < |src| ==> src[i] < 65536
    ensures Reports(from, to, src, strict, room) ==> from == Utf32 && exists i :: 0 <= i < |src| && src[i] > MAX_LEGAL
    decreases |src|
  {
    hide StepOf;
    if src != [] && StepOf(from, to, src, strict, room).Go? {
      var step := StepOf(from, to, src, strict, room);
      var rest := src[step.n..];
      BadIsTooLarge(from, to, src, strict, room);
      ReportsOnlyTooLarge(from, to, rest, strict, room - |step.units|);
      if exists i :: 0 <= i < |rest| && rest[i] > MAX_LEGAL {
        var i :| 0 <= i < |rest| && rest[i] > MAX_LEGAL;
        assert src[step.n + i] > MAX_LEGAL;
      }
    }
  }

  lemma BadIsTooLarge(from: Form, to: Form, src: seq<Unit>, strict: bool, room: nat)
    requires from != to && src != [] && StepOf(from, to, src, strict, room).Go?
    requires from == Utf16 ==> forall i :: 0 <= i < |src| ==> src[i] < 65536
    ensures StepOf(from, to, src, strict, room).bad ==> from == Utf32 && src[0] > MAX_LEGAL
  {
    hide Utf8Bytes, Take8;
    if from == Utf8 { Take8Scalar(src); }
  }

  /** The report does get lost: one call reports the first value, two calls do not. */
  lemma ReportCanBeForgotten()
    ensures (var src := [0x110000, 0x41];
             && Convert(Utf32, Utf8, src, false, 4).code == SourceIllegal
             && Restart(Utf32, Utf8, src, false, [3, 1]).code == ConversionOK)
  {
    var src: seq<Unit> := [0x110000, 0x41];
    assert src[1..] == [0x41] && src[1..][1..] == [] && [0x41][1..] == [];
    assert StepOf(Utf32, Utf8, src, false, 4) == Go(1, Utf8Bytes(REPLACEMENT), true);
    assert StepOf(Utf32, Utf8, src, false, 3) == Go(1, Utf8Bytes(REPLACEMENT), true);
    assert StepOf(Utf32, Utf8, [0x41], false, 0) == Stop(TargetExhausted);
    assert StepOf(Utf32, Utf8, [0x41], false, 1) == Go(1, [0x41], false);
    var first := Convert(Utf32, Utf8, src, false, 3);
    assert first == Result(1, Utf8Bytes(REPLACEMENT), TargetExhausted);
    assert Convert(Utf32, Utf8, [0x41], false, 1) == Result(1, [0x41], ConversionOK);
  }

  /** How much a target must hold so that a restarted converter always gets on. */
  function Longest(to: Form): nat
  {
    match to
    case Utf8 => 4
    case Utf16 => 2
    case Utf32 => 1
  }

  /** With such targets, a call that runs out of room has consumed something. */
  lemma Progress(from: Form, to: Form, src: seq<Unit>, strict: bool, room: nat)
    requires from != to && room >= Longest(to)
    requires Convert(from, to, src, strict, room).code == TargetExhausted
    ensures Convert(from, to, src, strict, room).n > 0
  {
    hide Gather, IsLegalUtf8;
  }

  /** So as many of them as there are source units always get to the end. */
  lemma {:induction false} RestartEnds(from: Form, to: Form, src: seq<Unit>, strict: bool, rooms: seq<nat>)
    requires from != to && |rooms| > |src|
    requires forall i :: 0 <= i < |rooms| ==> rooms[i] >= Longest(to)
    ensures Restart(from, to, src, strict, rooms).code != TargetExhausted
    decreases |rooms|
  {
    hide Convert, Longest;
    var first := Convert(from, to, src, strict, rooms[0]);
    if first.code == TargetExhausted {
      Progress(from, to, src, strict, rooms[0]);
      RestartEnds(from, to, src[first.n..], strict, rooms[1..]);
    }
  }
}
