/** When a restarted conversion returns the code that one call returns. */
module RestartCodes {
  import opened Transcoding
  import opened TranscodingLaws
  import opened Unicode

  // ------------------------------------------------------------------ the condition

  /** A value that strict mode stops at. */
  predicate Halts(strict: bool, ch: Unit)
  {
    strict && Surrogate(ch)
  }

  /** A value that is reported while the conversion goes on. */
  predicate TooLarge(to: Form, strict: bool, ch: Unit)
  {
    ch > MAX_LEGAL && (to == Utf8 || strict)
  }

  ghost predicate NoneHalts(strict: bool, src: seq<Unit>)
  {
    forall i :: 0 <= i < |src| ==> !Halts(strict, src[i])
  }

  ghost predicate NoneTooLarge(to: Form, strict: bool, src: seq<Unit>)
  {
    forall i :: 0 <= i < |src| ==> !TooLarge(to, strict, src[i])
  }

  /** Can a target end between a value that was reported and the end of these values behind it? A value that is too
      large for UTF-16 takes no unit of the target but needs one to be free. */
  predicate CanBeCutOff(to: Form, behind: seq<Unit>)
  {
    if to == Utf8 then behind != []
    else |behind| >= 2 || (|behind| == 1 && behind[0] > MAX_BMP)
  }

  /** The last value that is reported, if there is one, can be cut off from the end. */
  ghost predicate LastReportLost(to: Form, src: seq<Unit>, strict: bool, i: nat)
  {
    && i < |src| && TooLarge(to, strict, src[i])
    && NoneTooLarge(to, strict, src[i + 1..]) && CanBeCutOff(to, src[i + 1..])
  }

  /** Some choice of targets makes a restarted conversion forget a report. */
  ghost predicate Forgets(from: Form, to: Form, src: seq<Unit>, strict: bool)
  {
    from == Utf32 && NoneHalts(strict, src) && exists i :: LastReportLost(to, src, strict, i)
  }

  // ------------------------------------------------------------------ single steps

  lemma StepOfValue(to: Form, src: seq<Unit>, strict: bool, room: nat)
    requires to != Utf32 && src != []
    ensures (var step := StepOf(Utf32, to, src, strict, room);
             && (step.Go? ==> step.n == 1 && !Halts(strict, src[0]) && step.bad == TooLarge(to, strict, src[0]))
             && (step.Stop? ==> Halts(strict, src[0]) || step.code == TargetExhausted)
             && step != Stop(ConversionOK))
  {
    hide Utf8Bytes, Utf16Units;
  }

  /** A value behind which nothing else fits: what is left when a report came just before. */
  lemma StepAfterReport(to: Form, src: seq<Unit>, strict: bool, room: nat)
    requires to == Utf16 && src != [] && TooLarge(to, strict, src[0])
    requires StepOf(Utf32, to, src, strict, room).Go?
    ensures room >= 1 && StepOf(Utf32, to, src, strict, room).units == []
  {
    hide Utf8Bytes, Utf16Units;
  }

  lemma LastBasicFits(ch: Unit, strict: bool, room: nat)
    requires ch <= MAX_BMP && room >= 1
    ensures Convert(Utf32, Utf16, [ch], strict, room).code != TargetExhausted
  {
    hide Utf8Bytes, Utf16Units, Convert, Reports;
    var step := StepOf(Utf32, Utf16, [ch], strict, room);
    assert [ch][1..] == [];
    if step.Go? {
      ConvertGoes(Utf32, Utf16, [ch], strict, room);
      ConvertStops(Utf32, Utf16, [], strict, room - |step.units|);
    } else {
      ConvertStops(Utf32, Utf16, [ch], strict, room);
    }
  }

  // ------------------------------------------------------------------ what a code says

  lemma {:induction false} OkMeansClean(to: Form, src: seq<Unit>, strict: bool, room: nat)
    requires to != Utf32 && Convert(Utf32, to, src, strict, room).code == ConversionOK
    ensures NoneHalts(strict, src) && NoneTooLarge(to, strict, src)
    decreases |src|
  {
    hide StepOf, Convert, Reports;
    if src != [] {
      StepOfValue(to, src, strict, room);
      if StepOf(Utf32, to, src, strict, room).Stop? {
        ConvertStops(Utf32, to, src, strict, room);
      } else {
        ConvertGoes(Utf32, to, src, strict, room);
        OkMeansClean(to, src[1..], strict, room - |StepOf(Utf32, to, src, strict, room).units|);
        assert forall i :: 0 < i < |src| ==> src[i] == src[1..][i - 1];
      }
    }
  }

  lemma {:induction false} CleanMeansOk(to: Form, src: seq<Unit>, strict: bool, room: nat)
    requires to != Utf32 && NoneHalts(strict, src) && NoneTooLarge(to, strict, src)
    ensures Convert(Utf32, to, src, strict, room).code in {ConversionOK, TargetExhausted}
    decreases |src|
  {
    hide StepOf, Convert, Reports;
    if src == [] {
      ConvertStops(Utf32, to, src, strict, room);
    } else {
      StepOfValue(to, src, strict, room);
      if StepOf(Utf32, to, src, strict, room).Stop? {
        ConvertStops(Utf32, to, src, strict, room);
      } else {
        ConvertGoes(Utf32, to, src, strict, room);
        CleanMeansOk(to, src[1..], strict, room - |StepOf(Utf32, to, src, strict, room).units|);
      }
    }
  }

  lemma {:induction false} ReportsTooLarge(to: Form, src: seq<Unit>, strict: bool, room: nat)
    requires to != Utf32
    ensures Reports(Utf32, to, src, strict, room) ==> !NoneTooLarge(to, strict, src)
    ensures (&& NoneHalts(strict, src) && !NoneTooLarge(to, strict, src)
             && Convert(Utf32, to, src, strict, room).code != TargetExhausted) ==> Reports(Utf32, to, src, strict, room)
    decreases |src|
  {
    hide StepOf, Convert, Reports;
    if src == [] {
      ConvertStops(Utf32, to, src, strict, room);
    } else {
      StepOfValue(to, src, strict, room);
      if StepOf(Utf32, to, src, strict, room).Stop? {
        ConvertStops(Utf32, to, src, strict, room);
      } else {
        ConvertGoes(Utf32, to, src, strict, room);
        ReportsTooLarge(to, src[1..], strict, room - |StepOf(Utf32, to, src, strict, room).units|);
        assert forall i :: 0 < i < |src| ==> src[i] == src[1..][i - 1];
      }
    }
  }

  // ------------------------------------------------------------------ a report that is lost

  /** What a call that ran out of room consumed held no value that halts, and a value it reported can be cut off. */
  lemma {:induction false} ExhaustedAfter(to: Form, src: seq<Unit>, strict: bool, room: nat, i: nat)
    requires to != Utf32 && Convert(Utf32, to, src, strict, room).code == TargetExhausted
    requires i < Convert(Utf32, to, src, strict, room).n
    ensures !Halts(strict, src[i]) && (TooLarge(to, strict, src[i]) ==> CanBeCutOff(to, src[i + 1..]))
    decreases |src|
  {
    hide StepOf, Convert, Reports;
    StepOfValue(to, src, strict, room);
    var step := StepOf(Utf32, to, src, strict, room);
    if step.Stop? {
      ConvertStops(Utf32, to, src, strict, room);
    } else {
      ConvertGoes(Utf32, to, src, strict, room);
      var rest := src[1..];
      if i > 0 {
        ExhaustedAfter(to, rest, strict, room - |step.units|, i - 1);
        assert rest[i..] == src[i + 1..];
      } else if TooLarge(to, strict, src[0]) {
        if rest == [] { ConvertStops(Utf32, to, rest, strict, room - |step.units|); }
        if to == Utf16 {
          StepAfterReport(to, src, strict, room);
          if |rest| == 1 && rest[0] <= MAX_BMP {
            assert rest == [rest[0]];
            LastBasicFits(rest[0], strict, room);
          }
        }
      }
    }
  }

  /** If a restarted conversion reports nothing, no value halts, and the last one that is too large can be cut off. */
  lemma {:induction false} OkMeansCutOff(to: Form, src: seq<Unit>, strict: bool, rooms: seq<nat>, i: nat)
    requires to != Utf32 && rooms != [] && Restart(Utf32, to, src, strict, rooms).code == ConversionOK
    requires i < |src|
    ensures !Halts(strict, src[i])
    ensures TooLarge(to, strict, src[i]) && NoneTooLarge(to, strict, src[i + 1..]) ==> CanBeCutOff(to, src[i + 1..])
    decreases |rooms|
  {
    hide Convert, Restart;
    RestartUnfold(Utf32, to, src, strict, rooms);
    var first := Convert(Utf32, to, src, strict, rooms[0]);
    if first.code != TargetExhausted || |rooms| == 1 {
      OkMeansClean(to, src, strict, rooms[0]);
    } else if i < first.n {
      ExhaustedAfter(to, src, strict, rooms[0], i);
    } else {
      OkMeansCutOff(to, src[first.n..], strict, rooms[1..], i - first.n);
      assert src[first.n..][i - first.n + 1..] == src[i + 1..];
    }
  }

  lemma NoneCons(to: Form, src: seq<Unit>, strict: bool)
    ensures src == [] ==> NoneTooLarge(to, strict, src)
    ensures src != [] ==>
      (NoneTooLarge(to, strict, src) <==> !TooLarge(to, strict, src[0]) && NoneTooLarge(to, strict, src[1..]))
  {
    hide TooLarge;
    if src != [] { assert forall j :: 0 < j < |src| ==> src[j] == src[1..][j - 1]; }
  }

  lemma {:induction false} LastOf(to: Form, src: seq<Unit>, strict: bool) returns (i: nat)
    requires !NoneTooLarge(to, strict, src)
    ensures i < |src| && TooLarge(to, strict, src[i]) && NoneTooLarge(to, strict, src[i + 1..])
    decreases |src|
  {
    hide TooLarge, NoneTooLarge;
    NoneCons(to, src, strict);
    if NoneTooLarge(to, strict, src[1..]) {
      i := 0;
    } else {
      var j := LastOf(to, src[1..], strict);
      i := j + 1;
      assert src[1..][j + 1..] == src[i + 1..];
    }
  }

  // ------------------------------------------------------------------ targets that lose it

  /** How many units the values take. */
  function Need(to: Form, src: seq<Unit>, strict: bool): nat
  {
    if src == [] then 0
    else
      var here := if to == Utf8 then |Utf8Bytes(if src[0] <= MAX_LEGAL then src[0] else REPLACEMENT)|
                  else if src[0] <= MAX_BMP then 1
                  else if src[0] > MAX_LEGAL then if strict then 0 else 1
                  else 2;
      here + Need(to, src[1..], strict)
  }

  lemma StepNeeds(to: Form, src: seq<Unit>, strict: bool, room: nat)
    requires to != Utf32 && src != [] && !Halts(strict, src[0])
    requires room >= Need(to, src[..1], strict) + if to == Utf16 then 1 else 0
    ensures (var step := StepOf(Utf32, to, src, strict, room);
             step.Go? && |step.units| == Need(to, src[..1], strict))
  {
    hide Utf8Bytes;
    assert src[..1][1..] == [];
  }

  /** Values that fit are passed. */
  lemma {:induction false} RunsThrough(to: Form, a: seq<Unit>, b: seq<Unit>, strict: bool, room: nat)
    requires to != Utf32 && NoneHalts(strict, a)
    requires room >= Need(to, a, strict) + if to == Utf16 then 1 else 0
    ensures (var (all, rest) := (Convert(Utf32, to, a + b, strict, room),
                                 Convert(Utf32, to, b, strict, room - Need(to, a, strict)));
             all.n == |a| + rest.n && (rest.code == TargetExhausted ==> all.code == TargetExhausted))
    decreases |a|
  {
    hide StepOf, Convert, Reports;
    if a == [] {
      assert a + b == b;
    } else {
      NeedCons(to, a, strict);
      assert (a + b)[..1] == a[..1] && (a + b)[1..] == a[1..] + b;
      StepNeeds(to, a + b, strict, room);
      StepOfValue(to, a + b, strict, room);
      ConvertGoes(Utf32, to, a + b, strict, room);
      RunsThrough(to, a[1..], b, strict, room - Need(to, a[..1], strict));
    }
  }

  lemma NeedCons(to: Form, src: seq<Unit>, strict: bool)
    requires src != []
    ensures Need(to, src, strict) == Need(to, src[..1], strict) + Need(to, src[1..], strict)
  {
    assert src[..1][1..] == [];
  }

  /** With no room but the unit that a report needs, the target ends in front of the end. */
  lemma StopsShort(to: Form, b: seq<Unit>, strict: bool)
    requires to != Utf32 && NoneHalts(strict, b) && CanBeCutOff(to, b) && NoneTooLarge(to, strict, b)
    requires to == Utf16 ==> strict
    ensures Convert(Utf32, to, b, strict, if to == Utf16 then 1 else 0).code == TargetExhausted
  {
    hide Utf8Bytes, Utf16Units, Convert, Reports;
    var room := if to == Utf16 then 1 else 0;
    if to == Utf16 && b[0] <= MAX_BMP {
      ConvertGoes(Utf32, to, b, strict, room);
      ConvertStops(Utf32, to, b[1..], strict, 0);
    } else {
      ConvertStops(Utf32, to, b, strict, room);
    }
  }

  /** Two targets that make a restarted conversion forget the last report. */
  lemma LosingRooms(to: Form, src: seq<Unit>, strict: bool, i: nat) returns (rooms: seq<nat>)
    requires to != Utf32 && NoneHalts(strict, src) && LastReportLost(to, src, strict, i)
    ensures rooms != [] && Restart(Utf32, to, src, strict, rooms).code == ConversionOK
  {
    hide StepOf, Convert, Restart, Need, CanBeCutOff;
    var (a, b) := (src[..i + 1], src[i + 1..]);
    var room := Need(to, a, strict) + if to == Utf16 then 1 else 0;
    assert src == a + b;
    RunsThrough(to, a, b, strict, room);
    StopsShort(to, b, strict);
    var first := Convert(Utf32, to, src, strict, room);
    var left := src[first.n..];
    assert forall j :: 0 <= j < |left| ==> left[j] == b[first.n - |a| + j];
    rooms := [room, 4 * |left|];
    RoomSuffices(Utf32, to, left, strict, 4 * |left|, ConversionOK) by { RatioAtMostFour(to, |left|); }
    CleanMeansOk(to, left, strict, 4 * |left|);
    RestartUnfold(Utf32, to, src, strict, rooms);
    RestartUnfold(Utf32, to, left, strict, rooms[1..]);
    ConvertNotExhausted(to, left, strict, 4 * |left|);
  }

  lemma RatioAtMostFour(to: Form, n: nat)
    requires to != Utf32
    ensures Ratio(Utf32, to) * n <= 4 * n
  {
  }

  lemma ConvertNotExhausted(to: Form, src: seq<Unit>, strict: bool, room: nat)
    requires to != Utf32 && Run(Utf32, to, src, strict, room, ConversionOK).code != TargetExhausted
    ensures Convert(Utf32, to, src, strict, room).code != TargetExhausted
  {
    hide Run;
  }

  // ------------------------------------------------------------------ both directions

  /** Restarting through every choice of targets that gets to the end returns the code of one call, if and only if the
      source holds no report that can be cut off from its end. */
  lemma RestartCodeExactly(from: Form, to: Form, src: seq<Unit>, strict: bool, big: nat)
    requires from != to && Convert(from, to, src, strict, big).code != TargetExhausted
    requires from == Utf16 ==> forall i :: 0 <= i < |src| ==> src[i] < 65536
    ensures (forall rooms: seq<nat> :: rooms != [] && Restart(from, to, src, strict, rooms).code != TargetExhausted ==>
               Restart(from, to, src, strict, rooms).code == Convert(from, to, src, strict, big).code)
            <==> !Forgets(from, to, src, strict)
  {
    hide Convert, Restart, Reports;
    if Forgets(from, to, src, strict) {
      var i :| LastReportLost(to, src, strict, i);
      var rooms := LosingRooms(to, src, strict, i);
      RestartIsOneCall(from, to, src, strict, rooms, big);
      ReportsTooLarge(to, src, strict, big);
    } else {
      forall rooms: seq<nat> | rooms != [] && Restart(from, to, src, strict, rooms).code != TargetExhausted
        ensures Restart(from, to, src, strict, rooms).code == Convert(from, to, src, strict, big).code
      {
        RestartIsOneCall(from, to, src, strict, rooms, big);
        ReportsOnlyTooLarge(from, to, src, strict, big);
        if from == Utf32 && Restart(from, to, src, strict, rooms).code == ConversionOK {
          ReportsTooLarge(to, src, strict, big);
          if !NoneTooLarge(to, strict, src) { CutOffIsForgotten(to, src, strict, rooms); }
        }
      }
    }
  }

  lemma CutOffIsForgotten(to: Form, src: seq<Unit>, strict: bool, rooms: seq<nat>)
    requires to != Utf32 && rooms != [] && Restart(Utf32, to, src, strict, rooms).code == ConversionOK
    requires !NoneTooLarge(to, strict, src)
    ensures Forgets(Utf32, to, src, strict)
  {
    hide Restart, CanBeCutOff;
    var i := LastOf(to, src, strict);
    forall j | 0 <= j < |src|
      ensures !Halts(strict, src[j])
    {
      OkMeansCutOff(to, src, strict, rooms, j);
    }
    OkMeansCutOff(to, src, strict, rooms, i);
    assert LastReportLost(to, src, strict, i);
  }

  /** For UTF-8 as the target: some value is too large, the last one is not, and strict mode stops nowhere. */
  lemma ForgetsUtf8(src: seq<Unit>, strict: bool)
    ensures Forgets(Utf32, Utf8, src, strict)
       <==> src != [] && src[|src| - 1] <= MAX_LEGAL && (exists i :: 0 <= i < |src| && src[i] > MAX_LEGAL)
            && (strict ==> forall i :: 0 <= i < |src| ==> !Surrogate(src[i]))
  {
    if exists i :: 0 <= i < |src| && src[i] > MAX_LEGAL {
      var k :| 0 <= k < |src| && src[k] > MAX_LEGAL;
      assert TooLarge(Utf8, strict, src[k]);
      var i := LastOf(Utf8, src, strict);
      if i < |src| - 1 {
        assert src[i + 1..][|src| - i - 2] == src[|src| - 1];
        assert LastReportLost(Utf8, src, strict, i) <==> CanBeCutOff(Utf8, src[i + 1..]);
      }
    }
    if Forgets(Utf32, Utf8, src, strict) {
      var i :| LastReportLost(Utf8, src, strict, i);
      assert src[i + 1..][|src| - i - 2] == src[|src| - 1];
      assert forall j :: 0 <= j < |src| ==> (Halts(strict, src[j]) <==> strict && Surrogate(src[j]));
    }
  }

  /** From UTF-8 and UTF-16, restarting takes the same input, gives the same output and returns the same code. */
  lemma RestartChangesNothing(from: Form, to: Form, src: seq<Unit>, strict: bool, rooms: seq<nat>, big: nat)
    requires from != Utf32 && from != to && rooms != []
    requires from == Utf16 ==> forall i :: 0 <= i < |src| ==> src[i] < 65536
    requires Restart(from, to, src, strict, rooms).code != TargetExhausted
    requires Convert(from, to, src, strict, big).code != TargetExhausted
    ensures Restart(from, to, src, strict, rooms) == Convert(from, to, src, strict, big)
  {
    hide Convert, Restart, Reports;
    RestartIsOneCall(from, to, src, strict, rooms, big);
    ReportsOnlyTooLarge(from, to, src, strict, big);
  }
}
