/** The six converters of ConvertUTF as one machine: a step for each character, and a run of steps. */
module Transcoding {
  import opened Unicode

  datatype Code = ConversionOK | SourceExhausted | TargetExhausted | SourceIllegal

  /** A character read from the source, or why none could be. */
  datatype Source = Stopped(code: Code) | Char(ch: Unit, n: nat)

  /** What one pass of a converter does: leave the loop, or consume `n` units and write `units`;
      `bad` marks a value that is reported as illegal although the loop goes on. */
  datatype Step = Stop(code: Code) | Go(n: nat, units: seq<Unit>, bad: bool)

  function Take8(src: seq<Unit>): (r: Source)
    requires src != []
    ensures r.Char? ==> 1 <= r.n <= |src|
  {
    var extra := TrailingBytes(src[0]);
    if extra >= |src| then Stopped(SourceExhausted)
    else if !IsLegalUtf8(src[..extra + 1]) then Stopped(SourceIllegal)
    else
      LegalIsScalar(src[..extra + 1]);
      Char(Gather(src[..extra + 1]) - Offset(extra), extra + 1)
  }

  function Pair(high: Unit, low: Unit): (ch: Unit)
    requires HighSurrogate(high) && LowSurrogate(low)
    ensures HALF_BASE <= ch <= MAX_LEGAL
  {
    (high - SUR_HIGH_START) * 1024 + (low - SUR_LOW_START) + HALF_BASE
  }

  function Take16(src: seq<Unit>, strict: bool): (r: Source)
    requires src != []
    ensures r.Char? ==> 1 <= r.n <= |src|
  {
    if HighSurrogate(src[0]) then
      if |src| == 1 then Stopped(SourceExhausted)
      else if LowSurrogate(src[1]) then Char(Pair(src[0], src[1]), 2)
      else if strict then Stopped(SourceIllegal)
      else Char(src[0], 1)
    else if strict && LowSurrogate(src[0]) then Stopped(SourceIllegal)
    else Char(src[0], 1)
  }

  function Put8(ch: Unit, n: nat, room: nat): (r: Step)
    ensures r.Go? ==> r.n == n && |r.units| <= room
  {
    var units := Utf8Bytes(if ch <= MAX_LEGAL then ch else REPLACEMENT);
    if |units| > room then Stop(TargetExhausted) else Go(n, units, ch > MAX_LEGAL)
  }

  /** `skips` is what strict mode does with a value too large: report it and write nothing, or leave the loop. */
  function Put16(ch: Unit, n: nat, strict: bool, room: nat, skips: bool): (r: Step)
    ensures r.Go? ==> r.n == n && |r.units| <= room
  {
    if room == 0 then Stop(TargetExhausted)
    else if ch <= MAX_BMP then
      if !Surrogate(ch) then Go(n, [ch], false)
      else if strict then Stop(SourceIllegal)
      else Go(n, [REPLACEMENT], false)
    else if ch > MAX_LEGAL then
      if !strict then Go(n, [REPLACEMENT], false)
      else if skips then Go(n, [], true)
      else Stop(SourceIllegal)
    else if room == 1 then Stop(TargetExhausted)
    else Go(n, Utf16Units(ch), false)
  }

  function Put32(ch: Unit, n: nat, strict: bool, room: nat): (r: Step)
    ensures r.Go? ==> r.n == n && |r.units| <= room
  {
    if room == 0 then Stop(TargetExhausted)
    else if ch > MAX_LEGAL then Go(n, [REPLACEMENT], true)
    else if !Surrogate(ch) then Go(n, [ch], false)
    else if strict then Stop(SourceIllegal)
    else Go(n, [REPLACEMENT], false)
  }

  function Step8(src: seq<Unit>, to: Form, strict: bool, room: nat): Step
    requires src != [] && to != Utf8
  {
    match Take8(src)
    case Stopped(code) => Stop(code)
    case Char(ch, n) =>
      if to == Utf16 then Put16(ch, n, strict, room, false) else Put32(ch, n, strict, room)
  }

  function Step16(src: seq<Unit>, to: Form, strict: bool, room: nat): Step
    requires src != [] && to != Utf16
  {
    match Take16(src, strict)
    case Stopped(code) => Stop(code)
    case Char(ch, n) =>
      if to == Utf8 then Put8(ch, n, room)
      else if room == 0 then Stop(TargetExhausted)
      else Go(n, [ch], false)
  }

  function Step32(src: seq<Unit>, to: Form, strict: bool, room: nat): Step
    requires src != [] && to != Utf32
  {
    if to == Utf16 then Put16(src[0], 1, strict, room, true)
    else if strict && Surrogate(src[0]) then Stop(SourceIllegal)
    else Put8(src[0], 1, room)
  }

  function StepOf(from: Form, to: Form, src: seq<Unit>, strict: bool, room: nat): (r: Step)
    requires src != [] && from != to
    ensures r.Go? ==> 1 <= r.n <= |src| && |r.units| <= room
  {
    match from
    case Utf8 => Step8(src, to, strict, room)
    case Utf16 => Step16(src, to, strict, room)
    case Utf32 => Step32(src, to, strict, room)
  }

  /** What a call gives: source units consumed, target units written, and the code returned. */
  datatype Result = Result(n: nat, out: seq<Unit>, code: Code)

  /** The loop from a state in which it would return `code` if the source ended here. */
  function Run(from: Form, to: Form, src: seq<Unit>, strict: bool, room: nat, code: Code): (r: Result)
    requires from != to
    ensures r.n <= |src| && |r.out| <= room
    decreases |src|
  {
    if src == [] then Result(0, [], code)
    else
      match StepOf(from, to, src, strict, room)
      case Stop(stop) => Result(0, [], stop)
      case Go(n, units, bad) =>
        var rest := Run(from, to, src[n..], strict, room - |units|, if bad then SourceIllegal else code);
        Result(n + rest.n, units + rest.out, rest.code)
  }

  function Convert(from: Form, to: Form, src: seq<Unit>, strict: bool, room: nat): (r: Result)
    requires from != to
    ensures r.n <= |src| && |r.out| <= room
  {
    Run(from, to, src, strict, room, ConversionOK)
  }
}
