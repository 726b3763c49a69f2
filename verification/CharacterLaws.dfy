/** What the converters do with every source, character by character, in the numbers of RFC 3629 and RFC 2781. */
module CharacterLaws {
  import opened Unicode
  import opened Transcoding
  import opened TranscodingLaws

  // ------------------------------------------------------------------ encodings by their values

  function Low6(b: Unit): int
  {
    b as int - 0x80
  }

  /** The bits of a sequence behind its marks, as section 3 of RFC 3629 lays them out. */
  function Utf8Value(s: seq<Unit>): int
    requires 1 <= |s| <= 4
  {
    var lead: int := s[0];
    if |s| == 1 then lead
    else if |s| == 2 then (lead - 0xC0) * 64 + Low6(s[1])
    else if |s| == 3 then (lead - 0xE0) * 4096 + Low6(s[1]) * 64 + Low6(s[2])
    else (lead - 0xF0) * 262144 + Low6(s[1]) * 4096 + Low6(s[2]) * 64 + Low6(s[3])
  }

  predicate IsHigh(u: Unit)
  {
    0xD800 <= u <= 0xDBFF
  }

  predicate IsLow(u: Unit)
  {
    0xDC00 <= u <= 0xDFFF
  }

  /** The value of a surrogate pair, after section 2.2 of RFC 2781. */
  function PairValue(high: Unit, low: Unit): int
  {
    0x10000 + (high as int - 0xD800) * 0x400 + (low as int - 0xDC00)
  }

  /** Do the units encode this value in the form? */
  predicate IsEncoding(form: Form, ch: int, units: seq<Unit>)
  {
    match form
    case Utf8 => RfcUtf8(units) && Utf8Value(units) == ch
    case Utf16 =>
      || (|units| == 1 && units[0] == ch < 0x10000 && !IsHigh(units[0]) && !IsLow(units[0]))
      || (|units| == 2 && IsHigh(units[0]) && IsLow(units[1]) && PairValue(units[0], units[1]) == ch)
    case Utf32 => |units| == 1 && units[0] == ch <= 0x10FFFF && !IsHigh(units[0]) && !IsLow(units[0])
  }

  lemma GatheredValue(s: seq<Unit>)
    requires 1 <= |s| <= 4
    ensures Gather(s) - Offset(|s| - 1) == Utf8Value(s)
  {
    hide Gather;
    GatherFour(s);
  }

  /** Exactly the scalar values have an encoding, and just one. */
  lemma EncodingExactly(form: Form, ch: int, units: seq<Unit>)
    ensures IsEncoding(form, ch, units) <==> 0 <= ch <= 0x10FFFF && Scalar(ch) && units == Encode(form, ch)
  {
    match form
    case Utf8 =>
      hide Utf8Bytes, Gather, RfcUtf8, Utf8Value;
      if RfcUtf8(units) {
        RfcSize(units);
        GatheredValue(units);
        RfcIsEncoding(units);
      }
      if 0 <= ch <= 0x10FFFF && Scalar(ch) {
        EncodingIsRfc(ch);
        GatheredValue(Utf8Bytes(ch));
      }
    case Utf16 => Utf16Exactly(ch, units);
    case Utf32 =>
  }

  lemma RfcSize(s: seq<Unit>)
    requires RfcUtf8(s)
    ensures 1 <= |s| <= 4
  {
  }

  lemma Utf16Exactly(ch: int, units: seq<Unit>)
    ensures IsEncoding(Utf16, ch, units) <==> 0 <= ch <= 0x10FFFF && Scalar(ch) && units == Encode(Utf16, ch)
  {
  }

  // ------------------------------------------------------------------ pieces of a source

  /** Some units of the source, what is written for them and whether they are reported as illegal in passing. */
  datatype Piece = Piece(units: seq<Unit>, image: seq<Unit>, reported: bool)

  predicate GoodUtf8(s: seq<Unit>)
  {
    RfcUtf8(s) || LooseUtf8(s)
  }

  /** What UTF-8 is written for a surrogate that is let through. */
  function SurrogateBytes(u: Unit): seq<Unit>
    requires IsHigh(u) || IsLow(u)
  {
    [0xED, 0x80 + (u - 0xD000) / 64, 0x80 + u % 64]
  }

  /** A surrogate that is half of no pair; one that a cut source might complete is not known to be. */
  predicate IsLone(u: Unit, behind: seq<Unit>)
  {
    IsLow(u) || (IsHigh(u) && behind != [] && !IsLow(behind[0]))
  }

  predicate Good16(to: Form, strict: bool, p: Piece, behind: seq<Unit>)
  {
    && !p.reported
    && if |p.units| == 2 then
         IsHigh(p.units[0]) && IsLow(p.units[1]) && IsEncoding(to, PairValue(p.units[0], p.units[1]), p.image)
       else
         && |p.units| == 1
         && if IsHigh(p.units[0]) || IsLow(p.units[0])
            then !strict && IsLone(p.units[0], behind)
              && p.image == if to == Utf8 then SurrogateBytes(p.units[0]) else p.units
            else IsEncoding(to, p.units[0], p.image)
  }

  predicate Good32(to: Form, strict: bool, p: Piece)
  {
    && |p.units| == 1
    && var u := p.units[0];
       if u > 0x10FFFF then
         if to == Utf8 then p.image == [0xEF, 0xBF, 0xBD] && p.reported
         else if strict then p.image == [] && p.reported
         else p.image == [0xFFFD] && !p.reported
       else if IsHigh(u) || IsLow(u) then
         !strict && !p.reported && p.image == if to == Utf8 then SurrogateBytes(u) else [0xFFFD]
       else
         !p.reported && IsEncoding(to, u, p.image)
  }

  /** A piece that is converted, in front of the rest of the source. */
  predicate IsGood(from: Form, to: Form, strict: bool, p: Piece, behind: seq<Unit>)
  {
    match from
    case Utf8 => GoodUtf8(p.units) && !p.reported && IsEncoding(to, Utf8Value(p.units), p.image)
    case Utf16 => Good16(to, strict, p, behind)
    case Utf32 => Good32(to, strict, p)
  }

  /** Are there fewer bytes than the first one calls for? */
  predicate IsCut(src: seq<Unit>)
    requires src != []
  {
    || (src[0] >= 0xC0 && |src| == 1) || (src[0] >= 0xE0 && |src| == 2) || (src[0] >= 0xF0 && |src| == 3)
    || (src[0] >= 0xF8 && |src| == 4) || (src[0] >= 0xFC && |src| == 5)
  }

  /** What the converter returns in front of a source it cannot go on with. */
  ghost predicate StopsWith(from: Form, strict: bool, src: seq<Unit>, code: Code)
  {
    && src != []
    && match from
       case Utf8 =>
         && (forall k :: 0 <= k <= |src| ==> !GoodUtf8(src[..k]))
         && code == if IsCut(src) then SourceExhausted else SourceIllegal
       case Utf16 =>
         || (IsHigh(src[0]) && |src| == 1 && code == SourceExhausted)
         || (strict && IsLone(src[0], src[1..]) && code == SourceIllegal)
       case Utf32 => strict && (IsHigh(src[0]) || IsLow(src[0])) && code == SourceIllegal
  }

  /** The pieces follow one another in the source, up to its end or to where the converter stops. */
  ghost predicate Covers(from: Form, to: Form, strict: bool, src: seq<Unit>, pieces: seq<Piece>, code: Code)
    decreases |pieces|
  {
    if pieces == [] then if src == [] then code == ConversionOK else StopsWith(from, strict, src, code)
    else
      var p := pieces[0];
      && p.units <= src && IsGood(from, to, strict, p, src[|p.units|..])
      && Covers(from, to, strict, src[|p.units|..], pieces[1..], code)
  }

  function UnitsOf(pieces: seq<Piece>): seq<Unit>
  {
    if pieces == [] then [] else pieces[0].units + UnitsOf(pieces[1..])
  }

  function ImagesOf(pieces: seq<Piece>): seq<Unit>
  {
    if pieces == [] then [] else pieces[0].image + ImagesOf(pieces[1..])
  }

  predicate AnyReported(pieces: seq<Piece>)
  {
    exists i :: 0 <= i < |pieces| && pieces[i].reported
  }

  // ------------------------------------------------------------------ single pieces

  /** Good sequences are those that the test accepts with the length that the first byte calls for. */
  lemma GoodIsLegal(s: seq<Unit>)
    requires GoodUtf8(s)
    ensures 1 <= |s| <= 4 && |s| == TrailingBytes(s[0]) + 1 && IsLegalUtf8(s)
  {
  }

  lemma TakeGood8(src: seq<Unit>, s: seq<Unit>)
    requires GoodUtf8(s) && s <= src
    ensures s != [] && Take8(src) == Char(Utf8Value(s), |s|)
  {
    hide Gather, Utf8Value, IsLegalUtf8, RfcUtf8, LooseUtf8;
    GoodIsLegal(s);
    LegalIsScalar(s);
    GatheredValue(s);
    assert src[0] == s[0] && src[..|s|] == s;
  }

  lemma TakeBad8(src: seq<Unit>)
    requires src != [] && forall k :: 0 <= k <= |src| ==> !GoodUtf8(src[..k])
    ensures Take8(src) == Stopped(if IsCut(src) then SourceExhausted else SourceIllegal)
  {
    hide Gather, IsLegalUtf8, RfcUtf8, LooseUtf8;
    var extra := TrailingBytes(src[0]);
    if extra < |src| {
      LegalExactly(src[..extra + 1]);
      assert !GoodUtf8(src[..extra + 1]);
    }
  }

  lemma SurrogateForm(u: Unit)
    requires IsHigh(u) || IsLow(u)
    ensures Utf8Bytes(u) == SurrogateBytes(u)
  {
    assert (u - 0xD000) / 64 == u / 64 - 832;
    assert u / 64 % 64 == u / 64 - 832;
  }

  lemma ReplacementForm()
    ensures Utf8Bytes(0xFFFD) == [0xEF, 0xBF, 0xBD]
  {
  }

  lemma GoodSize(from: Form, to: Form, strict: bool, p: Piece, behind: seq<Unit>)
    requires from != to && IsGood(from, to, strict, p, behind)
    ensures 1 <= |p.units| <= 4 && |p.image| <= 4
  {
    hide RfcUtf8, Utf8Value, LooseUtf8;
    if from == Utf8 { GoodIsLegal(p.units); }
    if to == Utf8 && RfcUtf8(p.image) { RfcSize(p.image); }
  }

  lemma GoodGoes8(to: Form, strict: bool, src: seq<Unit>, p: Piece, room: nat)
    requires to != Utf8 && p.units <= src && IsGood(Utf8, to, strict, p, src[|p.units|..]) && room >= 4
    ensures src != [] && StepOf(Utf8, to, src, strict, room) == Go(|p.units|, p.image, false)
  {
    hide RfcUtf8, LooseUtf8, Utf8Value, Take8;
    GoodIsLegal(p.units);
    TakeGood8(src, p.units);
    EncodingExactly(to, Utf8Value(p.units), p.image);
  }

  lemma GoodGoes16(to: Form, strict: bool, src: seq<Unit>, p: Piece, room: nat)
    requires to != Utf16 && p.units <= src && Good16(to, strict, p, src[|p.units|..]) && room >= 4
    ensures !p.reported && src != [] && StepOf(Utf16, to, src, strict, room) == Go(|p.units|, p.image, false)
  {
    hide RfcUtf8, Utf8Bytes, IsEncoding;
    var u := p.units[0];
    assert src[0] == u;
    if |p.units| == 2 {
      assert src[1] == p.units[1];
      EncodingExactly(to, PairValue(u, src[1]), p.image);
    } else if IsHigh(u) || IsLow(u) {
      if IsHigh(u) { assert src[1] == src[1..][0]; }
      SurrogateForm(u);
      assert p.units == [u];
    } else {
      EncodingExactly(to, u, p.image);
    }
  }

  lemma GoodGoes32(to: Form, strict: bool, src: seq<Unit>, p: Piece, room: nat)
    requires to != Utf32 && p.units <= src && Good32(to, strict, p) && room >= 4
    ensures src != [] && StepOf(Utf32, to, src, strict, room) == Go(1, p.image, p.reported)
  {
    hide RfcUtf8, Utf8Bytes, IsEncoding;
    var u := p.units[0];
    assert src[0] == u;
    if u > 0x10FFFF {
      ReplacementForm();
    } else if IsHigh(u) || IsLow(u) {
      SurrogateForm(u);
    } else {
      EncodingExactly(to, u, p.image);
    }
  }

  lemma GoodGoes(from: Form, to: Form, strict: bool, src: seq<Unit>, p: Piece, room: nat)
    requires from != to && p.units <= src && IsGood(from, to, strict, p, src[|p.units|..]) && room >= 4
    ensures src != [] && StepOf(from, to, src, strict, room) == Go(|p.units|, p.image, p.reported)
  {
    hide StepOf, Good16, Good32, GoodUtf8, IsEncoding;
    match from
    case Utf8 => GoodGoes8(to, strict, src, p, room);
    case Utf16 => GoodGoes16(to, strict, src, p, room);
    case Utf32 =>
      GoodGoes32(to, strict, src, p, room);
      GoodSize(from, to, strict, p, src[|p.units|..]);
      Good32Size(to, strict, p);
  }

  lemma Good32Size(to: Form, strict: bool, p: Piece)
    requires Good32(to, strict, p)
    ensures |p.units| == 1
  {
  }

  lemma StopsThere(from: Form, to: Form, strict: bool, src: seq<Unit>, code: Code, room: nat)
    requires from != to && StopsWith(from, strict, src, code) && room >= 4
    ensures StepOf(from, to, src, strict, room) == Stop(code)
  {
    hide GoodUtf8, Take8, Utf8Bytes;
    if from == Utf8 {
      TakeBad8(src);
    } else if from == Utf16 && |src| > 1 {
      assert src[1] == src[1..][0];
    }
  }

  // ------------------------------------------------------------------ whole sources

  /** Every source is made of such pieces, up to its end or to where the converter stops. */
  lemma {:induction false} PiecesOf(from: Form, to: Form, strict: bool, src: seq<Unit>)
    returns (pieces: seq<Piece>, code: Code)
    requires from != to && (from == Utf16 ==> forall i :: 0 <= i < |src| ==> src[i] < 0x10000)
    ensures Covers(from, to, strict, src, pieces, code)
    decreases |src|
  {
    hide IsGood, StopsWith;
    if src == [] {
      pieces, code := [], ConversionOK;
    } else {
      var here, p;
      here, p, code := PieceAt(from, to, strict, src);
      if here {
        GoodSize(from, to, strict, p, src[|p.units|..]);
        var more;
        more, code := PiecesOf(from, to, strict, src[|p.units|..]);
        pieces := [p] + more;
        assert pieces[1..] == more;
      } else {
        pieces := [];
      }
    }
  }

  lemma PieceAt(from: Form, to: Form, strict: bool, src: seq<Unit>) returns (here: bool, p: Piece, code: Code)
    requires from != to && src != [] && (from == Utf16 ==> forall i :: 0 <= i < |src| ==> src[i] < 0x10000)
    ensures here ==> p.units <= src && IsGood(from, to, strict, p, src[|p.units|..])
    ensures !here ==> StopsWith(from, strict, src, code)
  {
    hide IsEncoding, Encode, GoodUtf8, Utf8Value;
    code := SourceIllegal;
    p := Piece([], [], false);
    match from
    case Utf8 =>
      if k :| 0 <= k <= |src| && GoodUtf8(src[..k]) {
        GoodIsScalar(src[..k]);
        var ch := Utf8Value(src[..k]);
        EncodingExactly(to, ch, Encode(to, ch));
        here, p := true, Piece(src[..k], Encode(to, ch), false);
      } else {
        here, code := false, if IsCut(src) then SourceExhausted else SourceIllegal;
      }
    case Utf16 =>
      here, p, code := PieceAt16(to, strict, src);
    case Utf32 =>
      var u := src[0];
      if u > 0x10FFFF {
        here := true;
        p := if to == Utf8 then Piece(src[..1], [0xEF, 0xBF, 0xBD], true)
             else if strict then Piece(src[..1], [], true) else Piece(src[..1], [0xFFFD], false);
      } else if IsHigh(u) || IsLow(u) {
        here := !strict;
        p := Piece(src[..1], if to == Utf8 then SurrogateBytes(u) else [0xFFFD], false);
      } else {
        EncodingExactly(to, u, Encode(to, u));
        here, p := true, Piece(src[..1], Encode(to, u), false);
      }
  }

  lemma GoodIsScalar(s: seq<Unit>)
    requires GoodUtf8(s)
    ensures 1 <= |s| <= 4 && 0 <= Utf8Value(s) <= 0x10FFFF && Scalar(Utf8Value(s))
  {
    hide Gather, Utf8Value, IsLegalUtf8, RfcUtf8, LooseUtf8;
    GoodIsLegal(s);
    LegalIsScalar(s);
    GatheredValue(s);
  }

  lemma PieceAt16(to: Form, strict: bool, src: seq<Unit>) returns (here: bool, p: Piece, code: Code)
    requires to != Utf16 && src != [] && forall i :: 0 <= i < |src| ==> src[i] < 0x10000
    ensures here ==> p.units <= src && Good16(to, strict, p, src[|p.units|..])
    ensures !here ==> StopsWith(Utf16, strict, src, code)
  {
    hide IsEncoding, Encode;
    code := SourceIllegal;
    p := Piece([], [], false);
    var u := src[0];
    if IsHigh(u) && |src| == 1 {
      here, code := false, SourceExhausted;
    } else if IsHigh(u) && IsLow(src[1]) {
      var ch := PairValue(u, src[1]);
      EncodingExactly(to, ch, Encode(to, ch));
      here, p := true, Piece(src[..2], Encode(to, ch), false);
    } else if IsHigh(u) || IsLow(u) {
      here := !strict;
      p := Piece(src[..1], if to == Utf8 then SurrogateBytes(u) else src[..1], false);
    } else {
      EncodingExactly(to, u, Encode(to, u));
      here, p := true, Piece(src[..1], Encode(to, u), false);
    }
  }

  /** What a converter returns, given room: it takes the pieces, writes their images, and stops where they do. */
  lemma {:induction false} ConvertExactly(from: Form, to: Form, strict: bool, src: seq<Unit>, pieces: seq<Piece>,
                                          code: Code, room: nat)
    requires from != to && Covers(from, to, strict, src, pieces, code) && room >= 4 * |src|
    ensures Convert(from, to, src, strict, room)
         == Result(|UnitsOf(pieces)|, ImagesOf(pieces), Reported(AnyReported(pieces), code))
    decreases |pieces|
  {
    hide StepOf, IsGood, StopsWith, Convert, Reports, AnyReported;
    ReportedFirst(pieces);
    if pieces == [] {
      if src != [] { StopsThere(from, to, strict, src, code, room); }
      ConvertStops(from, to, src, strict, room);
    } else {
      var p := pieces[0];
      var k := |p.units|;
      GoodSize(from, to, strict, p, src[k..]);
      GoodGoes(from, to, strict, src, p, room);
      ConvertGoes(from, to, src, strict, room);
      ConvertExactly(from, to, strict, src[k..], pieces[1..], code, room - |p.image|);
    }
  }

  // ------------------------------------------------------------------ UTF-8 sources

  ghost predicate IsUtf8(src: seq<Unit>, sequences: seq<seq<Unit>>)
    decreases |sequences|
  {
    if sequences == [] then src == []
    else
      var s := sequences[0];
      GoodUtf8(s) && s <= src && IsUtf8(src[|s|..], sequences[1..])
  }

  lemma {:induction false} SequencesOf(to: Form, strict: bool, src: seq<Unit>, pieces: seq<Piece>, code: Code)
    returns (sequences: seq<seq<Unit>>)
    requires to != Utf8 && Covers(Utf8, to, strict, src, pieces, code)
    ensures UnitsOf(pieces) <= src && IsUtf8(UnitsOf(pieces), sequences)
    ensures (var left := src[|UnitsOf(pieces)|..];
             if left == [] then code == ConversionOK else StopsWith(Utf8, strict, left, code))
    decreases |pieces|
  {
    hide GoodUtf8, IsEncoding, StopsWith;
    if pieces == [] {
      sequences := [];
      assert src[0..] == src;
    } else {
      var s := pieces[0].units;
      var more := SequencesOf(to, strict, src[|s|..], pieces[1..], code);
      sequences := [s] + more;
      var all := UnitsOf(pieces);
      assert sequences[1..] == more && src == s + src[|s|..];
      assert all == s + UnitsOf(pieces[1..]) && all[|s|..] == UnitsOf(pieces[1..]);
      assert src[|all|..] == src[|s|..][|UnitsOf(pieces[1..])|..];
    }
  }

  lemma {:induction false} PiecesFrom(to: Form, strict: bool, src: seq<Unit>, sequences: seq<seq<Unit>>)
    returns (pieces: seq<Piece>)
    requires to != Utf8 && IsUtf8(src, sequences)
    ensures Covers(Utf8, to, strict, src, pieces, ConversionOK) && !AnyReported(pieces)
    decreases |sequences|
  {
    hide GoodUtf8, IsEncoding, StopsWith, AnyReported, Encode, Utf8Value;
    if sequences == [] {
      pieces := [];
    } else {
      var s := sequences[0];
      var more := PiecesFrom(to, strict, src[|s|..], sequences[1..]);
      GoodIsScalar(s);
      var ch := Utf8Value(s);
      EncodingExactly(to, ch, Encode(to, ch));
      pieces := [Piece(s, Encode(to, ch), false)] + more;
      assert pieces[1..] == more;
    }
    ReportedFirst(pieces);
  }

  lemma {:induction false} NoneReported8(to: Form, strict: bool, src: seq<Unit>, pieces: seq<Piece>, code: Code)
    requires Covers(Utf8, to, strict, src, pieces, code)
    ensures !AnyReported(pieces)
    decreases |pieces|
  {
    hide GoodUtf8, IsEncoding, StopsWith, AnyReported;
    ReportedFirst(pieces);
    if pieces != [] { NoneReported8(to, strict, src[|pieces[0].units|..], pieces[1..], code); }
  }

  /** From UTF-8, in both modes, a call ends well exactly if the source is made of good sequences; else it stops in
      front of the first that is none, as exhausted if bytes are missing from it and as illegal if not. */
  lemma Utf8Exactly(to: Form, strict: bool, src: seq<Unit>, room: nat)
    requires to != Utf8 && room >= 4 * |src|
    ensures (var r := Convert(Utf8, to, src, strict, room);
             var left := src[r.n..];
             && (exists sequences :: IsUtf8(src[..r.n], sequences))
             && (forall k :: 0 <= k <= |left| ==> !GoodUtf8(left[..k]))
             && r.code == if left == [] then ConversionOK else if IsCut(left) then SourceExhausted else SourceIllegal)
    ensures Convert(Utf8, to, src, strict, room).code == ConversionOK <==> exists sequences :: IsUtf8(src, sequences)
  {
    hide GoodUtf8, Convert, Covers, IsUtf8, AnyReported, UnitsOf, ImagesOf;
    var pieces, code := PiecesOf(Utf8, to, strict, src);
    ConvertExactly(Utf8, to, strict, src, pieces, code, room);
    NoneReported8(to, strict, src, pieces, code);
    var found := SequencesOf(to, strict, src, pieces, code);
    var n := |UnitsOf(pieces)|;
    assert src[..n] == UnitsOf(pieces);
    if src[n..] == [] { NothingGood(); assert src[..n] == src; }
    if sequences :| IsUtf8(src, sequences) {
      var others := PiecesFrom(to, strict, src, sequences);
      ConvertExactly(Utf8, to, strict, src, others, ConversionOK, room);
    }
  }

  lemma NothingGood()
    ensures forall k :: 0 <= k <= 0 ==> !GoodUtf8([][..k])
  {
  }

  lemma ReportedFirst(pieces: seq<Piece>)
    ensures AnyReported(pieces) <==> pieces != [] && (pieces[0].reported || AnyReported(pieces[1..]))
  {
    assert forall i :: 0 < i < |pieces| ==> pieces[i] == pieces[1..][i - 1];
  }
}
