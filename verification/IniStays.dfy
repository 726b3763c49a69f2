/** Which values come through a first load, where strings stay in the buffer: besides those that can be written, values
    whose body ends at once and that the buffer happens to end at the right place. */
module IniStays {
  import opened Bytes
  import opened IniFile
  import opened IniLines
  import opened IniLoading
  import opened IniPrint
  import opened IniReader
  import opened IniText

  /** Nothing but what is passed over, and then a comment that the text ends with and that stays as it is. */
  ghost predicate EndsInComment(t: string)
    decreases |t|
  {
    var u := SkipSpaces(t);
    if u != "" && IsComment(u[0]) then CommentKept(u)
    else TurnOf(t).Next? && EndsInComment(TurnOf(t).rest)
  }

  /** A value whose first line is the end tag, so that it is left in the text, and that a comment ends. */
  ghost predicate Stays(v: string)
  {
    LineEnd(v) < |v| && Line(v) == END_TAG && EndsInComment(AfterLine(v))
  }

  /** What is written behind a value on several lines. */
  function Tail(rest: string): (t: string)
    ensures |t| == |rest| + 13 && t[0] == '\n' && t[1..] == END_TAG + "\n" + rest
  {
    "\n" + (END_TAG + "\n" + rest)
  }

  // ------------------------------------------------------------------ a text with the tail behind it

  lemma {:induction false} LineEndBefore(t: string, rest: string)
    ensures LineEnd(t + Tail(rest)) == LineEnd(t) && Line(t + Tail(rest)) == Line(t)
    decreases |t|
  {
    hide Tail;
    var all := t + Tail(rest);
    if t != "" {
      LineEndBefore(t[1..], rest);
      assert all[0] == t[0] && all[1..] == t[1..] + Tail(rest);
    }
    assert all[..LineEnd(t)] == t[..LineEnd(t)];
  }

  lemma {:induction false} ScanBefore(t: string, stop: char, rest: string)
    requires stop != '\n'
    ensures ScanTo(t + Tail(rest), stop) == ScanTo(t, stop)
    decreases |t|
  {
    hide Tail;
    var all := t + Tail(rest);
    if t != "" {
      ScanBefore(t[1..], stop, rest);
      assert all[0] == t[0] && all[1..] == t[1..] + Tail(rest);
    }
  }

  lemma {:induction false} SkipBefore(t: string, rest: string)
    ensures SkipSpaces(t + Tail(rest)) == if SkipSpaces(t) == "" then Tail(rest)[1..] else SkipSpaces(t) + Tail(rest)
    decreases |t|
  {
    var all := t + Tail(rest);
    if t == "" {
      assert all == Tail(rest);
      assert END_TAG[0] == 'E' && Tail(rest)[1..][0] == 'E';
    } else {
      assert all[0] == t[0] && all[1..] == t[1..] + Tail(rest);
      if IsSpace(t[0]) { SkipBefore(t[1..], rest); }
    }
  }

  lemma AfterLineBefore(t: string, rest: string)
    ensures AfterLine(t + Tail(rest))
         == if LineEnd(t) == |t| || t[LineEnd(t)..] == "\r" then Tail(rest)[1..] else AfterLine(t) + Tail(rest)
  {
    hide LineEnd, Tail, BreakLength, AfterLine;
    LineEndBefore(t, rest);
    var (n, tail) := (LineEnd(t), Tail(rest));
    AfterLineIs(t);
    AfterLineIs(t + tail);
    Cut(t, tail, n);
    TailBreaks(rest);
    if n < |t| && t[n..] != "\r" {
      assert t[n..][0] == t[n];
      BreakBefore(t[n..], tail);
    }
  }

  lemma Cut(a: string, b: string, n: nat)
    requires n <= |a|
    ensures (a + b)[n..] == a[n..] + b && (n == |a| ==> (a + b)[n..] == b)
  {
  }

  lemma TailBreaks(rest: string)
    ensures BreakLength(Tail(rest)) == 1 && BreakLength("\r" + Tail(rest)) == 2
    ensures ("\r" + Tail(rest))[2..] == Tail(rest)[1..]
  {
    hide Tail;
    assert ("\r" + Tail(rest))[1] == Tail(rest)[0];
  }

  lemma BreakBefore(t: string, tail: string)
    requires t != "" && IsNewLine(t[0]) && t != "\r"
    ensures BreakLength(t + tail) == BreakLength(t)
    ensures (t + tail)[BreakLength(t)..] == t[BreakLength(t)..] + tail
  {
    if |t| == 1 { assert t[0] == '\n'; } else { assert (t + tail)[1] == t[1]; }
  }

  lemma {:induction false} CountBefore(t: string, rest: string)
    requires SkipSpaces(t) != ""
    ensures CountBreaks(t + Tail(rest)) == CountBreaks(t)
    decreases |t|
  {
    hide Tail;
    var all := t + Tail(rest);
    assert all[0] == t[0] && all[1..] == t[1..] + Tail(rest);
    if IsNewLine(t[0]) {
      BreakIsSpace(t);
      var b := BreakLength(t);
      assert |t| >= 2 ==> all[1] == t[1];
      assert all[b..] == t[b..] + Tail(rest);
      CountBefore(t[b..], rest);
    } else if IsSpace(t[0]) {
      CountBefore(t[1..], rest);
    }
  }

  /** A comment does not go on with the tail. */
  lemma {:induction false} CommentBefore(t: string, rest: string)
    requires t != "" && IsComment(t[0])
    ensures (t + Tail(rest))[0] == t[0] && CommentText(t + Tail(rest)) == CommentText(t)
    ensures CommentKept(t) ==> AfterComment(t + Tail(rest), true) == Tail(rest)[1..]
    decreases |t|
  {
    hide LineEnd, AfterLine, Line, SkipSpaces, CountBreaks, CommentText, Feeds, Tail;
    var all := t + Tail(rest);
    CommentTextUnfold(t);
    CommentTextUnfold(all);
    LineEndBefore(t, rest);
    AfterLineBefore(t, rest);
    LineParts(t);
    TagNoComment(rest);
    var u := AfterLine(t);
    GoesOnAt(u, true);
    GoesOnAt(AfterLine(all), true);
    NoSpacesLeft();
    if LineEnd(t) < |t| && t[LineEnd(t)..] != "\r" {
      SkipBefore(u, rest);
      if CommentGoesOn(u, true) {
        CountBefore(u, rest);
        CommentBefore(SkipSpaces(u), rest);
      }
    } else if LineEnd(t) < |t| {
      CutAfterReturn(t);
    }
  }

  lemma CutAfterReturn(t: string)
    requires LineEnd(t) < |t| && t[LineEnd(t)..] == "\r"
    ensures AfterLine(t) == "" && t[LineEnd(t)] == '\r'
  {
    hide LineEnd;
    assert t[LineEnd(t)] == t[LineEnd(t)..][0];
  }

  lemma TagNoComment(rest: string)
    ensures SkipSpaces(Tail(rest)[1..]) == Tail(rest)[1..] && !IsComment(Tail(rest)[1])
  {
    assert END_TAG[0] == 'E' && Tail(rest)[1..][0] == 'E';
  }

  lemma NoSpacesLeft()
    ensures SkipSpaces("") == ""
  {
  }

  /** A turn at a text with the tail behind it. */
  lemma TurnBefore(t: string, rest: string)
    ensures (var all := TurnOf(t + Tail(rest));
             match TurnOf(t)
             case Over => all.Next? && all.cut == None && |all.rest| < |Tail(rest)|
             case Next(r, cut, open) =>
               && all.Next? && all.cut == cut
               && (cut == None && r != "" ==> all.rest == r + Tail(rest) && all.open == open)
               && (cut == None && r == "" ==> |all.rest| <= |Tail(rest)|)
               && (cut != None && CommentKept(SkipSpaces(t)) ==> all.rest == Tail(rest)[1..])
             case Hit(_, shown, _) => all.Hit? && all.shown == shown)
  {
    hide TurnAt, SkipSpaces, Tail, CommentKept, CommentLines, AfterComment, Join;
    var (u, all) := (SkipSpaces(t), t + Tail(rest));
    SpacesAreFront(t);
    SkipBefore(t, rest);
    if u == "" {
      NothingAt();
      TailTurn(rest);
    } else {
      TurnAtBefore(u, rest);
      var k := |t| - |u|;
      assert all[..k] == t[..k] && |all| - |u + Tail(rest)| == k;
    }
  }

  lemma NothingAt()
    ensures TurnAt("") == Over
  {
  }

  lemma TailTurn(rest: string)
    ensures TurnAt(Tail(rest)[1..]) == Next("\n" + rest, None, None)
  {
    hide Tail;
    var t := END_TAG + "\n" + rest;
    LineOf(END_TAG, rest);
    EndTagIsTag();
    ScanTag(rest);
    assert END_TAG[0] == 'E' && t[0] == 'E' && t[|END_TAG|..] == "\n" + rest;
  }

  lemma ScanTag(rest: string)
    ensures ScanTo(END_TAG + "\n" + rest, '=') == |END_TAG|
  {
    NoStopIn(END_TAG, rest);
  }

  lemma {:induction false} NoStopIn(a: string, rest: string)
    requires forall i :: 0 <= i < |a| ==> a[i] != '=' && !IsNewLine(a[i])
    ensures ScanTo(a + "\n" + rest, '=') == |a|
    decreases |a|
  {
    if a == "" {
      assert ("" + "\n" + rest)[0] == '\n';
    } else {
      NoStopIn(a[1..], rest);
      assert (a + "\n" + rest)[1..] == a[1..] + "\n" + rest;
    }
  }

  lemma TurnAtBefore(u: string, rest: string)
    requires u != "" && !IsSpace(u[0])
    ensures (u + Tail(rest))[0] == u[0]
    ensures (var all := TurnAt(u + Tail(rest));
             match TurnAt(u)
             case Over => false
             case Next(r, cut, open) =>
               && all.Next? && all.cut == cut
               && (cut == None && r != "" ==> all.rest == r + Tail(rest) && all.open == open)
               && (cut == None && r == "" ==> |all.rest| <= |Tail(rest)|)
               && (cut != None ==> IsComment(u[0]) && (CommentKept(u) ==> all.rest == Tail(rest)[1..]))
             case Hit(_, shown, _) => all.Hit? && all.shown == shown)
  {
    hide LineEnd, TrimEnd, ReadValue, ValueRunsOn, SkipSpaces, ScanTo, Tail, AfterComment, CommentLines, Join;
    hide CommentKept, HeaderTurnAt;
    var all := u + Tail(rest);
    if IsComment(u[0]) {
      CommentBefore(u, rest);
    } else if u[0] == '[' {
      HeaderBefore(u, rest);
    } else {
      ScanBefore(u, '=', rest);
      LineEndBefore(u, rest);
      var n := ScanTo(u, '=');
      assert all[..n] == u[..n] && all[n..] == u[n..] + Tail(rest);
      assert all[LineEnd(u)..] == u[LineEnd(u)..] + Tail(rest);
      if n < |u| { assert all[n] == u[n]; } else { assert all[n] == Tail(rest)[0]; }
    }
  }

  lemma HeaderBefore(u: string, rest: string)
    requires u != "" && u[0] == '['
    ensures (u + Tail(rest))[0] == u[0]
    ensures (var all := HeaderTurnAt(u + Tail(rest));
             match HeaderTurnAt(u)
             case Over => false
             case Next(r, cut, open) =>
               && cut == None && all.Next? && all.cut == None
               && (r != "" ==> all.rest == r + Tail(rest) && all.open == open)
               && (r == "" ==> |all.rest| <= |Tail(rest)|)
             case Hit(_, shown, _) => all.Hit? && all.shown == shown)
  {
    hide LineEnd, TrimEnd, SkipSpaces, ScanTo, Tail;
    var all := u + Tail(rest);
    var name := SkipSpaces(u[1..]);
    assert all[1..] == u[1..] + Tail(rest);
    SkipBefore(u[1..], rest);
    if name == "" {
      NoScan();
      var name' := Tail(rest)[1..];
      TagNotClosed(rest);
    } else {
      var name' := name + Tail(rest);
      ScanBefore(name, ']', rest);
      var n := ScanTo(name, ']');
      assert name'[..n] == name[..n] && name'[n..] == name[n..] + Tail(rest);
      if n < |name| { assert name'[n] == name[n]; } else { assert name'[n] == Tail(rest)[0]; }
      assert |all| - |name'| == |u| - |name|;
      assert all[..|u| - |name|] == u[..|u| - |name|];
    }
  }

  lemma NoScan()
    ensures ScanTo("", ']') == 0
  {
  }

  lemma TagNotClosed(rest: string)
    ensures !Closed(Tail(rest)[1..])
  {
    var t := END_TAG + "\n" + rest;
    assert t[|END_TAG|] == '\n';
    assert forall i :: 0 <= i < |END_TAG| ==> t[i] == END_TAG[i] != ']';
    var n := ScanTo(t, ']');
    assert n <= |END_TAG|;
  }

  // ------------------------------------------------------------------ what is shown of it

  lemma {:induction false} BreakShows(t: string)
    requires t != "" && IsNewLine(t[0])
    ensures Shown(t) != "" && Shown(t)[0] == t[0]
  {
    hide TurnAt, Shown;
    ShownUnfold(t);
    SpacesAreFront(t);
    var k := |t| - |SkipSpaces(t)|;
    SkipsOne(t);
    assert t[..k][0] == t[0];
    match TurnOf(t)
    case Over =>
    case Next(rest, cut, _) =>
      if cut == None { assert t[..|t| - |rest|][0] == t[0]; }
    case Hit(_, _, _) =>
  }

  lemma SkipsOne(t: string)
    requires t != "" && IsSpace(t[0])
    ensures |SkipSpaces(t)| < |t|
  {
  }

  /** A text with the tail behind it ends, once the next entry has been looked for, where it did before exactly if it is
      passed over up to a comment that stays as it is. */
  lemma {:induction false} ShownBefore(t: string, rest: string)
    ensures Shown(t + Tail(rest)) == t <==> EndsInComment(t)
    decreases |t|
  {
    hide TurnOf, CommentText, CommentKept, SkipSpaces, Shown, Tail;
    var all := t + Tail(rest);
    TurnParts(t);
    TurnParts(all);
    TurnBefore(t, rest);
    ShownUnfold(all);
    SpacesAreFront(t);
    var u := SkipSpaces(t);
    var k := |t| - |u|;
    assert t == t[..k] + u;
    match TurnOf(t)
    case Over =>
      assert |Shown(all)| > |t|;
    case Hit(_, shown, _) =>
    case Next(r, cut, _) =>
      if cut != None {
        CommentTextKept(u);
        SameBehind(t[..k], CommentText(u), u);
      } else if r == "" {
        NoCommentAtEnd();
        PastEnd(t, rest);
      } else {
        var m := |t| - |r|;
        assert all[..m] == t[..m] && t == t[..m] + r;
        ShownBefore(r, rest);
        SameBehind(t[..m], Shown(r + Tail(rest)), r);
      }
  }

  lemma NoCommentAtEnd()
    ensures !EndsInComment("")
  {
  }

  lemma PastEnd(t: string, rest: string)
    requires TurnOf(t + Tail(rest)).Next? && TurnOf(t + Tail(rest)).cut == None
    requires |TurnOf(t + Tail(rest)).rest| <= |Tail(rest)|
    ensures |Shown(t + Tail(rest))| > |t|
  {
    hide TurnOf, Shown, Tail;
    var all := t + Tail(rest);
    ShownUnfold(all);
    TurnParts(all);
    var left := TurnOf(all).rest;
    if |left| == |Tail(rest)| {
      assert left == all[|t|..] == Tail(rest);
      BreakShows(left);
    }
  }

  // ------------------------------------------------------------------ what is found behind it

  lemma TailFinds(rest: string)
    ensures (var t := Tail(rest)[1..];
             && FindEntry(t) == FindEntry(rest) && RunsOn(t) == RunsOn(rest) && OpenName(t) == OpenName(rest))
  {
    hide TurnAt, FindEntry, OpenName, RunsOn, Shown, Tail;
    var t := Tail(rest)[1..];
    TagNoComment(rest);
    TailTurn(rest);
    ShownUnfold(t);
    SpacesDoNotMatter('\n', rest);
    assert ['\n'] + rest == "\n" + rest;
  }

  /** Behind text that ends in such a comment the same is found; a header that was left open in it counts unless one
      is left open later. */
  lemma {:induction false} FindBefore(t: string, rest: string)
    requires EndsInComment(t)
    ensures FindEntry(t + Tail(rest)) == FindEntry(rest) && RunsOn(t + Tail(rest)) == RunsOn(rest)
    ensures OpenName(t) == None ==> OpenName(t + Tail(rest)) == OpenName(rest)
    ensures OpenName(t) != None ==> OpenName(t + Tail(rest)) != None
    decreases |t|
  {
    hide TurnOf, CommentKept, SkipSpaces, Shown, Tail, FindEntry, OpenName, RunsOn;
    var all := t + Tail(rest);
    TurnParts(t);
    TurnBefore(t, rest);
    ShownUnfold(all);
    ShownUnfold(t);
    var (r, cut) := (TurnOf(t).rest, TurnOf(t).cut);
    if cut != None {
      TailFinds(rest);
      CommentEnds(SkipSpaces(t));
      CommentTurnFront(t);
      NothingInNothing();
    } else {
      if r == "" { NoCommentAtEnd(); }
      FindBefore(r, rest);
    }
  }

  // ------------------------------------------------------------------ values

  /** The value as a load stores it. */
  function Came(behind: string, copies: bool): string
  {
    var (_, value, rest) := ReadValue(behind);
    if !copies && ValueRunsOn(behind) then RunOn(value, rest) else value
  }

  /** A written value on several lines and the text it is read from. */
  lemma ReadWritten(v: string, rest: string)
    requires IsMultiLineData(v)
    ensures (var t := v + Tail(rest);
             var b := ReadBody(t, END_TAG, false);
             var behind := " " + (PrintValue(v) + "\n" + rest);
             && ReadValue(behind) == (BodyFound(t, b, END_TAG), BodyValue(t, b, END_TAG), b.rest)
             && ValueRunsOn(behind) == BodyRunsOn(t, b, END_TAG))
  {
    hide LineEnd, AfterLine, TrimEnd, SkipBlanks, Line, ReadBody, OutputLines, StripTag, Join, BodyFound, BodyValue;
    hide BodyRunsOn;
    var head := TAG_MARK + END_TAG;
    var t := v + Tail(rest);
    OutputIsBroken(v);
    EndTagIsTag();
    assert PrintValue(v) + "\n" + rest == head + "\n" + t;
    SkipBlanksOf(head + "\n" + t);
    LineOf(head, t);
    TrimEndOf(head, "");
    assert head + "" == head && head[3..] == END_TAG;
  }

  /** A value whose first line is the end tag is left in the text. */
  lemma LeftInText(v: string, rest: string)
    requires IsMultiLineData(v) && Line(v) == END_TAG
    ensures (var (t, behind) := (v + Tail(rest), " " + (PrintValue(v) + "\n" + rest));
             && ReadValue(behind) == (true, t, AfterLine(t)) && ValueRunsOn(behind)
             && LineEnd(v) < |v|)
  {
    hide LineEnd, AfterLine, Tail, StripTag;
    var t := v + Tail(rest);
    ReadWritten(v, rest);
    LineEndBefore(v, rest);
    EndTagIsTag();
    if LineEnd(v) == |v| {
      assert v[..|v|] == v;
      TagIsOneLine();
    }
  }

  lemma TagIsOneLine()
    ensures !IsMultiLineData(END_TAG)
  {
  }

  /** Such a value is what the buffer shows in the end exactly if it stays. */
  lemma StaysExactly(v: string, rest: string)
    requires IsMultiLineData(v) && Line(v) == END_TAG
    ensures Came(" " + (PrintValue(v) + "\n" + rest), false) == v <==> Stays(v)
    ensures Stays(v) ==> ReadValue(" " + (PrintValue(v) + "\n" + rest)).2 == AfterLine(v) + Tail(rest)
  {
    hide LineEnd, AfterLine, Tail, Line, ReadValue, ValueRunsOn, EndsInComment, Shown, PrintValue;
    var t := v + Tail(rest);
    LeftInText(v, rest);
    AfterLineBefore(v, rest);
    LineParts(v);
    var left := AfterLine(t);
    if v[LineEnd(v)..] == "\r" {
      NoCommentAtEnd();
      CutAfterReturn(v);
      assert |t[..|t| - |left|]| == |v| + 1;
    } else {
      var behind := AfterLine(v);
      var k := |v| - |behind|;
      ShownBefore(behind, rest);
      assert t[..|t| - |left|] == v[..k] && v == v[..k] + behind;
      SameBehind(v[..k], Shown(left), behind);
    }
  }

  /** A value on one line that looks like the start of several takes in the lines that follow. */
  predicate TakesMore(v: string)
  {
    !IsMultiLineData(v) && IsMultiLineTag(v)
  }

  lemma {:induction false} JoinBreaks(lines: seq<string>)
    requires |lines| >= 2
    ensures !NoBreak(Join(lines))
  {
    assert Join(lines)[|lines[0]|] == '\n';
  }

  /** It is read as something else unless the line behind it is that value once more. */
  lemma TakenLost(v: string, rest: string, copies: bool)
    requires TakesMore(v) && !(TAG_MARK <= rest)
    ensures (var behind := " " + (v + "\n" + rest);
             ReadValue(behind).0 ==> Came(behind, copies) != v)
  {
    hide LineEnd, AfterLine, TrimEnd, SkipBlanks, Line, ReadBody, StripTag, Join, Shown;
    var (behind, tag) := (" " + (v + "\n" + rest), v[3..]);
    SkipBlanksOf(v + "\n" + rest);
    assert NoBreak(v);
    LineOf(v, rest);
    TrimEndOf(v, "");
    assert v + "" == v;
    ReadBodyLines(rest, tag, false);
    LineParts(rest);
    var b := ReadBody(rest, tag, false);
    if b.lines != [] {
      if |b.lines| == 1 {
        assert b.lines == [Line(rest)];
        OneLine(Line(rest));
        assert |Line(rest)| >= 3 ==> Line(rest)[..3] == rest[..3];
      } else {
        JoinBreaks(b.lines);
      }
    } else if BodyRunsOn(rest, b, tag) {
      RunsPastBreak(rest, b.rest, tag);
    }
  }

  lemma OneLine(line: string)
    ensures Join([line]) == line
  {
  }

  lemma RunsPastBreak(t: string, rest: string, tag: string)
    requires ReadBody(t, tag, false).lines == [] && rest == ReadBody(t, tag, false).rest && LineEnd(t) < |t|
    ensures !NoBreak(t) && !NoBreak(RunOn(t, rest))
  {
    hide LineEnd, AfterLine, Line, IsTagLine, Shown;
    LineParts(t);
    var n := LineEnd(t);
    assert IsNewLine(t[n]);
    assert rest == AfterLine(t);
    assert RunOn(t, rest)[n] == t[n];
  }

  /** Every value that neither can be written nor stays is lost on a first load; on a later one also those that stay. */
  lemma ValueLost(v: string, rest: string, copies: bool)
    requires !ValueOk(v) && (copies || !Stays(v)) && (TakesMore(v) ==> !(TAG_MARK <= rest))
    ensures (var behind := " " + (PrintValue(v) + "\n" + rest);
             ReadValue(behind).0 ==> Came(behind, copies) != v)
  {
    hide ReadValue, ValueRunsOn, LineEnd, Line, RunOn, EndsInComment, Stays;
    if !IsMultiLineData(v) {
      TakenLost(v, rest, copies);
    } else {
      MultiLineLost(v, rest);
      if Line(v) == END_TAG {
        StaysExactly(v, rest);
      } else {
        NotLeft(v, rest);
      }
    }
  }

  lemma NotLeft(v: string, rest: string)
    requires IsMultiLineData(v) && Line(v) != END_TAG
    ensures !ValueRunsOn(" " + (PrintValue(v) + "\n" + rest))
  {
    hide LineEnd, AfterLine, Tail, StripTag, ReadBody, PrintValue, ValueRunsOn, ReadValue;
    ReadWritten(v, rest);
    LineEndBefore(v, rest);
  }

  // ------------------------------------------------------------------ entries

  /** What a load makes of a written entry, whatever its value. */
  lemma PairLoads(key: string, v: string, rest: string, section: string, copies: bool)
    requires KeyOk(key)
    ensures (var behind := " " + (PrintValue(v) + "\n" + rest);
             var (found, _, left) := ReadValue(behind);
             Loadings(PrintPair(key, v) + rest, section, copies)
             == if found then [Loading(section, Pair(key, Came(behind, copies)))] + Loadings(left, section, copies)
                else [])
    ensures (var e := FindEntry(PrintPair(key, v) + rest);
             e.Found? ==> e.item.Pair?)
  {
    hide TurnOf, ReadValue, ValueRunsOn, PrintValue, PrintPair, KeyOk, Loadings, FindEntry, OpenName, RunsOn, Shown;
    hide RunOn;
    var t := PrintPair(key, v) + rest;
    PairFinds(key, v, rest);
    ShownUnfold(t);
    LoadingsUnfold(t, section, copies);
  }

  /** A section name that a header left open holds a line break. */
  lemma {:induction false} OpenNameBreaks(t: string)
    requires OpenName(t) != None && FindEntry(t).Found?
    ensures !NoBreak(OpenName(t).value)
    decreases |t|
  {
    hide TurnOf, Shown;
    var (rest, open) := (TurnOf(t).rest, TurnOf(t).open);
    if OpenName(rest) != None {
      OpenNameBreaks(rest);
    } else {
      OpenAtBreak(t);
      if rest == "" { NothingInNothing(); }
      BreakShows(rest);
      var name := open.value + Shown(rest);
      assert name[|open.value|] == rest[0];
    }
  }

  lemma OpenAtBreak(t: string)
    requires TurnOf(t).Next? && TurnOf(t).open != None
    ensures TurnOf(t).rest != "" ==> IsNewLine(TurnOf(t).rest[0])
  {
    hide AfterComment, CommentLines, Join, LineEnd, TrimEnd, ReadValue, ValueRunsOn, SkipSpaces, ScanTo;
  }

  /** Does a first load start with this entry? */
  ghost predicate LoadsFirst(key: string, v: string, rest: string, section: string)
  {
    var ls := Loadings(PrintPair(key, v) + rest, section, false);
    ls != [] && ls[0] == Loading(section, Pair(key, v))
  }

  /** On a first load an entry comes back, whatever follows it, exactly if its key can be written and its value can be
      or stays. */
  lemma FirstEntryExactly(key: string, v: string)
    ensures (forall rest: string, section: string :: LoadsFirst(key, v, rest, section))
       <==> KeyOk(key) && (ValueOk(v) || Stays(v))
  {
    hide PrintPair, PrintValue, ValueOk, Stays, KeyOk, Loadings, ReadValue, ValueRunsOn, RunOn;
    if KeyOk(key) && (ValueOk(v) || Stays(v)) {
      forall rest: string, section: string
        ensures LoadsFirst(key, v, rest, section)
      {
        PairLoads(key, v, rest, section, false);
        if ValueOk(v) { ValueReads(v, rest); } else { StaysReads(v, rest); }
      }
    } else {
      FirstKeyOk(PrintPair(key, v) + "", "", false);
      if KeyOk(key) {
        PairLoads(key, v, "", "", false);
        ValueLost(v, "", false);
      }
      assert !LoadsFirst(key, v, "", "");
    }
  }

  lemma FirstKeyOk(t: string, section: string, copies: bool)
    ensures (var ls := Loadings(t, section, copies);
             ls != [] && ls[0].item.Pair? ==> KeyOk(ls[0].item.key))
  {
    hide FindEntry, OpenName, RunsOn, KeyOk, Loadings, SectionOf, RunOn;
    LoadingsUnfold(t, section, copies);
    if FindEntry(t).Found? { FoundIsParseable(t); }
  }

  lemma StaysReads(v: string, rest: string)
    requires Stays(v) && !ValueOk(v)
    ensures IsMultiLineData(v)
    ensures (var behind := " " + (PrintValue(v) + "\n" + rest);
             ReadValue(behind).0 && Came(behind, false) == v && ReadValue(behind).2 == AfterLine(v) + Tail(rest))
  {
    hide PrintValue, ReadValue, ValueRunsOn, RunOn, EndsInComment;
    assert IsNewLine(v[LineEnd(v)]);
    LeftInText(v, rest);
    StaysExactly(v, rest);
  }

  /** All keys that are loaded can be written. */
  lemma {:induction false} KeysLoaded(t: string, section: string, copies: bool)
    ensures (var ls := Loadings(t, section, copies);
             forall i :: 0 <= i < |ls| && ls[i].item.Pair? ==> KeyOk(ls[i].item.key))
    decreases |t|
  {
    hide FindEntry, OpenName, RunsOn, KeyOk, Loadings, SectionOf, Shown;
    LoadingsUnfold(t, section, copies);
    if FindEntry(t).Found? {
      FoundIsParseable(t);
      KeysLoaded(FindEntry(t).rest, SectionOf(t, FindEntry(t).item, section), copies);
    }
  }

  /** What is left behind a value that stays gives what follows, unless an entry follows a header left open in it. */
  lemma LoadsBehind(t: string, rest: string, section: string, copies: bool)
    requires EndsInComment(t)
    ensures OpenName(t) == None || !(FindEntry(rest).Found? && FindEntry(rest).item.Pair?) ==>
      Loadings(t + Tail(rest), section, copies) == Loadings(rest, section, copies)
    ensures OpenName(t) != None && FindEntry(rest).Found? && FindEntry(rest).item.Pair? ==>
      (var ls := Loadings(t + Tail(rest), section, copies);
       ls != [] && ls[0].item.Pair? && !NoBreak(ls[0].section))
  {
    hide FindEntry, OpenName, RunsOn, Shown, Loadings, EndsInComment, Tail, RunOn;
    var all := t + Tail(rest);
    FindBefore(t, rest);
    LoadingsUnfold(all, section, copies);
    LoadingsUnfold(rest, section, copies);
    if OpenName(all) != None && FindEntry(all).Found? { OpenNameBreaks(all); }
  }
}
