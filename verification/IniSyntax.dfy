/** The INI syntax in literal characters: what the reader makes of each kind of line, and what the writer writes. */
module IniSyntax {
  import opened Bytes
  import opened IniPrint
  import opened IniReader
  import opened IniText

  // ------------------------------------------------------------------ characters

  /** Spaces and tabs only. */
  ghost predicate Blank(s: string)
  {
    forall i :: 0 <= i < |s| ==> s[i] == ' ' || s[i] == '\t'
  }

  /** Spaces, tabs and line breaks only. */
  ghost predicate White(s: string)
  {
    forall i :: 0 <= i < |s| ==> s[i] in " \t\r\n"
  }

  ghost predicate OneLine(s: string)
  {
    '\n' !in s && '\r' !in s
  }

  /** Neither starts nor ends with a space or a tab. */
  predicate Tight(s: string)
  {
    s == "" || (s[0] !in " \t" && s[|s| - 1] !in " \t")
  }

  /** A line break in front of the rest, or the end of the text. */
  predicate IsBreak(brk: string, rest: string)
  {
    brk == "\n" || brk == "\r\n" || (brk == "\r" && (rest == "" || rest[0] != '\n')) || (brk == "" && rest == "")
  }

  // ------------------------------------------------------------------ lines

  lemma {:induction false} LineEndAt(a: string, more: string)
    requires OneLine(a) && (more == "" || more[0] in "\r\n")
    ensures LineEnd(a + more) == |a|
    decreases |a|
  {
    var t := a + more;
    if a != "" {
      LineEndAt(a[1..], more);
      assert t[0] == a[0] && t[1..] == a[1..] + more;
    } else {
      assert t == more;
    }
  }

  lemma LineAt(a: string, brk: string, rest: string)
    requires OneLine(a) && IsBreak(brk, rest)
    ensures (var t := a + (brk + rest);
             && LineEnd(t) == |a| && Line(t) == a && AfterLine(t) == rest && t[|a|..] == brk + rest
             && (brk != "" ==> |t| > |a|))
  {
    hide LineEnd;
    var t := a + (brk + rest);
    assert brk + rest != "" ==> (brk + rest)[0] in "\r\n";
    LineEndAt(a, brk + rest);
    assert t[|a|..] == brk + rest && t[..|a|] == a;
    if brk == "\r\n" {
      assert (brk + rest)[1] == '\n' && (brk + rest)[2..] == rest;
    } else if brk == "\r" {
      assert rest != "" ==> (brk + rest)[1] == rest[0];
      assert (brk + rest)[1..] == rest;
    } else if brk == "\n" {
      assert (brk + rest)[1..] == rest;
    }
  }

  lemma {:induction false} ScanAtStop(a: string, stop: char, more: string)
    requires OneLine(a) && stop !in a && (more == "" || more[0] == stop || more[0] in "\r\n")
    ensures ScanTo(a + more, stop) == |a|
    decreases |a|
  {
    var t := a + more;
    if a != "" {
      ScanAtStop(a[1..], stop, more);
      assert t[0] == a[0] && t[1..] == a[1..] + more;
    } else {
      assert t == more;
    }
  }

  lemma {:induction false} BlanksSkipped(front: string, t: string)
    requires Blank(front) && (t == "" || t[0] !in " \t")
    ensures SkipBlanks(front + t) == t
    decreases |front|
  {
    var all := front + t;
    if front != "" {
      BlanksSkipped(front[1..], t);
      assert all[0] == front[0] && all[1..] == front[1..] + t;
    } else {
      assert all == t;
    }
  }

  lemma {:induction false} WhiteSkipped(front: string, t: string)
    requires White(front) && (t == "" || t[0] !in " \t\r\n")
    ensures SkipSpaces(front + t) == t
    decreases |front|
  {
    var all := front + t;
    if front != "" {
      WhiteSkipped(front[1..], t);
      assert all[0] == front[0] && all[1..] == front[1..] + t;
    } else {
      assert all == t;
    }
  }

  /** A value with blanks around it, read to the end of its line. */
  lemma TrimmedLine(front: string, value: string, back: string, brk: string, rest: string)
    requires Blank(front) && Blank(back) && OneLine(value) && Tight(value) && IsBreak(brk, rest)
    ensures (var u := SkipBlanks(front + (value + back + (brk + rest)));
             TrimEnd(Line(u)) == value && AfterLine(u) == rest)
  {
    hide LineEnd, Line, AfterLine, SkipBlanks, TrimEnd;
    if value == "" {
      var t := brk + rest;
      assert t != "" ==> t[0] in "\r\n";
      assert front + (value + back + t) == (front + back) + t;
      BlanksSkipped(front + back, t);
      LineAt("", brk, rest);
      assert "" + t == t;
      TrimEndOf("", "");
      assert "" + "" == "";
    } else {
      var t := value + back + (brk + rest);
      assert t[0] == value[0];
      BlanksSkipped(front, t);
      LineAt(value + back, brk, rest);
      TrimEndOf(value, back);
    }
  }

  // ------------------------------------------------------------------ what is passed over

  /** Each of these characters in front is passed over. */
  lemma SpaceSkipped(c: char, t: string)
    requires c == ' ' || c == '\t' || c == '\r' || c == '\n'
    ensures FindEntry([c] + t) == FindEntry(t)
  {
    hide FindEntry, OpenName, RunsOn;
    SpacesDoNotMatter(c, t);
  }

  /** A line of comment is passed over. */
  lemma CommentSkipped(c: char, a: string, brk: string, rest: string)
    requires (c == ';' || c == '#') && OneLine(a) && IsBreak(brk, rest)
    ensures FindEntry([c] + a + brk + rest) == FindEntry(rest)
  {
    hide LineEnd, Line, AfterLine, SkipSpaces, FindEntry, OpenName, RunsOn, TurnOf, Shown;
    var line := [c] + a;
    var t := line + (brk + rest);
    assert [c] + a + brk + rest == t && t[0] == c;
    LineAt(line, brk, rest);
    CommentTurn(t);
    ShownUnfold(t);
    var ahead := SkipSpaces(rest);
    SpacesSkipped(rest);
    if ahead != "" && IsComment(ahead[0]) {
      CommentTurn(ahead);
      ShownUnfold(ahead);
    }
  }

  /** So is a line that is neither comment nor header and has no equals sign, or starts with one. */
  lemma OtherLineSkipped(a: string, brk: string, rest: string)
    requires a != "" && OneLine(a) && a[0] !in " \t;#[" && IsBreak(brk, rest)
    requires '=' !in a || a[0] == '='
    ensures FindEntry(a + brk + rest) == FindEntry(rest)
  {
    hide LineEnd, Line, AfterLine, SkipSpaces, FindEntry, OpenName, RunsOn, TurnOf, Shown, ReadValue, TrimEnd, ScanTo;
    hide AfterComment, CommentLines, Join, HeaderTurnAt;
    var t := a + (brk + rest);
    assert a + brk + rest == t && t[0] == a[0];
    LineAt(a, brk, rest);
    TurnHere(t);
    if '=' !in a {
      assert brk + rest != "" ==> (brk + rest)[0] in "\r\n";
      ScanAtStop(a, '=', brk + rest);
    } else {
      StartsThere(t);
    }
    ShownUnfold(t);
    assert TurnOf(t) == Next(brk + rest, None, None);
    BreakSkipped(brk, rest);
  }

  lemma StartsThere(t: string)
    requires t != "" && t[0] == '='
    ensures ScanTo(t, '=') == 0
  {
  }

  lemma BreakSkipped(brk: string, rest: string)
    requires IsBreak(brk, rest)
    ensures FindEntry(brk + rest) == FindEntry(rest)
  {
    hide FindEntry;
    if brk == "\r\n" {
      SpaceSkipped('\r', "\n" + rest);
      SpaceSkipped('\n', rest);
      assert brk + rest == ['\r'] + ("\n" + rest) && "\n" + rest == ['\n'] + rest;
    } else if brk == "" {
      assert brk + rest == rest;
    } else {
      SpaceSkipped(brk[0], rest);
      assert brk + rest == [brk[0]] + rest;
    }
  }

  // ------------------------------------------------------------------ what is found

  /** A name in front of an equals sign: it starts like neither a comment nor a header. */
  ghost predicate IsKey(key: string)
  {
    key != "" && OneLine(key) && '=' !in key && Tight(key) && key[0] !in ";#["
  }

  /** A line with a key, whatever its value comes to. */
  lemma KeyFound(key: string, before: string, behind: string)
    requires IsKey(key) && Blank(before)
    ensures (var (found, value, left) := ReadValue(behind);
             FindEntry(key + before + "=" + behind) == if found then Found(Pair(key, value), left) else End)
  {
    hide ScanTo, TrimEnd, ReadValue, ValueRunsOn, TurnOf, AfterComment, CommentLines, Join, HeaderTurnAt, FindEntry;
    hide OpenName, RunsOn, Shown;
    var name := key + before;
    var t := name + ("=" + behind);
    assert key + before + "=" + behind == t && t[0] == key[0];
    TurnHere(t);
    ScanAtStop(name, '=', "=" + behind);
    assert t[..|name|] == name && t[|name|] == '=' && t[|name| + 1..] == behind;
    TrimEndOf(key, before);
    ShownUnfold(t);
  }

  /** An entry on one line is found without the blanks behind its key and around its value. */
  lemma EntryFound(key: string, before: string, front: string, value: string, back: string, brk: string, rest: string)
    requires IsKey(key) && Blank(before) && Blank(front) && Blank(back) && IsBreak(brk, rest)
    requires OneLine(value) && Tight(value) && !("<<<" <= value)
    ensures FindEntry(key + before + "=" + (front + (value + back + (brk + rest)))) == Found(Pair(key, value), rest)
  {
    hide FindEntry, LineEnd, Line, AfterLine, SkipBlanks, TrimEnd;
    KeyFound(key, before, front + (value + back + (brk + rest)));
    TrimmedLine(front, value, back, brk, rest);
  }

  /** A section header is found without the spaces around its name; the rest of its line is passed over. */
  lemma SectionFound(front: string, name: string, back: string, more: string, brk: string, rest: string)
    requires White(front) && Blank(back) && OneLine(name) && Tight(name) && ']' !in name
    requires OneLine(more) && IsBreak(brk, rest)
    ensures FindEntry("[" + (front + (name + (back + ("]" + more + (brk + rest)))))) == Found(Header(name), brk + rest)
  {
    hide ScanTo, TrimEnd, SkipSpaces, LineEnd, FindEntry, OpenName, RunsOn, Shown, TurnOf, TurnAt;
    hide White, Tight, IsBreak;
    var tail := "]" + more + (brk + rest);
    var inner := front + (name + (back + tail));
    var t := "[" + inner;
    assert t[0] == '[' && t[1..] == inner;
    NameInHeader(front, name, back, tail);
    var u := if name == "" then tail else name + (back + tail);
    var n := if name == "" then 0 else |name| + |back|;
    AfterHeader(more, brk, rest);
    TurnHere(t);
    ShownUnfold(t);
    HeaderFinds(t, u, n, name, tail, brk + rest);
  }

  /** Where the name stands, and where it is closed. */
  lemma NameInHeader(front: string, name: string, back: string, tail: string)
    requires White(front) && Blank(back) && OneLine(name) && Tight(name) && ']' !in name && tail != "" && tail[0] == ']'
    ensures (var u := if name == "" then tail else name + (back + tail);
             var n := if name == "" then 0 else |name| + |back|;
             && SkipSpaces(front + (name + (back + tail))) == u && ScanTo(u, ']') == n < |u| && u[n] == ']'
             && TrimEnd(u[..n]) == name && u[n..] == tail)
  {
    hide ScanTo, TrimEnd, SkipSpaces;
    if name == "" {
      assert front + (name + (back + tail)) == (front + back) + tail;
      WhiteSkipped(front + back, tail);
      ScanAtStop("", ']', tail);
      assert "" + tail == tail && tail[..0] == "" && "" + "" == "";
      TrimEndOf("", "");
    } else {
      var u := name + (back + tail);
      assert u[0] == name[0];
      WhiteSkipped(front, u);
      assert u == (name + back) + tail;
      ScanAtStop(name + back, ']', tail);
      assert u[..|name + back|] == name + back && u[|name + back|..] == tail;
      TrimEndOf(name, back);
    }
  }

  lemma AfterHeader(more: string, brk: string, rest: string)
    requires OneLine(more) && IsBreak(brk, rest)
    ensures (var tail := "]" + more + (brk + rest);
             tail[LineEnd(tail)..] == brk + rest)
  {
    hide LineEnd;
    LineAt("]" + more, brk, rest);
  }

  lemma HeaderFinds(t: string, u: string, n: nat, name: string, tail: string, left: string)
    requires t != "" && t[0] == '[' && SkipSpaces(t[1..]) == u && ScanTo(u, ']') == n < |u| && u[n] == ']'
    requires TrimEnd(u[..n]) == name && u[n..] == tail && tail[LineEnd(tail)..] == left
    ensures TurnAt(t).Hit? && TurnAt(t).entry == Found(Header(name), left)
  {
    hide ScanTo, TrimEnd, SkipSpaces, LineEnd;
  }

  // ------------------------------------------------------------------ bodies

  /** Lines with their breaks, and what comes behind. */
  function Lines(lines: seq<string>, breaks: seq<string>, behind: string): string
    requires |lines| == |breaks|
    decreases |lines|
  {
    if lines == [] then behind else lines[0] + (breaks[0] + Lines(lines[1..], breaks[1..], behind))
  }

  /** Is the line the tag, with blanks behind it? */
  ghost predicate EndsBody(line: string, tag: string)
  {
    tag <= line && Blank(line[|tag|..])
  }

  /** Lines that can be told apart, of which none ends the body. */
  ghost predicate LinesOk(lines: seq<string>, breaks: seq<string>, tag: string, behind: string)
    requires |lines| == |breaks|
    decreases |lines|
  {
    lines == [] || (
      && OneLine(lines[0]) && !EndsBody(lines[0], tag) && breaks[0] != ""
      && IsBreak(breaks[0], Lines(lines[1..], breaks[1..], behind))
      && LinesOk(lines[1..], breaks[1..], tag, behind))
  }

  lemma EndsShorter(line: string, tag: string)
    requires line != "" && OneLine(line)
    ensures |tag| < |line| ==>
      (EndsBody(line, tag) <==> IsSpace(line[|line| - 1]) && EndsBody(line[..|line| - 1], tag))
    ensures |tag| >= |line| ==> (EndsBody(line, tag) <==> line == tag)
  {
    var less := line[..|line| - 1];
    if |tag| < |line| {
      assert line[|tag|..] == less[|tag|..] + [line[|line| - 1]];
      assert tag <= line <==> tag <= less;
      assert IsSpace(line[|line| - 1]) <==> line[|line| - 1] == ' ' || line[|line| - 1] == '\t';
    }
  }

  lemma {:induction false} StripExactly(line: string, tag: string)
    requires OneLine(line)
    ensures StripTag(line) == tag ==> EndsBody(line, tag)
    ensures tag != "" && Tight(tag) && EndsBody(line, tag) ==> StripTag(line) == tag
    decreases |line|
  {
    hide EndsBody, IsSpace;
    SpacesAre();
    if line == "" {
      NothingEnds(tag);
    } else {
      EndsShorter(line, tag);
      SelfEnds(line);
      SelfEnds(line[..|line| - 1]);
      if |line| > 1 && IsSpace(line[|line| - 1]) {
        StripExactly(line[..|line| - 1], tag);
        StripShorter(line);
      }
    }
  }

  lemma {:induction false} StripShorter(line: string)
    requires line != ""
    ensures StripTag(line) != "" && |StripTag(line)| <= |line|
    ensures |line| > 1 && IsSpace(line[|line| - 1]) ==> |StripTag(line)| < |line|
    decreases |line|
  {
    if |line| > 1 { StripShorter(line[..|line| - 1]); }
  }

  lemma NothingEnds(tag: string)
    ensures EndsBody("", tag) <==> tag == ""
  {
  }

  lemma SpacesAre()
    ensures forall c :: IsSpace(c) <==> c in " \t\r\n"
  {
  }

  /** A body is read line by line, whatever breaks its lines, up to the tag. */
  lemma {:induction false} BodyLines(lines: seq<string>, breaks: seq<string>, tag: string, brk: string, rest: string,
                                     moved: bool)
    requires |lines| == |breaks| && OneLine(tag) && Tight(tag) && IsBreak(brk, rest)
    requires LinesOk(lines, breaks, tag, tag + (brk + rest))
    ensures ReadBody(Lines(lines, breaks, tag + (brk + rest)), tag, moved) == Body(lines, true, rest)
    decreases |lines|
  {
    hide LineEnd, Line, AfterLine, StripTag, EndsBody, BreakLength;
    var end := tag + (brk + rest);
    if lines == [] {
      LineAt(tag, brk, rest);
      TagStripped(tag);
    } else {
      var more := Lines(lines[1..], breaks[1..], end);
      LineAt(lines[0], breaks[0], more);
      StripExactly(lines[0], tag);
      SelfEnds(tag);
      var t := lines[0] + (breaks[0] + more);
      BodyLines(lines[1..], breaks[1..], tag, brk, rest, moved || BreakLength(t[LineEnd(t)..]) == 2);
      assert [lines[0]] + lines[1..] == lines;
    }
  }

  lemma TagStripped(tag: string)
    requires OneLine(tag) && Tight(tag)
    ensures StripTag(tag) == tag
  {
    SelfEnds(tag);
    StripExactly(tag, tag);
  }

  lemma SelfEnds(tag: string)
    ensures EndsBody(tag, tag)
  {
  }

  /** An entry on several lines: between its tags they come back joined by line feeds. */
  lemma LinesFound(key: string, before: string, front: string, tag: string, back: string, brk: string,
                   lines: seq<string>, breaks: seq<string>, brk': string, rest: string)
    requires IsKey(key) && Blank(before) && Blank(front) && Blank(back) && brk != ""
    requires OneLine(tag) && Tight(tag) && |lines| == |breaks| && lines != [] && IsBreak(brk', rest)
    requires (var body := Lines(lines, breaks, tag + (brk' + rest));
              IsBreak(brk, body) && LinesOk(lines, breaks, tag, tag + (brk' + rest)))
    ensures (var body := Lines(lines, breaks, tag + (brk' + rest));
             FindEntry(key + before + "=" + (front + ("<<<" + tag + back + (brk + body))))
             == Found(Pair(key, Join(lines)), rest))
  {
    hide FindEntry, LineEnd, Line, AfterLine, SkipBlanks, TrimEnd, Lines, LinesOk, ReadBody, Join;
    var body := Lines(lines, breaks, tag + (brk' + rest));
    var value := "<<<" + tag;
    var behind := front + (value + back + (brk + body));
    KeyFound(key, before, behind);
    assert value[0] == '<' && value[|value| - 1] == if tag == "" then '<' else tag[|tag| - 1];
    TrimmedLine(front, value, back, brk, body);
    assert value[3..] == tag && value[..3] == "<<<";
    BodyLines(lines, breaks, tag, brk', rest, false);
  }

  /** Blanks behind the end tag do not matter, but behind a break of two characters they make its line one of the
      body. */
  lemma TagWithBlanks(tag: string, back: string, brk: string, rest: string)
    requires tag != "" && OneLine(tag) && Tight(tag) && Blank(back) && IsBreak(brk, rest)
    ensures ReadBody(tag + back + (brk + rest), tag, false) == Body([], true, rest)
    ensures back != "" ==> ReadBody(tag + back + (brk + rest), tag, true).lines != []
  {
    hide LineEnd, Line, AfterLine, StripTag, BreakLength;
    var line := tag + back;
    LineAt(line, brk, rest);
    assert line[..|tag|] == tag && line[|tag|..] == back;
    StripExactly(line, tag);
  }

  // ------------------------------------------------------------------ what is written

  /** What is written for an entry: on one line if its value can be read from one, else between tags. */
  lemma WrittenForm(key: string, v: string)
    ensures OneLine(v) && Tight(v) ==> PrintPair(key, v) == key + " = " + v + "\n"
    ensures !(OneLine(v) && Tight(v)) ==>
      PrintPair(key, v) == key + " = <<<END_OF_TEXT\n" + v + "\nEND_OF_TEXT\n"
  {
    hide OutputLines, IsMultiLineData;
    SpansLines(v);
    if IsMultiLineData(v) {
      OutputIsBroken(v);
      Assembled(key, v);
    }
  }

  lemma Assembled(key: string, v: string)
    ensures key + " = " + (TAG_MARK + END_TAG + "\n" + (v + "\n") + END_TAG) + "\n"
         == key + " = <<<END_OF_TEXT\n" + v + "\nEND_OF_TEXT\n"
  {
    var (head, end) := ("<<<END_OF_TEXT\n", "END_OF_TEXT");
    assert TAG_MARK + END_TAG + "\n" == head && " = " + head == " = <<<END_OF_TEXT\n";
    assert "\n" + end + "\n" == "\nEND_OF_TEXT\n";
    var (a, b) := (key + " = ", v + "\n");
    Associate(head, b, end);
    Associate(a, head, b + end);
    Associate(a + head, b + end, "\n");
    Associate(b, end, "\n");
    Associate(v, "\n", end + "\n");
    Associate(key, " = ", head);
    Associate("\n", end, "\n");
    Associate(a + head, v, "\n" + (end + "\n"));
  }

  lemma SpansLines(v: string)
    ensures IsMultiLineData(v) <==> !(OneLine(v) && Tight(v))
  {
    if !OneLine(v) {
      var i :| 0 <= i < |v| && IsNewLine(v[i]);
    }
  }
}
