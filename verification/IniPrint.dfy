/** Writing INI text, and reading back what was written. */
module IniPrint {
  import opened Bytes
  import opened IniText

  const END_TAG := "END_OF_TEXT"

  // ------------------------------------------------------------------ single values

  /** A value that would not survive on one line: spaces at an end, or line breaks inside. */
  predicate IsMultiLineData(v: string)
  {
    v != "" && (IsSpace(v[0]) || (exists i :: 0 <= i < |v| && IsNewLine(v[i])) || IsSpace(v[|v| - 1]))
  }

  /** The text with every line put out and broken, the last one too. */
  function OutputLines(v: string): string
  {
    var m := LineFeed(v);
    if m == |v| then v + "\n" else v[..m] + "\n" + OutputLines(v[m + 1..])
  }

  /** Where the first line feed is. */
  function LineFeed(t: string): (n: nat)
    ensures n <= |t| && (n < |t| ==> t[n] == '\n')
    ensures forall i :: 0 <= i < n ==> t[i] != '\n'
  {
    if t == [] || t[0] == '\n' then 0 else 1 + LineFeed(t[1..])
  }

  function PrintValue(v: string): string
  {
    if IsMultiLineData(v) then TAG_MARK + END_TAG + "\n" + OutputLines(v) + END_TAG else v
  }

  function PrintPair(key: string, v: string): string
  {
    key + " = " + PrintValue(v) + "\n"
  }

  function SplitLines(v: string): (lines: seq<string>)
    ensures lines != []
  {
    var m := LineFeed(v);
    if m == |v| then [v] else [v[..m]] + SplitLines(v[m + 1..])
  }

  lemma {:induction false} JoinSplit(v: string)
    ensures Join(SplitLines(v)) == v
    decreases |v|
  {
    var m := LineFeed(v);
    if m < |v| {
      JoinSplit(v[m + 1..]);
      assert v == v[..m] + "\n" + v[m + 1..];
    }
  }

  lemma OutputUnfold(v: string)
    ensures (var m := LineFeed(v);
             OutputLines(v) == if m == |v| then v + "\n" else v[..m] + "\n" + OutputLines(v[m + 1..]))
  {
    hide LineFeed;
  }

  lemma {:induction false} OutputIsBroken(v: string)
    ensures OutputLines(v) == v + "\n"
    decreases |v|
  {
    hide OutputLines, LineFeed;
    OutputUnfold(v);
    var m := LineFeed(v);
    if m < |v| {
      OutputIsBroken(v[m + 1..]);
      FeedAt(v, m);
    }
  }

  lemma FeedAt(v: string, m: nat)
    requires m < |v| && v[m] == '\n'
    ensures v[..m] + "\n" + (v[m + 1..] + "\n") == v + "\n"
  {
    assert v == v[..m] + "\n" + v[m + 1..];
    Associate(v[..m] + "\n", v[m + 1..], "\n");
  }

  /** Which values a written entry keeps: a value on several lines must not hold a carriage return or a line
      that ends the body, and one on a single line must not look like the start of several. */
  predicate ValueOk(v: string)
  {
    if IsMultiLineData(v) then
      && (forall i :: 0 <= i < |v| ==> v[i] != '\r')
      && (forall i :: 0 <= i < |SplitLines(v)| ==> StripTag(SplitLines(v)[i]) != END_TAG)
    else !IsMultiLineTag(v)
  }

  // ------------------------------------------------------------------ lines of a longer text

  ghost predicate NoBreak(s: string)
  {
    forall i :: 0 <= i < |s| ==> !IsNewLine(s[i])
  }

  lemma {:induction false} LineEndOf(a: string, rest: string)
    requires NoBreak(a)
    ensures LineEnd(a + "\n" + rest) == |a|
    ensures LineEnd(a) == |a|
    decreases |a|
  {
    if a != "" {
      LineEndOf(a[1..], rest);
      assert (a + "\n" + rest)[1..] == a[1..] + "\n" + rest;
    } else {
      assert (a + "\n" + rest)[0] == '\n';
    }
  }

  lemma LineOf(a: string, rest: string)
    requires NoBreak(a)
    ensures Line(a + "\n" + rest) == a && AfterLine(a + "\n" + rest) == rest
    ensures LineEnd(a + "\n" + rest) == |a| && BreakLength((a + "\n" + rest)[|a|..]) == 1
  {
    hide LineEnd;
    LineEndOf(a, rest);
    assert (a + "\n" + rest)[|a|..] == "\n" + rest;
    assert ("\n" + rest)[1..] == rest;
  }

  lemma {:induction false} ScanOf(a: string, stop: char, rest: string)
    requires NoBreak(a) && stop !in a
    ensures ScanTo(a + [stop] + rest, stop) == |a|
    decreases |a|
  {
    if a != "" {
      ScanOf(a[1..], stop, rest);
      assert (a + [stop] + rest)[1..] == a[1..] + [stop] + rest;
    } else {
      assert (a + [stop] + rest)[0] == stop;
    }
  }

  lemma {:induction false} TrimEndOf(a: string, blank: string)
    requires a == "" || !IsSpace(a[|a| - 1])
    requires forall i :: 0 <= i < |blank| ==> IsSpace(blank[i])
    ensures TrimEnd(a + blank) == a
    decreases |blank|
  {
    if blank == "" {
      assert a + blank == a;
    } else {
      assert (a + blank)[..|a| + |blank| - 1] == a + blank[..|blank| - 1];
      TrimEndOf(a, blank[..|blank| - 1]);
    }
  }

  // ------------------------------------------------------------------ multi-line bodies

  lemma EndTagIsTag()
    ensures StripTag(END_TAG) == END_TAG && NoBreak(END_TAG)
  {
  }

  lemma ReadBodyGoes(a: string, rest: string, tag: string)
    requires NoBreak(a) && StripTag(a) != tag
    ensures (var more := ReadBody(rest, tag, false);
             ReadBody(a + "\n" + rest, tag, false) == Body([a] + more.lines, more.tagged, more.rest))
  {
    hide StripTag, LineEnd, Line, AfterLine;
    LineOf(a, rest);
  }

  lemma ReadBodyEnds(tag: string, rest: string)
    requires NoBreak(tag) && StripTag(tag) == tag
    ensures ReadBody(tag + "\n" + rest, tag, false) == Body([], true, rest)
  {
    hide StripTag, LineEnd, Line, AfterLine;
    LineOf(tag, rest);
  }

  /** A body written line by line is read back line by line, up to where `tail` starts with the tag. */
  lemma {:induction false} BodyOf(v: string, tail: string, tag: string, rest: string)
    requires '\r' !in v
    requires forall i :: 0 <= i < |SplitLines(v)| ==> StripTag(SplitLines(v)[i]) != tag
    requires ReadBody(tail, tag, false) == Body([], true, rest)
    ensures ReadBody(v + "\n" + tail, tag, false) == Body(SplitLines(v), true, rest)
    decreases |v|
  {
    hide StripTag, ReadBody;
    var m := LineFeed(v);
    var first := v[..m];
    assert SplitLines(v)[0] == first;
    if m == |v| {
      assert first == v;
      ReadBodyGoes(v, tail, tag);
    } else {
      var others := v[m + 1..];
      SplitAt(v, m, tail);
      ReadBodyGoes(first, others + "\n" + tail, tag);
      forall i | 0 <= i < |SplitLines(others)|
        ensures StripTag(SplitLines(others)[i]) != tag
      {
        assert SplitLines(v)[i + 1] == SplitLines(others)[i];
      }
      BodyOf(others, tail, tag, rest);
    }
  }

  lemma SplitAt(v: string, m: nat, tail: string)
    requires m < |v| && v[m] == '\n'
    ensures v + "\n" + tail == v[..m] + "\n" + (v[m + 1..] + "\n" + tail)
  {
    assert v == v[..m] + "\n" + v[m + 1..];
    Associate(v[..m] + "\n", v[m + 1..], "\n");
    Associate(v[..m] + "\n", v[m + 1..] + "\n", tail);
  }

  // ------------------------------------------------------------------ values and entries

  lemma SkipBlanksOf(t: string)
    requires t == "" || IsNewLine(t[0]) || !IsSpace(t[0])
    ensures SkipBlanks(" " + t) == t
  {
    assert (" " + t)[1..] == t;
  }

  lemma SingleLineReads(v: string, rest: string)
    requires !IsMultiLineData(v) && !IsMultiLineTag(v)
    ensures ReadValue(" " + (v + "\n" + rest)) == (true, v, rest) && !ValueRunsOn(" " + (v + "\n" + rest))
  {
    hide LineEnd, AfterLine, TrimEnd, SkipBlanks, Line;
    var t := v + "\n" + rest;
    SkipBlanksOf(t);
    LineOf(v, rest);
    TrimEndOf(v, "");
    assert v + "" == v;
  }

  lemma MultiLineReads(v: string, rest: string)
    requires IsMultiLineData(v) && ValueOk(v)
    ensures ReadValue(" " + (PrintValue(v) + "\n" + rest)) == (true, v, rest)
    ensures !ValueRunsOn(" " + (PrintValue(v) + "\n" + rest))
  {
    hide LineEnd, AfterLine, TrimEnd, SkipBlanks, Line, ReadBody, OutputLines, StripTag, Join, SplitLines;
    var head := TAG_MARK + END_TAG;
    var body := v + "\n" + (END_TAG + "\n" + rest);
    OutputIsBroken(v);
    assert PrintValue(v) + "\n" + rest == head + "\n" + body;
    SkipBlanksOf(head + "\n" + body);
    assert NoBreak(head);
    LineOf(head, body);
    TrimEndOf(head, "");
    assert head + "" == head && head[3..] == END_TAG;
    EndTagIsTag();
    ReadBodyEnds(END_TAG, rest);
    BodyOf(v, END_TAG + "\n" + rest, END_TAG, rest);
    JoinSplit(v);
  }

  /** A written value is read back, whatever follows. */
  lemma ValueReads(v: string, rest: string)
    requires ValueOk(v)
    ensures ReadValue(" " + (PrintValue(v) + "\n" + rest)) == (true, v, rest)
    ensures !ValueRunsOn(" " + (PrintValue(v) + "\n" + rest))
  {
    if IsMultiLineData(v) {
      MultiLineReads(v, rest);
    } else {
      SingleLineReads(v, rest);
    }
  }

  /** Names the reader can give back: not empty, in one piece on one line, no spaces at the ends. */
  predicate NameOk(name: string, stop: char)
  {
    && name != "" && !IsSpace(name[0]) && !IsSpace(name[|name| - 1])
    && (forall i :: 0 <= i < |name| ==> name[i] != stop && !IsNewLine(name[i]))
  }

  predicate KeyOk(key: string)
  {
    NameOk(key, '=') && !IsComment(key[0]) && key[0] != '['
  }

  predicate SectionOk(name: string)
  {
    NameOk(name, ']')
  }

  /** A written entry is found by its key; what its value comes to is left to the value. */
  lemma PairFinds(key: string, v: string, rest: string)
    requires KeyOk(key)
    ensures (var behind := " " + (PrintValue(v) + "\n" + rest);
             var (found, value, left) := ReadValue(behind);
             TurnOf(PrintPair(key, v) + rest)
             == Hit(if found then Found(Pair(key, value), left) else End, key, found && ValueRunsOn(behind)))
  {
    hide ScanTo, TrimEnd, PrintValue, ValueOk, ReadValue, ValueRunsOn, SkipSpaces, AfterComment, CommentLines, Join;
    hide HeaderTurnAt;
    var t := PrintPair(key, v) + rest;
    var behind := " " + (PrintValue(v) + "\n" + rest);
    assert t == (key + " ") + ['='] + behind;
    NotSkipped(t);
    ScanOf(key + " ", '=', behind);
    assert t[..|key| + 1] == key + " " && t[|key| + 2..] == behind;
    TrimEndOf(key, " ");
    assert t[..0] + key == key;
  }

  lemma PairReads(key: string, v: string, rest: string)
    requires KeyOk(key) && ValueOk(v)
    ensures FindEntry(PrintPair(key, v) + rest) == Found(Pair(key, v), rest)
    ensures OpenName(PrintPair(key, v) + rest) == None && !RunsOn(PrintPair(key, v) + rest)
  {
    hide PrintPair, PrintValue, ValueOk, KeyOk, ReadValue, ValueRunsOn, TurnOf;
    PairFinds(key, v, rest);
    ValueReads(v, rest);
  }

  lemma NotSkipped(t: string)
    requires t != "" && !IsSpace(t[0])
    ensures SkipSpaces(t) == t
  {
  }

  function PrintHeader(name: string): string
  {
    "[" + name + "]\n"
  }

  lemma HeaderReads(name: string, rest: string)
    requires SectionOk(name)
    ensures FindEntry(PrintHeader(name) + rest) == Found(Header(name), "\n" + rest)
    ensures OpenName(PrintHeader(name) + rest) == None && !RunsOn(PrintHeader(name) + rest)
  {
    hide ScanTo, TrimEnd, SkipSpaces, LineEnd;
    var t := PrintHeader(name) + rest;
    var behind := "\n" + rest;
    NotSkipped(t);
    assert t[1..] == name + [']'] + behind;
    NotSkipped(t[1..]);
    ScanOf(name, ']', behind);
    TrimEndOf(name, "");
    var tail := t[1..][|name|..];
    assert t[1..][..|name|] == name == name + "";
    assert tail == "]" + "\n" + rest;
    LineEndOf("]", rest);
    assert tail[1..] == behind;
  }

  lemma SpacesDoNotMatter(c: char, t: string)
    requires IsSpace(c)
    ensures FindEntry([c] + t) == FindEntry(t) && OpenName([c] + t) == OpenName(t) && RunsOn([c] + t) == RunsOn(t)
  {
    hide FindEntry, OpenName, RunsOn, SkipSpaces;
    OneSpace(c, t);
    SpacesSkipped([c] + t);
    SpacesSkipped(t);
  }

  lemma OneSpace(c: char, t: string)
    requires IsSpace(c)
    ensures SkipSpaces([c] + t) == SkipSpaces(t)
  {
    assert ([c] + t)[1..] == t;
  }

  // ------------------------------------------------------------------ exactly what survives

  lemma {:induction false} LinesHaveNoBreak(t: string, tag: string, moved: bool)
    ensures forall i :: 0 <= i < |ReadBody(t, tag, moved).lines| ==> NoBreak(ReadBody(t, tag, moved).lines[i])
    decreases |t|
  {
    hide IsTagLine, BreakLength, AfterLine, LineEnd, Line, NoBreak, ReadBody;
    ReadBodyLines(t, tag, moved);
    LineHasNoBreak(t);
    var n := LineEnd(t);
    if !IsTagLine(Line(t), tag, moved) && n < |t| {
      LinesHaveNoBreak(AfterLine(t), tag, moved || BreakLength(t[n..]) == 2);
    }
  }

  lemma LineHasNoBreak(t: string)
    ensures NoBreak(Line(t))
  {
    hide LineEnd;
  }

  lemma ReadBodyLines(t: string, tag: string, moved: bool)
    ensures (var n := LineEnd(t);
             ReadBody(t, tag, moved).lines
             == if IsTagLine(Line(t), tag, moved) then []
                else if n == |t| then [Line(t)]
                else [Line(t)] + ReadBody(AfterLine(t), tag, moved || BreakLength(t[n..]) == 2).lines)
  {
    hide IsTagLine, BreakLength, AfterLine, LineEnd, Line;
  }

  lemma {:induction false} JoinHasNoReturn(lines: seq<string>)
    requires forall i :: 0 <= i < |lines| ==> NoBreak(lines[i])
    ensures '\r' !in Join(lines)
    decreases |lines|
  {
    if |lines| > 1 { JoinHasNoReturn(lines[1..]); }
  }

  /** A body that holds a line like the tag is cut off there. */
  lemma {:induction false} BodyCutOff(v: string, tail: string, tag: string)
    requires '\r' !in v
    requires exists i :: 0 <= i < |SplitLines(v)| && StripTag(SplitLines(v)[i]) == tag
    ensures (var lines := ReadBody(v + "\n" + tail, tag, false).lines;
             lines == [] || |Join(lines)| < |v|)
    decreases |v|
  {
    hide StripTag, ReadBody;
    var m := LineFeed(v);
    var first := v[..m];
    assert SplitLines(v)[0] == first;
    if StripTag(first) == tag {
      if m < |v| { SplitAt(v, m, tail); } else { assert first == v; }
      ReadBodyCut(first, if m < |v| then v[m + 1..] + "\n" + tail else tail, tag);
    } else {
      var i :| 0 <= i < |SplitLines(v)| && StripTag(SplitLines(v)[i]) == tag;
      var others := v[m + 1..];
      assert SplitLines(others)[i - 1] == SplitLines(v)[i];
      SplitAt(v, m, tail);
      ReadBodyGoes(first, others + "\n" + tail, tag);
      BodyCutOff(others, tail, tag);
    }
  }

  lemma ReadBodyCut(a: string, rest: string, tag: string)
    requires NoBreak(a) && StripTag(a) == tag
    ensures ReadBody(a + "\n" + rest, tag, false).lines == []
  {
    hide StripTag, LineEnd, Line, AfterLine;
    LineOf(a, rest);
  }

  lemma MultiLineLost(v: string, rest: string)
    requires IsMultiLineData(v) && !ValueOk(v)
    ensures ReadValue(" " + (PrintValue(v) + "\n" + rest)).1 != v
  {
    hide LineEnd, AfterLine, TrimEnd, SkipBlanks, Line, ReadBody, OutputLines, StripTag, Join, SplitLines;
    var head := TAG_MARK + END_TAG;
    var body := v + "\n" + (END_TAG + "\n" + rest);
    OutputIsBroken(v);
    assert PrintValue(v) + "\n" + rest == head + "\n" + body;
    SkipBlanksOf(head + "\n" + body);
    assert NoBreak(head);
    LineOf(head, body);
    TrimEndOf(head, "");
    assert head + "" == head && head[3..] == END_TAG;
    LinesHaveNoBreak(body, END_TAG, false);
    JoinHasNoReturn(ReadBody(body, END_TAG, false).lines);
    if '\r' !in v { BodyCutOff(v, END_TAG + "\n" + rest, END_TAG); }
  }

  lemma {:induction false} ReadBodyTakes(t: string, tag: string, moved: bool)
    requires t != ""
    ensures |ReadBody(t, tag, moved).rest| < |t|
  {
    hide LineEnd, AfterLine, Line, IsTagLine;
  }

  /** A single line that looks like the start of several takes in what follows it, or is nothing. */
  lemma SingleLineLost(v: string, rest: string)
    requires !IsMultiLineData(v) && IsMultiLineTag(v)
    ensures ReadValue(" " + (v + "\n" + rest)) != (true, v, rest)
  {
    hide LineEnd, AfterLine, TrimEnd, SkipBlanks, Line;
    SkipBlanksOf(v + "\n" + rest);
    LineOf(v, rest);
    TrimEndOf(v, "");
    assert v + "" == v;
    NothingLeft();
    if rest != "" { ReadBodyTakes(rest, v[3..], false); }
  }

  lemma NothingLeft()
    ensures Line("") == "" && LineEnd("") == 0
  {
  }

  /** A written value survives if it is one of those `ValueOk` names, whatever follows it, and is lost if it is not,
      whatever follows it. */
  lemma ValueExactly(v: string, rest: string)
    ensures ReadValue(" " + (PrintValue(v) + "\n" + rest)) == (true, v, rest) <==> ValueOk(v)
  {
    hide ReadValue;
    if ValueOk(v) {
      ValueReads(v, rest);
    } else if IsMultiLineData(v) {
      MultiLineLost(v, rest);
    } else {
      SingleLineLost(v, rest);
    }
  }

  lemma {:induction false} TrimEndEnds(t: string)
    requires t != "" && !IsSpace(t[0])
    ensures TrimEnd(t) != "" && TrimEnd(t)[0] == t[0] && !IsSpace(TrimEnd(t)[|TrimEnd(t)| - 1])
  {
  }

  /** Whatever the reader finds has a name that could be written. */
  lemma {:induction false} FoundIsParseable(t: string)
    requires FindEntry(t).Found?
    ensures match FindEntry(t).item
            case Header(name) => name == "" || SectionOk(name)
            case Pair(key, _) => KeyOk(key)
    decreases |t|
  {
    hide AfterComment, CommentLines, Join, ReadValue, ValueRunsOn, LineEnd, TrimEnd;
    var u := SkipSpaces(t);
    if IsComment(u[0]) {
      FoundIsParseable(AfterComment(u, true));
    } else if u[0] == '[' {
      var name := SkipSpaces(u[1..]);
      var n := ScanTo(name, ']');
      if n < |name| && name[n] == ']' {
        if n > 0 { TrimEndEnds(name[..n]); } else { assert name[..n] == ""; }
      } else {
        FoundIsParseable(name[n..]);
      }
    } else {
      var n := ScanTo(u, '=');
      if n == |u| || u[n] != '=' {
        FoundIsParseable(u[n..]);
      } else if n == 0 {
        FoundIsParseable(u[LineEnd(u)..]);
      } else {
        TrimEndEnds(u[..n]);
      }
    }
  }

  /** So an entry survives being written and read exactly when its key and its value do, whatever follows it. */
  lemma EntryExactly(key: string, v: string, rest: string)
    ensures FindEntry(PrintPair(key, v) + rest) == Found(Pair(key, v), rest) <==> KeyOk(key) && ValueOk(v)
  {
    hide PrintPair, TurnOf, ValueOk, KeyOk, PrintValue, ReadValue;
    if KeyOk(key) {
      PairFinds(key, v, rest);
      ValueExactly(v, rest);
    } else if FindEntry(PrintPair(key, v) + rest).Found? {
      FoundIsParseable(PrintPair(key, v) + rest);
    }
  }

  /** And a section exactly when its name does. */
  lemma SectionExactly(name: string, rest: string)
    requires name != ""
    ensures FindEntry(PrintHeader(name) + rest) == Found(Header(name), "\n" + rest) <==> SectionOk(name)
  {
    hide PrintHeader, FindEntry, SectionOk;
    if SectionOk(name) {
      HeaderReads(name, rest);
    } else if FindEntry(PrintHeader(name) + rest).Found? {
      FoundIsParseable(PrintHeader(name) + rest);
    }
  }
}
