/** What a load stores: when a first load, whose strings stay where they were read, stores what a later load would, and
    when that is what the document's own way of building says. */
module IniLoading {
  import opened Bytes
  import opened IniDocument
  import opened IniFile
  import opened IniLines
  import opened IniPrint
  import opened IniReader
  import opened IniText

  // ------------------------------------------------------------------ comments that stay as they are

  /** Does loading a comment leave the text as it was? Its lines end with single line feeds, blank lines between them
      are empty, and the text ends with the last line. */
  predicate CommentKept(t: string)
    requires t != "" && IsComment(t[0])
    decreases |t|
  {
    var n := LineEnd(t);
    var u := AfterLine(t);
    n == |t| || (
      && t[n] == '\n' && CommentGoesOn(u, true)
      && (forall i :: 0 <= i < |u| - |SkipSpaces(u)| ==> u[i] == '\n')
      && CommentKept(SkipSpaces(u)))
  }

  function CommentText(t: string): string
    requires t != "" && IsComment(t[0])
  {
    Join(CommentLines(t, true))
  }

  lemma JoinCons(line: string, lines: seq<string>)
    requires lines != []
    ensures Join([line] + lines) == line + "\n" + Join(lines)
  {
    assert ([line] + lines)[1..] == lines;
  }

  lemma {:induction false} JoinBlanks(k: nat, lines: seq<string>)
    requires lines != []
    ensures Join(Blanks(k) + lines) == Feeds(k) + Join(lines)
    decreases k
  {
    hide Blanks, Feeds, Join;
    if k == 0 {
      assert Blanks(0) + lines == lines && Feeds(0) + Join(lines) == Join(lines);
    } else {
      assert Blanks(k) + lines == [""] + (Blanks(k - 1) + lines);
      JoinCons("", Blanks(k - 1) + lines);
      JoinBlanks(k - 1, lines);
      assert Feeds(k) == "\n" + Feeds(k - 1);
      Associate("\n", Feeds(k - 1), Join(lines));
      assert "" + "\n" == "\n";
    }
  }

  /** A comment line by line. */
  lemma CommentTextUnfold(t: string)
    requires t != "" && IsComment(t[0])
    ensures (var u := AfterLine(t);
             CommentText(t)
             == if CommentGoesOn(u, true)
                then Line(t) + "\n" + (Feeds(CountBreaks(u)) + CommentText(SkipSpaces(u)))
                else Line(t))
  {
    hide AfterLine, Line, SkipSpaces, CountBreaks, Join, Blanks, Feeds;
    var u := AfterLine(t);
    if CommentGoesOn(u, true) {
      var rest := CommentLines(SkipSpaces(u), true);
      assert CommentLines(t, true) == [Line(t)] + (Blanks(CountBreaks(u)) + rest);
      JoinCons(Line(t), Blanks(CountBreaks(u)) + rest);
      JoinBlanks(CountBreaks(u), rest);
    } else {
      JoinOne(Line(t));
    }
  }

  lemma JoinOne(line: string)
    ensures Join([line]) == line
  {
  }

  lemma FeedsExactly(t: string)
    ensures t == Feeds(|t|) <==> forall i :: 0 <= i < |t| ==> t[i] == '\n'
  {
    hide Feeds;
  }

  lemma {:induction false} FeedsCounted(u: string)
    requires forall i :: 0 <= i < |u| - |SkipSpaces(u)| ==> u[i] == '\n'
    ensures CountBreaks(u) == |u| - |SkipSpaces(u)|
    decreases |u|
  {
    if u != "" && IsSpace(u[0]) {
      assert u[0] == '\n';
      FeedsCounted(u[1..]);
    }
  }

  /** Of line breaks there are as many as of characters only if each is one of its own. */
  lemma BreaksKept(u: string)
    ensures (var k := |u| - |SkipSpaces(u)|;
             && u[k..] == SkipSpaces(u)
             && (CountBreaks(u) == k && u[..k] == Feeds(k) <==> forall i :: 0 <= i < k ==> u[i] == '\n'))
  {
    hide SkipSpaces, CountBreaks, Feeds;
    SpacesAreFront(u);
    var k := |u| - |SkipSpaces(u)|;
    FeedsExactly(u[..k]);
    if forall i :: 0 <= i < k ==> u[i] == '\n' { FeedsCounted(u); }
  }

  lemma LineParts(t: string)
    ensures (var n := LineEnd(t);
             && Line(t) == t[..n] && |AfterLine(t)| <= |t| && t[|t| - |AfterLine(t)|..] == AfterLine(t)
             && (n == |t| ==> AfterLine(t) == "")
             && (n < |t| ==> n < |t| - |AfterLine(t)|)
             && (n < |t| && t[n] == '\n' ==> AfterLine(t) == t[n + 1..]))
  {
  }

  lemma {:induction false} CommentTextKept(t: string)
    requires t != "" && IsComment(t[0])
    ensures |CommentText(t)| <= |t| && (CommentText(t) == t <==> CommentKept(t))
    decreases |t|
  {
    hide LineEnd, AfterLine, Line, SkipSpaces, CountBreaks, CommentText, Feeds;
    CommentTextUnfold(t);
    LineParts(t);
    var (n, u) := (LineEnd(t), AfterLine(t));
    GoesOnAt(u, true);
    if CommentGoesOn(u, true) {
      var ahead := SkipSpaces(u);
      var k := |u| - |ahead|;
      CommentTextKept(ahead);
      BreaksKept(u);
      SameParts(t, n, u, k, CountBreaks(u), CommentText(ahead));
    }
  }

  lemma SameParts(t: string, n: nat, u: string, k: nat, breaks: nat, text: string)
    requires n < |t| && k <= |u| && breaks <= k && |text| <= |u| - k
    requires n < |t| - |u| && t[|t| - |u|..] == u
    ensures (var all := t[..n] + "\n" + (Feeds(breaks) + text);
             all == t <==> t[n] == '\n' && breaks == k && u == t[n + 1..] && u[..k] == Feeds(k) && text == u[k..])
  {
    var all := t[..n] + "\n" + (Feeds(breaks) + text);
    assert |all| == n + 1 + breaks + |text| && u == u[..k] + u[k..];
    if t[n] == '\n' && u == t[n + 1..] { assert t == t[..n] + "\n" + u; }
    if all == t {
      assert all[n] == '\n' && all[n + 1..] == Feeds(breaks) + text;
      assert (Feeds(breaks) + text)[..k] == Feeds(k) && (Feeds(breaks) + text)[k..] == text;
    }
  }

  // ------------------------------------------------------------------ text that is only looked at

  /** Does looking for an entry leave all of the text as it was? There is no section header that its line closes, no
      line with a key, and at most one comment, which the text ends with and which stays as it is. */
  ghost predicate Quiet(t: string)
    decreases |t|
  {
    var u := SkipSpaces(t);
    if u != "" && IsComment(u[0]) then CommentKept(u)
    else
      match TurnOf(t)
      case Over => true
      case Next(rest, _, _) => Quiet(rest)
      case Hit(_, _, _) => false
  }

  /** What a turn takes is in front of what it leaves; what it cuts is cut short. */
  lemma TurnParts(t: string)
    ensures (var u := SkipSpaces(t);
             var k := |t| - |u|;
             match TurnOf(t)
             case Over => !(u != "" && IsComment(u[0]))
             case Next(rest, cut, _) =>
               && (cut == None <==> !(u != "" && IsComment(u[0])))
               && (cut == None ==> t[|t| - |rest|..] == rest)
               && (cut != None ==> cut.value == t[..k] + CommentText(u))
             case Hit(_, shown, _) => !(u != "" && IsComment(u[0])) && |shown| < |t|)
  {
    hide AfterComment, CommentLines, Join, LineEnd, TrimEnd, ReadValue, ValueRunsOn, SkipSpaces, ScanTo, HeaderTurnAt;
    SpacesAreFront(t);
    var u := SkipSpaces(t);
    if u != "" && !IsComment(u[0]) {
      if u[0] == '[' {
        HeaderParts(u);
        if TurnAt(u).Next? { SuffixOfSuffix(t, u, TurnAt(u).rest); }
      } else {
        var n := ScanTo(u, '=');
        if n == |u| || u[n] != '=' {
          SuffixOfSuffix(t, u, u[n..]);
        } else if n == 0 {
          SuffixOfSuffix(t, u, u[LineEnd(u)..]);
        } else {
          TrimEndShort(u[..n]);
        }
      }
    }
  }

  lemma SuffixOfSuffix(t: string, u: string, rest: string)
    requires |rest| <= |u| <= |t| && t[|t| - |u|..] == u && u[|u| - |rest|..] == rest
    ensures t[|t| - |rest|..] == rest
  {
  }

  lemma HeaderParts(u: string)
    requires u != "" && u[0] == '['
    ensures match HeaderTurnAt(u)
            case Over => false
            case Next(rest, _, _) => |rest| < |u| && u[|u| - |rest|..] == rest
            case Hit(_, shown, _) => |shown| < |u|
  {
    hide LineEnd, TrimEnd, SkipSpaces, ScanTo;
    var name := SkipSpaces(u[1..]);
    var n := ScanTo(name, ']');
    SpacesAreFront(u[1..]);
    assert u[1..][|u| - 1 - |name|..] == u[|u| - |name|..];
    TrimEndShort(name[..n]);
  }

  /** What is shown is the text itself exactly if nothing in it is cut off or moved. */
  lemma {:induction false} ShownExactly(t: string)
    ensures |Shown(t)| <= |t| && (Shown(t) == t <==> Quiet(t))
    decreases |t|
  {
    hide TurnOf, CommentText, CommentKept, SkipSpaces;
    TurnParts(t);
    var u := SkipSpaces(t);
    SpacesAreFront(t);
    var k := |t| - |u|;
    assert t == t[..k] + u;
    match TurnOf(t)
    case Over =>
    case Next(rest, cut, _) =>
      if cut != None {
        CommentTextKept(u);
        SameBehind(t[..k], CommentText(u), u);
      } else {
        ShownExactly(rest);
        var m := |t| - |rest|;
        assert t == t[..m] + rest;
        SameBehind(t[..m], Shown(rest), rest);
      }
    case Hit(_, shown, _) =>
  }

  lemma SameBehind(a: string, b: string, c: string)
    ensures a + b == a + c <==> b == c
  {
    assert (a + b)[|a|..] == b && (a + c)[|a|..] == c;
  }

  lemma {:induction false} QuietIsEnd(t: string)
    requires Quiet(t)
    ensures FindEntry(t) == End
    decreases |t|
  {
    hide TurnOf, CommentKept, SkipSpaces;
    TurnParts(t);
    var u := SkipSpaces(t);
    if u != "" && IsComment(u[0]) {
      CommentEnds(u);
      CommentTurnFront(t);
      NothingInNothing();
    } else if TurnOf(t).Next? {
      QuietIsEnd(TurnOf(t).rest);
    }
  }

  lemma CommentTurnFront(t: string)
    requires SkipSpaces(t) != "" && IsComment(SkipSpaces(t)[0])
    ensures TurnOf(t).Next? && TurnOf(t).rest == AfterComment(SkipSpaces(t), true)
  {
    hide AfterComment, CommentLines, Join, SkipSpaces;
  }

  /** A comment that stays as it is takes all of the text. */
  lemma {:induction false} CommentEnds(t: string)
    requires t != "" && IsComment(t[0]) && CommentKept(t)
    ensures AfterComment(t, true) == ""
    decreases |t|
  {
    hide LineEnd, AfterLine, SkipSpaces;
    LineParts(t);
    GoesOnAt(AfterLine(t), true);
    if LineEnd(t) < |t| { CommentEnds(SkipSpaces(AfterLine(t))); }
  }

  // ------------------------------------------------------------------ values that run on

  /** A value that runs on is text that goes on with what is left. */
  lemma ValueRuns(t: string)
    requires ValueRunsOn(t)
    ensures (var (_, v, rest) := ReadValue(t);
             |rest| <= |v| && v[|v| - |rest|..] == rest)
  {
    hide LineEnd, AfterLine, TrimEnd, SkipBlanks, IsTagLine;
    var u := SkipBlanks(t);
    LineParts(AfterLine(u));
  }

  lemma {:induction false} RunsOnFound(t: string)
    requires RunsOn(t)
    ensures (var e := FindEntry(t);
             && e.Found? && e.item.Pair? && |e.rest| <= |e.item.value|
             && e.item.value[|e.item.value| - |e.rest|..] == e.rest)
    decreases |t|
  {
    hide TurnOf;
    if TurnOf(t).Hit? { TurnRuns(t); } else { RunsOnFound(TurnOf(t).rest); }
  }

  lemma TurnRuns(t: string)
    requires TurnOf(t).Hit? && TurnOf(t).runsOn
    ensures (var e := TurnOf(t).entry;
             && e.Found? && e.item.Pair? && |e.rest| <= |e.item.value|
             && e.item.value[|e.item.value| - |e.rest|..] == e.rest)
  {
    hide AfterComment, CommentLines, Join, LineEnd, TrimEnd, ReadValue, ValueRunsOn, SkipSpaces, ScanTo;
    var u := SkipSpaces(t);
    if u[0] != '[' { ValueRuns(u[ScanTo(u, '=') + 1..]); }
  }

  /** Left where it was read, a value that runs on stays what it was if what follows is only looked at. */
  lemma RunOnExactly(t: string)
    requires RunsOn(t)
    ensures FindEntry(t).Found?
    ensures (var e := FindEntry(t);
             ItemShown(t, e.item, e.rest) == e.item <==> Quiet(e.rest))
  {
    hide FindEntry, RunsOn, Shown, Quiet;
    RunsOnFound(t);
    var e := FindEntry(t);
    var k := |e.item.value| - |e.rest|;
    ShownExactly(e.rest);
    assert e.item.value == e.item.value[..k] + e.rest;
    SameBehind(e.item.value[..k], Shown(e.rest), e.rest);
  }

  // ------------------------------------------------------------------ first and later loads

  /** Every value that runs on has only text behind it that is only looked at. */
  ghost predicate KeptInPlace(t: string)
    decreases |t|
  {
    match FindEntry(t)
    case End => true
    case Found(_, rest) => (RunsOn(t) ==> Quiet(rest)) && KeptInPlace(rest)
  }

  /** A first load stores what a later load of the same text would, if and only if the text is kept in place. */
  lemma {:induction false} FirstLoadExactly(t: string, section: string)
    ensures Loadings(t, section, false) == Loadings(t, section, true) <==> KeptInPlace(t)
    decreases |t|
  {
    hide FindEntry, RunsOn, Quiet, SectionOf;
    LoadingsUnfold(t, section, false);
    LoadingsUnfold(t, section, true);
    var e := FindEntry(t);
    if e.Found? {
      var name := SectionOf(t, e.item, section);
      FirstLoadExactly(e.rest, name);
      if RunsOn(t) { RunOnExactly(t); }
      SameLoadings(Loading(name, ItemShown(t, e.item, e.rest)), Loading(name, e.item),
                   Loadings(e.rest, name, false), Loadings(e.rest, name, true));
    }
  }

  lemma SameLoadings(a: Loading, b: Loading, xs: seq<Loading>, ys: seq<Loading>)
    ensures [a] + xs == [b] + ys <==> a == b && xs == ys
  {
    assert ([a] + xs)[0] == a && ([b] + ys)[0] == b && ([a] + xs)[1..] == xs && ([b] + ys)[1..] == ys;
  }

  lemma KeyTurnOf(key: string, behind: string)
    requires KeyOk(key)
    ensures (var (found, value, rest) := ReadValue(behind);
             TurnOf(key + "=" + behind)
             == Hit(if found then Found(Pair(key, value), rest) else End, key, found && ValueRunsOn(behind)))
  {
    hide ScanTo, TrimEnd, ReadValue, ValueRunsOn, TurnOf, AfterComment, CommentLines, Join, HeaderTurnAt;
    var t := key + "=" + behind;
    TurnHere(t);
    ScanOf(key, '=', behind);
    assert key + "=" == key + ['='] && t[..|key|] == key && t[|key| + 1..] == behind;
    TrimEndOf(key, "");
    assert key + "" == key;
  }

  /** A line that is the value: of one line, or of the start of a body that its first line ends. */
  lemma ValueOfLine(v: string, rest: string)
    requires NoBreak(v) && v != "" && !IsSpace(v[0]) && !IsSpace(v[|v| - 1])
    ensures !IsMultiLineTag(v) ==> ReadValue(v + "\n" + rest) == (true, v, rest) && !ValueRunsOn(v + "\n" + rest)
    ensures IsMultiLineTag(v) ==>
      (var b := ReadBody(rest, v[3..], false);
       && ReadValue(v + "\n" + rest) == (BodyFound(rest, b, v[3..]), BodyValue(rest, b, v[3..]), b.rest)
       && ValueRunsOn(v + "\n" + rest) == BodyRunsOn(rest, b, v[3..]))
  {
    hide LineEnd, AfterLine, TrimEnd, Line, ReadBody, BodyFound, BodyValue, BodyRunsOn;
    LineOf(v, rest);
    TrimEndOf(v, "");
    assert v + "" == v;
  }

  const CUT_OFF := "k=<<<T\nT\nfoo=bar\n"

  /** A value that a first load cuts off: its body ends at once, and a key follows. */
  lemma FirstLoadCutsOff()
    ensures Loadings(CUT_OFF, "", true)
         == [Loading("", Pair("k", "T\nfoo=bar\n")), Loading("", Pair("foo", "bar"))]
    ensures Loadings(CUT_OFF, "", false) == [Loading("", Pair("k", "T\nfoo")), Loading("", Pair("foo", "bar"))]
  {
    hide FindEntry, Shown, OpenName, RunsOn, Loadings;
    CutOffTurns();
    var (second, body) := ("foo=bar\n", "T\nfoo=bar\n");
    assert |body| - |second| == 2 && body[..2] == "T\n" && "T\n" + "foo" == "T\nfoo";
    forall copies | copies || !copies
      ensures Loadings(CUT_OFF, "", copies)
           == [Loading("", Pair("k", if copies then body else "T\nfoo")), Loading("", Pair("foo", "bar"))]
    {
      LoadingsUnfold(CUT_OFF, "", copies);
      LoadingsUnfold(second, "", copies);
      LoadingsUnfold("", "", copies);
    }
  }

  lemma CutOffTurns()
    ensures FindEntry(CUT_OFF) == Found(Pair("k", "T\nfoo=bar\n"), "foo=bar\n") && RunsOn(CUT_OFF)
    ensures FindEntry("foo=bar\n") == Found(Pair("foo", "bar"), "") && !RunsOn("foo=bar\n")
    ensures Shown("foo=bar\n") == "foo" && OpenName("foo=bar\n") == None && OpenName(CUT_OFF) == None
    ensures FindEntry("") == End
  {
    hide TurnOf, ReadValue, ValueRunsOn, ReadBody, LineEnd, StripTag;
    var last := "bar" + "\n" + "";
    var second := "foo" + "=" + last;
    var body := "T" + "\n" + second;
    var text := "k" + "=" + ("<<<T" + "\n" + body);
    assert text == CUT_OFF && body == "T\nfoo=bar\n" && second == "foo=bar\n";
    CutOffValues(second);
    KeyTurnOf("k", "<<<T" + "\n" + body);
    KeyTurnOf("foo", last);
    NothingInNothing();
  }

  lemma CutOffValues(second: string)
    requires second != ""
    ensures (var body := "T" + "\n" + second;
             ReadValue("<<<T" + "\n" + body) == (true, body, second) && ValueRunsOn("<<<T" + "\n" + body))
    ensures (var last := "bar" + "\n" + "";
             ReadValue(last) == (true, "bar", "") && !ValueRunsOn(last))
  {
    hide ReadValue, ValueRunsOn, ReadBody, LineEnd, StripTag;
    var body := "T" + "\n" + second;
    assert "<<<T"[3..] == "T" && "<<<T"[..3] == TAG_MARK;
    TagOfOne();
    ReadBodyEnds("T", second);
    LineOf("T", second);
    ValueOfLine("<<<T", body);
    ValueOfLine("bar", "");
  }

  lemma TagOfOne()
    ensures StripTag("T") == "T" && NoBreak("T") && NoBreak("<<<T") && NoBreak("bar")
  {
  }

  // ------------------------------------------------------------------ loading and building

  /** Where no header is left open, and strings are copied or kept in place, a load is the document's own building. */
  lemma {:induction false} LoadingIsBuilding(doc: Document, t: string, section: string, copies: bool)
    requires NoOpenHeader(t) && (copies || KeptInPlace(t))
    ensures AddAll(doc, Loadings(t, section, copies)) == Build(doc, section, Items(t))
    decreases |t|
  {
    hide FindEntry, RunsOn, OpenName, Add, Quiet;
    LoadingsUnfold(t, section, copies);
    var e := FindEntry(t);
    if e.Found? {
      var name := SectionOf(t, e.item, section);
      if !copies && RunsOn(t) { RunOnExactly(t); }
      LoadingIsBuilding(Add(doc, name, e.item), e.rest, name, copies);
      AddAllCons(doc, Loading(name, e.item), Loadings(e.rest, name, copies));
    }
  }

  /** Written text is of that kind. */
  lemma {:induction false} PlainIsKept(t: string)
    requires Plain(t)
    ensures NoOpenHeader(t) && KeptInPlace(t)
    decreases |t|
  {
    hide FindEntry, RunsOn, OpenName;
    if FindEntry(t).Found? { PlainIsKept(FindEntry(t).rest); }
  }

  /** What can be written is loaded again as it was, by a first load as by a later one. */
  lemma LoadsAgain(doc: Document, copies: bool)
    requires Writable(doc)
    ensures AddAll([], Loadings(Print(doc), "", copies)) == doc
  {
    hide Print, Writable, Build, Items, Loadings, Plain, KeptInPlace, NoOpenHeader;
    RoundTrip(doc);
    PlainIsKept(Print(doc));
    LoadingIsBuilding([], Print(doc), "", copies);
  }
}
