/** The INI reader's search for entries: names and values are cut out of the buffer in place. */
module IniReader {
  import opened Bytes
  import opened IniLines
  import opened IniText

  // ------------------------------------------------------------------ entries

  method TrailAt(buf: array<char>, p: nat, end: nat, ghost s: string) returns (trail: nat)
    requires p + |s| == end < buf.Length && buf[p..end] == s
    ensures trail == p + |TrimEnd(s)|
  {
    var last := end - 1;
    assert s[..|s|] == s;
    while last >= p && IsSpace(buf[last])
      invariant p - 1 <= last < end && TrimEnd(s[..last + 1 - p]) == TrimEnd(s)
    {
      assert s[..last + 1 - p][..last - p] == s[..last - p];
      assert s[last - p] == buf[last];
      last := last - 1;
    }
    assert last >= p ==> s[last - p] == buf[last];
    trail := last + 1;
  }

  /** Ends the string at `p` behind its last character that is no space. */
  method TrimAt(buf: array<char>, p: nat, end: nat, ghost s: string)
    requires p + |s| == end < buf.Length && buf[p..end] == s && '\0' !in s
    modifies buf
    ensures IsStr(buf[..], p, TrimEnd(s))
    ensures SameOutside(old(buf[..]), buf[..], p, end + 1) && (buf[end] == '\0' || buf[end] == old(buf[end]))
  {
    hide TrimEnd;
    var trail := TrailAt(buf, p, end, s);
    buf[trail] := '\0';
    assert buf[p..trail] == s[..trail - p] == TrimEnd(s);
    PieceIsStr(buf[..], p, trail, TrimEnd(s));
  }

  /** An entry found in the buffer: where its strings are. A header has no key and no value. */
  datatype Place = NoEntry | HeaderAt(name: nat) | PairAt(key: nat, value: nat)

  ghost predicate PlaceHolds(s: seq<char>, place: Place, entry: Entry)
  {
    match entry
    case End => place.NoEntry?
    case Found(Header(name), _) => place.HeaderAt? && IsStr(s, place.name, name)
    case Found(Pair(key, value), _) => place.PairAt? && IsStr(s, place.key, key) && IsStr(s, place.value, value)
  }

  /** What lies behind a line is still there after the line has been trimmed. */
  lemma BehindTrimmed(s: seq<char>, s': seq<char>, p: nat, t: string, p': nat)
    requires IsStr(s, p, t) && p' + |AfterLine(t)| == p + |t| && IsStr(s, p', AfterLine(t))
    requires SameOutside(s, s', p, p + LineEnd(t) + 1)
    requires s'[p + LineEnd(t)] == '\0' || s'[p + LineEnd(t)] == s[p + LineEnd(t)]
    ensures IsStr(s', p', AfterLine(t))
  {
    hide LineEnd;
    if LineEnd(t) < |t| {
      assert p' > p + LineEnd(t);
      assert s'[p'..] == s[p'..];
      IsStrFrame(s, s', p', AfterLine(t));
    }
  }

  method IsMultiLineTagAt(buf: array<char>, p: nat, ghost t: string) returns (multi: bool)
    requires IsStr(buf[..], p, t)
    ensures multi == IsMultiLineTag(t)
  {
    multi := buf[p] == '<' && buf[p + 1] == '<' && buf[p + 2] == '<';
    assert forall i :: 0 <= i < |t| ==> buf[..][p + i] == t[i];
    assert |t| > 0 ==> t[0] == buf[p];
    assert |t| > 1 ==> t[1] == buf[p + 1];
    assert |t| > 2 ==> t[2] == buf[p + 2];
    if multi { assert TAG_MARK == t[..3]; }
  }

  /** Takes the line at `p` as a value: trims it and gives the place behind the line. */
  method TakeLine(buf: array<char>, p: nat, ghost u: string) returns (p': nat)
    requires IsStr(buf[..], p, u)
    modifies buf
    ensures IsStr(buf[..], p, TrimEnd(Line(u)))
    ensures p' + |AfterLine(u)| == p + |u| && IsStr(buf[..], p', AfterLine(u))
    ensures p + |TrimEnd(Line(u))| <= p'
    ensures buf[..p] == old(buf[..p])
  {
    hide LineEnd, TrimEnd, AfterLine;
    AfterLineShort(u);
    ghost var s0 := buf[..];
    var end := FindLineEnd(buf, p, u);
    p' := AfterLineAt(buf, p, u);
    SliceOfStr(s0, p, u, LineEnd(u));
    TrimAt(buf, p, end, Line(u));
    BehindTrimmed(s0, buf[..], p, u, p');
  }

  /** Reads the value behind an equals sign. */
  method ReadValueAt(buf: array<char>, p: nat, ghost t: string) returns (found: bool, value: nat, p': nat)
    requires IsStr(buf[..], p, t)
    modifies buf
    ensures (var (ok, v, rest) := ReadValue(t);
             && found == ok
             && (ok ==> p <= value && IsStr(buf[..], value, v) && p' + |rest| == p + |t| && IsStr(buf[..], p', rest))
             && (ok ==> Stands(buf[..], value, ValueShown(t), p', rest)))
    ensures buf[..p] == old(buf[..p])
  {
    hide LineEnd, TrimEnd, ReadBody, SkipBlanks, BreakLength, BodyValue, BodyShown, BodyRunsOn, BodyFound;
    hide IsMultiLineTag;
    hide AfterLine, Line, Stands, IsStr, RunOn;
    value := SkipBlanksAt(buf, p, t);
    ghost var u := SkipBlanks(t);
    ghost var (v, rest) := (TrimEnd(Line(u)), AfterLine(u));
    p' := TakeLine(buf, value, u);
    found := true;
    EndedStands(buf[..], value, v, p', rest);
    var multi := IsMultiLineTagAt(buf, value, v);
    if multi {
      TagIsLong(v);
      ShownOfBody(rest, ReadBody(rest, v[3..], false), v[3..]);
      IsStrDrop(buf[..], value, v, 3);
      var tag := ReadString(buf, value + 3, v[3..]);
      NoZeroInStr(buf[..], value + 3, v[3..]);
      value := p';
      ghost var s1 := buf[..];
      found, p' := LoadMultiLine(buf, p', tag, rest);
      assert buf[..p] == buf[..value - 1][..p] == s1[..value - 1][..p] == s1[..p];
    }
  }

  lemma NoZeroInStr(s: seq<char>, p: nat, t: string)
    requires IsStr(s, p, t)
    ensures '\0' !in t
  {
  }

  lemma ShownOfBody(t: string, b: Body, tag: string)
    ensures BodyRunsOn(t, b, tag) ==> BodyValue(t, b, tag) == t && BodyShown(t, b, tag) == RunOn(t, b.rest)
    ensures !BodyRunsOn(t, b, tag) ==> BodyShown(t, b, tag) == BodyValue(t, b, tag)
  {
    hide LineEnd, Line, RunOn;
  }

  lemma TagIsLong(v: string)
    requires IsMultiLineTag(v)
    ensures |v| >= 3
  {
  }

  // ------------------------------------------------------------------ finding entries

  /** Ends a section name at its closing bracket and goes to the end of the line. */
  method EndHeader(buf: array<char>, name: nat, end: nat, ghost t: string) returns (p': nat)
    requires IsStr(buf[..], name, t) && end == name + ScanTo(t, ']') && end < name + |t| && buf[end] == ']'
    modifies buf
    ensures (var n := ScanTo(t, ']');
             var rest := t[n..][LineEnd(t[n..])..];
             && IsStr(buf[..], name, TrimEnd(t[..n])) && name + |TrimEnd(t[..n])| < p'
             && p' + |rest| == name + |t| && IsStr(buf[..], p', rest))
    ensures buf[..name] == old(buf[..name])
  {
    hide TrimEnd, ScanTo, LineEnd, IsStr;
    ghost var (s0, n) := (buf[..], ScanTo(t, ']'));
    StrInside(s0, name, t);
    IsStrDrop(s0, name, t, n);
    p' := FindLineEnd(buf, end, t[n..]);
    IsStrDrop(s0, end, t[n..], p' - end);
    SliceOfStr(s0, name, t, n);
    TrimAt(buf, name, end, t[..n]);
    BracketBefore(t[n..]);
    IsStrFrame(s0, buf[..], p', t[n..][LineEnd(t[n..])..]);
  }

  /** Reads the header whose bracket is at `p`; one that is not closed leaves the section name where it began. */
  method HeaderAtBracket(buf: array<char>, p: nat, ghost u: string) returns (closed: bool, name: nat, p': nat)
    requires IsStr(buf[..], p, u) && u != "" && u[0] == '['
    modifies buf
    ensures p < name <= p'
    ensures (var t := SkipSpaces(u[1..]);
             var n := ScanTo(t, ']');
             var rest := if closed then t[n..][LineEnd(t[n..])..] else t[n..];
             && closed == Closed(t) && name + |t| == p + |u|
             && (closed ==> IsStr(buf[..], name, TrimEnd(t[..n])) && name + |TrimEnd(t[..n])| < p')
             && p' + |rest| == p + |u| && IsStr(buf[..], p', rest))
    ensures buf[..name] == old(buf[..name])
    ensures !closed ==> buf[..] == old(buf[..])
  {
    hide TrimEnd, SkipSpaces, ScanTo, LineEnd;
    ghost var (s0, t) := (buf[..], SkipSpaces(u[1..]));
    IsStrDrop(s0, p, u, 1);
    name := SkipSpacesAt(buf, p + 1, u[1..]);
    p' := ScanAt(buf, name, ']', t);
    IsStrDrop(s0, name, t, ScanTo(t, ']'));
    closed := buf[p'] == ']';
    if closed {
      p' := EndHeader(buf, name, p', t);
    }
  }

  lemma BracketBefore(t: string)
    requires t != "" && t[0] == ']'
    ensures LineEnd(t) > 0
  {
  }

  /** Reads the key at `p` and its value, up to the equals sign at `end`. */
  method PairUpTo(buf: array<char>, p: nat, end: nat, ghost u: string) returns (found: bool, value: nat, p': nat)
    requires IsStr(buf[..], p, u) && p < end < p + |u| && u[end - p] == '='
    modifies buf
    ensures (var n := end - p;
             var (ok, v, rest) := ReadValue(u[n + 1..]);
             && found == ok && IsStr(buf[..], p, TrimEnd(u[..n]))
             && (ok ==> IsStr(buf[..], value, v) && Stands(buf[..], value, ValueShown(u[n + 1..]), p', rest))
             && (ok ==> p' + |rest| == p + |u| && IsStr(buf[..], p', rest)))
    ensures buf[..p] == old(buf[..p])
  {
    hide TrimEnd, ReadValue, ValueShown, Stands;
    ghost var (s0, n) := (buf[..], end - p);
    SliceOfStr(s0, p, u, n);
    IsStrDrop(s0, p, u, n + 1);
    TrimAt(buf, p, end, u[..n]);
    ghost var s1 := buf[..];
    IsStrFrame(s0, s1, end + 1, u[n + 1..]);
    found, value, p' := ReadValueAt(buf, end + 1, u[n + 1..]);
    KeyStays(s1, buf[..], p, TrimEnd(u[..n]), end);
  }

  lemma KeyStays(s: seq<char>, s': seq<char>, p: nat, t: string, end: nat)
    requires end < |s| == |s'| && s'[..end + 1] == s[..end + 1]
    requires IsStr(s, p, t) && p + |t| <= end
    ensures IsStr(s', p, t)
  {
    assert forall i :: 0 <= i <= end ==> s'[i] == s'[..end + 1][i] == s[..end + 1][i] == s[i];
  }

  // ------------------------------------------------------------------ one turn

  /** What the strings of an entry that was found are when all has been read. */
  ghost predicate EntryStands(s: seq<char>, place: Place, t: string, runsOn: bool, item: Item, p: nat, rest: string)
  {
    match item
    case Header(name) => place.HeaderAt? && place.name + |name| < p
    case Pair(key, value) =>
      && place.PairAt? && place.key + |key| < p
      && Stands(s, place.value, if runsOn then RunOn(value, rest) else value, p, rest)
  }

  /** What a turn at `p` leaves. In a turn that goes on, text that no zero was put into is as it was. */
  ghost predicate TurnHolds(s: seq<char>, s': seq<char>, p: nat, t: string, turn: Turn, place: Place,
                            section: Option<nat>, section': Option<nat>, p': nat)
  {
    match turn
    case Over => true
    case Next(rest, cut, open) =>
      && p' + |rest| == p + |t| && IsStr(s', p', rest)
      && (if cut == None then s' == s else IsStr(s', p, cut.value) && p + |cut.value| <= p')
      && (if open == None then section' == section
          else section'.Some? && p <= section'.value && section'.value + |open.value| == p'
               && s'[section'.value..p'] == open.value)
    case Hit(entry, shown, runsOn) =>
      && PlaceHolds(s', place, entry) && IsStr(s', p, shown)
      && (entry.Found? ==>
            && p' + |entry.rest| == p + |t| && IsStr(s', p', entry.rest) && p + |shown| < p'
            && EntryStands(s', place, t, runsOn, entry.item, p', entry.rest)
            && section' == if entry.item.Header? then Some(place.name) else section)
  }

  lemma SpacesGone(t: string)
    requires t != "" && !IsSpace(t[0])
    ensures SkipSpaces(t) == t
  {
  }

  /** A turn at text that starts with no space. */
  lemma TurnHere(t: string)
    requires t != "" && !IsSpace(t[0])
    ensures TurnOf(t) == TurnAt(t)
  {
    hide TurnAt, SkipSpaces;
    SpacesGone(t);
    assert t[..0] == "";
    assert forall r: string :: "" + r == r;
  }

  /** A line that is neither a comment nor a header: an entry if it has a key and an equals sign. */
  method KeyTurn(buf: array<char>, key: nat, section: Option<nat>, ghost t: string)
    returns (done: bool, place: Place, p': nat)
    requires IsStr(buf[..], key, t) && t != "" && !IsSpace(t[0]) && !IsComment(t[0]) && t[0] != '['
    modifies buf
    ensures done == TurnOf(t).Hit? && !TurnOf(t).Over?
    ensures TurnHolds(old(buf[..]), buf[..], key, t, TurnOf(t), place, section, section, p')
    ensures buf[..key] == old(buf[..key])
  {
    hide LineEnd, TrimEnd, ReadValue, ValueRunsOn, SkipSpaces, ScanTo, TurnOf, HeaderTurnAt, Stands, IsStr;
    TurnHere(t);
    done, place := false, NoEntry;
    p' := ScanAt(buf, key, '=', t);
    ghost var n := ScanTo(t, '=');
    IsStrDrop(buf[..], key, t, n);
    StrStarts(buf[..], p', t[n..]);
    if buf[p'] != '=' {
      return;
    }
    if key == p' {
      p' := FindLineEnd(buf, p', t);
      IsStrDrop(buf[..], key, t, LineEnd(t));
      return;
    }
    var found, value;
    found, value, p' := PairUpTo(buf, key, p', t);
    done, place := true, if found then PairAt(key, value) else NoEntry;
    ShownValue(t[n + 1..]);
    TrimEndShort(t[..n]);
  }

  lemma ShownValue(t: string)
    ensures (var (_, value, rest) := ReadValue(t);
             ValueShown(t) == if ValueRunsOn(t) then RunOn(value, rest) else value)
  {
    hide ReadValue, ValueRunsOn, RunOn;
  }

  lemma TrimEndShort(t: string)
    ensures |TrimEnd(t)| <= |t|
  {
  }

  /** A header, if its line closes it. */
  method HeaderTurn(buf: array<char>, p: nat, ghost section: Option<nat>, ghost t: string)
    returns (done: bool, place: Place, section': Option<nat>, p': nat)
    requires IsStr(buf[..], p, t) && t != "" && t[0] == '['
    modifies buf
    ensures done == TurnOf(t).Hit? && !TurnOf(t).Over?
    ensures TurnHolds(old(buf[..]), buf[..], p, t, TurnOf(t), place, section, section', p')
    ensures buf[..p] == old(buf[..p])
  {
    hide LineEnd, TrimEnd, SkipSpaces, ScanTo, TurnOf, TurnAt, Stands, IsStr, Closed, TurnHolds, PlaceHolds;
    TurnHere(t);
    HeaderTurnIs(t);
    ghost var s0 := buf[..];
    StrInside(s0, p, t);
    var at;
    done, at, p' := HeaderAtBracket(buf, p, t);
    ghost var name := SkipSpaces(t[1..]);
    place, section' := if done then HeaderAt(at) else NoEntry, Some(at);
    ghost var n := ScanTo(name, ']');
    SpacesAreFront(t[1..]);
    assert t[1..][|t| - 1 - |name|..] == t[|t| - |name|..];
    if done {
      ClosedHolds(s0, buf[..], p, t, at, TrimEnd(name[..n]), name[n..][LineEnd(name[n..])..], section, p');
    } else {
      NameOpen(s0, p, t, at, name, n);
      OpenHolds(s0, p, t, at, name[..n], name[n..], section, p');
    }
  }

  lemma ClosedHolds(s: seq<char>, s': seq<char>, p: nat, t: string, at: nat, name: string, rest: string,
                    section: Option<nat>, p': nat)
    requires IsStr(s, p, t) && p <= at <= p + |t| && |s'| == |s| && s'[..at] == s[..at] && IsStr(s', at, name)
    requires at + |name| < p' && p' + |rest| == p + |t| && IsStr(s', p', rest)
    ensures TurnHolds(s, s', p, t, Hit(Found(Header(name), rest), t[..at - p] + name, false), HeaderAt(at),
                      section, Some(at), p')
    ensures s'[..p] == s[..p]
  {
    hide IsStr;
    StrInside(s, p, t);
    HeaderShown(s, s', p, t, at, name);
    assert s'[..p] == s'[..at][..p] == s[..at][..p];
  }

  lemma OpenHolds(s: seq<char>, p: nat, t: string, at: nat, name: string, rest: string, section: Option<nat>, p': nat)
    requires p <= at && at + |name| == p' <= |s| && s[at..p'] == name
    requires p' + |rest| == p + |t| && IsStr(s, p', rest)
    ensures TurnHolds(s, s, p, t, Next(rest, None, Some(name)), NoEntry, section, Some(at), p')
  {
    hide IsStr;
  }

  lemma HeaderTurnIs(t: string)
    requires t != "" && t[0] == '['
    ensures TurnAt(t) == HeaderTurnAt(t)
  {
    hide HeaderTurnAt;
  }

  /** One turn at text that starts with no space. */
  method EntryTurn(buf: array<char>, p: nat, section: Option<nat>, ghost t: string)
    returns (done: bool, place: Place, section': Option<nat>, p': nat)
    requires IsStr(buf[..], p, t) && t != "" && !IsSpace(t[0])
    modifies buf
    ensures done == TurnOf(t).Hit? && !TurnOf(t).Over?
    ensures TurnHolds(old(buf[..]), buf[..], p, t, TurnOf(t), place, section, section', p')
    ensures buf[..p] == old(buf[..p])
  {
    hide TurnOf, IsStr, AfterComment, CommentLines, Join;
    StrStarts(buf[..], p, t);
    if IsComment(buf[p]) {
      CommentTurn(t);
      done, place, section' := false, NoEntry, section;
      p' := LoadComment(buf, p, true, t);
    } else if buf[p] == '[' {
      done, place, section', p' := HeaderTurn(buf, p, section, t);
    } else {
      section' := section;
      done, place, p' := KeyTurn(buf, p, section, t);
      KeyTurnSection(t);
    }
  }

  lemma CommentTurn(t: string)
    requires t != "" && IsComment(t[0])
    ensures TurnOf(t) == Next(AfterComment(t, true), Some(Join(CommentLines(t, true))), None)
  {
    hide TurnOf, AfterComment, CommentLines, Join, SkipSpaces, HeaderTurnAt;
    TurnHere(t);
  }

  /** Such a line is no header. */
  lemma KeyTurnSection(t: string)
    requires t != "" && !IsSpace(t[0]) && !IsComment(t[0]) && t[0] != '['
    ensures TurnOf(t).Hit? && TurnOf(t).entry.Found? ==> TurnOf(t).entry.item.Pair?
  {
    hide TurnOf, ReadValue, ValueRunsOn, SkipSpaces, ScanTo, LineEnd, TrimEnd, HeaderTurnAt;
    TurnHere(t);
  }

  /** From the bracket on, a header shows up to the end of its name. */
  lemma HeaderShown(s: seq<char>, s': seq<char>, p: nat, t: string, at: nat, name: string)
    requires IsStr(s, p, t) && p <= at <= p + |t| && |s'| == |s| && s'[..at] == s[..at] && IsStr(s', at, name)
    ensures IsStr(s', p, t[..at - p] + name)
  {
    var v := t[..at - p] + name;
    forall i | 0 <= i < |v|
      ensures s'[p + i] == v[i] && v[i] != '\0'
    {
      if p + i < at {
        assert s'[p + i] == s'[..at][p + i] == s[..at][p + i] == s[p + i] == t[i];
      } else {
        assert v[i] == name[p + i - at] == s'[at + (p + i - at)];
      }
    }
  }

  lemma NameOpen(s: seq<char>, p: nat, t: string, at: nat, name: string, n: nat)
    requires IsStr(s, p, t) && p < at && at + |name| == p + |t| && n <= |name| && name == t[at - p..]
    ensures s[at..at + n] == name[..n]
  {
    SliceOfStr(s, p, t, at + n - p);
    assert s[p..at + n][at - p..] == s[at..at + n];
  }

  // ------------------------------------------------------------------ the search

  /** A section name left open: none so far, or one that stands at the place of the section. */
  ghost predicate OpenStands(s: seq<char>, name: Option<string>, section: Option<nat>, section': Option<nat>,
                             p: nat, t: string)
  {
    if name == None then section' == section else section'.Some? && Stands(s, section'.value, name.value, p, t)
  }

  /** What is shown from the start of a text on, and which name is open, when a turn that goes on has been taken. */
  lemma ShownUnfold(t: string)
    ensures match TurnOf(t)
            case Over => Shown(t) == t && OpenName(t) == None
            case Next(rest, cut, open) =>
              && Shown(t) == (if cut != None then cut.value else t[..|t| - |rest|] + Shown(rest))
              && OpenName(t) == (if OpenName(rest) != None then OpenName(rest)
                                 else if open != None then Some(open.value + Shown(rest))
                                 else None)
              && FindEntry(t) == FindEntry(rest) && RunsOn(t) == RunsOn(rest)
            case Hit(entry, shown, runsOn) =>
              Shown(t) == shown && OpenName(t) == None && FindEntry(t) == entry && RunsOn(t) == runsOn
  {
    hide TurnOf;
  }

  /** A string that runs on into the text of a turn stands behind the turn as well. */
  lemma StandsTurn(s: seq<char>, s': seq<char>, at: nat, v: string, p: nat, t: string, place: Place,
                   section: Option<nat>, section': Option<nat>, p': nat)
    requires Stands(s, at, v, p, t) && IsStr(s, p, t) && |s'| == |s| && s'[..p] == s[..p]
    requires TurnOf(t).Next? && TurnHolds(s, s', p, t, TurnOf(t), place, section, section', p')
    ensures Stands(s', at, v, p', TurnOf(t).rest)
  {
    hide TurnOf, Stands, IsStr, Shown, OpenName, FindEntry, RunsOn;
    var turn := TurnOf(t);
    ShownUnfold(t);
    StrInside(s, p, t);
    if turn.cut == None {
      var k := |t| - |turn.rest|;
      IsStrDrop(s, p, t, k);
      SameStr(s, p', t[k..], turn.rest);
      StandsOn(s, at, v, p, t, k);
    } else {
      StandsCut(s, s', at, v, p, t);
      EndedStands(s', at, v, p', turn.rest);
    }
  }

  /** The name of a header that its line does not close. */
  lemma OpenTurn(s: seq<char>, s': seq<char>, p: nat, t: string, place: Place,
                 section: Option<nat>, section': Option<nat>, p': nat)
    requires IsStr(s, p, t) && TurnOf(t).Next? && TurnOf(t).open.Some?
    requires TurnHolds(s, s', p, t, TurnOf(t), place, section, section', p')
    ensures section'.Some?
    ensures Stands(s', section'.value, TurnOf(t).open.value + Shown(TurnOf(t).rest), p', TurnOf(t).rest)
  {
    hide TurnOf, IsStr, Shown;
    StrInside(s, p, t);
    StrGoesOn(s, p, t, p' - p);
  }

  /** A section name left open: none so far, or one that stands at the place of the section. */
  ghost function NextName(name: Option<string>, turn: Turn): Option<string>
    requires turn.Next?
  {
    if turn.open != None then Some(turn.open.value + Shown(turn.rest)) else name
  }

  lemma OpenStandsTurn(s: seq<char>, s': seq<char>, name: Option<string>, start: Option<nat>, p: nat, t: string,
                       place: Place, section: Option<nat>, section': Option<nat>, p': nat)
    requires OpenStands(s, name, start, section, p, t) && IsStr(s, p, t) && |s'| == |s| && s'[..p] == s[..p]
    requires TurnOf(t).Next? && TurnHolds(s, s', p, t, TurnOf(t), place, section, section', p')
    ensures OpenStands(s', NextName(name, TurnOf(t)), start, section', p', TurnOf(t).rest)
  {
    hide TurnOf, IsStr, Shown, Stands;
    if TurnOf(t).open != None {
      OpenTurn(s, s', p, t, place, section, section', p');
    } else if name != None {
      StandsTurn(s, s', section.value, name.value, p, t, place, section, section', p');
    }
  }

  /** Spaces in front are shown, and change nothing else. */
  lemma ShownSpaces(t: string)
    ensures (var k := |t| - |SkipSpaces(t)|;
             && t[k..] == SkipSpaces(t) && Shown(t) == t[..k] + Shown(t[k..]))
    ensures FindEntry(SkipSpaces(t)) == FindEntry(t) && OpenName(SkipSpaces(t)) == OpenName(t)
    ensures RunsOn(SkipSpaces(t)) == RunsOn(t)
  {
    hide TurnOf, SkipSpaces, FindEntry, OpenName, RunsOn, Shown;
    SpacesAreFront(t);
    SpacesSkipped(t);
    SpacesShown(t);
    ShownUnfold(t);
    ShownUnfold(SkipSpaces(t));
  }

  lemma SpacesShown(t: string)
    ensures (var u := SkipSpaces(t);
             var k := |t| - |u|;
             match (TurnOf(t), TurnOf(u))
             case (Over, Over) => t == t[..k] + u
             case (Next(rest, cut, _), Next(rest', cut', _)) =>
               && rest == rest' && cut.Some? == cut'.Some?
               && (cut.Some? ==> cut.value == t[..k] + cut'.value)
               && (cut == None ==> |rest| <= |u| && t[..|t| - |rest|] == t[..k] + u[..|u| - |rest|])
             case (Hit(_, shown, _), Hit(_, shown', _)) => shown == t[..k] + shown'
             case _ => false)
  {
    hide TurnAt, SkipSpaces;
    var u := SkipSpaces(t);
    SkippedOnce(t);
    SpacesAreFront(t);
    assert u[..0] == "";
    assert forall r: string :: "" + r == r;
    if TurnAt(u).Next? { FrontOf(t, |t| - |u|, |TurnAt(u).rest|); }
  }

  lemma FrontOf(t: string, k: nat, n: nat)
    requires k <= |t| && n <= |t| - k
    ensures t[..|t| - n] == t[..k] + t[k..][..|t| - k - n]
  {
  }

  /** Looks for the next entry, from comment to comment and over lines that are none. The section name is a place in the
      buffer, or none for the nameless section. */
  method FindEntryAt(buf: array<char>, p: nat, section: Option<nat>, ghost t: string)
    returns (place: Place, section': Option<nat>, p': nat)
    requires IsStr(buf[..], p, t)
    modifies buf
    ensures PlaceHolds(buf[..], place, FindEntry(t))
    ensures IsStr(buf[..], p, Shown(t))
    ensures (var e := FindEntry(t);
             e.Found? ==>
               && p' + |e.rest| == p + |t| && IsStr(buf[..], p', e.rest) && p + |Shown(t)| < p'
               && EntryStands(buf[..], place, t, RunsOn(t), e.item, p', e.rest)
               && (e.item.Header? ==> section' == Some(place.name))
               && (e.item.Pair? && OpenName(t) == None ==> section' == section)
               && (e.item.Pair? && OpenName(t).Some? ==>
                     && section'.Some? && IsStr(buf[..], section'.value, OpenName(t).value)
                     && section'.value + |OpenName(t).value| < p'))
    ensures buf[..p] == old(buf[..p])
  {
    hide SkipSpaces, FindEntry, Shown, OpenName, RunsOn, TurnOf, IsStr, Stands, EntryStands, PlaceHolds, OpenStands;
    p', section' := p, section;
    ghost var u, name := t, None;
    StrInside(buf[..], p, t);
    StandsInit(buf[..], p, t);
    NameInit(buf[..], section, p, t);
    while buf[p'] != '\0'
      invariant p <= p' < buf.Length && p' + |u| == p + |t| && IsStr(buf[..], p', u)
      invariant FindEntry(u) == FindEntry(t) && RunsOn(u) == RunsOn(t)
      invariant Stands(buf[..], p, Shown(t), p', u) && OpenStands(buf[..], name, section, section', p', u)
      invariant OpenName(t) == if OpenName(u) != None then OpenName(u) else name
      invariant buf[..p] == old(buf[..p])
      decreases |u|
    {
      ShownSpaces(u);
      ghost var k := |u| - |SkipSpaces(u)|;
      StandsOn(buf[..], p, Shown(t), p', u, k);
      NameOn(buf[..], name, section, section', p', u, k);
      p' := SkipSpacesAt(buf, p', u);
      u := SkipSpaces(u);
      StrStarts(buf[..], p', u);
      if buf[p'] == '\0' {
        break;
      }
      ghost var (s, at, before) := (buf[..], p', section');
      ShownUnfold(u);
      var done;
      done, place, section', p' := EntryTurn(buf, p', section', u);
      assert buf[..p] == buf[..at][..p] == s[..at][..p];
      if done {
        FoundHere(s, buf[..], p, t, name, section, at, u, place, before, section', p');
        return;
      }
      StandsTurn(s, buf[..], p, Shown(t), at, u, place, before, section', p');
      OpenStandsTurn(s, buf[..], name, section, at, u, place, before, section', p');
      name := NextName(name, TurnOf(u));
      u := TurnOf(u).rest;
      StrInside(buf[..], p', u);
    }
    StrStarts(buf[..], p', u);
    NothingInNothing();
    StandsOver(buf[..], p, Shown(t), p');
    place := NoEntry;
    NothingHolds(buf[..]);
  }

  lemma NothingInNothing()
    ensures FindEntry("") == End && Shown("") == "" && OpenName("") == None && !RunsOn("")
  {
  }

  lemma NothingHolds(s: seq<char>)
    ensures PlaceHolds(s, NoEntry, End)
  {
  }

  lemma StandsInit(s: seq<char>, p: nat, t: string)
    requires IsStr(s, p, t)
    ensures Stands(s, p, Shown(t), p, t)
  {
    hide Shown;
    assert s[p..p] == "" && "" + Shown(t) == Shown(t);
  }

  lemma NameInit(s: seq<char>, section: Option<nat>, p: nat, t: string)
    ensures OpenStands(s, None, section, section, p, t)
  {
  }

  lemma NameOn(s: seq<char>, name: Option<string>, start: Option<nat>, section: Option<nat>, p: nat, t: string, k: nat)
    requires OpenStands(s, name, start, section, p, t)
    requires IsStr(s, p, t) && k <= |t| && Shown(t) == t[..k] + Shown(t[k..])
    ensures OpenStands(s, name, start, section, p + k, t[k..])
  {
    hide Stands, IsStr, Shown;
    if name != None { StandsOn(s, section.value, name.value, p, t, k); }
  }

  lemma StandsOver(s: seq<char>, at: nat, v: string, p: nat)
    requires Stands(s, at, v, p, "") && p < |s| && s[p] == '\0'
    ensures IsStr(s, at, v)
  {
    NothingInNothing();
    if RunsInto(s, at, v, p, "") {
      assert v == s[at..p];
      PieceIsStr(s, at, p, v);
    }
  }

  /** The search ends with the turn at `u`. */
  lemma FoundHere(s: seq<char>, s': seq<char>, p: nat, t: string, name: Option<string>, start: Option<nat>, at: nat,
                  u: string, place: Place, section: Option<nat>, section': Option<nat>, p': nat)
    requires IsStr(s, at, u) && |s'| == |s| && s'[..at] == s[..at] && p <= at && at + |u| == p + |t|
    requires Stands(s, p, Shown(t), at, u) && OpenStands(s, name, start, section, at, u)
    requires FindEntry(t) == FindEntry(u) && RunsOn(t) == RunsOn(u)
    requires OpenName(t) == if OpenName(u) != None then OpenName(u) else name
    requires TurnOf(u).Hit? && TurnHolds(s, s', at, u, TurnOf(u), place, section, section', p')
    ensures PlaceHolds(s', place, FindEntry(t)) && IsStr(s', p, Shown(t))
    ensures (var e := FindEntry(t);
             e.Found? ==>
               && p' + |e.rest| == p + |t| && IsStr(s', p', e.rest) && p + |Shown(t)| < p'
               && EntryStands(s', place, t, RunsOn(t), e.item, p', e.rest)
               && (e.item.Header? ==> section' == Some(place.name))
               && (e.item.Pair? && OpenName(t) == None ==> section' == start)
               && (e.item.Pair? && OpenName(t).Some? ==>
                     && section'.Some? && IsStr(s', section'.value, OpenName(t).value)
                     && section'.value + |OpenName(t).value| < p'))
  {
    hide TurnOf, IsStr, Stands, Shown, OpenName, FindEntry, RunsOn, PlaceHolds;
    ShownUnfold(u);
    StrInside(s, at, u);
    StandsCut(s, s', p, Shown(t), at, u);
    if name != None { StandsCut(s, s', section.value, name.value, at, u); }
  }
}
