/** The INI text format as SimpleIni reads it, for case-sensitive files with several values per key and
    multi-line values, without quotes and without keys that lack a value. */
module IniText {
  import opened Bytes

  predicate IsSpace(c: char)
  {
    c == ' ' || c == '\t' || c == '\r' || c == '\n'
  }

  predicate IsNewLine(c: char)
  {
    c == '\n' || c == '\r'
  }

  predicate IsComment(c: char)
  {
    c == ';' || c == '#'
  }

  // ------------------------------------------------------------------ lines

  /** Where the line that `t` starts with ends. */
  function LineEnd(t: string): (n: nat)
    ensures n <= |t| && (n < |t| ==> IsNewLine(t[n]))
    ensures forall i :: 0 <= i < n ==> !IsNewLine(t[i])
  {
    if t == [] || IsNewLine(t[0]) then 0 else 1 + LineEnd(t[1..])
  }

  function Line(t: string): string
  {
    t[..LineEnd(t)]
  }

  /** How many characters a line break takes: carriage return and line feed together are one. */
  function BreakLength(t: string): (n: nat)
    requires t != []
    ensures 1 <= n <= |t|
  {
    if |t| >= 2 && t[0] == '\r' && t[1] == '\n' then 2 else 1
  }

  /** What is left behind the line and its break. */
  function AfterLine(t: string): (r: string)
    ensures |r| <= |t| && (t != [] ==> |r| < |t|)
  {
    var rest := t[LineEnd(t)..];
    if rest == [] then [] else rest[BreakLength(rest)..]
  }

  function SkipSpaces(t: string): (r: string)
    ensures |r| <= |t| && (r != [] ==> !IsSpace(r[0]))
  {
    if t != [] && IsSpace(t[0]) then SkipSpaces(t[1..]) else t
  }

  /** Spaces that do not end the line. */
  function SkipBlanks(t: string): (r: string)
    ensures |r| <= |t|
  {
    if t != [] && IsSpace(t[0]) && !IsNewLine(t[0]) then SkipBlanks(t[1..]) else t
  }

  function TrimEnd(t: string): (r: string)
    ensures |r| <= |t| && r <= t
    ensures r != [] ==> !IsSpace(r[|r| - 1])
    ensures t != [] && !IsSpace(t[0]) ==> r != []
  {
    if t != [] && IsSpace(t[|t| - 1]) then TrimEnd(t[..|t| - 1]) else t
  }

  // ------------------------------------------------------------------ multi-line values

  /** A line with the spaces behind it taken off, except that its first character stays. */
  function StripTag(line: string): string
  {
    if |line| > 1 && IsSpace(line[|line| - 1]) then StripTag(line[..|line| - 1]) else line
  }

  /** Once a line has been moved down the buffer it is compared as it is. */
  predicate IsTagLine(line: string, tag: string, moved: bool)
  {
    if moved then line == tag else StripTag(line) == tag
  }

  /** A multi-line read: the body's lines, whether the tag was found, and what is left behind it. */
  datatype Body = Body(lines: seq<string>, tagged: bool, rest: string)

  /** Reads lines up to the tag, or to the end of the text. `moved` says that a two-character line break
      has been squeezed to one. */
  function ReadBody(t: string, tag: string, moved: bool): (r: Body)
    ensures |r.rest| <= |t|
    ensures !r.tagged ==> r.lines != [] && r.rest == []
    decreases |t|
  {
    var (line, n) := (Line(t), LineEnd(t));
    if IsTagLine(line, tag, moved) then Body([], true, AfterLine(t))
    else if n == |t| then Body([line], false, [])
    else
      var more := ReadBody(AfterLine(t), tag, moved || BreakLength(t[n..]) == 2);
      Body([line] + more.lines, more.tagged, more.rest)
  }

  function Join(lines: seq<string>): string
  {
    if lines == [] then ""
    else if |lines| == 1 then lines[0]
    else lines[0] + "\n" + Join(lines[1..])
  }

  /** The value of a multi-line entry. When the first line is the tag the buffer still holds that line there:
      cut short if spaces behind the tag were taken off, or if the text ends with it, and running on if not. */
  function BodyValue(t: string, b: Body, tag: string): string
  {
    if b.lines != [] then Join(b.lines)
    else if LineEnd(t) < |t| && Line(t) == tag then t
    else tag
  }

  /** An empty first line for an empty tag is taken for nothing found. */
  predicate BodyFound(t: string, b: Body, tag: string)
  {
    b.lines != [] || Line(t) != ""
  }

  /** Does a body that ends at once leave its value in the text that is still to be read? */
  predicate BodyRunsOn(t: string, b: Body, tag: string)
  {
    b.lines == [] && LineEnd(t) < |t| && Line(t) == tag
  }

  // ------------------------------------------------------------------ comments

  /** How many line breaks there are among the spaces that `t` starts with. */
  function CountBreaks(t: string): (k: nat)
    ensures k + |SkipSpaces(t)| <= |t|
    decreases |t|
  {
    if t == [] || !IsSpace(t[0]) then 0
    else if IsNewLine(t[0]) then
      BreakIsSpace(t);
      1 + CountBreaks(t[BreakLength(t)..])
    else CountBreaks(t[1..])
  }

  lemma BreakIsSpace(t: string)
    requires t != [] && IsNewLine(t[0])
    ensures SkipSpaces(t[BreakLength(t)..]) == SkipSpaces(t)
  {
    if BreakLength(t) == 2 { assert t[1..][1..] == t[2..]; }
  }

  /** Does a comment go on behind its line: with the next line, or behind blank lines if those may be part of it? */
  predicate CommentGoesOn(t: string, blanks: bool)
  {
    var ahead := if blanks then SkipSpaces(t) else t;
    ahead != [] && IsComment(ahead[0])
  }

  /** As many empty lines. */
  function Blanks(k: nat): (lines: seq<string>)
    ensures |lines| == k && forall i :: 0 <= i < k ==> lines[i] == ""
  {
    seq(k, _ => "")
  }

  /** A comment's lines. Of blank lines between them only the line breaks are kept. */
  function CommentLines(t: string, blanks: bool): (lines: seq<string>)
    requires t != [] && IsComment(t[0])
    ensures lines != []
    decreases |t|
  {
    var u := AfterLine(t);
    if !CommentGoesOn(u, blanks) then [Line(t)]
    else if blanks then [Line(t)] + Blanks(CountBreaks(u)) + CommentLines(SkipSpaces(u), blanks)
    else [Line(t)] + CommentLines(u, blanks)
  }

  /** What is left behind a comment. */
  function AfterComment(t: string, blanks: bool): (r: string)
    requires t != [] && IsComment(t[0])
    ensures |r| < |t|
    decreases |t|
  {
    var u := AfterLine(t);
    if !CommentGoesOn(u, blanks) then u else AfterComment(if blanks then SkipSpaces(u) else u, blanks)
  }

  // ------------------------------------------------------------------ entries

  datatype Item = Header(name: string) | Pair(key: string, value: string)

  /** What reading one entry gives: the entry and the text behind it, or the end. */
  datatype Entry = End | Found(item: Item, rest: string)

  /** Where a scan for one character stops: there, at the end of the line or at the end of the text. */
  function ScanTo(t: string, stop: char): (n: nat)
    ensures n <= |t| && (n < |t| ==> t[n] == stop || IsNewLine(t[n]))
    ensures forall i :: 0 <= i < n ==> t[i] != stop && !IsNewLine(t[i])
  {
    if t == [] || t[0] == stop || IsNewLine(t[0]) then 0 else 1 + ScanTo(t[1..], stop)
  }

  const TAG_MARK := "<<<"

  predicate IsMultiLineTag(v: string)
  {
    TAG_MARK <= v
  }

  /** The value behind an equals sign, and what is left behind its line or its multi-line body. */
  function ReadValue(t: string): (r: (bool, string, string))
    ensures |r.2| <= |t|
  {
    var u := SkipBlanks(t);
    var (value, rest) := (TrimEnd(Line(u)), AfterLine(u));
    if IsMultiLineTag(value) then
      var body := ReadBody(rest, value[3..], false);
      (BodyFound(rest, body, value[3..]), BodyValue(rest, body, value[3..]), body.rest)
    else (true, value, rest)
  }

  predicate ValueRunsOn(t: string)
  {
    var u := SkipBlanks(t);
    var (value, rest) := (TrimEnd(Line(u)), AfterLine(u));
    IsMultiLineTag(value) && BodyRunsOn(rest, ReadBody(rest, value[3..], false), value[3..])
  }

  predicate Closed(name: string)
  {
    ScanTo(name, ']') < |name| && name[ScanTo(name, ']')] == ']'
  }

  /** One turn of the search for an entry: the text is over, there is nothing in it up to `rest`, or an entry is hit.
      `cut` and `shown` are what the place where the text starts shows from then on if a zero has been put into it;
      `open` is where a section name starts whose header is not closed. */
  datatype Turn =
    | Over
    | Next(rest: string, cut: Option<string>, open: Option<string>)
    | Hit(entry: Entry, shown: string, runsOn: bool)

  /** A turn at text that starts with no space. */
  function TurnAt(u: string): (r: Turn)
    requires u != [] ==> !IsSpace(u[0])
    ensures r.Next? ==> |r.rest| < |u| && (r.open != None ==> r.cut == None)
    ensures r.Hit? && r.entry.Found? ==> |r.entry.rest| < |u|
  {
    if u == [] then Over
    else if IsComment(u[0]) then Next(AfterComment(u, true), Some(Join(CommentLines(u, true))), None)
    else if u[0] == '[' then HeaderTurnAt(u)
    else
      var n := ScanTo(u, '=');
      if n == |u| || u[n] != '=' then Next(u[n..], None, None)
      else if n == 0 then Next(u[LineEnd(u)..], None, None)
      else
        var (found, value, rest) := ReadValue(u[n + 1..]);
        Hit(if found then Found(Pair(TrimEnd(u[..n]), value), rest) else End, TrimEnd(u[..n]),
            found && ValueRunsOn(u[n + 1..]))
  }

  function HeaderTurnAt(u: string): (r: Turn)
    requires u != [] && u[0] == '['
    ensures r.Next? ==> |r.rest| < |u| && r.cut == None
    ensures r.Hit? && r.entry.Found? ==> |r.entry.rest| < |u|
  {
    var name := SkipSpaces(u[1..]);
    var n := ScanTo(name, ']');
    if Closed(name) then
      Hit(Found(Header(TrimEnd(name[..n])), name[n..][LineEnd(name[n..])..]),
          u[..|u| - |name|] + TrimEnd(name[..n]), false)
    else Next(name[n..], None, Some(name[..n]))
  }

  function TurnOf(t: string): (r: Turn)
    ensures r.Next? ==> |r.rest| < |t| && (r.open != None ==> r.cut == None)
    ensures r.Hit? && r.entry.Found? ==> |r.entry.rest| < |t|
  {
    var u := SkipSpaces(t);
    var front := t[..|t| - |u|];
    match TurnAt(u)
    case Over => Over
    case Next(rest, cut, open) => Next(rest, if cut == None then None else Some(front + cut.value), open)
    case Hit(entry, shown, runsOn) => Hit(entry, front + shown, runsOn)
  }

  function FindEntry(t: string): (r: Entry)
    ensures r.Found? ==> |r.rest| < |t|
    decreases |t|
  {
    match TurnOf(t)
    case Over => End
    case Next(rest, _, _) => FindEntry(rest)
    case Hit(entry, _, _) => entry
  }

  // ------------------------------------------------------------------ what is left in the buffer

  /** What the place where the text starts shows once the next entry has been looked for: the text up to the first zero
      that was put into it. */
  function Shown(t: string): string
    decreases |t|
  {
    match TurnOf(t)
    case Over => t
    case Next(rest, cut, _) => if cut != None then cut.value else t[..|t| - |rest|] + Shown(rest)
    case Hit(_, shown, _) => shown
  }

  /** The section name left by a header that its line does not close: the text from there, as it is shown when the next
      entry has been found. */
  function OpenName(t: string): Option<string>
    decreases |t|
  {
    match TurnOf(t)
    case Over => None
    case Next(rest, _, open) =>
      if OpenName(rest) != None then OpenName(rest)
      else if open != None then Some(open.value + Shown(rest))
      else None
    case Hit(_, _, _) => None
  }

  /** Is the next entry's value one that a body that ends at once leaves in the text? */
  predicate RunsOn(t: string)
    decreases |t|
  {
    match TurnOf(t)
    case Over => false
    case Next(rest, _, _) => RunsOn(rest)
    case Hit(_, _, runsOn) => runsOn
  }

  // ------------------------------------------------------------------ spaces in front

  /** Two turns that find the same, and go on in the same way. */
  ghost predicate SameTurn(a: Turn, b: Turn)
  {
    match (a, b)
    case (Over, Over) => true
    case (Next(r, _, o), Next(r', _, o')) => r == r' && o == o'
    case (Hit(e, _, runs), Hit(e', _, runs')) => e == e' && runs == runs'
    case _ => false
  }

  lemma {:induction false} SkippedOnce(t: string)
    ensures SkipSpaces(SkipSpaces(t)) == SkipSpaces(t)
    decreases |t|
  {
    if t != "" && IsSpace(t[0]) { SkippedOnce(t[1..]); }
  }

  lemma SpacesTurn(t: string)
    ensures SameTurn(TurnOf(SkipSpaces(t)), TurnOf(t))
  {
    hide TurnAt, SkipSpaces;
    SkippedOnce(t);
  }

  /** Spaces in front change nothing that is found. */
  lemma SpacesSkipped(t: string)
    ensures FindEntry(SkipSpaces(t)) == FindEntry(t) && OpenName(SkipSpaces(t)) == OpenName(t)
    ensures RunsOn(SkipSpaces(t)) == RunsOn(t)
  {
    hide TurnOf, SkipSpaces;
    SpacesTurn(t);
  }

  // ------------------------------------------------------------------ loading

  /** A value that runs on into `rest`, as it is shown. */
  function RunOn(value: string, rest: string): string
  {
    if |rest| <= |value| then value[..|value| - |rest|] + Shown(rest) else value
  }

  function BodyShown(t: string, b: Body, tag: string): string
  {
    if BodyRunsOn(t, b, tag) then RunOn(t, b.rest) else BodyValue(t, b, tag)
  }

  function ValueShown(t: string): string
  {
    var (_, value, rest) := ReadValue(t);
    if ValueRunsOn(t) then RunOn(value, rest) else value
  }

  /** An entry to be stored, and the section it goes to. */
  datatype Loading = Loading(section: string, item: Item)

  /** The section an entry goes to. */
  function SectionOf(t: string, item: Item, section: string): string
  {
    if item.Header? then item.name else if OpenName(t) != None then OpenName(t).value else section
  }

  /** What an entry's strings show when all has been read, if they are kept where they were read. */
  function ItemShown(t: string, item: Item, rest: string): Item
  {
    if item.Pair? && RunsOn(t) then Pair(item.key, RunOn(item.value, rest)) else item
  }

  /** All that is loaded from a text. `copies` says whether strings are copied when they are stored, as they are if the
      store has been loaded before. */
  function Loadings(t: string, section: string, copies: bool): seq<Loading>
    decreases |t|
  {
    match FindEntry(t)
    case End => []
    case Found(item, rest) =>
      var name := SectionOf(t, item, section);
      [Loading(name, if copies then item else ItemShown(t, item, rest))] + Loadings(rest, name, copies)
  }

  /** No section header is left open on its line. */
  ghost predicate NoOpenHeader(t: string)
    decreases |t|
  {
    OpenName(t) == None && (FindEntry(t).Found? ==> NoOpenHeader(FindEntry(t).rest))
  }

  /** No value is left in the text either. */
  ghost predicate Plain(t: string)
    decreases |t|
  {
    OpenName(t) == None && !RunsOn(t) && (FindEntry(t).Found? ==> Plain(FindEntry(t).rest))
  }
}
