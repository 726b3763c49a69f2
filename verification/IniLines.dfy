/** The INI reader's buffer: zero-terminated text whose lines are moved down and squeezed in place. */
module IniLines {
  import opened Bytes
  import opened IniText

  /** The buffer holds the string `t` at `p`, ended by a zero. */
  ghost predicate IsStr(s: seq<char>, p: nat, t: string)
  {
    && p + |t| < |s| && s[p + |t|] == '\0'
    && forall i :: 0 <= i < |t| ==> s[p + i] == t[i] && t[i] != '\0'
  }

  lemma IsStrDrop(s: seq<char>, p: nat, t: string, k: nat)
    requires IsStr(s, p, t) && k <= |t|
    ensures IsStr(s, p + k, t[k..])
  {
    forall i | 0 <= i < |t[k..]|
      ensures s[p + k + i] == t[k..][i] && t[k..][i] != '\0'
    {
      assert s[p + (k + i)] == t[k + i];
    }
  }

  /** What happens in front of a string does not change it. */
  lemma IsStrFrame(s: seq<char>, s': seq<char>, p: nat, t: string)
    requires IsStr(s, p, t) && |s'| == |s| && s'[p..] == s[p..]
    ensures IsStr(s', p, t)
  {
    assert forall i :: p <= i < |s| ==> s'[i] == s'[p..][i - p] == s[p..][i - p] == s[i];
  }

  lemma StrInside(s: seq<char>, p: nat, t: string)
    requires IsStr(s, p, t)
    ensures p + |t| < |s|
  {
  }

  lemma StrStarts(s: seq<char>, p: nat, t: string)
    requires IsStr(s, p, t)
    ensures p < |s| && if t == "" then s[p] == '\0' else s[p] == t[0] != '\0'
  {
    if t != "" { assert s[p + 0] == t[0]; }
  }

  lemma SliceOfStr(s: seq<char>, p: nat, t: string, n: nat)
    requires IsStr(s, p, t) && n <= |t|
    ensures s[p..p + n] == t[..n] && '\0' !in t[..n]
  {
  }

  // ------------------------------------------------------------------ moving the cursor

  method FindLineEnd(buf: array<char>, p: nat, ghost t: string) returns (end: nat)
    requires IsStr(buf[..], p, t)
    ensures end == p + LineEnd(t)
  {
    end := p;
    ghost var u := t;
    while buf[end] != '\0' && !IsNewLine(buf[end])
      invariant p <= end && IsStr(buf[..], end, u) && end + LineEnd(u) == p + LineEnd(t)
      decreases |u|
    {
      IsStrDrop(buf[..], end, u, 1);
      end, u := end + 1, u[1..];
    }
  }

  method SkipBreak(buf: array<char>, p: nat, ghost t: string) returns (p': nat)
    requires IsStr(buf[..], p, t) && t != ""
    ensures p' == p + BreakLength(t)
  {
    p' := if buf[p] == '\r' && buf[p + 1] == '\n' then p + 2 else p + 1;
  }

  method SkipSpacesAt(buf: array<char>, p: nat, ghost t: string) returns (p': nat)
    requires IsStr(buf[..], p, t)
    ensures p' + |SkipSpaces(t)| == p + |t| && IsStr(buf[..], p', SkipSpaces(t))
  {
    p' := p;
    ghost var u := t;
    while buf[p'] != '\0' && IsSpace(buf[p'])
      invariant p' + |u| == p + |t| && IsStr(buf[..], p', u) && SkipSpaces(u) == SkipSpaces(t)
      decreases |u|
    {
      IsStrDrop(buf[..], p', u, 1);
      p', u := p' + 1, u[1..];
    }
  }

  method SkipBlanksAt(buf: array<char>, p: nat, ghost t: string) returns (p': nat)
    requires IsStr(buf[..], p, t)
    ensures p' + |SkipBlanks(t)| == p + |t| && IsStr(buf[..], p', SkipBlanks(t))
  {
    p' := p;
    ghost var u := t;
    while buf[p'] != '\0' && !IsNewLine(buf[p']) && IsSpace(buf[p'])
      invariant p' + |u| == p + |t| && IsStr(buf[..], p', u) && SkipBlanks(u) == SkipBlanks(t)
      decreases |u|
    {
      IsStrDrop(buf[..], p', u, 1);
      p', u := p' + 1, u[1..];
    }
  }

  method ScanAt(buf: array<char>, p: nat, stop: char, ghost t: string) returns (p': nat)
    requires IsStr(buf[..], p, t)
    ensures p' == p + ScanTo(t, stop)
  {
    p' := p;
    ghost var u := t;
    while buf[p'] != '\0' && buf[p'] != stop && !IsNewLine(buf[p'])
      invariant p <= p' && IsStr(buf[..], p', u) && p' + ScanTo(u, stop) == p + ScanTo(t, stop)
      decreases |u|
    {
      IsStrDrop(buf[..], p', u, 1);
      p', u := p' + 1, u[1..];
    }
  }

  lemma AfterLineShort(u: string)
    ensures |AfterLine(u)| + LineEnd(u) <= |u|
  {
  }

  lemma AfterLineIs(t: string)
    ensures (var rest := t[LineEnd(t)..];
             AfterLine(t) == if rest == [] then [] else rest[BreakLength(rest)..])
  {
  }

  method AfterLineAt(buf: array<char>, p: nat, ghost t: string) returns (p': nat)
    requires IsStr(buf[..], p, t)
    ensures p' + |AfterLine(t)| == p + |t| && IsStr(buf[..], p', AfterLine(t))
  {
    hide LineEnd, BreakLength, AfterLine, IsStr;
    AfterLineIs(t);
    p' := FindLineEnd(buf, p, t);
    IsStrDrop(buf[..], p, t, p' - p);
    StrEnds(buf[..], p, t, p' - p);
    if buf[p'] != '\0' {
      ghost var (end, rest) := (p', t[LineEnd(t)..]);
      p' := SkipBreak(buf, p', rest);
      IsStrDrop(buf[..], end, rest, p' - end);
    }
  }

  method ReadString(buf: array<char>, p: nat, ghost t: string) returns (r: string)
    requires IsStr(buf[..], p, t)
    ensures r == t
  {
    r := "";
    while buf[p + |r|] != '\0'
      invariant |r| <= |t| && r == t[..|r|]
      decreases |t| - |r|
    {
      assert |r| < |t| ==> buf[..][p + |r|] == t[|r|];
      r := r + [buf[p + |r|]];
    }
    StrEnds(buf[..], p, t, |r|);
    assert t[..|t|] == t;
  }

  lemma StrEnds(s: seq<char>, p: nat, t: string, n: nat)
    requires IsStr(s, p, t) && n <= |t|
    ensures s[p + n] == '\0' <==> n == |t|
  {
    if n < |t| { assert s[p + n] == t[n]; }
  }

  lemma SameStr(s: seq<char>, p: nat, t: string, u: string)
    requires IsStr(s, p, t) && IsStr(s, p, u)
    ensures t == u
  {
    if |t| <= |u| { StrEnds(s, p, u, |t|); } else { StrEnds(s, p, t, |u|); }
  }

  // ------------------------------------------------------------------ what a string shows

  /** The string at `place` runs on into the text that is still to be read, and will be `v` when the next entry has been
      looked for there. */
  ghost predicate RunsInto(s: seq<char>, place: nat, v: string, p: nat, t: string)
  {
    place <= p <= |s| && (forall i :: place <= i < p ==> s[i] != '\0') && v == s[place..p] + Shown(t)
  }

  /** The string at `place` is `v`, or will be. */
  ghost predicate Stands(s: seq<char>, place: nat, v: string, p: nat, t: string)
  {
    (place + |v| < p <= |s| && IsStr(s, place, v)) || RunsInto(s, place, v, p, t)
  }

  lemma NothingShown()
    ensures Shown("") == ""
  {
  }

  /** A string that ends at the cursor at the latest. */
  lemma EndedStands(s: seq<char>, place: nat, v: string, p: nat, t: string)
    requires IsStr(s, place, v) && place + |v| <= p && IsStr(s, p, t)
    ensures Stands(s, place, v, p, t)
  {
    if place + |v| == p {
      StrEnds(s, p, t, 0);
      NothingShown();
      SliceOfStr(s, place, v, |v|);
      assert v + "" == v;
    }
  }

  lemma RunsOver(s: seq<char>, place: nat, v: string, p: nat, t: string, k: nat)
    requires RunsInto(s, place, v, p, t) && IsStr(s, p, t) && k <= |t| && Shown(t) == t[..k] + Shown(t[k..])
    ensures RunsInto(s, place, v, p + k, t[k..])
  {
    hide Shown, IsStr;
    StrInside(s, p, t);
    SliceOfStr(s, p, t, k);
    StrGoesOn(s, p, t, k);
    PieceMoves(s, place, p, k, Shown(t[k..]));
  }

  lemma PieceMoves(s: seq<char>, place: nat, p: nat, k: nat, y: string)
    requires place <= p && p + k <= |s|
    ensures s[place..p] + (s[p..p + k] + y) == s[place..p + k] + y
  {
    assert s[place..p + k] == s[place..p] + s[p..p + k];
    Associate(s[place..p], s[p..p + k], y);
  }

  lemma StrGoesOn(s: seq<char>, p: nat, t: string, k: nat)
    requires IsStr(s, p, t) && k <= |t|
    ensures forall i :: p <= i < p + k ==> s[i] != '\0'
  {
    assert forall i :: 0 <= i < k ==> s[p + i] == t[i];
    forall i | p <= i < p + k
      ensures s[i] != '\0'
    {
      assert s[p + (i - p)] == t[i - p];
    }
  }

  /** Going on over text that is not touched. */
  lemma StandsOn(s: seq<char>, place: nat, v: string, p: nat, t: string, k: nat)
    requires Stands(s, place, v, p, t) && IsStr(s, p, t) && k <= |t| && Shown(t) == t[..k] + Shown(t[k..])
    ensures Stands(s, place, v, p + k, t[k..])
  {
    hide Shown, IsStr, RunsInto;
    StrInside(s, p, t);
    if RunsInto(s, place, v, p, t) { RunsOver(s, place, v, p, t, k); }
  }

  /** Looking for an entry in the text ahead settles what the string is. */
  lemma StandsCut(s: seq<char>, s': seq<char>, place: nat, v: string, p: nat, t: string)
    requires Stands(s, place, v, p, t) && p <= |s| == |s'| && s'[..p] == s[..p] && IsStr(s', p, Shown(t))
    ensures IsStr(s', place, v) && place + |v| <= p + |Shown(t)|
  {
    hide Shown;
    assert forall i :: 0 <= i < p ==> s'[i] == s'[..p][i] == s[..p][i] == s[i];
    if !(place + |v| < p) {
      forall i | 0 <= i < |v|
        ensures s'[place + i] == v[i] && v[i] != '\0'
      {
        if place + i < p {
          assert v[i] == s[place..p][i];
        } else {
          assert v[i] == Shown(t)[place + i - p] == s'[p + (place + i - p)];
        }
      }
    }
  }

  // ------------------------------------------------------------------ multi-line values

  /** Lines already squeezed, each with one line feed behind it. */
  function Broken(lines: seq<string>): string
  {
    if lines == [] then "" else Broken(lines[..|lines| - 1]) + lines[|lines| - 1] + "\n"
  }

  lemma {:induction false} BrokenIsJoin(lines: seq<string>, last: string)
    ensures Join(lines + [last]) == Broken(lines) + last
    ensures lines != [] ==> Broken(lines) == Join(lines) + "\n"
    decreases |lines|
  {
    if lines == [] {
      assert lines + [last] == [last];
    } else {
      var (front, l) := (lines[..|lines| - 1], lines[|lines| - 1]);
      BrokenIsJoin(front, l);
      assert lines == front + [l];
      JoinSnoc(lines, last);
    }
  }

  lemma {:induction false} JoinSnoc(lines: seq<string>, last: string)
    requires lines != []
    ensures Join(lines + [last]) == Join(lines) + "\n" + last
    decreases |lines|
  {
    if |lines| == 1 {
      assert (lines + [last])[1..] == [last];
    } else {
      assert (lines + [last])[1..] == lines[1..] + [last];
      JoinSnoc(lines[1..], last);
    }
  }

  method StringsEqual(buf: array<char>, p: nat, tag: string, ghost t: string) returns (equal: bool)
    requires IsStr(buf[..], p, t) && '\0' !in tag
    ensures equal <==> t == tag
  {
    var i := 0;
    while i < |tag| && buf[p + i] == tag[i]
      invariant i <= |tag| && i <= |t| && t[..i] == tag[..i]
    {
      assert buf[p + i] == tag[i] && tag[i] in tag;
      i := i + 1;
    }
    if i < |tag| {
      return false;
    }
    assert tag[..i] == tag;
    equal := buf[p + i] == '\0';
    assert i < |t| ==> buf[..][p + i] == t[i];
    assert t[..|t|] == t;
  }

  /** Moves a line down to where the value goes on, if it is not there already, and ends it with a zero. */
  method MoveLine(buf: array<char>, data: nat, cur: nat, end: nat, ghost line: string)
    requires data <= cur && end == cur + |line| < buf.Length && '\0' !in line
    requires buf[cur..end] == line
    modifies buf
    ensures IsStr(buf[..], data, line) && buf[end] == '\0'
    ensures SameOutside(old(buf[..]), buf[..], data, end + 1)
  {
    hide IsStr;
    var n := end - cur;
    if data < cur {
      MoveChars(buf, data, cur, n);
      buf[data + n] := '\0';
    }
    buf[end] := '\0';
    LineIsStr(buf[..], data, line);
  }

  method MoveChars(buf: array<char>, to: nat, from: nat, n: nat)
    requires to <= from && from + n <= buf.Length
    modifies buf
    ensures buf[to..to + n] == old(buf[from..from + n])
    ensures forall i :: 0 <= i < buf.Length && !(to <= i < to + n) ==> buf[i] == old(buf[i])
  {
    forall i | 0 <= i < n {
      buf[to + i] := buf[from + i];
    }
  }

  lemma LineIsStr(s: seq<char>, p: nat, line: string)
    requires p + |line| < |s| && s[p + |line|] == '\0' && '\0' !in line
    requires s[p..p + |line|] == line
    ensures IsStr(s, p, line)
  {
    forall i | 0 <= i < |line|
      ensures s[p + i] == line[i] && line[i] != '\0'
    {
      assert s[p..p + |line|][i] == line[i] && line[i] in line;
    }
  }

  lemma {:induction false} StripShape(line: string)
    ensures StripTag(line) <= line
    ensures forall i :: |StripTag(line)| <= i < |line| ==> IsSpace(line[i])
    decreases |line|
  {
    if |line| > 1 && IsSpace(line[|line| - 1]) { StripShape(line[..|line| - 1]); }
  }

  /** Takes the spaces behind a line off, which reaches the line only where it stands, and compares it with the tag. */
  method TagHere(buf: array<char>, data: nat, end: nat, tag: string, ghost line: string) returns (here: bool)
    requires 1 <= data && IsStr(buf[..], data, line) && data + |line| <= end < buf.Length && buf[end] == '\0'
    requires '\0' !in tag
    modifies buf
    ensures here <==> IsTagLine(line, tag, data + |line| < end)
    ensures !here ==> buf[..] == old(buf[..])
    ensures here ==>
      SameOutside(old(buf[..]), buf[..], data + |tag|, end + 1) && IsStr(buf[..], data, tag) && buf[end] == '\0'
  {
    ghost var (before, moved) := (buf[..], data + |line| < end);
    var pc := end - 1;
    assert line[..|line|] == line;
    while pc > data && IsSpace(buf[pc])
      invariant data - 1 <= pc < end
      invariant moved ==> pc >= data + |line|
      invariant !moved ==> StripTag(line[..pc + 1 - data]) == StripTag(line)
    {
      if !moved { assert line[..pc + 1 - data][..pc - data] == line[..pc - data]; }
      pc := pc - 1;
    }
    ghost var cut := if moved then line else line[..pc + 1 - data];
    if !moved { assert StripTag(cut) == cut; }
    var ch := buf[pc + 1];
    buf[pc + 1] := '\0';
    here := StringsEqual(buf, data, tag, cut);
    if !here {
      buf[pc + 1] := ch;
      assert buf[..] == before;
    }
  }

  /** The state of the multi-line loop: `done` is squeezed up to `data`, and `t` still lies ahead at `cur`. */
  ghost predicate Squeezed(s: seq<char>, p: nat, data: nat, cur: nat, done: seq<string>, t: string)
  {
    && p <= data <= cur <= |s| && s[p..data] == Broken(done) && IsStr(s, cur, t)
    && (forall i :: 0 <= i < |done| ==> '\0' !in done[i])
    && (done == [] ==> cur == p)
  }

  /** What is done and what is still ahead make up the body of `t0`. */
  ghost predicate BodySofar(t0: string, tag: string, done: seq<string>, t: string, moved: bool)
  {
    var (all, rest) := (ReadBody(t0, tag, false), ReadBody(t, tag, moved));
    all == Body(done + rest.lines, rest.tagged, rest.rest)
  }

  lemma BodyLine(t0: string, tag: string, done: seq<string>, t: string, moved: bool)
    requires BodySofar(t0, tag, done, t, moved)
    ensures (var (line, n, all) := (Line(t), LineEnd(t), ReadBody(t0, tag, false));
             if IsTagLine(line, tag, moved) then all == Body(done, true, AfterLine(t))
             else if n == |t| then all == Body(done + [line], false, [])
             else BodySofar(t0, tag, done + [line], AfterLine(t), moved || BreakLength(t[n..]) == 2))
  {
    hide IsTagLine, BreakLength, LineEnd, Line, AfterLine;
    assert done + [] == done;
    var n := LineEnd(t);
    if !IsTagLine(Line(t), tag, moved) && n < |t| {
      var more := ReadBody(AfterLine(t), tag, moved || BreakLength(t[n..]) == 2);
      assert done + ([Line(t)] + more.lines) == done + [Line(t)] + more.lines;
    }
  }

  /** From place `n` on, a string is still in the buffer, zero and all. */
  ghost predicate RestAt(s: seq<char>, cur: nat, t: string, n: nat)
  {
    && cur + |t| < |s| && '\0' !in t
    && (n <= |t| ==> s[cur + |t|] == '\0')
    && forall i :: n <= i < |t| ==> s[cur + i] == t[i]
  }

  lemma RestAtIsStr(s: seq<char>, cur: nat, t: string, n: nat)
    requires RestAt(s, cur, t, n) && n <= |t|
    ensures IsStr(s, cur + n, t[n..])
  {
    forall i | 0 <= i < |t[n..]|
      ensures s[cur + n + i] == t[n..][i] && t[n..][i] != '\0'
    {
      assert s[cur + (n + i)] == t[n + i] && t[n + i] in t;
    }
  }

  /** Putting back the character at `n` brings the string back from there. */
  lemma RestAtBack(s: seq<char>, s': seq<char>, cur: nat, t: string, n: nat)
    requires RestAt(s, cur, t, n + 1) && n < |t| && |s'| == |s|
    requires forall i :: 0 <= i < |s| && i != cur + n ==> s'[i] == s[i]
    requires s'[cur + n] == t[n]
    ensures RestAt(s', cur, t, n)
  {
  }

  lemma RestAtKept(s: seq<char>, s': seq<char>, cur: nat, t: string, n: nat)
    requires IsStr(s, cur, t) && |s| == |s'| && forall i :: cur + n < i < |s| ==> s'[i] == s[i]
    ensures RestAt(s', cur, t, n + 1)
  {
  }

  /** Puts the line break behind a line back as one line feed and goes on behind it. */
  method NextLine(buf: array<char>, ghost p: nat, data: nat, cur: nat, end: nat, c: char,
                  ghost done: seq<string>, ghost t: string)
    returns (data': nat, cur': nat)
    requires p <= data <= cur && end == cur + LineEnd(t) && LineEnd(t) < |t| && c == t[LineEnd(t)]
    requires RestAt(buf[..], cur, t, LineEnd(t) + 1) && buf[p..data] == Broken(done)
    requires IsStr(buf[..], data, Line(t)) && forall i :: 0 <= i < |done| ==> '\0' !in done[i]
    modifies buf
    ensures cur' + |AfterLine(t)| == cur + |t|
    ensures Squeezed(buf[..], p, data', cur', done + [Line(t)], AfterLine(t))
    ensures data' < cur' <==> data < cur || BreakLength(t[LineEnd(t)..]) == 2
    ensures buf[..p] == old(buf[..p])
  {
    hide LineEnd, Broken;
    ghost var (line, n) := (Line(t), LineEnd(t));
    ghost var s0 := buf[..];
    assert line == t[..n];
    buf[end] := c;
    ghost var s1 := buf[..];
    RestAtBack(s0, s1, cur, t, n);
    RestAtIsStr(s1, cur, t, n);
    cur' := SkipBreak(buf, end, t[n..]);
    IsStrDrop(s1, end, t[n..], cur' - end);
    data' := data + (end - cur);
    LineStays(s0, s1, data, line, end);
    buf[data'] := '\n';
    data' := data' + 1;
    IsStrFrame(s1, buf[..], cur', AfterLine(t));
    assert buf[p..data'] == buf[p..data] + buf[data..data' - 1] + "\n";
    BrokenSnoc(done, line);
    assert forall c :: c in line ==> c in t;
  }

  lemma LineStays(s: seq<char>, s': seq<char>, data: nat, line: string, end: nat)
    requires IsStr(s, data, line) && data + |line| <= end < |s| == |s'|
    requires forall i :: 0 <= i < |s| && i != end ==> s'[i] == s[i]
    ensures s'[data..data + |line|] == line
  {
  }

  lemma BrokenSnoc(done: seq<string>, line: string)
    ensures Broken(done + [line]) == Broken(done) + line + "\n"
  {
    assert (done + [line])[..|done|] == done;
  }

  lemma {:induction false} JoinNoZero(lines: seq<string>)
    requires forall i :: 0 <= i < |lines| ==> '\0' !in lines[i]
    ensures '\0' !in Join(lines)
    decreases |lines|
  {
    if |lines| > 1 { JoinNoZero(lines[1..]); }
  }

  /** A piece of the buffer without zeros and a zero behind it is a string. */
  lemma PieceIsStr(s: seq<char>, p: nat, q: nat, t: string)
    requires p <= q < |s| && s[p..q] == t && s[q] == '\0' && '\0' !in t
    ensures IsStr(s, p, t)
  {
    forall i | 0 <= i < |t|
      ensures s[p + i] == t[i] && t[i] != '\0'
    {
      assert s[p..q][i] == t[i] && t[i] in t;
    }
  }

  /** A string is not touched by a change at one place outside it. */
  lemma IsStrElsewhere(s: seq<char>, s': seq<char>, p: nat, t: string, at: int)
    requires IsStr(s, p, t) && |s'| == |s| && (at < p || p + |t| < at)
    requires forall i :: 0 <= i < |s| && i != at ==> s'[i] == s[i]
    ensures IsStr(s', p, t)
  {
  }

  lemma RestAtElsewhere(s: seq<char>, s': seq<char>, cur: nat, t: string, n: nat, at: int)
    requires RestAt(s, cur, t, n) && |s'| == |s| && at < cur + n
    requires forall i :: 0 <= i < |s| && i != at ==> s'[i] == s[i]
    ensures RestAt(s', cur, t, n)
  {
  }

  /** The tag is found behind lines of a value: ends the value in front of its line and goes on behind it. */
  method EndLines(buf: array<char>, p: nat, data: nat, cur: nat, end: nat, c: char, ghost done: seq<string>,
                  ghost t: string)
    returns (p': nat)
    requires 1 <= p <= data <= cur && end == cur + LineEnd(t) && end < buf.Length && buf[end] == '\0'
    requires c == (if LineEnd(t) < |t| then t[LineEnd(t)] else '\0')
    requires RestAt(buf[..], cur, t, LineEnd(t) + 1) && buf[p..data] == Broken(done)
    requires done != [] && forall i :: 0 <= i < |done| ==> '\0' !in done[i]
    modifies buf
    ensures p' + |AfterLine(t)| == cur + |t| && IsStr(buf[..], p', AfterLine(t))
    ensures IsStr(buf[..], p, Join(done)) && p + |Join(done)| < p'
    ensures buf[..p - 1] == old(buf[..p - 1])
  {
    hide LineEnd, Broken, Join, RestAt, AfterLine;
    ghost var s0 := buf[..];
    BrokenIsJoin(done, "");
    buf[data - 1] := '\0';
    ghost var s1 := buf[..];
    RestAtElsewhere(s0, s1, cur, t, LineEnd(t) + 1, data - 1);
    JoinNoZero(done);
    assert s1[p..data - 1] == s0[p..data][..data - 1 - p] == Join(done);
    PieceIsStr(s1, p, data - 1, Join(done));
    p' := RestoreBreak(buf, cur, end, c, t);
    IsStrElsewhere(s1, buf[..], p, Join(done), end);
  }

  /** The first line is the tag: its line stays where the value would be. */
  method EndNoLines(buf: array<char>, p: nat, end: nat, c: char, ghost tag: string, ghost t: string)
    returns (p': nat)
    requires 1 <= p && end == p + LineEnd(t) && end < buf.Length && buf[end] == '\0'
    requires c == (if LineEnd(t) < |t| then t[LineEnd(t)] else '\0')
    requires RestAt(buf[..], p, t, LineEnd(t) + 1) && IsStr(buf[..], p, tag)
    requires Line(t) == tag ==> forall i :: 0 <= i < LineEnd(t) ==> buf[p + i] == t[i]
    requires Line(t) != tag ==> |tag| < LineEnd(t)
    modifies buf
    ensures p' + |AfterLine(t)| == p + |t| && IsStr(buf[..], p', AfterLine(t))
    ensures IsStr(buf[..], p, if LineEnd(t) < |t| && Line(t) == tag then t else tag)
    ensures !(LineEnd(t) < |t| && Line(t) == tag) ==> p + |tag| <= p'
    ensures LineEnd(t) < |t| && Line(t) == tag ==> p <= p' && '\0' !in t && buf[p..p'] == t[..p' - p]
    ensures buf[..p - 1] == old(buf[..p - 1])
  {
    hide LineEnd, RestAt, AfterLine;
    ghost var s0 := buf[..];
    buf[p - 1] := '\0';
    ghost var s1 := buf[..];
    AfterLineShort(t);
    RestAtElsewhere(s0, s1, p, t, LineEnd(t) + 1, p - 1);
    IsStrElsewhere(s0, s1, p, tag, p - 1);
    p' := RestoreBreak(buf, p, end, c, t);
    if LineEnd(t) < |t| && Line(t) == tag {
      StrComesBack(buf[..], p, t, LineEnd(t));
    } else if LineEnd(t) < |t| {
      IsStrElsewhere(s1, buf[..], p, tag, end);
    }
  }

  /** Puts back the first character of the line break, if the text goes on, and skips the break. */
  method RestoreBreak(buf: array<char>, ghost cur: nat, end: nat, c: char, ghost t: string) returns (p': nat)
    requires end == cur + LineEnd(t) && end < buf.Length && buf[end] == '\0'
    requires c == (if LineEnd(t) < |t| then t[LineEnd(t)] else '\0') && RestAt(buf[..], cur, t, LineEnd(t) + 1)
    modifies buf
    ensures p' + |AfterLine(t)| == cur + |t| && IsStr(buf[..], p', AfterLine(t))
    ensures LineEnd(t) < |t| ==> RestAt(buf[..], cur, t, LineEnd(t))
    ensures forall i :: 0 <= i < buf.Length && i != end ==> buf[i] == old(buf[i])
    ensures LineEnd(t) == |t| ==> buf[..] == old(buf[..])
  {
    hide LineEnd;
    ghost var (s1, n) := (buf[..], LineEnd(t));
    p' := end;
    if c != '\0' {
      assert n < |t|;
      buf[end] := c;
      RestAtBack(s1, buf[..], cur, t, n);
      RestAtIsStr(buf[..], cur, t, n);
      p' := SkipBreak(buf, end, t[n..]);
      IsStrDrop(buf[..], end, t[n..], p' - end);
    } else {
      NoZeroIn(t, n);
    }
  }

  lemma BrokenEmpty()
    ensures Broken([]) == ""
  {
  }

  lemma NoZeroIn(t: string, n: nat)
    requires '\0' !in t && n <= |t| && (if n < |t| then t[n] else '\0') == '\0'
    ensures n == |t|
  {
  }

  lemma StrComesBack(s: seq<char>, p: nat, t: string, n: nat)
    requires RestAt(s, p, t, n) && n <= |t| && forall i :: 0 <= i < n ==> s[p + i] == t[i]
    ensures IsStr(s, p, t)
  {
  }

  /** Loads a multi-line value in place: its lines, joined by single line feeds, end up where the text began.
      The write cursor never passes the read cursor, which ends behind the line of the tag. */
  method LoadMultiLine(buf: array<char>, p: nat, tag: string, ghost t0: string) returns (found: bool, p': nat)
    requires 1 <= p && IsStr(buf[..], p, t0) && '\0' !in tag
    modifies buf
    ensures (var b := ReadBody(t0, tag, false);
             && found == BodyFound(t0, b, tag)
             && (found ==> p' + |b.rest| == p + |t0|)
             && (found ==> IsStr(buf[..], p', b.rest) && IsStr(buf[..], p, BodyValue(t0, b, tag)))
             && (found ==> Stands(buf[..], p, BodyShown(t0, b, tag), p', b.rest)))
    ensures buf[..p - 1] == old(buf[..p - 1])
  {
    hide LineEnd, IsTagLine, Join, Broken, ReadBody, BodySofar, BreakLength;
    var data: nat, cur: nat := p, p;
    ghost var done: seq<string>, t := [], t0;
    BodySofarInit(t0, tag);
    BrokenEmpty();
    while true
      invariant p <= data <= cur && cur + |t| == p + |t0|
      invariant Squeezed(buf[..], p, data, cur, done, t)
      invariant BodySofar(t0, tag, done, t, data < cur)
      invariant done == [] ==> t == t0
      invariant buf[..p - 1] == old(buf[..p - 1])
      decreases |t|
    {
      BodyLine(t0, tag, done, t, data < cur);
      BrokenEmptyOnly(done);
      var end, c, here := CompareLine(buf, p, data, cur, tag, done, t);
      ghost var line := Line(t);
      if here {
        if p == end {
          return false, end;
        }
        if p < data {
          p' := EndLines(buf, p, data, cur, end, c, done, t);
          EndedStands(buf[..], p, Join(done), p', AfterLine(t));
        } else {
          p' := EndNoLines(buf, p, end, c, tag, t);
          if LineEnd(t) < |t| && Line(t) == tag {
            RunsOnStands(buf[..], p, t, p', AfterLine(t));
          } else {
            EndedStands(buf[..], p, tag, p', AfterLine(t));
          }
        }
        return true, p';
      }
      if c == '\0' {
        NoZeroIn(t, LineEnd(t));
        LastLine(buf[..], p, data, done, line);
        EndIsStr(buf[..], end);
        EndedStands(buf[..], p, Join(done + [line]), end, "");
        return true, end;
      }
      data, cur := NextLine(buf, p, data, cur, end, c, done, t);
      done, t := done + [line], AfterLine(t);
    }
  }

  lemma EndIsStr(s: seq<char>, p: nat)
    requires p < |s| && s[p] == '\0'
    ensures IsStr(s, p, "")
  {
  }

  lemma RunsOnStands(s: seq<char>, p: nat, t: string, p': nat, rest: string)
    requires p <= p' <= |s| && p' + |rest| == p + |t| && s[p..p'] == t[..p' - p] && '\0' !in t
    ensures Stands(s, p, RunOn(t, rest), p', rest)
  {
    assert forall i :: p <= i < p' ==> s[i] == s[p..p'][i - p] && t[i - p] in t;
  }

  /** The text ends without the tag: what is there so far is the value. */
  lemma LastLine(s: seq<char>, p: nat, data: nat, done: seq<string>, line: string)
    requires p <= data && IsStr(s, data, line) && s[p..data] == Broken(done)
    requires forall i :: 0 <= i < |done| ==> '\0' !in done[i]
    ensures IsStr(s, p, Join(done + [line])) && p + |Join(done + [line])| == data + |line|
  {
    hide Broken, Join;
    BrokenIsJoin(done, line);
    assert '\0' !in line;
    JoinNoZero(done + [line]);
    assert s[data..data + |line|] == line;
    assert s[p..data + |line|] == s[p..data] + s[data..data + |line|];
    PieceIsStr(s, p, data + |line|, Join(done + [line]));
  }

  lemma BrokenEmptyOnly(done: seq<string>)
    ensures Broken(done) == "" <==> done == []
  {
  }

  /** Takes the next line to where the text goes on, and ends it with a zero. */
  method BringLine(buf: array<char>, ghost p: nat, data: nat, cur: nat, ghost done: seq<string>, ghost t: string)
    returns (end: nat, c: char)
    requires Squeezed(buf[..], p, data, cur, done, t)
    modifies buf
    ensures end == cur + LineEnd(t) && end < buf.Length && buf[end] == '\0'
    ensures c == if LineEnd(t) < |t| then t[LineEnd(t)] else '\0'
    ensures IsStr(buf[..], data, Line(t)) && RestAt(buf[..], cur, t, LineEnd(t) + 1) && '\0' !in t
    ensures buf[p..data] == Broken(done) && buf[..p] == old(buf[..p])
  {
    hide LineEnd, Broken;
    ghost var (s0, line) := (buf[..], Line(t));
    end := FindLineEnd(buf, cur, t);
    c := buf[end];
    assert buf[cur..end] == line;
    MoveLine(buf, data, cur, end, line);
    RestAtKept(s0, buf[..], cur, t, LineEnd(t));
    assert buf[p..data] == s0[p..data];
  }

  /** Takes the next line to where the value goes on and compares it with the tag. */
  method CompareLine(buf: array<char>, p: nat, data: nat, cur: nat, tag: string, ghost done: seq<string>,
                     ghost t: string)
    returns (end: nat, c: char, here: bool)
    requires 1 <= p && Squeezed(buf[..], p, data, cur, done, t) && '\0' !in tag
    requires done == [] ==> data == p
    modifies buf
    ensures end == cur + LineEnd(t) && end < buf.Length && buf[end] == '\0'
    ensures c == if LineEnd(t) < |t| then t[LineEnd(t)] else '\0'
    ensures here == IsTagLine(Line(t), tag, data < cur)
    ensures !here ==> IsStr(buf[..], data, Line(t))
    ensures here ==> IsStr(buf[..], data, tag)
    ensures here && done == [] && Line(t) == tag ==> forall i :: 0 <= i < LineEnd(t) ==> buf[p + i] == t[i]
    ensures here && done == [] && Line(t) != tag ==> |tag| < LineEnd(t)
    ensures RestAt(buf[..], cur, t, LineEnd(t) + 1)
    ensures buf[p..data] == Broken(done) && buf[..p] == old(buf[..p])
  {
    hide LineEnd, Broken, StripTag;
    ghost var line := Line(t);
    end, c := BringLine(buf, p, data, cur, done, t);
    ghost var s1 := buf[..];
    here := TagHere(buf, data, end, tag, line);
    RestAtLeft(s1, buf[..], cur, t, LineEnd(t) + 1);
    assert buf[p..data] == s1[p..data];
    if here && done == [] { StripShape(line); }
  }

  lemma RestAtLeft(s: seq<char>, s': seq<char>, cur: nat, t: string, n: nat)
    requires RestAt(s, cur, t, n) && |s| == |s'| && forall i :: cur + n <= i < |s| ==> s'[i] == s[i]
    ensures RestAt(s', cur, t, n)
  {
  }

  lemma BodySofarInit(t0: string, tag: string)
    ensures BodySofar(t0, tag, [], t0, false)
  {
    hide ReadBody;
    assert [] + ReadBody(t0, tag, false).lines == ReadBody(t0, tag, false).lines;
  }

  // ------------------------------------------------------------------ comments

  /** Looks behind the spaces and counts the line breaks among them. */
  method ReadAhead(buf: array<char>, p: nat, ghost t: string) returns (ahead: nat, breaks: nat)
    requires IsStr(buf[..], p, t)
    ensures ahead + |SkipSpaces(t)| == p + |t| && IsStr(buf[..], ahead, SkipSpaces(t))
    ensures breaks == CountBreaks(t)
  {
    ahead, breaks := p, 0;
    ghost var u := t;
    while IsSpace(buf[ahead])
      invariant ahead + |u| == p + |t| && IsStr(buf[..], ahead, u)
      invariant SkipSpaces(u) == SkipSpaces(t) && breaks + CountBreaks(u) == CountBreaks(t)
      decreases |u|
    {
      StrEnds(buf[..], ahead, u, 0);
      if IsNewLine(buf[ahead]) {
        breaks := breaks + 1;
        BreakIsSpace(u);
        ghost var k := BreakLength(u);
        var next := SkipBreak(buf, ahead, u);
        IsStrDrop(buf[..], ahead, u, k);
        ahead, u := next, u[k..];
      } else {
        IsStrDrop(buf[..], ahead, u, 1);
        ahead, u := ahead + 1, u[1..];
      }
    }
    StrEnds(buf[..], ahead, u, 0);
  }

  method PutBreaks(buf: array<char>, data: nat, k: nat)
    requires data + k <= buf.Length
    modifies buf
    ensures buf[data..data + k] == Feeds(k)
    ensures forall i :: 0 <= i < buf.Length && !(data <= i < data + k) ==> buf[i] == old(buf[i])
  {
    for i := 0 to k
      invariant forall j :: data <= j < data + i ==> buf[j] == '\n'
      invariant forall j :: 0 <= j < buf.Length && !(data <= j < data + i) ==> buf[j] == old(buf[j])
    {
      buf[data + i] := '\n';
    }
  }

  function Feeds(k: nat): (t: string)
    ensures |t| == k && forall i :: 0 <= i < k ==> t[i] == '\n'
  {
    seq(k, _ => '\n')
  }

  lemma {:induction false} BrokenBlanks(done: seq<string>, k: nat)
    ensures Broken(done + Blanks(k)) == Broken(done) + Feeds(k)
    decreases k
  {
    hide Broken, Blanks, Feeds;
    if k == 0 {
      assert done + Blanks(0) == done && Broken(done) + Feeds(0) == Broken(done);
    } else {
      BrokenBlanks(done, k - 1);
      BrokenSnoc(done + Blanks(k - 1), "");
      assert done + Blanks(k) == (done + Blanks(k - 1)) + [""];
      assert Feeds(k) == Feeds(k - 1) + "\n";
      assert Broken(done + Blanks(k - 1)) + "" == Broken(done + Blanks(k - 1));
      Associate(Broken(done), Feeds(k - 1), "\n");
    }
  }

  /** What is done and what is still ahead make up the comment at `t0`. */
  ghost predicate CommentSofar(t0: string, blanks: bool, done: seq<string>, t: string)
  {
    && t0 != "" && IsComment(t0[0]) && t != "" && IsComment(t[0])
    && CommentLines(t0, blanks) == done + CommentLines(t, blanks) && AfterComment(t0, blanks) == AfterComment(t, blanks)
  }

  lemma CommentInit(t: string, blanks: bool)
    requires t != "" && IsComment(t[0])
    ensures CommentSofar(t, blanks, [], t)
  {
    hide CommentLines, AfterComment;
    assert [] + CommentLines(t, blanks) == CommentLines(t, blanks);
  }

  /** One more line: the comment ends behind it or goes on, at once or behind blank lines. */
  lemma CommentOn(t0: string, blanks: bool, done: seq<string>, t: string)
    requires CommentSofar(t0, blanks, done, t)
    ensures (var u := AfterLine(t);
             var more := done + [Line(t)];
             if u != "" && IsComment(u[0]) then CommentSofar(t0, blanks, more, u)
             else if CommentGoesOn(u, blanks) then
               CommentSofar(t0, blanks, more + Blanks(CountBreaks(u)), SkipSpaces(u))
             else CommentLines(t0, blanks) == more && AfterComment(t0, blanks) == u)
  {
    hide AfterLine, Line;
    var u := AfterLine(t);
    if CommentGoesOn(u, blanks) {
      var blank := if blanks then Blanks(CountBreaks(u)) else [];
      var rest := CommentLines(if blanks then SkipSpaces(u) else u, blanks);
      assert CommentLines(t, blanks) == [Line(t)] + blank + rest;
      assert done + ([Line(t)] + blank + rest) == done + [Line(t)] + blank + rest;
      assert done + [Line(t)] + [] == done + [Line(t)];
    }
  }

  lemma GoesOnAt(t: string, blanks: bool)
    ensures t == "" ==> !CommentGoesOn(t, blanks)
    ensures !blanks ==> (CommentGoesOn(t, blanks) <==> t != "" && IsComment(t[0]))
    ensures blanks ==> (CommentGoesOn(t, blanks) <==> SkipSpaces(t) != "" && IsComment(SkipSpaces(t)[0]))
  {
  }

  lemma LineOver(t: string)
    requires LineEnd(t) == |t|
    ensures AfterLine(t) == "" && |Line(t)| == LineEnd(t)
  {
  }

  /** Writes the line breaks of blank lines and goes on behind them. */
  method BlankLines(buf: array<char>, ghost p: nat, data: nat, ghost cur: nat, ghost ahead: nat, breaks: nat,
                    ghost done: seq<string>, ghost t: string)
    returns (data': nat)
    requires Squeezed(buf[..], p, data, cur, done, t) && done != []
    requires ahead + |SkipSpaces(t)| == cur + |t| && breaks == CountBreaks(t)
    modifies buf
    ensures Squeezed(buf[..], p, data', ahead, done + Blanks(breaks), SkipSpaces(t))
    ensures buf[..p] == old(buf[..p])
  {
    hide IsStr, Broken, SkipSpaces, CountBreaks, Squeezed;
    ghost var s0 := buf[..];
    SqueezedOpen(s0, p, data, cur, done, t);
    IsStrDrop(s0, cur, t, ahead - cur);
    SpacesAreFront(t);
    PutBreaks(buf, data, breaks);
    data' := data + breaks;
    IsStrFrame(s0, buf[..], ahead, SkipSpaces(t));
    assert buf[p..data'] == s0[p..data] + buf[data..data'];
    SqueezedBlanks(buf[..], p, data', ahead, done, breaks, SkipSpaces(t));
  }

  lemma SqueezedInit(s: seq<char>, p: nat, t: string)
    requires IsStr(s, p, t)
    ensures Squeezed(s, p, p, p, [], t)
  {
    assert s[p..p] == "";
  }

  lemma SqueezedOpen(s: seq<char>, p: nat, data: nat, cur: nat, done: seq<string>, t: string)
    requires Squeezed(s, p, data, cur, done, t)
    ensures p <= data <= cur <= |s| && s[p..data] == Broken(done) && IsStr(s, cur, t)
    ensures forall i :: 0 <= i < |done| ==> '\0' !in done[i]
  {
    hide Broken, IsStr;
  }

  lemma SqueezedBlanks(s: seq<char>, p: nat, data: nat, cur: nat, done: seq<string>, k: nat, t: string)
    requires p <= data <= cur <= |s| && s[p..data] == Broken(done) + Feeds(k) && IsStr(s, cur, t)
    requires done != [] && forall i :: 0 <= i < |done| ==> '\0' !in done[i]
    ensures Squeezed(s, p, data, cur, done + Blanks(k), t)
  {
    hide Broken, IsStr;
    BrokenBlanks(done, k);
  }

  lemma {:induction false} SpacesAreFront(t: string)
    ensures t[|t| - |SkipSpaces(t)|..] == SkipSpaces(t)
    decreases |t|
  {
    if t != "" && IsSpace(t[0]) {
      SpacesAreFront(t[1..]);
      assert t[1..][|t| - 1 - |SkipSpaces(t[1..])|..] == t[|t| - |SkipSpaces(t)|..];
    }
  }

  /** Ends a comment in front of its last line break. */
  method EndComment(buf: array<char>, p: nat, data: nat, ghost cur: nat, ghost done: seq<string>, ghost t: string)
    requires Squeezed(buf[..], p, data, cur, done, t) && done != []
    modifies buf
    ensures IsStr(buf[..], cur, t) && IsStr(buf[..], p, Join(done)) && p + |Join(done)| <= cur
    ensures buf[..p] == old(buf[..p])
  {
    hide Broken, Join, IsStr;
    ghost var s0 := buf[..];
    BrokenIsJoin(done, "");
    buf[data - 1] := '\0';
    IsStrFrame(s0, buf[..], cur, t);
    JoinNoZero(done);
    assert buf[p..data - 1] == s0[p..data][..data - 1 - p] == Join(done);
    PieceIsStr(buf[..], p, data - 1, Join(done));
  }

  /** Loads a comment in place: its lines, and a line feed for every blank line between them, end up where it began. */
  method LoadComment(buf: array<char>, p: nat, blanks: bool, ghost t0: string) returns (p': nat)
    requires IsStr(buf[..], p, t0) && t0 != "" && IsComment(t0[0])
    modifies buf
    ensures p' + |AfterComment(t0, blanks)| == p + |t0| && IsStr(buf[..], p', AfterComment(t0, blanks))
    ensures (var text := Join(CommentLines(t0, blanks));
             IsStr(buf[..], p, text) && p + |text| <= p')
    ensures buf[..p] == old(buf[..p])
  {
    hide LineEnd, Join, Broken, BreakLength, AfterLine, Line, CommentLines, AfterComment, SkipSpaces, CountBreaks;
    hide CommentGoesOn, CommentSofar, Blanks, IsStr, RestAt, Squeezed;
    var data: nat, cur: nat := p, p;
    ghost var done: seq<string>, t := [], t0;
    BrokenEmpty();
    StrInside(buf[..], p, t0);
    SqueezedInit(buf[..], p, t0);
    CommentInit(t0, blanks);
    while true
      invariant t != "" && cur + |t| == p + |t0|
      invariant Squeezed(buf[..], p, data, cur, done, t) && (done == [] ==> data == p)
      invariant CommentSofar(t0, blanks, done, t)
      invariant buf[..p] == old(buf[..p])
      decreases |t|
    {
      CommentOn(t0, blanks, done, t);
      ghost var line := Line(t);
      SqueezedOpen(buf[..], p, data, cur, done, t);
      var end, c := BringLine(buf, p, data, cur, done, t);
      if c == '\0' {
        NoZeroIn(t, LineEnd(t));
        LineOver(t);
        GoesOnAt("", blanks);
        LastLine(buf[..], p, data, done, line);
        EndIsStr(buf[..], end);
        return end;
      }
      data, cur := NextLine(buf, p, data, cur, end, c, done, t);
      done, t := done + [line], AfterLine(t);
      SqueezedOpen(buf[..], p, data, cur, done, t);
      StrStarts(buf[..], cur, t);
      GoesOnAt(t, blanks);
      if !IsComment(buf[cur]) {
        if !blanks {
          break;
        }
        var ahead, breaks := ReadAhead(buf, cur, t);
        StrStarts(buf[..], ahead, SkipSpaces(t));
        if !IsComment(buf[ahead]) {
          break;
        }
        data := BlankLines(buf, p, data, cur, ahead, breaks, done, t);
        done := done + Blanks(breaks);
        cur, t := ahead, SkipSpaces(t);
      }
    }
    p' := cur;
    EndComment(buf, p, data, cur, done, t);
  }
}
