/** Loading a store from text and saving it again. */
module IniFile {
  import opened Bytes
  import opened IniDocument
  import opened IniEntries
  import opened IniLines
  import opened IniListing
  import opened IniReader
  import opened IniStore
  import opened IniText

  // ------------------------------------------------------------------ the file comment

  /** Behind a comment of either kind the same is found. */
  lemma {:induction false} CommentEndsAlike(t: string)
    requires t != "" && IsComment(t[0])
    ensures (var (a, b) := (AfterComment(t, false), AfterComment(t, true));
             FindEntry(a) == FindEntry(b) && OpenName(a) == OpenName(b) && RunsOn(a) == RunsOn(b))
    decreases |t|
  {
    hide AfterLine, SkipSpaces, FindEntry, OpenName, RunsOn, TurnOf;
    var u := AfterLine(t);
    if u != "" && IsComment(u[0]) {
      SpacesGone(u);
      CommentEndsAlike(u);
    } else if CommentGoesOn(u, true) {
      SpacesSkipped(u);
      CommentTurn(SkipSpaces(u));
      ShownUnfold(SkipSpaces(u));
    }
  }

  /** Whether the first lines of comment are taken for the file's own or not, the same entries are found. */
  lemma FileCommentDoesNotMatter(t: string)
    ensures FindEntry(AfterFileComment(t)) == FindEntry(t) && OpenName(AfterFileComment(t)) == OpenName(t)
    ensures RunsOn(AfterFileComment(t)) == RunsOn(t)
  {
    hide AfterComment, FindEntry, OpenName, RunsOn, TurnOf;
    if t != "" && IsComment(t[0]) {
      CommentEndsAlike(t);
      CommentTurn(t);
      ShownUnfold(t);
    }
  }

  lemma LoadingsBehindComment(t: string, section: string, copies: bool)
    ensures Loadings(AfterFileComment(t), section, copies) == Loadings(t, section, copies)
  {
    hide AfterFileComment, FindEntry, OpenName, RunsOn, Shown;
    FileCommentDoesNotMatter(t);
  }

  /** A comment that the text starts with is the file's own, if it has none yet. */
  method FindFileComment(store: Store, buf: array<char>, ghost t: string) returns (p: nat)
    requires IsStr(buf[..], 0, t)
    modifies store`hasComment, buf
    ensures (var rest := if old(store.hasComment) then t else AfterFileComment(t);
             p + |rest| == |t| && IsStr(buf[..], p, rest))
    ensures store.hasComment == (old(store.hasComment) || (t != "" && IsComment(t[0])))
  {
    hide AfterComment, CommentLines, Join, IsStr;
    p := 0;
    StrStarts(buf[..], 0, t);
    if !store.hasComment && IsComment(buf[0]) {
      p := LoadComment(buf, 0, false, t);
      store.hasComment := true;
    }
  }

  // ------------------------------------------------------------------ loading

  /** Adds what is loaded, one after the other. */
  function AddAll(doc: Document, loadings: seq<Loading>): Document
    decreases |loadings|
  {
    if loadings == [] then doc else AddAll(Add(doc, loadings[0].section, loadings[0].item), loadings[1..])
  }

  /** The section name stands at a place in front of the cursor; without one it is the nameless section. */
  ghost predicate NameAt(s: seq<char>, section: Option<nat>, name: string, p: nat)
  {
    if section == None then name == "" else section.value + |name| < p && IsStr(s, section.value, name)
  }

  lemma StrStays(s: seq<char>, s': seq<char>, at: nat, v: string, p: nat)
    requires IsStr(s, at, v) && at + |v| < p <= |s| == |s'| && s'[..p] == s[..p]
    ensures IsStr(s', at, v)
  {
    assert forall i :: 0 <= i < p ==> s'[i] == s'[..p][i] == s[..p][i] == s[i];
  }

  lemma NameStays(s: seq<char>, s': seq<char>, section: Option<nat>, name: string, p: nat, p': nat)
    requires NameAt(s, section, name, p) && p <= |s| == |s'| && s'[..p] == s[..p] && p <= p'
    ensures NameAt(s', section, name, p')
  {
    hide IsStr;
    if section != None { StrStays(s, s', section.value, name, p); }
  }

  method SectionName(buf: array<char>, section: Option<nat>, ghost name: string, ghost p: nat) returns (r: string)
    requires NameAt(buf[..], section, name, p)
    ensures r == name
  {
    if section == None {
      return "";
    }
    r := ReadString(buf, section.value, name);
  }

  lemma LoadingsUnfold(t: string, section: string, copies: bool)
    ensures (var e := FindEntry(t);
             && (e.End? ==> Loadings(t, section, copies) == [])
             && (e.Found? ==>
                   var name := SectionOf(t, e.item, section);
                   Loadings(t, section, copies)
                   == [Loading(name, if copies then e.item else ItemShown(t, e.item, e.rest))]
                     + Loadings(e.rest, name, copies)))
  {
    hide FindEntry, SectionOf, ItemShown;
  }

  /** The section that the next entry goes to stands in front of the cursor as well. */
  lemma NextNameAt(s: seq<char>, s': seq<char>, t: string, place: Place, section: Option<nat>, section': Option<nat>,
                   name: string, p: nat, p': nat)
    requires NameAt(s, section, name, p) && p <= |s| == |s'| && s'[..p] == s[..p] && p <= p'
    requires (var e := FindEntry(t);
              && e.Found? && PlaceHolds(s', place, e)
              && (e.item.Header? ==> place.HeaderAt? && place.name + |e.item.name| < p' && section' == Some(place.name))
              && (e.item.Pair? && OpenName(t) == None ==> section' == section)
              && (e.item.Pair? && OpenName(t).Some? ==>
                    && section'.Some? && IsStr(s', section'.value, OpenName(t).value)
                    && section'.value + |OpenName(t).value| < p'))
    ensures NameAt(s', section', SectionOf(t, FindEntry(t).item, name), p')
  {
    hide IsStr, FindEntry, OpenName;
    NameStays(s, s', section, name, p, p');
  }

  /** A later load: strings are copied when they are stored. */
  method LoadCopies(store: Store, buf: array<char>, start: nat, ghost text: string)
    requires store.Valid() && IsStr(buf[..], start, text)
    modifies store`sections, store`order, buf
    ensures store.Valid()
    ensures store.multiKey ==> Listed(store.sections) == AddAll(Listed(old(store.sections)), Loadings(text, "", true))
  {
    hide FindEntry, OpenName, RunsOn, Shown, Loadings, AddAll, Add, Listed, SectionsOk, NewValues, Values, SectionOrder;
    hide IsStr, NameAt, Stands, SectionOf;
    var p: nat, section := start, None;
    ghost var (t, first, name) := (text, Listed(store.sections), "");
    NoNameAt(buf[..], p);
    StrInside(buf[..], p, t);
    while true
      invariant store.Valid() && p <= buf.Length && IsStr(buf[..], p, t) && NameAt(buf[..], section, name, p)
      invariant store.multiKey ==>
        AddAll(Listed(store.sections), Loadings(t, name, true)) == AddAll(first, Loadings(text, "", true))
      decreases |t|
    {
      LoadingsUnfold(t, name, true);
      ghost var s := buf[..];
      var place, section', p';
      place, section', p' := FindEntryAt(buf, p, section, t);
      ghost var e := FindEntry(t);
      PlaceOf(buf[..], place, e);
      if place.NoEntry? {
        AddAllCons(Listed(store.sections), Loading("", Header("")), []);
        break;
      }
      NextNameAt(s, buf[..], t, place, section, section', name, p, p');
      SectionOfHeader(t, e.item, name);
      section, name := section', SectionOf(t, e.item, name);
      AddAllCons(Listed(store.sections), Loading(name, e.item), Loadings(e.rest, name, true));
      var title := SectionName(buf, section, name, p');
      if place.HeaderAt? {
        var _ := store.AddEntry(title, None, "", false);
      } else {
        var key := ReadString(buf, place.key, e.item.key);
        var value := ReadString(buf, place.value, e.item.value);
        var _ := store.AddEntry(title, Some(key), value, false);
      }
      p, t := p', e.rest;
      StrInside(buf[..], p, t);
    }
  }

  lemma AddAllCons(doc: Document, loading: Loading, loadings: seq<Loading>)
    ensures AddAll(doc, [loading] + loadings) == AddAll(Add(doc, loading.section, loading.item), loadings)
    ensures AddAll(doc, []) == doc
  {
    hide Add;
  }

  lemma NoNameAt(s: seq<char>, p: nat)
    ensures NameAt(s, None, "", p)
  {
  }

  lemma PlaceOf(s: seq<char>, place: Place, entry: Entry)
    requires PlaceHolds(s, place, entry)
    ensures place.NoEntry? <==> entry.End?
    ensures entry.Found? ==> (place.HeaderAt? <==> entry.item.Header?)
    ensures place.PairAt? ==> IsStr(s, place.key, entry.item.key) && IsStr(s, place.value, entry.item.value)
  {
    hide IsStr;
  }

  lemma SectionOfHeader(t: string, item: Item, section: string)
    ensures item.Header? ==> SectionOf(t, item, section) == item.name
  {
  }

  // ------------------------------------------------------------------ the first load

  /** An entry of the first load: places in the buffer, which the store then points to. */
  datatype Record = Record(section: Option<nat>, place: Place)

  /** The strings at the places are those to be stored, or will be when the text at `p` has been read. */
  ghost predicate RecordStands(s: seq<char>, r: Record, l: Loading, p: nat, t: string)
  {
    && NameAt(s, r.section, l.section, p)
    && match l.item
       case Header(name) => r.place.HeaderAt? && name == l.section
       case Pair(key, value) =>
         && r.place.PairAt? && r.place.key + |key| < p && IsStr(s, r.place.key, key)
         && Stands(s, r.place.value, value, p, t)
  }

  ghost predicate RecordHolds(s: seq<char>, r: Record, l: Loading)
  {
    && NameAt(s, r.section, l.section, |s|)
    && match l.item
       case Header(name) => r.place.HeaderAt? && name == l.section
       case Pair(key, value) => r.place.PairAt? && IsStr(s, r.place.key, key) && IsStr(s, r.place.value, value)
  }

  /** Looking for one more entry settles the strings so far. */
  lemma RecordSettles(s: seq<char>, s': seq<char>, r: Record, l: Loading, p: nat, t: string)
    requires RecordStands(s, r, l, p, t) && p <= |s| == |s'| && s'[..p] == s[..p] && IsStr(s', p, Shown(t))
    ensures RecordHolds(s', r, l)
    ensures l.item.Pair? ==> r.place.value + |l.item.value| <= p + |Shown(t)|
  {
    hide IsStr, Shown, Stands, NameAt;
    NameStays(s, s', r.section, l.section, p, |s|);
    if l.item.Pair? {
      StrStays(s, s', r.place.key, l.item.key, p);
      StandsCut(s, s', r.place.value, l.item.value, p, t);
    }
  }

  lemma RecordStandsStill(s: seq<char>, s': seq<char>, r: Record, l: Loading, p: nat, t: string, p': nat, rest: string)
    requires RecordStands(s, r, l, p, t) && p <= |s| == |s'| && s'[..p] == s[..p] && IsStr(s', p, Shown(t))
    requires p <= p' && p + |Shown(t)| < p' && IsStr(s', p', rest)
    ensures RecordStands(s', r, l, p', rest)
  {
    hide IsStr, Shown, Stands, NameAt;
    RecordSettles(s, s', r, l, p, t);
    NameStays(s, s', r.section, l.section, p, p');
    if l.item.Pair? { EndedStands(s', r.place.value, l.item.value, p', rest); }
  }

  /** The entry that has just been found. */
  lemma NewRecord(s: seq<char>, t: string, place: Place, section: Option<nat>, name: string, p: nat)
    requires (var e := FindEntry(t);
              && e.Found? && PlaceHolds(s, place, e) && EntryStands(s, place, t, RunsOn(t), e.item, p, e.rest))
    requires NameAt(s, section, name, p) && (FindEntry(t).item.Header? ==> name == FindEntry(t).item.name)
    ensures (var e := FindEntry(t);
             RecordStands(s, Record(section, place), Loading(name, ItemShown(t, e.item, e.rest)), p, e.rest))
  {
    hide IsStr, FindEntry, RunsOn, RunOn, Stands, NameAt;
  }

  /** The first load: strings stay where they are, so what is stored shows what the buffer holds in the end. */
  method LoadPlaces(buf: array<char>, start: nat, ghost text: string) returns (records: seq<Record>)
    requires IsStr(buf[..], start, text)
    modifies buf
    ensures (var loadings := Loadings(text, "", false);
             && |records| == |loadings|
             && forall i :: 0 <= i < |records| ==> RecordHolds(buf[..], records[i], loadings[i]))
  {
    hide FindEntry, OpenName, RunsOn, Shown, Loadings, IsStr, NameAt, SectionOf, ItemShown, RecordStands, RecordHolds;
    hide PlaceHolds;
    var p: nat, section := start, None;
    records := [];
    ghost var (t, name) := (text, "");
    ghost var done: seq<Loading> := [];
    NoNameAt(buf[..], p);
    StrInside(buf[..], p, t);
    assert [] + Loadings(text, "", false) == Loadings(text, "", false);
    while true
      invariant p <= buf.Length && IsStr(buf[..], p, t) && NameAt(buf[..], section, name, p)
      invariant Loadings(text, "", false) == done + Loadings(t, name, false) && |records| == |done|
      invariant forall i :: 0 <= i < |records| ==> RecordStands(buf[..], records[i], done[i], p, t)
      decreases |t|
    {
      LoadingsUnfold(t, name, false);
      ghost var s := buf[..];
      var place, section', p';
      place, section', p' := FindEntryAt(buf, p, section, t);
      ghost var e := FindEntry(t);
      PlaceOf(buf[..], place, e);
      if place.NoEntry? {
        forall i | 0 <= i < |records|
          ensures RecordHolds(buf[..], records[i], done[i])
        {
          RecordSettles(s, buf[..], records[i], done[i], p, t);
        }
        assert done + [] == done;
        break;
      }
      NextNameAt(s, buf[..], t, place, section, section', name, p, p');
      forall i | 0 <= i < |records|
        ensures RecordStands(buf[..], records[i], done[i], p', e.rest)
      {
        RecordStandsStill(s, buf[..], records[i], done[i], p, t, p', e.rest);
      }
      ghost var next := SectionOf(t, e.item, name);
      SectionOfHeader(t, e.item, name);
      NewRecord(buf[..], t, place, section', next, p');
      Associate(done, [Loading(next, ItemShown(t, e.item, e.rest))], Loadings(e.rest, next, false));
      records := records + [Record(section', place)];
      done, name := done + [Loading(next, ItemShown(t, e.item, e.rest))], next;
      section := section';
      p, t := p', e.rest;
      StrInside(buf[..], p, t);
    }
  }

  /** Which entry goes where depends on names only, and they do not change any more once they are read. So the store
      comes to hold what is added when all has been read. */
  method AddPlaces(store: Store, buf: array<char>, records: seq<Record>, ghost loadings: seq<Loading>)
    requires store.Valid() && |records| == |loadings|
    requires forall i :: 0 <= i < |records| ==> RecordHolds(buf[..], records[i], loadings[i])
    modifies store`sections, store`order
    ensures store.Valid()
    ensures store.multiKey ==> Listed(store.sections) == AddAll(Listed(old(store.sections)), loadings)
  {
    hide AddAll, Add, Listed, SectionsOk, NewValues, Values, SectionOrder, IsStr, NameAt;
    var i := 0;
    ghost var first := Listed(store.sections);
    while i < |records|
      invariant i <= |records| && store.Valid()
      invariant store.multiKey ==> AddAll(Listed(store.sections), loadings[i..]) == AddAll(first, loadings)
    {
      var r := records[i];
      ghost var l := loadings[i];
      assert loadings[i..] == [l] + loadings[i + 1..];
      AddAllCons(Listed(store.sections), l, loadings[i + 1..]);
      assert RecordHolds(buf[..], r, l);
      var title := SectionName(buf, r.section, l.section, buf.Length);
      if r.place.HeaderAt? {
        var _ := store.AddEntry(title, None, "", false);
      } else {
        var key := ReadString(buf, r.place.key, l.item.key);
        var value := ReadString(buf, r.place.value, l.item.value);
        var _ := store.AddEntry(title, Some(key), value, false);
      }
      i := i + 1;
    }
    assert loadings[i..] == [];
    AddAllCons(Listed(store.sections), Loading("", Header("")), []);
  }

  /** Loads a text into a store. Strings are copied if the store has been loaded before. */
  method LoadData(store: Store, buf: array<char>, ghost text: string)
    requires store.Valid() && IsStr(buf[..], 0, text)
    modifies store, buf
    ensures store.Valid()
    ensures store.multiKey ==>
      Listed(store.sections) == AddAll(Listed(old(store.sections)), Loadings(text, "", old(store.hasData)))
    ensures store.hasData == (old(store.hasData) || text != "")
  {
    hide AfterFileComment, AddAll, Add, Listed, SectionsOk, Loadings, IsStr, RecordHolds;
    StrStarts(buf[..], 0, text);
    LoadingsBehindComment(text, "", store.hasData);
    if buf[0] == '\0' {
      NothingLoaded(store.hasData);
      AddAllCons(Listed(store.sections), Loading("", Header("")), []);
      return;
    }
    ghost var rest := if store.hasComment then text else AfterFileComment(text);
    var p := FindFileComment(store, buf, text);
    if store.hasData {
      LoadCopies(store, buf, p, rest);
    } else {
      var records := LoadPlaces(buf, p, rest);
      AddPlaces(store, buf, records, Loadings(rest, "", false));
      store.hasData := true;
    }
  }

  lemma NothingLoaded(copies: bool)
    ensures Loadings("", "", copies) == []
  {
  }
}
