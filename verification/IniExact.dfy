/** Which documents come back when they are written and loaded again. */
module IniExact {
  import opened Bytes
  import opened IniDocument
  import opened IniFile
  import opened IniPrint
  import opened IniReader
  import opened IniStays
  import opened IniText

  // ------------------------------------------------------------------ the values of a key

  function KeyValues(keys: seq<Key>, k: string): seq<string>
  {
    if keys == [] then [] else if keys[0].name == k then keys[0].values else KeyValues(keys[1..], k)
  }

  function DocValues(doc: Document, s: string, k: string): seq<string>
  {
    if doc == [] then [] else if doc[0].name == s then KeyValues(doc[0].keys, k) else DocValues(doc[1..], s, k)
  }

  function ValueOfOne(l: Loading, s: string, k: string): seq<string>
  {
    if l.section == s && l.item.Pair? && l.item.key == k then [l.item.value] else []
  }

  function ValuesOf(ls: seq<Loading>, s: string, k: string): seq<string>
  {
    if ls == [] then [] else ValueOfOne(ls[0], s, k) + ValuesOf(ls[1..], s, k)
  }

  lemma {:induction false} AddValueKeeps(keys: seq<Key>, name: string, value: string, k: string)
    ensures KeyValues(AddValue(keys, name, value), k) == KeyValues(keys, k) + if name == k then [value] else []
    decreases |keys|
  {
    if keys != [] { AddValueKeeps(keys[1..], name, value, k); }
  }

  lemma {:induction false} AddKeeps(doc: Document, l: Loading, s: string, k: string)
    ensures DocValues(Add(doc, l.section, l.item), s, k) == DocValues(doc, s, k) + ValueOfOne(l, s, k)
    decreases |doc|
  {
    hide KeyValues, AddValue;
    if doc == [] {
      NewValue(l.item, k);
    } else if doc[0].name == l.section {
      if l.item.Pair? { AddValueKeeps(doc[0].keys, l.item.key, l.item.value, k); }
    } else {
      AddKeeps(doc[1..], l, s, k);
    }
  }

  lemma NewValue(item: Item, k: string)
    ensures KeyValues([], k) == []
    ensures item.Pair? ==> KeyValues([Key(item.key, [item.value])], k) == if item.key == k then [item.value] else []
  {
  }

  /** A load gives each key the values loaded for it, in order. */
  lemma {:induction false} AddAllValues(doc: Document, ls: seq<Loading>, s: string, k: string)
    ensures DocValues(AddAll(doc, ls), s, k) == DocValues(doc, s, k) + ValuesOf(ls, s, k)
    decreases |ls|
  {
    hide Add, DocValues, ValueOfOne;
    if ls != [] {
      AddKeeps(doc, ls[0], s, k);
      AddAllValues(Add(doc, ls[0].section, ls[0].item), ls[1..], s, k);
    }
  }

  // ------------------------------------------------------------------ where two lists part

  /** A key's value in a section whose name no document that is looked at has: it holds a line break. */
  ghost predicate Stray(l: Loading)
  {
    l.item.Pair? && !NoBreak(l.section)
  }

  /** The lists agree up to a key's value: there `ls` is over, or has another value, or has gone astray. */
  ghost predicate Differs(ls: seq<Loading>, want: seq<Loading>)
    decreases |ls|
  {
    if ls != [] && want != [] && ls[0] == want[0] then Differs(ls[1..], want[1..])
    else
      || (ls != [] && Stray(ls[0]))
      || (&& want != [] && want[0].item.Pair?
          && (ls == [] || (ls[0].section == want[0].section && ls[0].item.Pair? && ls[0].item.key == want[0].item.key)))
  }

  lemma {:induction false} DiffersValues(ls: seq<Loading>, want: seq<Loading>) returns (s: string, k: string)
    requires Differs(ls, want)
    ensures ValuesOf(ls, s, k) != ValuesOf(want, s, k) || (!NoBreak(s) && ValuesOf(ls, s, k) != [])
    decreases |ls|
  {
    hide NoBreak;
    if ls != [] && want != [] && ls[0] == want[0] {
      s, k := DiffersValues(ls[1..], want[1..]);
      if ValuesOf(ls[1..], s, k) != ValuesOf(want[1..], s, k) {
        DifferBehind(ValueOfOne(ls[0], s, k), ValuesOf(ls[1..], s, k), ValuesOf(want[1..], s, k));
      }
    } else if ls != [] && Stray(ls[0]) {
      s, k := ls[0].section, ls[0].item.key;
      assert ValuesOf(ls, s, k)[0] == ls[0].item.value;
    } else {
      s, k := want[0].section, want[0].item.key;
      assert ValuesOf(want, s, k)[0] == want[0].item.value;
      if ls != [] {
        assert ValuesOf(ls, s, k)[0] == ls[0].item.value;
        assert ls[0] == Loading(s, Pair(k, ls[0].item.value)) && want[0] == Loading(s, Pair(k, want[0].item.value));
      }
    }
  }

  lemma DifferBehind(a: seq<string>, b: seq<string>, c: seq<string>)
    requires b != c
    ensures a + b != a + c
  {
    assert (a + b)[|a|..] == b && (a + c)[|a|..] == c;
  }

  lemma DiffersCons(l: Loading, ls: seq<Loading>, want: seq<Loading>)
    requires Differs(ls, want)
    ensures Differs([l] + ls, [l] + want)
  {
    assert ([l] + ls)[1..] == ls && ([l] + want)[1..] == want;
  }

  lemma {:induction false} DiffersBehind(front: seq<Loading>, ls: seq<Loading>, want: seq<Loading>)
    requires Differs(ls, want)
    ensures Differs(front + ls, front + want)
    decreases |front|
  {
    if front == [] {
      assert front + ls == ls && front + want == want;
    } else {
      DiffersBehind(front[1..], ls, want);
      DiffersCons(front[0], front[1..] + ls, front[1..] + want);
      assert [front[0]] + (front[1..] + ls) == front + ls && [front[0]] + (front[1..] + want) == front + want;
    }
  }

  lemma {:induction false} NoSection(doc: Document, s: string, k: string)
    requires forall i :: 0 <= i < |doc| ==> doc[i].name != s
    ensures DocValues(doc, s, k) == []
    decreases |doc|
  {
    if doc != [] { NoSection(doc[1..], s, k); }
  }

  /** Such lists make different documents. */
  lemma DiffersLost(doc: Document, ls: seq<Loading>, want: seq<Loading>)
    requires Differs(ls, want) && AddAll([], want) == doc && forall i :: 0 <= i < |doc| ==> NoBreak(doc[i].name)
    ensures AddAll([], ls) != doc
  {
    hide Differs, ValuesOf, AddAll, DocValues, NoBreak;
    var s, k := DiffersValues(ls, want);
    AddAllValues([], ls, s, k);
    AddAllValues([], want, s, k);
    NoValues(s, k);
    assert [] + ValuesOf(ls, s, k) == ValuesOf(ls, s, k) && [] + ValuesOf(want, s, k) == ValuesOf(want, s, k);
    if !NoBreak(s) { NoSection(doc, s, k); }
  }

  lemma NoValues(s: string, k: string)
    ensures DocValues([], s, k) == []
  {
  }

  /** The items of a document with their sections. */
  function Tagged(items: seq<Item>, section: string): seq<Loading>
    decreases |items|
  {
    if items == [] then []
    else
      var name := if items[0].Header? then items[0].name else section;
      [Loading(name, items[0])] + Tagged(items[1..], name)
  }

  lemma {:induction false} TaggedBuilds(doc: Document, section: string, items: seq<Item>)
    ensures AddAll(doc, Tagged(items, section)) == Build(doc, section, items)
    decreases |items|
  {
    hide Add;
    if items != [] {
      var name := if items[0].Header? then items[0].name else section;
      TaggedBuilds(Add(doc, name, items[0]), name, items[1..]);
      AddAllCons(doc, Loading(name, items[0]), Tagged(items[1..], name));
    }
  }

  lemma TaggedCons(item: Item, items: seq<Item>, section: string)
    ensures (var name := if item.Header? then item.name else section;
             Tagged([item] + items, section) == [Loading(name, item)] + Tagged(items, name))
  {
    assert ([item] + items)[1..] == items;
  }

  lemma {:induction false} TaggedConcat(a: seq<Item>, b: seq<Item>, section: string)
    requires forall i :: 0 <= i < |a| ==> a[i].Pair?
    ensures Tagged(a + b, section) == Tagged(a, section) + Tagged(b, section)
    decreases |a|
  {
    if a == [] {
      assert a + b == b;
    } else {
      assert a + b == [a[0]] + (a[1..] + b);
      TaggedCons(a[0], a[1..] + b, section);
      TaggedConcat(a[1..], b, section);
    }
  }

  // ------------------------------------------------------------------ the values that come back

  /** Does a written value come back? On a first load one that stays does too; a header left open in it must not have
      an entry behind it. */
  ghost predicate Survives(v: string, copies: bool, last: bool)
  {
    ValueOk(v) || (!copies && Stays(v) && (last || OpenName(AfterLine(v)) == None))
  }

  ghost predicate ValuesSurvive(values: seq<string>, copies: bool, last: bool)
  {
    forall j :: 0 <= j < |values| ==> Survives(values[j], copies, last && j == |values| - 1)
  }

  ghost predicate KeysSurvive(keys: seq<Key>, copies: bool)
  {
    forall i :: 0 <= i < |keys| ==> ValuesSurvive(keys[i].values, copies, i == |keys| - 1)
  }

  predicate StartsWithPair(t: string)
  {
    FindEntry(t).Found? && FindEntry(t).item.Pair?
  }

  predicate StartsWithHeader(t: string)
  {
    FindEntry(t).Found? && FindEntry(t).item.Header?
  }

  /** A written entry: it is loaded as it was, or the lists part. What follows starts with an entry of the same section,
      which may be lost, if the entry is not the `last` one, and with none if it is. */
  lemma PairMatches(key: string, v: string, rest: string, last: bool, section: string, items: seq<Item>, copies: bool)
    requires KeyOk(key) && NoBreak(section) && (TakesMore(v) ==> !(TAG_MARK <= rest))
    requires if last then !StartsWithPair(rest) else !StartsWithHeader(rest) && items != [] && items[0].Pair?
    ensures (var ls := Loadings(PrintPair(key, v) + rest, section, copies);
             if Survives(v, copies, last) then ls == [Loading(section, Pair(key, v))] + Loadings(rest, section, copies)
             else Differs(ls, Tagged([Pair(key, v)] + items, section)))
  {
    hide PrintPair, PrintValue, ValueOk, Stays, KeyOk, TakesMore, Loadings, Tagged, ReadValue, ValueRunsOn, RunOn;
    hide FindEntry, OpenName, EndsInComment, Tail, AfterLine;
    PairLoads(key, v, rest, section, copies);
    TaggedCons(Pair(key, v), items, section);
    if ValueOk(v) {
      ValueReads(v, rest);
    } else if copies || !Stays(v) {
      ValueLost(v, rest, copies);
    } else {
      StaysReads(v, rest);
      StaysBehind(v);
      LoadsBehind(AfterLine(v), rest, section, copies);
      if !last && OpenName(AfterLine(v)) != None {
        NothingLoadedFrom(rest, section, copies);
        FirstWanted(items, section);
        DiffersCons(Loading(section, Pair(key, v)), Loadings(AfterLine(v) + Tail(rest), section, copies),
                    Tagged(items, section));
      }
    }
  }

  lemma StaysBehind(v: string)
    requires Stays(v)
    ensures EndsInComment(AfterLine(v))
  {
  }

  lemma FirstWanted(items: seq<Item>, section: string)
    requires items != [] && items[0].Pair?
    ensures (var want := Tagged(items, section);
             want != [] && want[0] == Loading(section, items[0]))
  {
  }

  lemma NothingLoadedFrom(t: string, section: string, copies: bool)
    ensures FindEntry(t) == End ==> Loadings(t, section, copies) == []
  {
    hide FindEntry, OpenName, RunsOn;
    LoadingsUnfold(t, section, copies);
  }

  ghost predicate NoneTakesMore(values: seq<string>)
  {
    forall j :: 0 <= j < |values| ==> !TakesMore(values[j])
  }

  lemma {:induction false} ValuesMatch(key: string, values: seq<string>, rest: string, last: bool, section: string,
                                       items: seq<Item>, copies: bool)
    requires KeyOk(key) && NoBreak(section) && (TAG_MARK <= rest || TAG_MARK <= key ==> NoneTakesMore(values))
    requires if last then !StartsWithPair(rest) else !StartsWithHeader(rest) && items != [] && items[0].Pair?
    ensures (var ls := Loadings(PrintValues(key, values) + rest, section, copies);
             if ValuesSurvive(values, copies, last)
             then ls == Tagged(ValueItems(key, values), section) + Loadings(rest, section, copies)
             else Differs(ls, Tagged(ValueItems(key, values) + items, section)))
    decreases |values|
  {
    hide PrintPair, KeyOk, TakesMore, Loadings, Tagged, Differs, Survives, FindEntry, ValuesSurvive, NoBreak;
    hide PrintValues, ValueItems, StartsWithPair, StartsWithHeader;
    if values == [] {
      NoValuesPrinted(key, rest, items);
      NothingTagged(section);
      NoneSurvive(copies, last);
    } else {
      var (v, others) := (values[0], values[1..]);
      var (more, itemsOfMore) := (PrintValues(key, others) + rest, ValueItems(key, others) + items);
      var last' := last && others == [];
      assert values == [v] + others;
      ValuesCons(key, v, others, rest, items);
      if others == [] { NoValuesPrinted(key, rest, items); } else { ValuesGoOn(key, others, items); }
      ValuesStart(key, others, rest);
      PairMatches(key, v, more, last', section, itemsOfMore, copies);
      TaggedCons(Pair(key, v), itemsOfMore, section);
      TaggedCons(Pair(key, v), ValueItems(key, others), section);
      ValuesMatch(key, others, rest, last, section, items, copies);
      SurviveCons(values, copies, last);
      if Survives(v, copies, last') && !ValuesSurvive(others, copies, last) {
        DiffersCons(Loading(section, Pair(key, v)), Loadings(more, section, copies), Tagged(itemsOfMore, section));
      }
    }
  }

  lemma NoValuesPrinted(key: string, rest: string, items: seq<Item>)
    ensures PrintValues(key, []) + rest == rest && ValueItems(key, []) == [] && ValueItems(key, []) + items == items
  {
  }

  /** Values one by one: their text and their items. */
  lemma ValuesCons(key: string, v: string, others: seq<string>, rest: string, items: seq<Item>)
    ensures PrintValues(key, [v] + others) + rest == PrintPair(key, v) + (PrintValues(key, others) + rest)
    ensures ValueItems(key, [v] + others) == [Pair(key, v)] + ValueItems(key, others)
    ensures ValueItems(key, [v] + others) + items == [Pair(key, v)] + (ValueItems(key, others) + items)
  {
    hide PrintPair;
    assert ([v] + others)[1..] == others;
    Associate(PrintPair(key, v), PrintValues(key, others), rest);
    assert [Pair(key, v)] + ValueItems(key, others) + items == [Pair(key, v)] + (ValueItems(key, others) + items);
  }

  lemma ValuesGoOn(key: string, values: seq<string>, items: seq<Item>)
    requires values != []
    ensures ValueItems(key, values) + items != [] && (ValueItems(key, values) + items)[0].Pair?
  {
  }

  lemma NothingTagged(section: string)
    ensures Tagged([], section) == []
  {
  }

  lemma NoneSurvive(copies: bool, last: bool)
    ensures ValuesSurvive([], copies, last)
  {
  }

  lemma SurviveCons(values: seq<string>, copies: bool, last: bool)
    requires values != []
    ensures ValuesSurvive(values, copies, last)
       <==> Survives(values[0], copies, last && values[1..] == []) && ValuesSurvive(values[1..], copies, last)
  {
    hide Survives;
    assert forall j :: 0 < j < |values| ==> values[j] == values[1..][j - 1];
  }

  /** Values start with an entry, found or not, and with their key. */
  lemma ValuesStart(key: string, values: seq<string>, rest: string)
    requires KeyOk(key)
    ensures values != [] ==> !StartsWithHeader(PrintValues(key, values) + rest)
    ensures values != [] && TAG_MARK <= PrintValues(key, values) + rest ==> TAG_MARK <= key
  {
    hide PrintValue, FindEntry, PrintPair, Loadings, KeyOk;
    if values != [] {
      var more := PrintValues(key, values[1..]) + rest;
      Associate(PrintPair(key, values[0]), PrintValues(key, values[1..]), rest);
      PairLoads(key, values[0], more, "", true);
      MarkInKey(key, values[0], more);
    }
  }

  /** The mark does not reach past a key. */
  lemma MarkInKey(key: string, v: string, rest: string)
    ensures TAG_MARK <= PrintPair(key, v) + rest ==> TAG_MARK <= key
  {
    hide PrintValue;
    var t := PrintPair(key, v) + rest;
    assert t[..|key|] == key && t[|key|] == ' ';
    if TAG_MARK <= t {
      assert t[0] == t[1] == t[2] == '<' && |key| >= 3;
      assert key[..3] == t[..3];
    }
  }

  /** No section has both a value that takes in what follows it and a key that looks like one. */
  ghost predicate Tame(keys: seq<Key>)
  {
    forall i, m :: 0 <= i < |keys| && 0 <= m < |keys| && TAG_MARK <= keys[m].name ==> NoneTakesMore(keys[i].values)
  }

  ghost predicate NamesOk(keys: seq<Key>)
  {
    forall i :: 0 <= i < |keys| ==> KeyOk(keys[i].name)
  }

  lemma {:induction false} KeysMatch(keys: seq<Key>, rest: string, section: string, items: seq<Item>, copies: bool)
    requires NamesOk(keys) && KeysShaped(keys) && Tame(keys) && NoBreak(section)
    requires !StartsWithPair(rest) && !(TAG_MARK <= rest)
    ensures (var ls := Loadings(PrintKeys(keys) + rest, section, copies);
             if KeysSurvive(keys, copies) then ls == Tagged(KeyItems(keys), section) + Loadings(rest, section, copies)
             else Differs(ls, Tagged(KeyItems(keys) + items, section)))
    decreases |keys|
  {
    hide PrintValues, ValueItems, KeyOk, NoneTakesMore, Loadings, Tagged, Differs, ValuesSurvive, FindEntry, NoBreak;
    if keys == [] {
      assert "" + rest == rest;
      NothingTagged(section);
    } else {
      var (k, others) := (keys[0], keys[1..]);
      var (more, itemsOfMore) := (PrintKeys(others) + rest, KeyItems(others) + items);
      var mine := ValueItems(k.name, k.values);
      Associate(PrintValues(k.name, k.values), PrintKeys(others), rest);
      assert KeyItems(keys) + items == mine + itemsOfMore;
      KeysStart(others, rest, items);
      ValuesMatch(k.name, k.values, more, others == [], section, itemsOfMore, copies);
      KeysMatch(others, rest, section, items, copies);
      ItemsArePairs(k.name, k.values);
      TaggedConcat(mine, itemsOfMore, section);
      TaggedConcat(mine, KeyItems(others), section);
      KeysSurviveCons(keys, copies);
      if ValuesSurvive(k.values, copies, others == []) && !KeysSurvive(others, copies) {
        DiffersBehind(Tagged(mine, section), Loadings(more, section, copies), Tagged(itemsOfMore, section));
      }
    }
  }

  lemma KeysSurviveCons(keys: seq<Key>, copies: bool)
    requires keys != []
    ensures KeysSurvive(keys, copies)
       <==> ValuesSurvive(keys[0].values, copies, keys[1..] == []) && KeysSurvive(keys[1..], copies)
  {
    hide ValuesSurvive;
    assert forall i :: 0 < i < |keys| ==> keys[i] == keys[1..][i - 1];
  }

  lemma {:induction false} ItemsArePairs(key: string, values: seq<string>)
    ensures forall i :: 0 <= i < |ValueItems(key, values)| ==> ValueItems(key, values)[i].Pair?
    decreases |values|
  {
    if values != [] { ItemsArePairs(key, values[1..]); }
  }

  /** What keys start with. */
  lemma KeysStart(keys: seq<Key>, rest: string, items: seq<Item>)
    requires NamesOk(keys) && KeysShaped(keys)
    ensures keys != [] ==> !StartsWithHeader(PrintKeys(keys) + rest)
    ensures keys != [] ==> KeyItems(keys) + items != [] && (KeyItems(keys) + items)[0].Pair?
    ensures keys != [] && TAG_MARK <= PrintKeys(keys) + rest ==> TAG_MARK <= keys[0].name
    ensures keys == [] ==> PrintKeys(keys) + rest == rest && KeyItems(keys) + items == items
  {
    hide PrintValues, KeyOk, FindEntry;
    if keys != [] {
      var k := keys[0];
      Associate(PrintValues(k.name, k.values), PrintKeys(keys[1..]), rest);
      ValuesStart(k.name, k.values, PrintKeys(keys[1..]) + rest);
      assert KeyItems(keys)[0] == Pair(k.name, k.values[0]);
    }
  }

  // ------------------------------------------------------------------ whole documents

  /** Sections each once, the nameless one only in front, names without line breaks; keys each once and with values, and
      tame. */
  ghost predicate Arranged(doc: Document)
  {
    && (forall i :: 0 <= i < |doc| ==> KeysShaped(doc[i].keys) && Tame(doc[i].keys))
    && (forall i :: 0 <= i < |doc| ==> NoBreak(doc[i].name) && (doc[i].name == "" ==> i == 0))
    && (forall i, j :: 0 <= i < j < |doc| ==> doc[i].name != doc[j].name)
  }

  ghost predicate SectionNamesOk(s: Section)
  {
    (if s.name == "" then s.keys != [] else SectionOk(s.name)) && NamesOk(s.keys)
  }

  ghost predicate DocNamesOk(doc: Document)
  {
    forall i :: 0 <= i < |doc| ==> SectionNamesOk(doc[i])
  }

  ghost predicate DocSurvives(doc: Document, copies: bool)
  {
    forall i :: 0 <= i < |doc| ==> KeysSurvive(doc[i].keys, copies)
  }

  /** A document that comes back: its names can be read, a nameless section has keys, and its values survive. */
  ghost predicate ComesBack(doc: Document, copies: bool)
  {
    DocNamesOk(doc) && DocSurvives(doc, copies)
  }

  lemma LoadingsSkip(c: char, t: string, section: string, copies: bool)
    requires IsSpace(c)
    ensures Loadings([c] + t, section, copies) == Loadings(t, section, copies)
  {
    hide FindEntry, OpenName, RunsOn, Shown, RunOn;
    SpacesDoNotMatter(c, t);
  }

  lemma SectionMatches(s: Section, before: string, rest: string, items: seq<Item>, copies: bool)
    requires SectionNamesOk(s) && KeysShaped(s.keys) && Tame(s.keys) && (s.name == "" ==> before == "")
    requires !StartsWithPair(rest) && !(TAG_MARK <= rest)
    ensures (var ls := Loadings(PrintSection(s) + rest, before, copies);
             if KeysSurvive(s.keys, copies)
             then Tagged(SectionItems(s) + items, before) == Tagged(SectionItems(s), before) + Tagged(items, s.name)
               && ls == Tagged(SectionItems(s), before) + Loadings(rest, s.name, copies)
             else Differs(ls, Tagged(SectionItems(s) + items, before)))
  {
    hide PrintKeys, KeyItems, PrintHeader, SectionOk, KeysSurvive, NamesOk, KeysShaped, Tame, Loadings, Tagged, Differs;
    hide FindEntry, OpenName, RunsOn;
    var (body, itemsOfBody) := (PrintKeys(s.keys) + rest, KeyItems(s.keys) + items);
    NamedHasNoBreak(s);
    KeysMatch(s.keys, rest, s.name, items, copies);
    KeyItemsArePairs(s.keys);
    TaggedConcat(KeyItems(s.keys), items, s.name);
    if s.name == "" {
      assert PrintSection(s) + rest == body && SectionItems(s) + items == itemsOfBody;
      assert SectionItems(s) == KeyItems(s.keys);
    } else {
      HeaderReads(s.name, body);
      var t := PrintHeader(s.name) + body;
      var l := Loading(s.name, Header(s.name));
      assert PrintSection(s) + rest == t && SectionItems(s) + items == [Header(s.name)] + itemsOfBody;
      LoadingsUnfold(t, before, copies);
      LoadingsSkip('\n', body, s.name, copies);
      assert ['\n'] + body == "\n" + body;
      TaggedCons(Header(s.name), itemsOfBody, before);
      TaggedCons(Header(s.name), KeyItems(s.keys), before);
      if !KeysSurvive(s.keys, copies) {
        DiffersCons(l, Loadings(body, s.name, copies), Tagged(itemsOfBody, s.name));
      }
    }
  }

  lemma NamedHasNoBreak(s: Section)
    requires SectionNamesOk(s)
    ensures NoBreak(s.name)
  {
  }

  lemma {:induction false} KeyItemsArePairs(keys: seq<Key>)
    ensures forall i :: 0 <= i < |KeyItems(keys)| ==> KeyItems(keys)[i].Pair?
    decreases |keys|
  {
    hide ValueItems;
    if keys != [] {
      ItemsArePairs(keys[0].name, keys[0].values);
      KeyItemsArePairs(keys[1..]);
    }
  }

  /** Behind a section the text is over or goes on with a header. */
  lemma MoreStarts(doc: Document)
    requires forall i :: 0 <= i < |doc| ==> doc[i].name != "" && SectionOk(doc[i].name)
    ensures !StartsWithPair(PrintMore(doc)) && !(TAG_MARK <= PrintMore(doc))
  {
    hide FindEntry, SectionOk, PrintHeader, OpenName, RunsOn, PrintKeys, PrintMore, PrintSection;
    if doc == [] {
      NothingInNothing();
      NothingPrinted();
    } else {
      var body := PrintKeys(doc[0].keys) + PrintMore(doc[1..]);
      var t := PrintHeader(doc[0].name) + body;
      MorePrints(doc);
      NamedPrints(doc[0], PrintMore(doc[1..]));
      assert PrintMore(doc)[0] == '\n';
      SpacesDoNotMatter('\n', ['\n'] + t);
      SpacesDoNotMatter('\n', t);
      HeaderReads(doc[0].name, body);
    }
  }

  lemma NothingPrinted()
    ensures PrintMore([]) == ""
  {
  }

  lemma NamedPrints(s: Section, rest: string)
    requires s.name != ""
    ensures PrintSection(s) + rest == PrintHeader(s.name) + (PrintKeys(s.keys) + rest)
  {
    hide PrintHeader, PrintKeys;
  }

  lemma MorePrints(doc: Document)
    requires doc != []
    ensures PrintMore(doc) == ['\n'] + (['\n'] + (PrintSection(doc[0]) + PrintMore(doc[1..])))
  {
    hide PrintSection;
  }

  lemma {:induction false} MoreMatches(doc: Document, before: string, copies: bool)
    requires DocNamesOk(doc) && forall i :: 0 <= i < |doc| ==>
      doc[i].name != "" && KeysShaped(doc[i].keys) && Tame(doc[i].keys)
    ensures (var (ls, want) := (Loadings(PrintMore(doc), before, copies), Tagged(DocumentItems(doc), before));
             if DocSurvives(doc, copies) then ls == want else Differs(ls, want))
    decreases |doc|
  {
    hide PrintSection, SectionItems, KeysSurvive, KeysShaped, Tame, NamesOk, SectionOk, Loadings, Tagged, Differs;
    hide FindEntry;
    if doc == [] {
      NothingLoaded(copies);
      NoneLoaded(before, copies);
      NothingTagged(before);
    } else {
      var (s, others) := (doc[0], doc[1..]);
      var t := PrintSection(s) + PrintMore(others);
      MorePrints(doc);
      LoadingsSkip('\n', ['\n'] + t, before, copies);
      LoadingsSkip('\n', t, before, copies);
      assert DocNamesOk(others) && SectionNamesOk(s);
      MoreStarts(others);
      MoreMatches(others, s.name, copies);
      SectionMatches(s, before, PrintMore(others), DocumentItems(others), copies);
      DocSurvivesCons(doc, copies);
      if KeysSurvive(s.keys, copies) && !DocSurvives(others, copies) {
        DiffersBehind(Tagged(SectionItems(s), before), Loadings(PrintMore(others), s.name, copies),
                      Tagged(DocumentItems(others), s.name));
      }
    }
  }

  lemma NoneLoaded(section: string, copies: bool)
    ensures Loadings("", section, copies) == []
  {
  }

  lemma DocSurvivesCons(doc: Document, copies: bool)
    requires doc != []
    ensures DocSurvives(doc, copies) <==> KeysSurvive(doc[0].keys, copies) && DocSurvives(doc[1..], copies)
  {
    hide KeysSurvive;
    assert forall i :: 0 < i < |doc| ==> doc[i] == doc[1..][i - 1];
  }

  /** The text of a document with names that can be read is loaded as its items, or the lists part. */
  lemma DocumentMatches(doc: Document, copies: bool)
    requires Arranged(doc) && DocNamesOk(doc)
    ensures (var (ls, want) := (Loadings(Print(doc), "", copies), Tagged(DocumentItems(doc), ""));
             if DocSurvives(doc, copies) then ls == want else Differs(ls, want))
  {
    hide PrintSection, SectionItems, KeysSurvive, KeysShaped, Tame, NamesOk, SectionOk, Loadings, Tagged, Differs;
    hide FindEntry, NoBreak;
    if doc == [] {
      NoneLoaded("", copies);
      NothingTagged("");
    } else {
      var (s, others) := (doc[0], doc[1..]);
      assert DocNamesOk(others) && SectionNamesOk(s);
      MoreStarts(others);
      MoreMatches(others, s.name, copies);
      SectionMatches(s, "", PrintMore(others), DocumentItems(others), copies);
      DocSurvivesCons(doc, copies);
      if KeysSurvive(s.keys, copies) && !DocSurvives(others, copies) {
        DiffersBehind(Tagged(SectionItems(s), ""), Loadings(PrintMore(others), s.name, copies),
                      Tagged(DocumentItems(others), s.name));
      }
    }
  }

  // ------------------------------------------------------------------ names that are lost

  /** The section names that a load can give. */
  ghost predicate NameLoaded(name: string)
  {
    name == "" || SectionOk(name) || !NoBreak(name)
  }

  lemma {:induction false} NamesLoaded(t: string, section: string, copies: bool)
    requires NameLoaded(section)
    ensures (var ls := Loadings(t, section, copies);
             forall i :: 0 <= i < |ls| ==> NameLoaded(ls[i].section))
    decreases |t|
  {
    hide FindEntry, OpenName, RunsOn, SectionOk, NoBreak, Loadings, RunOn;
    LoadingsUnfold(t, section, copies);
    var e := FindEntry(t);
    if e.Found? {
      FoundIsParseable(t);
      if OpenName(t) != None { OpenNameBreaks(t); }
      NamesLoaded(e.rest, SectionOf(t, e.item, section), copies);
    }
  }

  lemma {:induction false} AddNames(doc: Document, section: string, item: Item)
    requires NameLoaded(section) && forall i :: 0 <= i < |doc| ==> NameLoaded(doc[i].name)
    ensures forall i :: 0 <= i < |Add(doc, section, item)| ==> NameLoaded(Add(doc, section, item)[i].name)
    decreases |doc|
  {
    hide NameLoaded, AddValue;
    if doc != [] { AddNames(doc[1..], section, item); }
  }

  lemma {:induction false} AddAllNames(doc: Document, ls: seq<Loading>)
    requires forall i :: 0 <= i < |doc| ==> NameLoaded(doc[i].name)
    requires forall i :: 0 <= i < |ls| ==> NameLoaded(ls[i].section)
    ensures forall i :: 0 <= i < |AddAll(doc, ls)| ==> NameLoaded(AddAll(doc, ls)[i].name)
    decreases |ls|
  {
    hide NameLoaded, Add;
    if ls != [] {
      AddNames(doc, ls[0].section, ls[0].item);
      AddAllNames(Add(doc, ls[0].section, ls[0].item), ls[1..]);
    }
  }

  lemma {:induction false} KeyOfValues(ls: seq<Loading>, s: string, k: string)
    requires forall i :: 0 <= i < |ls| && ls[i].item.Pair? ==> KeyOk(ls[i].item.key)
    requires ValuesOf(ls, s, k) != []
    ensures KeyOk(k)
    decreases |ls|
  {
    hide KeyOk;
    if ValueOfOne(ls[0], s, k) == [] { KeyOfValues(ls[1..], s, k); }
  }

  lemma {:induction false} KeyValuesAt(keys: seq<Key>, j: nat)
    requires KeysShaped(keys) && j < |keys|
    ensures KeyValues(keys, keys[j].name) == keys[j].values
    decreases |keys|
  {
    if j > 0 { KeyValuesAt(keys[1..], j - 1); }
  }

  lemma {:induction false} DocValuesAt(doc: Document, i: nat, k: string)
    requires i < |doc| && forall a, b :: 0 <= a < b < |doc| ==> doc[a].name != doc[b].name
    ensures DocValues(doc, doc[i].name, k) == KeyValues(doc[i].keys, k)
    decreases |doc|
  {
    if i > 0 { DocValuesAt(doc[1..], i - 1, k); }
  }

  /** The names of a loaded document are such that could be written. */
  lemma LoadedNamesOk(doc: Document, t: string, copies: bool)
    requires Arranged(doc) && AddAll([], Loadings(t, "", copies)) == doc
    ensures forall i :: 0 <= i < |doc| ==> NamesOk(doc[i].keys) && (doc[i].name == "" || SectionOk(doc[i].name))
  {
    hide KeyOk, Loadings, SectionOk, Tame, DocValues, KeyValues, ValuesOf, AddAll, NoBreak;
    var ls := Loadings(t, "", copies);
    KeysLoaded(t, "", copies);
    NamesLoaded(t, "", copies);
    AddAllNames([], ls);
    forall i, j | 0 <= i < |doc| && 0 <= j < |doc[i].keys|
      ensures KeyOk(doc[i].keys[j].name)
    {
      var k := doc[i].keys[j].name;
      KeyValuesAt(doc[i].keys, j);
      DocValuesAt(doc, i, k);
      AddAllValues([], ls, doc[i].name, k);
      NoValues(doc[i].name, k);
      KeyOfValues(ls, doc[i].name, k);
    }
  }

  lemma {:induction false} FirstStays(doc: Document, ls: seq<Loading>)
    requires doc != []
    ensures AddAll(doc, ls) != [] && AddAll(doc, ls)[0].name == doc[0].name
    decreases |ls|
  {
    hide AddValue;
    if ls != [] { FirstStays(Add(doc, ls[0].section, ls[0].item), ls[1..]); }
  }

  /** Text that starts with a section gives a document that does. */
  lemma SectionFirst(s: Section, rest: string, copies: bool)
    requires s.name != "" && SectionOk(s.name)
    ensures (var doc := AddAll([], Loadings(PrintSection(s) + rest, "", copies));
             doc != [] && doc[0].name == s.name)
  {
    hide PrintHeader, PrintKeys, SectionOk, Loadings, FindEntry, OpenName, RunsOn, AddAll;
    var body := PrintKeys(s.keys) + rest;
    var t := PrintHeader(s.name) + body;
    var (l, more) := (Loading(s.name, Header(s.name)), Loadings("\n" + body, s.name, copies));
    assert PrintSection(s) + rest == t;
    HeaderReads(s.name, body);
    LoadingsUnfold(t, "", copies);
    AddAllCons([], l, more);
    FirstStays(Add([], s.name, Header(s.name)), more);
  }

  /** A nameless section without keys leaves no trace in the text. */
  lemma EmptyNamelessLost(doc: Document, copies: bool)
    requires doc != [] && doc[0].name == "" && doc[0].keys == []
    requires |doc| > 1 ==> doc[1].name != "" && SectionOk(doc[1].name)
    ensures AddAll([], Loadings(Print(doc), "", copies)) != doc
  {
    hide Print, PrintMore, PrintSection, SectionOk, Loadings, AddAll;
    EmptyPrints(doc);
    if |doc| == 1 {
      NothingLoaded(copies);
      AddAllCons([], Loading("", Header("")), []);
    } else {
      var t := PrintSection(doc[1]) + PrintMore(doc[2..]);
      MorePrints(doc[1..]);
      assert doc[1..][1..] == doc[2..];
      LoadingsSkip('\n', ['\n'] + t, "", copies);
      LoadingsSkip('\n', t, "", copies);
      SectionFirst(doc[1], PrintMore(doc[2..]), copies);
    }
  }

  lemma EmptyPrints(doc: Document)
    requires doc != [] && doc[0].name == "" && doc[0].keys == []
    ensures Print(doc) == PrintMore(doc[1..])
    ensures |doc| == 1 ==> Print(doc) == ""
  {
  }

  // ------------------------------------------------------------------ exactly what comes back

  /** A document comes back whole, from a first load as from a later one, exactly if its names can be read, a nameless
      section has keys, and its values survive such a load. */
  lemma DocumentExactly(doc: Document, copies: bool)
    requires Arranged(doc)
    ensures AddAll([], Loadings(Print(doc), "", copies)) == doc <==> ComesBack(doc, copies)
  {
    hide Shaped, Print, Loadings, AddAll, DocSurvives, NamesOk, SectionOk, Tame, KeysShaped, NoBreak, Tagged;
    hide DocumentItems, Differs, Build;
    var (ls, want) := (Loadings(Print(doc), "", copies), Tagged(DocumentItems(doc), ""));
    if AddAll([], ls) == doc {
      LoadedNamesOk(doc, Print(doc), copies);
      if doc != [] && doc[0].name == "" && doc[0].keys == [] { EmptyNamelessLost(doc, copies); }
      assert DocNamesOk(doc);
    }
    if DocNamesOk(doc) {
      DocumentMatches(doc, copies);
      NamedIsShaped(doc);
      assert [] + doc == doc;
      BuildDocument([], "", doc);
      TaggedBuilds([], "", DocumentItems(doc));
      if !DocSurvives(doc, copies) { DiffersLost(doc, ls, want); }
    }
  }

  lemma NamedIsShaped(doc: Document)
    requires Arranged(doc) && DocNamesOk(doc)
    ensures Shaped(doc)
  {
    hide KeysShaped, SectionOk, Tame, NamesOk, NoBreak;
    forall i | 0 <= i < |doc|
      ensures KeysShaped(doc[i].keys) && (doc[i].name == "" ==> i == 0 && doc[i].keys != [])
    {
      assert SectionNamesOk(doc[i]);
    }
  }

  /** For loads that copy strings that is what can be written. */
  lemma ComesBackCopied(doc: Document)
    requires Arranged(doc)
    ensures ComesBack(doc, true) <==> Writable(doc)
  {
    hide KeyOk, ValueOk, SectionOk, Tame, NoBreak;
    forall i | 0 <= i < |doc|
      ensures OneSectionOk(doc[i]) <==> SectionNamesOk(doc[i]) && KeysSurvive(doc[i].keys, true)
    {
      var keys := doc[i].keys;
      assert KeysShaped(keys);
      assert forall j :: 0 <= j < |keys| ==>
        (OneKeyOk(keys[j]) <==> KeyOk(keys[j].name) && ValuesSurvive(keys[j].values, true, j == |keys| - 1));
    }
  }

  // ------------------------------------------------------------------ what a first load keeps besides

  const STAYING := END_TAG + "\n" + ";c"

  /** Its value's body ends at its own first line, and a comment ends where the value does. */
  const KEPT := [Section("", [Key("k", [STAYING])])]

  lemma StayingStays()
    ensures Stays(STAYING) && !ValueOk(STAYING) && !TakesMore(STAYING)
  {
    hide LineEnd, AfterLine, StripTag;
    EndTagIsTag();
    LineOf(END_TAG, ";c");
    LineAlone();
    assert SkipSpaces(";c") == ";c";
    assert STAYING[|END_TAG|] == '\n' && IsNewLine(STAYING[|END_TAG|]) && LineFeed(STAYING) == |END_TAG|;
    assert SplitLines(STAYING)[0] == END_TAG;
  }

  lemma LineAlone()
    ensures LineEnd(";c") == 2
  {
    assert ";c"[1..] == "c" && "c"[1..] == "";
  }

  /** So more comes back from a first load than can be written. */
  lemma FirstLoadKeepsMore()
    ensures Arranged(KEPT) && !Writable(KEPT)
    ensures AddAll([], Loadings(Print(KEPT), "", false)) == KEPT
  {
    hide Stays, ValueOk, TakesMore, Loadings, Print, AddAll;
    StayingStays();
    var s := KEPT[0];
    assert s.keys[0].values[0] == STAYING;
    assert OneSectionOk(s) ==> OneKeyOk(s.keys[0]);
    assert SectionNamesOk(s) && KeysSurvive(s.keys, false);
    DocumentExactly(KEPT, false);
  }
}
