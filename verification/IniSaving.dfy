/** Saving a store, and loading what was saved into an empty one. */
module IniSaving {
  import opened IniDocument
  import opened IniEntries
  import opened IniExact
  import opened IniFile
  import opened IniLines
  import opened IniListing
  import opened IniLoading
  import opened IniOrder
  import opened IniPrint
  import opened IniStore
  import opened IniText

  // ------------------------------------------------------------------ saving

  /** Where the nameless section stands in a list, or the list's end. */
  function NamelessAt(stamps: seq<Stamp>): (i: nat)
    ensures i <= |stamps| && (i < |stamps| ==> stamps[i].name == "")
    ensures forall j :: 0 <= j < i ==> stamps[j].name != ""
  {
    if stamps == [] || stamps[0].name == "" then 0 else 1 + NamelessAt(stamps[1..])
  }

  /** A document whose nameless section, if it has one, comes first. */
  function NamelessFirst(doc: Document): Document
  {
    if doc == [] || doc[0].name == "" then doc
    else
      var more := NamelessFirst(doc[1..]);
      if more != [] && more[0].name == "" then [more[0], doc[0]] + more[1..] else doc
  }

  function NamelessStampFirst(stamps: seq<Stamp>): seq<Stamp>
  {
    if stamps == [] || stamps[0].name == "" then stamps
    else
      var more := NamelessStampFirst(stamps[1..]);
      if more != [] && more[0].name == "" then [more[0], stamps[0]] + more[1..] else stamps
  }

  /** Splicing the nameless section to the front. */
  function Spliced(stamps: seq<Stamp>, i: nat): seq<Stamp>
    requires i < |stamps|
  {
    [stamps[i]] + (stamps[..i] + stamps[i + 1..])
  }

  lemma SplicedFurther(stamps: seq<Stamp>, i: nat)
    requires i + 1 < |stamps|
    ensures (var more := Spliced(stamps[1..], i);
             Spliced(stamps, i + 1) == [more[0], stamps[0]] + more[1..])
  {
    var rest := stamps[1..];
    assert stamps[..i + 1] == [stamps[0]] + rest[..i];
    assert stamps[i + 2..] == rest[i + 1..];
  }

  lemma {:induction false} SplicedIs(stamps: seq<Stamp>)
    ensures (var i := NamelessAt(stamps);
             NamelessStampFirst(stamps) == if i == |stamps| then stamps else Spliced(stamps, i))
    ensures NamelessAt(stamps) == |stamps| && stamps != [] ==> stamps[0].name != ""
    decreases |stamps|
  {
    hide Spliced;
    if stamps != [] {
      SplicedIs(stamps[1..]);
      var i := NamelessAt(stamps[1..]);
      if stamps[0].name == "" {
        SplicedNow(stamps);
      } else if i < |stamps[1..]| {
        SplicedFurther(stamps, i);
        SplicedStarts(stamps[1..], i);
      }
    }
  }

  lemma SplicedNow(stamps: seq<Stamp>)
    requires stamps != []
    ensures Spliced(stamps, 0) == stamps
  {
  }

  lemma SplicedStarts(stamps: seq<Stamp>, i: nat)
    requires i < |stamps|
    ensures |Spliced(stamps, i)| == |stamps| && Spliced(stamps, i)[0] == stamps[i]
  {
  }

  lemma ListCons(stamps: seq<Stamp>, sections: seq<SectionEntry>)
    requires stamps != []
    ensures (var doc := ListSections(stamps, sections);
             && doc != [] && doc[0].name == stamps[0].name
             && doc == [doc[0]] + ListSections(stamps[1..], sections)
             && ListSections([stamps[0]], sections) == [doc[0]])
  {
    hide SectionItem, KeysOf;
  }

  lemma {:induction false} NamelessMoved(stamps: seq<Stamp>, sections: seq<SectionEntry>)
    ensures ListSections(NamelessStampFirst(stamps), sections) == NamelessFirst(ListSections(stamps, sections))
    decreases |stamps|
  {
    hide ListSections;
    ListSectionsNames(stamps, sections);
    if stamps != [] && stamps[0].name != "" {
      ListCons(stamps, sections);
      NamelessMoved(stamps[1..], sections);
      var more := NamelessStampFirst(stamps[1..]);
      ListSectionsNames(more, sections);
      if more != [] && more[0].name == "" {
        ListCons(more, sections);
        ListSectionsConcat([more[0]], [stamps[0]], sections);
        ListSectionsConcat([more[0], stamps[0]], more[1..], sections);
        assert [more[0]] + [stamps[0]] == [more[0], stamps[0]];
      } else {
        ListSectionsConcat([stamps[0]], more, sections);
        assert [stamps[0]] + stamps[1..] == stamps;
      }
    }
  }

  lemma {:induction false} PrintValuesSnoc(key: string, values: seq<string>, v: string)
    ensures PrintValues(key, values + [v]) == PrintValues(key, values) + PrintPair(key, v)
    decreases |values|
  {
    hide PrintPair;
    if values == [] {
      assert values + [v] == [v] && [v][1..] == [];
      assert PrintValues(key, []) == "";
    } else {
      assert (values + [v])[1..] == values[1..] + [v];
      PrintValuesSnoc(key, values[1..], v);
    }
  }

  lemma {:induction false} PrintKeysSnoc(keys: seq<Key>, k: Key)
    ensures PrintKeys(keys + [k]) == PrintKeys(keys) + PrintValues(k.name, k.values)
    decreases |keys|
  {
    hide PrintValues;
    if keys == [] {
      assert keys + [k] == [k] && [k][1..] == [];
      assert PrintKeys([]) == "";
    } else {
      assert (keys + [k])[1..] == keys[1..] + [k];
      PrintKeysSnoc(keys[1..], k);
    }
  }

  lemma {:induction false} PrintMoreSnoc(doc: Document, s: Section)
    ensures PrintMore(doc + [s]) == PrintMore(doc) + "\n\n" + PrintSection(s)
    decreases |doc|
  {
    hide PrintSection;
    if doc == [] {
      assert doc + [s] == [s] && [s][1..] == [];
      assert PrintMore([]) == "";
    } else {
      assert (doc + [s])[1..] == doc[1..] + [s];
      PrintMoreSnoc(doc[1..], s);
    }
  }

  /** A section comes behind two line breaks, with its name in brackets on a line of its own. */
  lemma PrintSnoc(doc: Document, s: Section)
    ensures Print(doc + [s]) == Print(doc) + (if doc == [] then "" else "\n\n") + PrintSection(s)
    ensures PrintSection(s) == (if s.name == "" then "" else "[" + s.name + "]\n") + PrintKeys(s.keys)
  {
    hide PrintSection;
    SectionForm(s);
    if doc == [] {
      assert doc + [s] == [s] && [s][1..] == [];
    } else {
      assert (doc + [s])[1..] == doc[1..] + [s];
      PrintMoreSnoc(doc[1..], s);
    }
  }

  lemma SectionForm(s: Section)
    ensures PrintSection(s) == (if s.name == "" then "" else "[" + s.name + "]\n") + PrintKeys(s.keys)
  {
    hide PrintKeys;
  }

  /** Writes the values of one key. */
  method SaveValues(store: Store, section: string, key: string) returns (text: string)
    requires store.Valid()
    ensures text == PrintValues(key, ItemsOf(Values(store.sections, section, key)))
  {
    hide SectionsOk, Values, PrintPair;
    var found, values := store.GetAllValues(section, key);
    text := "";
    var i := 0;
    while i < |values|
      invariant i <= |values| && text == PrintValues(key, ItemsOf(values[..i]))
    {
      ItemsSnoc(values[..i], values[i]);
      PrintValuesSnoc(key, ItemsOf(values[..i]), values[i].item);
      assert values[..i] + [values[i]] == values[..i + 1];
      text := text + PrintPair(key, values[i].item);
      i := i + 1;
    }
    assert values[..i] == values;
  }

  /** Writes the keys of one section in load order. */
  method SaveKeys(store: Store, section: string) returns (text: string)
    requires store.Valid()
    ensures text == PrintKeys(KeysOf(SectionItem(store.sections, section)))
  {
    hide SectionsOk, PrintValues, Picked, Firsts, SortByOrder, SectionItem, ItemsOf, PrintKeys, SectionOrder, ListKeys;
    var found, names := store.GetAllKeys(section);
    var stamps := SortByOrder(names);
    ghost var item := SectionItem(store.sections, section);
    text := "";
    var i := 0;
    assert stamps[..0] == [];
    ListNone(item, store.sections);
    while i < |stamps|
      invariant i <= |stamps| && text == PrintKeys(ListKeys(stamps[..i], item))
    {
      var more := SaveValues(store, section, stamps[i].name);
      ListKeysConcat(stamps[..i], [stamps[i]], item);
      ListKeysOne(stamps[i], item);
      assert stamps[..i] + [stamps[i]] == stamps[..i + 1];
      PrintKeysSnoc(ListKeys(stamps[..i], item), Key(stamps[i].name, ItemsOf(Picked(item, stamps[i].name))));
      text := text + more;
      i := i + 1;
    }
    assert stamps[..i] == stamps;
  }

  lemma ListNone(xs: seq<KeyEntry>, sections: seq<SectionEntry>)
    ensures PrintKeys(ListKeys([], xs)) == "" && Print(ListSections([], sections)) == ""
  {
  }

  /** Writes the store: sections in load order, but the nameless one first. */
  method Save(store: Store) returns (text: string)
    requires store.Valid()
    ensures text == Print(NamelessFirst(Listed(store.sections)))
  {
    hide SectionsOk, PrintKeys, Picked, Firsts, SortByOrder, SectionItem, KeysOf, Print, NamelessAt, NamelessFirst;
    hide PrintHeader, Spliced, NamelessStampFirst, ListSections;
    var stamps := store.GetAllSections();
    stamps := SortByOrder(stamps);
    NamelessMoved(stamps, store.sections);
    SplicedIs(stamps);
    var first := FindNameless(stamps);
    if first != |stamps| {
      stamps := Spliced(stamps, first);
    }
    text := "";
    var needNewLine := false;
    var i := 0;
    assert stamps[..0] == [];
    ListNone([], store.sections);
    while i < |stamps|
      invariant i <= |stamps| && (needNewLine <==> i > 0)
      invariant text == Print(ListSections(stamps[..i], store.sections))
    {
      ghost var (before, doc) := (text, ListSections(stamps[..i], store.sections));
      var name := stamps[i].name;
      if needNewLine {
        text := text + "\n" + "\n";
      }
      if name != "" {
        text := text + PrintHeader(name);
      }
      var keys := SaveKeys(store, name);
      text := text + keys;
      needNewLine := true;
      ghost var s := Section(name, KeysOf(SectionItem(store.sections, name)));
      ListSectionsConcat(stamps[..i], [stamps[i]], store.sections);
      ListSectionsOne(stamps[i], store.sections);
      assert stamps[..i] + [stamps[i]] == stamps[..i + 1];
      ListSectionsNames(stamps[..i], store.sections);
      PrintSnoc(doc, s);
      assert text == before + (if doc == [] then "" else "\n\n") + PrintSection(s);
      i := i + 1;
    }
    assert stamps[..i] == stamps;
  }

  method FindNameless(stamps: seq<Stamp>) returns (i: nat)
    ensures i == NamelessAt(stamps)
  {
    i := 0;
    while i < |stamps| && stamps[i].name != ""
      invariant i <= |stamps| && i + NamelessAt(stamps[i..]) == NamelessAt(stamps)
    {
      assert stamps[i..][1..] == stamps[i + 1..];
      i := i + 1;
    }
  }

  // ------------------------------------------------------------------ both

  /** Saving a store and loading the text into a fresh one gives the same document, with the nameless section in front,
      section for section, key for key and value for value, if all of it can be written; and, if its sections have
      names without line breaks and no key looks like a multi-line value where a value does, exactly if it comes
      back from a first load. */
  method SaveAndLoad(store: Store) returns (loaded: Store)
    requires store.Valid()
    requires forall c :: c in Print(NamelessFirst(Listed(store.sections))) ==> c != '\0'
    ensures loaded.Valid() && fresh(loaded)
    ensures (var doc := NamelessFirst(Listed(store.sections));
             && (Writable(doc) ==> Listed(loaded.sections) == doc)
             && (Arranged(doc) ==> (Listed(loaded.sections) == doc <==> ComesBack(doc, false))))
  {
    hide SectionsOk, Print, NamelessFirst, Listed, Writable, Arranged, ComesBack, Loadings, AddAll, IsStr;
    var text := Save(store);
    var buf := ToBuffer(text);
    loaded := new Store(true);
    ghost var doc := NamelessFirst(Listed(store.sections));
    if Writable(doc) { LoadsAgain(doc, false); }
    if Arranged(doc) { DocumentExactly(doc, false); }
    NothingListed();
    LoadData(loaded, buf, text);
  }

  /** A buffer that holds the text and a zero behind it. */
  method ToBuffer(text: string) returns (buf: array<char>)
    requires forall c :: c in text ==> c != '\0'
    ensures fresh(buf) && IsStr(buf[..], 0, text)
  {
    buf := new char[|text| + 1](i => if 0 <= i < |text| then text[i] else '\0');
    assert forall i :: 0 <= i < |text| ==> text[i] in text && buf[i] == text[i];
  }

  lemma NothingListed()
    ensures Listed([]) == []
  {
  }
}
