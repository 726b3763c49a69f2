/** A whole INI file: sections in order, keys in order, a list of values for each key.
    Writing one out and loading the text gives it back. */
module IniDocument {
  import opened Bytes
  import opened IniPrint
  import opened IniText

  datatype Key = Key(name: string, values: seq<string>)
  datatype Section = Section(name: string, keys: seq<Key>)
  type Document = seq<Section>

  // ------------------------------------------------------------------ adding an entry

  function AddValue(keys: seq<Key>, name: string, value: string): seq<Key>
  {
    if keys == [] then [Key(name, [value])]
    else if keys[0].name == name then [Key(name, keys[0].values + [value])] + keys[1..]
    else [keys[0]] + AddValue(keys[1..], name, value)
  }

  /** What adding an entry does: it creates the section if need be, and a key's value goes behind its others. */
  function Add(doc: Document, section: string, item: Item): Document
  {
    if doc == [] then [Section(section, if item.Header? then [] else [Key(item.key, [item.value])])]
    else if doc[0].name == section then
      (if item.Header? then doc
       else [Section(section, AddValue(doc[0].keys, item.key, item.value))] + doc[1..])
    else [doc[0]] + Add(doc[1..], section, item)
  }

  // ------------------------------------------------------------------ loading

  /** A comment at the very start of the text belongs to the file: its lines are passed over. */
  function AfterFileComment(t: string): (r: string)
    ensures |r| <= |t|
  {
    if t != [] && IsComment(t[0]) then AfterComment(t, false) else t
  }

  function Items(t: string): seq<Item>
    decreases |t|
  {
    match FindEntry(t)
    case End => []
    case Found(item, rest) => [item] + Items(rest)
  }

  /** Adds entries one after the other; a header names the section of those that follow. */
  function Build(doc: Document, section: string, items: seq<Item>): Document
    decreases |items|
  {
    if items == [] then doc
    else
      var section' := if items[0].Header? then items[0].name else section;
      Build(Add(doc, section', items[0]), section', items[1..])
  }

  function Load(text: string): Document
  {
    Build([], "", Items(AfterFileComment(text)))
  }

  // ------------------------------------------------------------------ writing

  function PrintValues(key: string, values: seq<string>): string
  {
    if values == [] then "" else PrintPair(key, values[0]) + PrintValues(key, values[1..])
  }

  function PrintKeys(keys: seq<Key>): string
  {
    if keys == [] then "" else PrintValues(keys[0].name, keys[0].values) + PrintKeys(keys[1..])
  }

  function PrintSection(s: Section): string
  {
    (if s.name == "" then "" else PrintHeader(s.name)) + PrintKeys(s.keys)
  }

  function PrintMore(doc: Document): string
  {
    if doc == [] then "" else "\n\n" + PrintSection(doc[0]) + PrintMore(doc[1..])
  }

  /** Sections are set apart by two line breaks. */
  function Print(doc: Document): string
  {
    if doc == [] then "" else PrintSection(doc[0]) + PrintMore(doc[1..])
  }

  // ------------------------------------------------------------------ what can be written

  ghost predicate OneKeyOk(k: Key)
  {
    KeyOk(k.name) && k.values != [] && forall j :: 0 <= j < |k.values| ==> ValueOk(k.values[j])
  }

  ghost predicate KeysOk(keys: seq<Key>)
  {
    && (forall i :: 0 <= i < |keys| ==> OneKeyOk(keys[i]))
    && (forall i, j :: 0 <= i < j < |keys| ==> keys[i].name != keys[j].name)
  }

  ghost predicate OneSectionOk(s: Section)
  {
    KeysOk(s.keys) && if s.name == "" then s.keys != [] else SectionOk(s.name)
  }

  /** Names that can be read, each once; values that survive; a nameless section only in front, and not empty. */
  ghost predicate Writable(doc: Document)
  {
    && (forall i :: 0 <= i < |doc| ==> OneSectionOk(doc[i]) && (doc[i].name == "" ==> i == 0))
    && (forall i, j :: 0 <= i < j < |doc| ==> doc[i].name != doc[j].name)
  }

  /** Each key once, and with a value. */
  ghost predicate KeysShaped(keys: seq<Key>)
  {
    && (forall i :: 0 <= i < |keys| ==> keys[i].values != [])
    && (forall i, j :: 0 <= i < j < |keys| ==> keys[i].name != keys[j].name)
  }

  /** Each section once; a nameless section only in front, and not empty. */
  ghost predicate Shaped(doc: Document)
  {
    && (forall i :: 0 <= i < |doc| ==> KeysShaped(doc[i].keys) && (doc[i].name == "" ==> i == 0 && doc[i].keys != []))
    && (forall i, j :: 0 <= i < j < |doc| ==> doc[i].name != doc[j].name)
  }

  lemma WritableIsShaped(doc: Document)
    requires Writable(doc)
    ensures Shaped(doc)
  {
    hide SectionOk, KeyOk, ValueOk;
    forall i | 0 <= i < |doc|
      ensures KeysShaped(doc[i].keys) && (doc[i].name == "" ==> i == 0 && doc[i].keys != [])
    {
      var keys := doc[i].keys;
      assert OneSectionOk(doc[i]);
      assert forall k :: 0 <= k < |keys| ==> OneKeyOk(keys[k]);
    }
  }

  // ------------------------------------------------------------------ the items of a document

  function ValueItems(key: string, values: seq<string>): seq<Item>
  {
    if values == [] then [] else [Pair(key, values[0])] + ValueItems(key, values[1..])
  }

  function KeyItems(keys: seq<Key>): seq<Item>
  {
    if keys == [] then [] else ValueItems(keys[0].name, keys[0].values) + KeyItems(keys[1..])
  }

  function SectionItems(s: Section): seq<Item>
  {
    (if s.name == "" then [] else [Header(s.name)]) + KeyItems(s.keys)
  }

  function DocumentItems(doc: Document): seq<Item>
  {
    if doc == [] then [] else SectionItems(doc[0]) + DocumentItems(doc[1..])
  }

  lemma ItemsFound(t: string, item: Item, rest: string)
    requires FindEntry(t) == Found(item, rest)
    ensures Items(t) == [item] + Items(rest)
    ensures OpenName(t) == None && !RunsOn(t) && Plain(rest) ==> Plain(t)
  {
    hide FindEntry, OpenName, RunsOn;
  }

  lemma {:induction false} ValuesRead(key: string, values: seq<string>, rest: string)
    requires KeyOk(key) && forall j :: 0 <= j < |values| ==> ValueOk(values[j])
    ensures Items(PrintValues(key, values) + rest) == ValueItems(key, values) + Items(rest)
    ensures Plain(rest) ==> Plain(PrintValues(key, values) + rest)
    decreases |values|
  {
    hide Items, Plain, OpenName, RunsOn, FindEntry, PrintPair, ValueOk, KeyOk;
    if values == [] {
      assert "" + rest == rest;
    } else {
      var more := PrintValues(key, values[1..]) + rest;
      Associate(PrintPair(key, values[0]), PrintValues(key, values[1..]), rest);
      PairReads(key, values[0], more);
      ItemsFound(PrintPair(key, values[0]) + more, Pair(key, values[0]), more);
      ValuesRead(key, values[1..], rest);
    }
  }

  lemma {:induction false} KeysRead(keys: seq<Key>, rest: string)
    requires KeysOk(keys)
    ensures Items(PrintKeys(keys) + rest) == KeyItems(keys) + Items(rest)
    ensures Plain(rest) ==> Plain(PrintKeys(keys) + rest)
    decreases |keys|
  {
    hide Items, Plain, PrintValues, ValueItems, ValueOk, KeyOk;
    if keys != [] { assert OneKeyOk(keys[0]); }
    if keys == [] {
      assert "" + rest == rest;
    } else {
      var more := PrintKeys(keys[1..]) + rest;
      Associate(PrintValues(keys[0].name, keys[0].values), PrintKeys(keys[1..]), rest);
      ValuesRead(keys[0].name, keys[0].values, more);
      KeysRead(keys[1..], rest);
    }
  }

  lemma ItemsSkip(c: char, t: string)
    requires IsSpace(c)
    ensures Items([c] + t) == Items(t) && Plain([c] + t) == Plain(t)
  {
    hide FindEntry, OpenName, RunsOn;
    SpacesDoNotMatter(c, t);
  }

  lemma SectionReads(s: Section, rest: string)
    requires OneSectionOk(s)
    ensures Items(PrintSection(s) + rest) == SectionItems(s) + Items(rest)
    ensures Plain(rest) ==> Plain(PrintSection(s) + rest)
  {
    hide Items, Plain, OpenName, RunsOn, FindEntry, PrintKeys, KeyItems, PrintHeader, SectionOk;
    var body := PrintKeys(s.keys) + rest;
    KeysRead(s.keys, rest);
    if s.name != "" {
      HeaderReads(s.name, body);
      ItemsFound(PrintHeader(s.name) + body, Header(s.name), "\n" + body);
      ItemsSkip('\n', body);
      assert PrintSection(s) + rest == PrintHeader(s.name) + body;
    } else {
      assert PrintSection(s) + rest == body;
    }
  }

  lemma {:induction false} MoreReads(doc: Document)
    requires forall i :: 0 <= i < |doc| ==> OneSectionOk(doc[i])
    ensures Items(PrintMore(doc)) == DocumentItems(doc) && Plain(PrintMore(doc))
    decreases |doc|
  {
    hide Items, Plain, PrintSection, SectionItems, OneSectionOk;
    if doc == [] {
      NoItems();
    } else {
      var t := PrintSection(doc[0]) + PrintMore(doc[1..]);
      assert PrintMore(doc) == ['\n'] + (['\n'] + t);
      ItemsSkip('\n', ['\n'] + t);
      ItemsSkip('\n', t);
      SectionReads(doc[0], PrintMore(doc[1..]));
      MoreReads(doc[1..]);
    }
  }

  lemma NoItems()
    ensures Items("") == [] && Plain("")
  {
  }

  /** The written text holds the document's items, in order, and nothing that the reader leaves open. */
  lemma DocumentReads(doc: Document)
    requires Writable(doc)
    ensures Items(Print(doc)) == DocumentItems(doc) && Plain(Print(doc))
  {
    hide Items, Plain, PrintSection, SectionItems, OneSectionOk;
    if doc == [] {
      NoItems();
    } else {
      SectionReads(doc[0], PrintMore(doc[1..]));
      MoreReads(doc[1..]);
    }
  }

  // ------------------------------------------------------------------ building it again

  lemma {:induction false} AddToLast(front: Document, s: Section, item: Item)
    requires forall i :: 0 <= i < |front| ==> front[i].name != s.name
    ensures Add(front + [s], s.name, item)
         == front + [if item.Header? then s else Section(s.name, AddValue(s.keys, item.key, item.value))]
    decreases |front|
  {
    hide AddValue;
    if front == [] {
      assert (front + [s])[1..] == [];
    } else {
      assert (front + [s])[1..] == front[1..] + [s];
      AddToLast(front[1..], s, item);
    }
  }

  lemma {:induction false} AddNew(front: Document, name: string, item: Item)
    requires forall i :: 0 <= i < |front| ==> front[i].name != name
    ensures Add(front, name, item)
         == front + [Section(name, if item.Header? then [] else [Key(item.key, [item.value])])]
    decreases |front|
  {
    if front != [] { AddNew(front[1..], name, item); }
  }

  lemma {:induction false} AddValueToLast(front: seq<Key>, k: Key, value: string)
    requires forall i :: 0 <= i < |front| ==> front[i].name != k.name
    ensures AddValue(front + [k], k.name, value) == front + [Key(k.name, k.values + [value])]
    decreases |front|
  {
    if front == [] {
      assert (front + [k])[1..] == [];
    } else {
      assert (front + [k])[1..] == front[1..] + [k];
      AddValueToLast(front[1..], k, value);
    }
  }

  lemma {:induction false} AddValueNew(front: seq<Key>, name: string, value: string)
    requires forall i :: 0 <= i < |front| ==> front[i].name != name
    ensures AddValue(front, name, value) == front + [Key(name, [value])]
    decreases |front|
  {
    if front != [] { AddValueNew(front[1..], name, value); }
  }

  lemma {:induction false} BuildValues(front: Document, s: Section, keys: seq<Key>, k: Key, values: seq<string>,
                                       rest: seq<Item>)
    requires forall i :: 0 <= i < |front| ==> front[i].name != s.name
    requires forall i :: 0 <= i < |keys| ==> keys[i].name != k.name
    requires s.keys == keys + [k]
    ensures Build(front + [s], s.name, ValueItems(k.name, values) + rest)
         == Build(front + [Section(s.name, keys + [Key(k.name, k.values + values)])], s.name, rest)
    decreases |values|
  {
    hide Add, AddValue;
    if values == [] {
      assert k.values + values == k.values;
      assert [] + rest == rest;
    } else {
      var item := Pair(k.name, values[0]);
      var k' := Key(k.name, k.values + [values[0]]);
      var s' := Section(s.name, keys + [k']);
      AddToLast(front, s, item);
      AddValueToLast(keys, k, values[0]);
      assert ValueItems(k.name, values) + rest == [item] + (ValueItems(k.name, values[1..]) + rest);
      BuildValues(front, s', keys, k', values[1..], rest);
      assert k'.values + values[1..] == k.values + values;
    }
  }

  lemma {:induction false} BuildKeys(front: Document, s: Section, keys: seq<Key>, rest: seq<Item>)
    requires forall i :: 0 <= i < |front| ==> front[i].name != s.name
    requires KeysShaped(s.keys + keys)
    ensures Build(front + [s], s.name, KeyItems(keys) + rest)
      == Build(front + [Section(s.name, s.keys + keys)], s.name, rest)
    decreases |keys|
  {
    hide Add, AddValue;
    if keys == [] {
      assert s.keys + keys == s.keys && [] + rest == rest;
    } else {
      var k := keys[0];
      var all := s.keys + keys;
      assert all[|s.keys|] == k;
      assert forall i :: 0 <= i < |s.keys| ==> all[i] == s.keys[i];
      var item := Pair(k.name, k.values[0]);
      var first := Key(k.name, [k.values[0]]);
      var s' := Section(s.name, s.keys + [first]);
      var more := KeyItems(keys[1..]) + rest;
      AddToLast(front, s, item);
      AddValueNew(s.keys, k.name, k.values[0]);
      assert KeyItems(keys) + rest == [item] + (ValueItems(k.name, k.values[1..]) + more);
      BuildValues(front, s', s.keys, first, k.values[1..], more);
      assert first.values + k.values[1..] == k.values;
      assert all == s.keys + [k] + keys[1..];
      BuildKeys(front, Section(s.name, s.keys + [k]), keys[1..], rest);
    }
  }

  /** The nameless section has no header: its first key creates it. */
  lemma BuildNameless(s: Section, rest: seq<Item>)
    requires s.name == "" && s.keys != [] && KeysShaped(s.keys)
    ensures Build([], "", KeyItems(s.keys) + rest) == Build([s], "", rest)
  {
    var k := s.keys[0];
    var first := Key(k.name, [k.values[0]]);
    var (noKeys: seq<Key>, noSections: Document) := ([], []);
    var more := KeyItems(s.keys[1..]) + rest;
    assert KeyItems(s.keys) + rest == [Pair(k.name, k.values[0])] + (ValueItems(k.name, k.values[1..]) + more);
    BuildValues(noSections, Section("", [first]), noKeys, first, k.values[1..], more);
    assert noKeys + [first] == [first] && first.values + k.values[1..] == k.values;
    assert noSections + [Section("", [first])] == [Section("", [first])];
    assert noKeys + [k] == [k] && [k] + s.keys[1..] == s.keys;
    assert noSections + [Section("", [k])] == [Section("", [k])];
    BuildKeys([], Section("", [k]), s.keys[1..], rest);
    assert [] + [s] == [s];
  }

  lemma BuildSection(front: Document, before: string, s: Section, rest: seq<Item>)
    requires KeysShaped(s.keys) && forall i :: 0 <= i < |front| ==> front[i].name != s.name
    requires s.name == "" ==> front == [] && before == "" && s.keys != []
    ensures Build(front, before, SectionItems(s) + rest) == Build(front + [s], s.name, rest)
  {
    hide KeysShaped, KeyItems;
    if s.name == "" {
      BuildNameless(s, rest);
      assert [] + KeyItems(s.keys) == KeyItems(s.keys) && front + [s] == [s];
    } else {
      AddNew(front, s.name, Header(s.name));
      assert SectionItems(s) + rest == [Header(s.name)] + (KeyItems(s.keys) + rest);
      assert [] + s.keys == s.keys;
      BuildKeys(front, Section(s.name, []), s.keys, rest);
    }
  }

  lemma {:induction false} BuildDocument(front: Document, before: string, doc: Document)
    requires Shaped(front + doc) && (front == [] ==> before == "")
    ensures Build(front, before, DocumentItems(doc)) == front + doc
    decreases |doc|
  {
    hide KeysShaped, SectionItems;
    if doc == [] {
      assert front + doc == front;
    } else {
      var all := front + doc;
      assert all[|front|] == doc[0];
      assert forall i :: 0 <= i < |front| ==> all[i] == front[i];
      BuildSection(front, before, doc[0], DocumentItems(doc[1..]));
      assert front + [doc[0]] + doc[1..] == all;
      BuildDocument(front + [doc[0]], doc[0].name, doc[1..]);
    }
  }

  lemma NoFileComment(doc: Document)
    requires Writable(doc)
    ensures AfterFileComment(Print(doc)) == Print(doc)
  {
    hide KeyItems;
    if doc != [] {
      var s := doc[0];
      assert OneSectionOk(s);
      if s.name == "" {
        var k := s.keys[0];
        assert OneKeyOk(k);
        assert Print(doc)[0] == k.name[0];
      } else {
        assert Print(doc)[0] == '[';
      }
    }
  }

  /** Loading what was written gives the same sections in order, keys in order and values of each key. */
  lemma RoundTrip(doc: Document)
    requires Writable(doc)
    ensures Load(Print(doc)) == doc
    ensures Build([], "", Items(Print(doc))) == doc && Plain(Print(doc))
  {
    hide AfterFileComment, Items, Plain, Print, Build;
    NoFileComment(doc);
    WritableIsShaped(doc);
    DocumentReads(doc);
    assert [] + doc == doc;
    BuildDocument([], "", doc);
  }
}
