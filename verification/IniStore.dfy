/** The INI store: its sections in name order, in each the entries by key, and the number of the latest load. */
module IniStore {
  import opened Bytes
  import opened IniDocument
  import opened IniEntries
  import opened IniListing
  import opened IniOrder
  import opened IniText

  // ------------------------------------------------------------------ what the store holds

  ghost predicate SectionsOk(sections: seq<SectionEntry>, order: nat, multiKey: bool)
  {
    && SortedByName(sections)
    && (forall i, j :: 0 <= i < j < |sections| ==> sections[i].name != sections[j].name)
    && (forall i :: 0 <= i < |sections| ==> sections[i].order <= order && EntriesOk(sections[i].item, order, multiKey))
  }

  /** The values of a key, oldest first; none if there is no such key. */
  ghost function Values(sections: seq<SectionEntry>, section: string, key: string): seq<KeyEntry>
  {
    Picked(SectionItem(sections, section), key)
  }

  /** When a section was loaded, if it is there. */
  ghost function SectionOrder(sections: seq<SectionEntry>, section: string): Option<nat>
  {
    var p := Picked(sections, section);
    if p == [] then None else Some(p[0].order)
  }

  // ------------------------------------------------------------------ finding a section

  lemma SectionAt(sections: seq<SectionEntry>, section: string, order: nat, multiKey: bool)
    requires SectionsOk(sections, order, multiKey)
    ensures (var at := Lower(sections, section);
             var found := at < |sections| && sections[at].name == section;
             && Picked(sections, section) == (if found then [sections[at]] else [])
             && SectionItem(sections, section) == (if found then sections[at].item else [])
             && SectionOrder(sections, section) == (if found then Some(sections[at].order) else None)
             && (!found ==> at == Upper(sections, section)))
  {
    hide Less, Picked, Lower, Upper, EntriesOk;
    RangeOf(sections, section);
    var at := Lower(sections, section);
    var hi := Upper(sections, section);
    if at < hi { OneOfAName(sections, at, hi - 1, order, multiKey); }
  }

  lemma OneOfAName(sections: seq<SectionEntry>, i: nat, j: nat, order: nat, multiKey: bool)
    requires SectionsOk(sections, order, multiKey) && i <= j < |sections| && sections[i].name == sections[j].name
    ensures i == j
  {
  }

  lemma EntriesStayOk(xs: seq<KeyEntry>, order: nat, order': nat, multiKey: bool)
    requires EntriesOk(xs, order, multiKey) && order <= order'
    ensures EntriesOk(xs, order', multiKey)
  {
    hide Less;
  }

  lemma SectionPlacedOk(sections: seq<SectionEntry>, section: string, order: nat, multiKey: bool)
    requires SectionsOk(sections, order, multiKey) && Picked(sections, section) == []
    ensures SectionsOk(Placed(sections, Dated(section, order + 1, [])), order + 1, multiKey)
  {
    hide Less, Picked, Lower, Upper, EntriesOk, SortedByName;
    var at := Upper(sections, section);
    var e: SectionEntry := Dated(section, order + 1, []);
    var ys := Placed(sections, e);
    NonePicked(sections, section);
    PlacedSorted(sections, e);
    NothingOk(order + 1, multiKey);
    forall i | 0 <= i < |sections|
      ensures EntriesOk(sections[i].item, order + 1, multiKey)
    {
      EntriesStayOk(sections[i].item, order, order + 1, multiKey);
    }
    assert forall i :: 0 <= i < |ys| ==>
      ys[i] == if i < at then sections[i] else if i == at then e else sections[i - 1];
  }

  /** A new section changes no values. */
  lemma SectionCreated(sections: seq<SectionEntry>, section: string, order: nat, multiKey: bool)
    requires SectionsOk(sections, order, multiKey) && Picked(sections, section) == []
    ensures (var e := Dated(section, order + 1, []);
             var (at, sections') := (Lower(sections, section), Placed(sections, e));
             && at < |sections'| && sections'[at] == e && Lower(sections', section) == at
             && SectionsOk(sections', order + 1, multiKey)
             && (forall s, k :: Values(sections', s, k) == Values(sections, s, k))
             && (forall s :: SectionOrder(sections', s)
                   == if s == section then Some(order + 1) else SectionOrder(sections, s))
             && Listed(sections') == Add(Listed(sections), section, Header(section)))
  {
    hide Less, Picked, Lower, Upper, EntriesOk, Listed, Add, SortedByName, SectionsOk;
    var e: SectionEntry := Dated(section, order + 1, []);
    var sections' := Placed(sections, e);
    SectionAt(sections, section, order, multiKey);
    SectionPlacedOk(sections, section, order, multiKey);
    NewListed(sections, e, order, multiKey);
    forall s
      ensures SectionItem(sections', s) == SectionItem(sections, s)
      ensures SectionOrder(sections', s) == if s == section then Some(order + 1) else SectionOrder(sections, s)
    {
      PickedPlaced(sections, e, s);
      assert [] + [e] == [e];
    }
    FoundAtPlace(sections', Upper(sections, section), section, order + 1, multiKey);
  }

  lemma NewListed(sections: seq<SectionEntry>, e: SectionEntry, order: nat, multiKey: bool)
    requires SectionsOk(sections, order, multiKey) && e.order == order + 1
    requires Picked(sections, e.name) == [] && e.item == []
    ensures SortedByName(sections)
    ensures Listed(Placed(sections, e)) == Add(Listed(sections), e.name, Header(e.name))
  {
    hide Less, Picked, EntriesOk, Listed, Add, Placed;
    ListedPlaced(sections, e);
  }

  lemma NothingOk(order: nat, multiKey: bool)
    ensures EntriesOk([], order, multiKey)
  {
  }

  lemma FoundAtPlace(sections: seq<SectionEntry>, at: nat, section: string, order: nat, multiKey: bool)
    requires SectionsOk(sections, order, multiKey) && at < |sections| && sections[at].name == section
    ensures Lower(sections, section) == at
  {
    hide Less, Lower, Upper, EntriesOk;
    RangeBounds(sections, section);
  }

  /** New entries in a section that is there. */
  lemma SectionChanged(sections: seq<SectionEntry>, at: nat, item: seq<KeyEntry>, order: nat, order': nat,
                       multiKey: bool)
    requires SectionsOk(sections, order, multiKey) && at < |sections| && order <= order'
    requires EntriesOk(item, order', multiKey)
    ensures (var e := sections[at];
             var sections' := sections[at := Dated(e.name, e.order, item)];
             && SectionsOk(sections', order', multiKey)
             && (forall s, k :: Values(sections', s, k)
                   == if s == e.name then Picked(item, k) else Values(sections, s, k))
             && (forall s :: SectionOrder(sections', s) == SectionOrder(sections, s)))
  {
    hide Less, Picked, EntriesOk;
    var e := Dated(sections[at].name, sections[at].order, item);
    var sections' := sections[at := e];
    assert forall i :: 0 <= i < |sections| ==>
      sections'[i].name == sections[i].name && sections'[i].order == sections[i].order;
    forall i | 0 <= i < |sections|
      ensures EntriesOk(sections'[i].item, order', multiKey)
    {
      EntriesStayOk(sections[i].item, order, order', multiKey);
    }
    forall s
      ensures SectionItem(sections', s) == if s == e.name then item else SectionItem(sections, s)
      ensures SectionOrder(sections', s) == SectionOrder(sections, s)
    {
      PickedChanged(sections, at, e, s);
      PickedChanged(sections, at, sections[at], s);
      assert sections[at := sections[at]] == sections;
    }
  }

  lemma SectionRemoved(sections: seq<SectionEntry>, at: nat, order: nat, multiKey: bool)
    requires SectionsOk(sections, order, multiKey) && at < |sections|
    ensures (var sections' := sections[..at] + sections[at + 1..];
             && SectionsOk(sections', order, multiKey)
             && (forall s, k :: Values(sections', s, k)
                   == if s == sections[at].name then [] else Values(sections, s, k))
             && (forall s :: SectionOrder(sections', s)
                   == if s == sections[at].name then None else SectionOrder(sections, s)))
  {
    hide Less, Picked, EntriesOk;
    var sections' := sections[..at] + sections[at + 1..];
    assert forall i :: 0 <= i < |sections'| ==> sections'[i] == sections[if i < at then i else i + 1];
    PickedNothing<string>("");
    forall s
      ensures Picked(sections', s) == if s == sections[at].name then [] else Picked(sections, s)
    {
      PickedRemoved(sections, at, s);
    }
    forall k
      ensures Picked<string>([], k) == []
    {
      PickedNothing<string>(k);
    }
  }

  lemma PickedRemoved<T>(xs: seq<Dated<T>>, at: nat, name: string)
    requires at < |xs| && forall i :: 0 <= i < |xs| && i != at ==> xs[i].name != xs[at].name
    ensures Picked(xs[..at] + xs[at + 1..], name) == if name == xs[at].name then [] else Picked(xs, name)
  {
    hide Picked;
    var front := xs[..at];
    var back := xs[at + 1..];
    assert xs == front + [xs[at]] + back;
    PickedConcat(front + [xs[at]], back, name);
    PickedConcat(front, [xs[at]], name);
    PickedConcat(front, back, name);
    PickedOne(xs[at], name);
    if name == xs[at].name {
      PickedNone(front, name);
      PickedNone(back, name);
    }
  }

  // ------------------------------------------------------------------ the store

  /** What the caller adds, as an item of a file. */
  function Added(section: string, key: Option<string>, value: string): Item
  {
    if key == None then Header(section) else Pair(key.value, value)
  }

  class Store {
    const multiKey: bool
    var sections: seq<SectionEntry>
    var order: nat
    // whether a text has been loaded, and whether one began with a comment of its own
    var hasData: bool
    var hasComment: bool

    ghost predicate Valid()
      reads this
    {
      SectionsOk(sections, order, multiKey)
    }

    constructor (multiKey: bool)
      ensures Valid() && this.multiKey == multiKey && sections == [] && order == 0 && !hasData && !hasComment
    {
      this.multiKey, sections, order := multiKey, [], 0;
      hasData, hasComment := false, false;
    }

    /** Adds a section, or a value of a key in it. */
    method AddEntry(section: string, key: Option<string>, value: string, force: bool) returns (inserted: bool)
      requires Valid()
      modifies this`sections, this`order
      ensures Valid()
      ensures forall s, k ::
        Values(sections, s, k) == (
          if s == section && key == Some(k)
          then NewValues(multiKey, force, Values(old(sections), s, k), k, value, order)
          else Values(old(sections), s, k))
      ensures forall s ::
        SectionOrder(sections, s) == (
          if s == section && SectionOrder(old(sections), s) == None then Some(old(order) + 1)
          else SectionOrder(old(sections), s))
      ensures order
        == old(order) + (if SectionOrder(old(sections), section) == None then 1 else 0) + (if key == None then 0 else 1)
      ensures inserted <==> if key == None then SectionOrder(old(sections), section) == None
                            else Values(old(sections), section, key.value) == []
      ensures multiKey && !force ==> Listed(sections) == Add(Listed(old(sections)), section, Added(section, key, value))
    {
      hide Less, Picked, Lower, Upper, EntriesOk, Listed, Add, SectionsOk, NewValues, SectionItem, Placed, KeysOf;
      hide AddValue, SectionOrder;
      var at := Lower(sections, section);
      SectionAt(sections, section, order, multiKey);
      inserted := false;
      if !(at < |sections| && sections[at].name == section) {
        SectionCreated(sections, section, order, multiKey);
        order := order + 1;
        sections := Placed(sections, Dated(section, order, []));
        inserted := true;
      } else {
        ListedAgain(sections, at, order, multiKey);
      }
      if key == None {
        return;
      }
      label middle:
      order := order + 1;
      var e := sections[at];
      var item;
      ItemOk(sections, at, order - 1, multiKey);
      SectionAt(sections, section, order - 1, multiKey);
      item, inserted := AddToSection(e.item, multiKey, force, key.value, value, order);
      SectionChanged(sections, at, item, order - 1, order, multiKey);
      if multiKey && !force {
        ItemAdded(sections, at, key.value, value, order, multiKey);
        AddTwice(Listed(old(sections)), section, section, key.value, value);
      }
      sections := sections[at := Dated(e.name, e.order, item)];
    }

    /** Takes out a section, a key, or the values of a key that equal a given one; a section that this empties goes
        too if asked for. */
    method DeleteValue(section: string, key: Option<string>, value: Option<string>, removeEmpty: bool)
      returns (deleted: bool)
      requires Valid()
      modifies this`sections
      ensures Valid()
      ensures forall s, k ::
        Values(sections, s, k) == (
          if s == section && key == None then []
          else if s == section && key == Some(k) then Kept(Values(old(sections), s, k), value)
          else Values(old(sections), s, k))
      ensures deleted <==>
        && SectionOrder(old(sections), section) != None
        && (key == None || |Values(sections, section, key.value)| < |Values(old(sections), section, key.value)|)
      ensures forall s ::
        SectionOrder(sections, s) == (
          if s == section && deleted && (key == None || (removeEmpty && SectionItem(sections, section) == [])) then None
          else SectionOrder(old(sections), s))
    {
      hide Less, Picked, Lower, Upper, EntriesOk, SectionsOk, SectionItem, SectionOrder, Kept, Without;
      var at := Lower(sections, section);
      SectionAt(sections, section, order, multiKey);
      NothingKept(value);
      PickedNothings();
      if !(at < |sections| && sections[at].name == section) {
        return false;
      }
      ItemOk(sections, at, order, multiKey);
      SectionRemoved(sections, at, order, multiKey);
      if key.Some? {
        var e := sections[at];
        var lo := Lower(e.item, key.value);
        LookedUp(e.item, key.value, order, multiKey);
        if !(lo < |e.item| && e.item[lo].name == key.value) {
          return false;
        }
        var item;
        item, deleted := EraseValues(e.item, key.value, value, lo);
        WithoutOk(e.item, key.value, value, order, multiKey);
        PickedWithoutAll(e.item, key.value, value);
        SectionChanged(sections, at, item, order, order, multiKey);
        sections := sections[at := Dated(e.name, e.order, item)];
        SectionAt(sections, section, order, multiKey);
        FoundAtPlace(sections, at, section, order, multiKey);
        if !deleted {
          return;
        }
        if !removeEmpty || item != [] {
          return true;
        }
        SectionRemoved(sections, at, order, multiKey);
      }
      sections := sections[..at] + sections[at + 1..];
      SectionAt(sections, section, order, multiKey);
      return true;
    }

    /** All values of a key, oldest first. */
    method GetAllValues(section: string, key: string) returns (found: bool, values: seq<KeyEntry>)
      requires Valid()
      ensures values == Values(sections, section, key)
      ensures found <==> values != []
    {
      hide Less, Picked, Lower, Upper, EntriesOk, SectionsOk, SectionItem, SectionOrder;
      var at := Lower(sections, section);
      SectionAt(sections, section, order, multiKey);
      PickedNothing<string>(key);
      found, values := false, [];
      if !(at < |sections| && sections[at].name == section) {
        return;
      }
      ItemOk(sections, at, order, multiKey);
      var xs := sections[at].item;
      var lo := Lower(xs, key);
      LookedUp(xs, key, order, multiKey);
      RangeOf(xs, key);
      if !(lo < |xs| && xs[lo].name == key) {
        return;
      }
      found, values := true, [xs[lo]];
      if multiKey {
        var i := lo + 1;
        while i < |xs| && !Less(key, xs[i].name)
          invariant lo < i <= Upper(xs, key) && values == xs[lo..i]
        {
          UpperIs(xs, key, i);
          values := values + [xs[i]];
          i := i + 1;
        }
        if i < |xs| { UpperIs(xs, key, i); }
      }
    }

    /** The keys of a section, each once, with the load number of its first value. */
    method GetAllKeys(section: string) returns (found: bool, names: seq<Stamp>)
      requires Valid()
      ensures found <==> SectionOrder(sections, section) != None
      ensures names == Firsts(SectionItem(sections, section))
    {
      hide Less, Picked, Lower, Upper, EntriesOk, SectionsOk, SectionItem, SectionOrder, NewName, Firsts, StampOf;
      var at := Lower(sections, section);
      SectionAt(sections, section, order, multiKey);
      FirstsNothing<string>();
      found, names := false, [];
      if !(at < |sections| && sections[at].name == section) {
        return;
      }
      ItemOk(sections, at, order, multiKey);
      names := NamesOnce(sections[at].item, order, multiKey);
      found := true;
    }

    method GetAllSections() returns (names: seq<Stamp>)
      requires Valid()
      ensures names == Firsts(sections)
    {
      hide Less, EntriesOk, NewName, Firsts;
      FirstsNothing<seq<KeyEntry>>();
      names := [];
      var i := 0;
      while i < |sections|
        invariant i <= |sections| && names == Firsts(sections[..i])
      {
        FirstsSnoc(sections[..i], sections[i]);
        NewNameIs(sections[..i], sections[i]);
        assert sections[..i + 1] == sections[..i] + [sections[i]];
        names := names + [StampOf(sections[i])];
        i := i + 1;
      }
      assert sections[..i] == sections;
    }
  }

  lemma NothingKept(value: Option<string>)
    ensures Kept([], value) == []
  {
  }

  lemma PickedNothings()
    ensures forall k :: Picked<string>([], k) == []
  {
  }

  lemma PickedWithoutAll(xs: seq<KeyEntry>, key: string, value: Option<string>)
    ensures forall k ::
      Picked(Without(xs, key, value), k)
      == if k == key then Kept(Picked(xs, k), value) else Picked(xs, k)
  {
    hide Picked, Kept, Without;
    forall k
      ensures Picked(Without(xs, key, value), k) == if k == key then Kept(Picked(xs, k), value) else Picked(xs, k)
    {
      PickedWithout(xs, key, value, k);
    }
  }

  lemma ItemOk(sections: seq<SectionEntry>, at: nat, order: nat, multiKey: bool)
    requires SectionsOk(sections, order, multiKey) && at < |sections|
    ensures EntriesOk(sections[at].item, order, multiKey)
  {
  }

  /** A section that is there is not added again. */
  lemma ListedAgain(sections: seq<SectionEntry>, at: nat, order: nat, multiKey: bool)
    requires SectionsOk(sections, order, multiKey) && at < |sections|
    ensures Add(Listed(sections), sections[at].name, Header(sections[at].name)) == Listed(sections)
  {
    hide Less, Listed, Add, EntriesOk, KeysOf, AddValue, SortedByName;
    var e := sections[at];
    ListedChanged(sections, at, e.item, Header(e.name));
    assert sections[at := Dated(e.name, e.order, e.item)] == sections;
  }

  lemma ItemAdded(sections: seq<SectionEntry>, at: nat, key: string, value: string, order: nat, multiKey: bool)
    requires order > 0 && SectionsOk(sections, order - 1, multiKey) && at < |sections|
    ensures (var e := sections[at];
             Listed(sections[at := Dated(e.name, e.order, Placed(e.item, Dated(key, order, value)))])
             == Add(Listed(sections), e.name, Pair(key, value)))
  {
    hide Less, Listed, Add, KeysOf, AddValue, SortedByName, Placed;
    var e := sections[at];
    assert EntriesOk(e.item, order - 1, multiKey);
    KeysOfPlaced(e.item, Dated(key, order, value));
    ListedChanged(sections, at, Placed(e.item, Dated(key, order, value)), Pair(key, value));
  }

  /** Goes through entries and takes each that is greater than the last name taken. */
  method NamesOnce(xs: seq<KeyEntry>, ghost order: nat, ghost multiKey: bool) returns (names: seq<Stamp>)
    requires EntriesOk(xs, order, multiKey)
    ensures names == Firsts(xs)
  {
    hide Less, NewName, Firsts;
    FirstsNothing<string>();
    names := [];
    var last: Option<string> := None;
    var i := 0;
    while i < |xs|
      invariant i <= |xs| && names == Firsts(xs[..i])
      invariant last == if i == 0 then None else Some(xs[i - 1].name)
    {
      FirstsSnoc(xs[..i], xs[i]);
      NewNameIs(xs[..i], xs[i]);
      assert xs[..i + 1] == xs[..i] + [xs[i]];
      if i > 0 {
        EqualIsNeitherLess(xs[i - 1].name, xs[i].name);
      }
      if last == None || Less(last.value, xs[i].name) {
        names := names + [StampOf(xs[i])];
      }
      last := Some(xs[i].name);
      i := i + 1;
    }
    assert xs[..i] == xs;
  }

  // ------------------------------------------------------------------ runs of updates

  datatype Update =
    | Set(section: string, key: Option<string>, value: string, force: bool)
    | Delete(section: string, key: Option<string>, only: Option<string>, removeEmpty: bool)

  /** A list of values without those that equal a given one, or empty. */
  function Dropped(values: seq<string>, only: Option<string>): seq<string>
  {
    if values == [] || only == None then []
    else (if values[0] == only.value then [] else [values[0]]) + Dropped(values[1..], only)
  }

  /** A simple store: a list of values for each key. What one update makes of one list. */
  function SimpleUpdate(multiKey: bool, values: seq<string>, u: Update, section: string, key: string): seq<string>
  {
    if u.section != section then values
    else if u.Set? then
      (if u.key != Some(key) then values else if multiKey && !u.force then values + [u.value] else [u.value])
    else if u.key == None then []
    else if u.key == Some(key) then Dropped(values, u.only)
    else values
  }

  function SimpleRun(multiKey: bool, values: seq<string>, updates: seq<Update>, section: string, key: string)
    : seq<string>
    decreases |updates|
  {
    if updates == [] then values
    else
      var n := |updates| - 1;
      SimpleUpdate(multiKey, SimpleRun(multiKey, values, updates[..n], section, key), updates[n], section, key)
  }

  lemma {:induction false} DroppedIsKept(xs: seq<KeyEntry>, only: Option<string>)
    ensures ItemsOf(Kept(xs, only)) == Dropped(ItemsOf(xs), only)
    decreases |xs|
  {
    if xs != [] {
      hide Kept, ItemsOf;
      DroppedIsKept(xs[1..], only);
      KeptOne(xs[0], only);
      KeptCons(xs[0], xs[1..], only);
      assert xs == [xs[0]] + xs[1..];
      ItemsCons(xs[0], xs[1..]);
      ItemsCons(xs[0], Kept(xs[1..], only));
      NoneKept(xs);
      assert [] + Kept(xs[1..], only) == Kept(xs[1..], only);
    }
  }

  lemma ItemsCons(e: KeyEntry, xs: seq<KeyEntry>)
    ensures ItemsOf([e] + xs) == [e.item] + ItemsOf(xs)
  {
  }

  lemma UpdateIsSimple(multiKey: bool, vs: seq<KeyEntry>, u: Update, section: string, key: string, order: nat)
    requires u.section == section && u.key == Some(key)
    ensures (var vs' := if u.Set? then NewValues(multiKey, u.force, vs, key, u.value, order) else Kept(vs, u.only);
             ItemsOf(vs') == SimpleUpdate(multiKey, ItemsOf(vs), u, section, key))
  {
    hide Kept, Dropped;
    if u.Set? {
      ItemsSnoc(vs, Dated(key, order, u.value));
    } else {
      DroppedIsKept(vs, u.only);
    }
  }

  method Apply(store: Store, u: Update)
    requires store.Valid()
    modifies store
    ensures store.Valid()
    ensures forall s, k ::
      ItemsOf(Values(store.sections, s, k))
      == SimpleUpdate(store.multiKey, ItemsOf(Values(old(store.sections), s, k)), u, s, k)
  {
    hide SectionsOk, Values, SectionOrder, NewValues, Kept, SimpleUpdate, ItemsOf, Listed, Add;
    if u.Set? {
      var _ := store.AddEntry(u.section, u.key, u.value, u.force);
    } else {
      var _ := store.DeleteValue(u.section, u.key, u.only, u.removeEmpty);
    }
    forall s, k
      ensures ItemsOf(Values(store.sections, s, k))
        == SimpleUpdate(store.multiKey, ItemsOf(Values(old(store.sections), s, k)), u, s, k)
    {
      var vs := Values(old(store.sections), s, k);
      if u.section == s && u.key == Some(k) {
        UpdateIsSimple(store.multiKey, vs, u, s, k, store.order);
      } else {
        UpdatesOther(store.multiKey, ItemsOf(vs), u, s, k);
      }
    }
  }

  lemma UpdatesOther(multiKey: bool, values: seq<string>, u: Update, section: string, key: string)
    requires u.section != section || u.key != Some(key)
    ensures SimpleUpdate(multiKey, values, u, section, key)
         == if u.section == section && u.Delete? && u.key == None then [] else values
    ensures ItemsOf([]) == []
  {
  }

  /** After any run of updates the store holds for every key the list that the simple store holds. */
  method Run(store: Store, updates: seq<Update>)
    requires store.Valid()
    modifies store
    ensures store.Valid()
    ensures forall s, k ::
      ItemsOf(Values(store.sections, s, k))
      == SimpleRun(store.multiKey, ItemsOf(Values(old(store.sections), s, k)), updates, s, k)
  {
    hide SectionsOk, Values, SectionOrder, NewValues, Kept, SimpleRun, SimpleUpdate, ItemsOf, Listed, Add;
    var i := 0;
    ghost var start := store.sections;
    forall s, k
      ensures SimpleRun(store.multiKey, ItemsOf(Values(start, s, k)), updates[..0], s, k)
        == ItemsOf(Values(start, s, k))
    {
      RunNothing(store.multiKey, ItemsOf(Values(start, s, k)), s, k);
    }
    while i < |updates|
      invariant i <= |updates| && store.Valid()
      invariant forall s, k ::
        ItemsOf(Values(store.sections, s, k))
        == SimpleRun(store.multiKey, ItemsOf(Values(start, s, k)), updates[..i], s, k)
    {
      ghost var before := store.sections;
      Apply(store, updates[i]);
      forall s, k
        ensures ItemsOf(Values(store.sections, s, k))
          == SimpleRun(store.multiKey, ItemsOf(Values(start, s, k)), updates[..i + 1], s, k)
      {
        RunOneMore(store.multiKey, ItemsOf(Values(start, s, k)), updates, i, s, k);
        assert ItemsOf(Values(before, s, k))
          == SimpleRun(store.multiKey, ItemsOf(Values(start, s, k)), updates[..i], s, k);
      }
      i := i + 1;
    }
    assert updates[..i] == updates;
  }

  lemma RunNothing(multiKey: bool, values: seq<string>, section: string, key: string)
    ensures SimpleRun(multiKey, values, [], section, key) == values
  {
  }

  lemma RunOneMore(multiKey: bool, values: seq<string>, updates: seq<Update>, i: nat, section: string, key: string)
    requires i < |updates|
    ensures SimpleRun(multiKey, values, updates[..i + 1], section, key)
         == SimpleUpdate(multiKey, SimpleRun(multiKey, values, updates[..i], section, key), updates[i], section, key)
  {
    hide SimpleUpdate;
    assert updates[..i + 1][..i] == updates[..i];
  }
}
