/** A store's contents as a document: sections and keys in the order they were loaded. */
module IniListing {
  import opened Bytes
  import opened IniDocument
  import opened IniEntries
  import opened IniOrder
  import opened StableSort
  import IniText

  /** A name and when it was loaded. */
  type Stamp = Dated<()>

  function StampOf<T>(e: Dated<T>): Stamp
  {
    Dated(e.name, e.order, ())
  }

  function NewName<T>(front: seq<Dated<T>>, e: Dated<T>): seq<Stamp>
  {
    if front != [] && front[|front| - 1].name == e.name then [] else [StampOf(e)]
  }

  /** Each name once, with the load number of its first entry. */
  function Firsts<T>(xs: seq<Dated<T>>): seq<Stamp>
  {
    if xs == [] then [] else Firsts(xs[..|xs| - 1]) + NewName(xs[..|xs| - 1], xs[|xs| - 1])
  }

  // ------------------------------------------------------------------ listing

  function ItemsOf(xs: seq<KeyEntry>): (r: seq<string>)
    ensures |r| == |xs| && forall i :: 0 <= i < |xs| ==> r[i] == xs[i].item
  {
    if xs == [] then [] else [xs[0].item] + ItemsOf(xs[1..])
  }

  function ListKeys(stamps: seq<Stamp>, xs: seq<KeyEntry>): seq<Key>
  {
    if stamps == [] then []
    else [Key(stamps[0].name, ItemsOf(Picked(xs, stamps[0].name)))] + ListKeys(stamps[1..], xs)
  }

  /** A section's keys in load order, each with its values. */
  function KeysOf(xs: seq<KeyEntry>): seq<Key>
  {
    ListKeys(SortByOrder(Firsts(xs)), xs)
  }

  /** The entries of a section, none if there is no such section. */
  function SectionItem(sections: seq<SectionEntry>, name: string): seq<KeyEntry>
  {
    var p := Picked(sections, name);
    if p == [] then [] else p[0].item
  }

  function ListSections(stamps: seq<Stamp>, sections: seq<SectionEntry>): Document
  {
    if stamps == [] then []
    else [Section(stamps[0].name, KeysOf(SectionItem(sections, stamps[0].name)))] + ListSections(stamps[1..], sections)
  }

  /** The sections in load order. */
  function Listed(sections: seq<SectionEntry>): Document
  {
    ListSections(SortByOrder(Firsts(sections)), sections)
  }

  // ------------------------------------------------------------------ names and their first entries

  lemma FirstsSnoc<T>(xs: seq<Dated<T>>, e: Dated<T>)
    ensures Firsts(xs + [e]) == Firsts(xs) + NewName(xs, e)
  {
    hide NewName;
    assert (xs + [e])[..|xs + [e]| - 1] == xs;
  }

  lemma FirstsNothing<T>()
    ensures Firsts<T>([]) == []
  {
  }

  lemma NewNameIs<T>(front: seq<Dated<T>>, e: Dated<T>)
    ensures NewName(front, e) == if front != [] && front[|front| - 1].name == e.name then [] else [StampOf(e)]
  {
  }

  lemma NewNameSame<T>(xs: seq<Dated<T>>, front: seq<Dated<T>>, e: Dated<T>)
    requires front != [] || (xs != [] ==> xs[|xs| - 1].name != e.name)
    ensures NewName(xs + front, e) == NewName(front, e)
  {
    if front == [] { assert xs + front == xs; }
  }

  lemma SnocApart<T>(xs: seq<T>, ys: seq<T>)
    requires ys != []
    ensures (var (front, last) := (ys[..|ys| - 1], ys[|ys| - 1]);
             xs + ys == (xs + front) + [last] && ys == front + [last])
  {
  }

  lemma {:induction false} FirstsConcat<T>(xs: seq<Dated<T>>, ys: seq<Dated<T>>)
    requires xs != [] && ys != [] ==> xs[|xs| - 1].name != ys[0].name
    ensures Firsts(xs + ys) == Firsts(xs) + Firsts(ys)
    decreases |ys|
  {
    if ys == [] {
      assert xs + ys == xs;
    } else {
      hide Firsts, NewName;
      var front := ys[..|ys| - 1];
      var last := ys[|ys| - 1];
      SnocApart(xs, ys);
      FirstsConcat(xs, front);
      FirstsSnoc(xs + front, last);
      FirstsSnoc(front, last);
      NewNameSame(xs, front, last);
      Associate(Firsts(xs), Firsts(front), NewName(front, last));
    }
  }

  /** A name has one first entry, if it has any. */
  lemma {:induction false} OneFirst<T>(xs: seq<Dated<T>>, name: string)
    requires SortedByName(xs)
    ensures |Picked(Firsts(xs), name)| == if Picked(xs, name) == [] then 0 else 1
    decreases |xs|
  {
    if xs != [] {
      hide Less, Picked, Firsts, Lower, Upper, NewName, SortedByName;
      var front := xs[..|xs| - 1];
      var last := xs[|xs| - 1];
      assert xs == front + [last];
      SortedFront(xs);
      OneFirst(front, name);
      FirstsSnoc(front, last);
      PickedConcat(front, [last], name);
      PickedConcat(Firsts(front), NewName(front, last), name);
      PickedOne(last, name);
      PickedNewName(front, last, name);
      if last.name == name && front != [] {
        if front[|front| - 1].name == name {
          PickedThere(front, |front| - 1, name);
        } else {
          NotBeforeGreater(front, name);
        }
      }
    }
  }

  lemma SortedFront<T>(xs: seq<Dated<T>>)
    requires SortedByName(xs) && xs != []
    ensures SortedByName(xs[..|xs| - 1])
    ensures |xs| > 1 ==> !Less(xs[|xs| - 1].name, xs[|xs| - 2].name)
  {
    hide Less;
  }

  lemma PickedThere<T>(xs: seq<Dated<T>>, i: nat, name: string)
    requires i < |xs| && xs[i].name == name
    ensures Picked(xs, name) != []
  {
    hide Picked;
    if Picked(xs, name) == [] { NotPicked(xs, name, i); }
  }

  lemma PickedNewName<T>(front: seq<Dated<T>>, e: Dated<T>, name: string)
    ensures |Picked(NewName(front, e), name)|
         == if e.name != name || (front != [] && front[|front| - 1].name == name) then 0 else 1
  {
  }

  /** If the last entry is less than a name, no entry has that name. */
  lemma NotBeforeGreater<T>(xs: seq<Dated<T>>, name: string)
    requires SortedByName(xs) && xs != []
    requires !Less(name, xs[|xs| - 1].name) && xs[|xs| - 1].name != name
    ensures Picked(xs, name) == []
  {
    hide Less, Picked, Lower, Upper;
    RangeOf(xs, name);
    var hi := Upper(xs, name);
    if hi < |xs| { GreaterThen(xs, name, |xs| - 1); }
  }

  lemma {:induction false} PickedInserted<T>(e: Dated<T>, xs: seq<Dated<T>>, name: string)
    ensures |Picked(Insert(OrderOf<T>, e, xs), name)| == |Picked([e] + xs, name)|
    decreases |xs|
  {
    if xs != [] && e.order > xs[0].order {
      hide Picked;
      var more := Insert(OrderOf<T>, e, xs[1..]);
      PickedInserted(e, xs[1..], name);
      PickedConcat([xs[0]], more, name);
      PickedConcat([e], xs, name);
      PickedConcat([xs[0]], xs[1..], name);
      PickedConcat([e], xs[1..], name);
      assert xs == [xs[0]] + xs[1..];
    }
  }

  /** Sorting neither loses nor doubles a name. */
  lemma {:induction false} PickedSorted<T>(xs: seq<Dated<T>>, name: string)
    ensures |Picked(SortByOrder(xs), name)| == |Picked(xs, name)|
    decreases |xs|
  {
    if xs != [] {
      hide Picked;
      PickedSorted(xs[1..], name);
      PickedInserted(xs[0], SortByOrder(xs[1..]), name);
      PickedConcat([xs[0]], SortByOrder(xs[1..]), name);
      PickedConcat([xs[0]], xs[1..], name);
      assert xs == [xs[0]] + xs[1..];
    }
  }

  /** How adding an entry changes the names: not at all, or by one that is later than all others. */
  lemma FirstsPlaced<T>(xs: seq<Dated<T>>, e: Dated<T>)
    requires SortedByName(xs) && forall i :: 0 <= i < |xs| ==> xs[i].order < e.order
    ensures Picked(xs, e.name) != [] ==> Firsts(Placed(xs, e)) == Firsts(xs)
    ensures Picked(xs, e.name) == [] ==> SortByOrder(Firsts(Placed(xs, e))) == SortByOrder(Firsts(xs)) + [StampOf(e)]
  {
    hide Less, Picked, Lower, Upper, Firsts, SortByOrder, SortedByName, NewName;
    var front := xs[..Upper(xs, e.name)];
    var back := xs[Upper(xs, e.name)..];
    RangeOf(xs, e.name);
    LessIrreflexive(e.name);
    assert xs == front + back && Placed(xs, e) == (front + [e]) + back;
    if front != [] && back != [] { NamesApart(front, back, e.name); }
    FirstsAround(front, e, back);
    if Picked(xs, e.name) == [] {
      FirstsBefore(front, e.order);
      FirstsBefore(back, e.order);
      LatestComesLast(Firsts(front), StampOf(e), Firsts(back));
    }
  }

  lemma FirstsAround<T>(front: seq<Dated<T>>, e: Dated<T>, back: seq<Dated<T>>)
    requires front != [] && back != [] ==> front[|front| - 1].name != back[0].name
    requires back != [] ==> back[0].name != e.name
    ensures Firsts(front + back) == Firsts(front) + Firsts(back)
    ensures Firsts((front + [e]) + back)
         == if front != [] && front[|front| - 1].name == e.name then Firsts(front) + Firsts(back)
            else Firsts(front) + [StampOf(e)] + Firsts(back)
  {
    hide Firsts, NewName;
    FirstsSnoc(front, e);
    NewNameIs(front, e);
    FirstsConcat(front + [e], back);
    FirstsConcat(front, back);
    assert Firsts(front) + [] == Firsts(front);
  }

  lemma NamesApart<T>(front: seq<Dated<T>>, back: seq<Dated<T>>, name: string)
    requires front != [] && back != [] && !Less(name, front[|front| - 1].name) && Less(name, back[0].name)
    ensures front[|front| - 1].name != back[0].name
  {
  }

  lemma {:induction false} FirstsBefore<T>(xs: seq<Dated<T>>, order: nat)
    requires AllBefore(xs, order)
    ensures AllBefore(Firsts(xs), order)
    decreases |xs|
  {
    if xs != [] { FirstsBefore(xs[..|xs| - 1], order); }
  }

  // ------------------------------------------------------------------ adding a value

  lemma {:induction false} ListKeysSame(stamps: seq<Stamp>, xs: seq<KeyEntry>, ys: seq<KeyEntry>)
    requires forall i :: 0 <= i < |stamps| ==> Picked(xs, stamps[i].name) == Picked(ys, stamps[i].name)
    ensures ListKeys(stamps, xs) == ListKeys(stamps, ys)
    decreases |stamps|
  {
    hide Picked, ItemsOf;
    if stamps != [] { ListKeysSame(stamps[1..], xs, ys); }
  }

  lemma {:induction false} NotPicked<T>(xs: seq<Dated<T>>, name: string, i: nat)
    requires i < |xs| && Picked(xs, name) == []
    ensures xs[i].name != name
    decreases |xs|
  {
    if i > 0 { NotPicked(xs[1..], name, i - 1); }
  }

  lemma {:induction false} ItemsSnoc(xs: seq<KeyEntry>, e: KeyEntry)
    ensures ItemsOf(xs + [e]) == ItemsOf(xs) + [e.item]
  {
  }

  /** One more value of a key that is there. */
  lemma {:induction false} ListKeysMore(stamps: seq<Stamp>, xs: seq<KeyEntry>, ys: seq<KeyEntry>, e: KeyEntry)
    requires |Picked(stamps, e.name)| == 1
    requires forall k :: Picked(ys, k) == if k == e.name then Picked(xs, k) + [e] else Picked(xs, k)
    ensures ListKeys(stamps, ys) == AddValue(ListKeys(stamps, xs), e.name, e.item)
    decreases |stamps|
  {
    hide Picked, ItemsOf;
    PickedNothing<()>(e.name);
    PickedCons(stamps, e.name);
    if stamps[0].name == e.name {
      assert Picked(stamps[1..], e.name) == [];
      forall i | 0 <= i < |stamps[1..]|
        ensures stamps[1..][i].name != e.name
      {
        NotPicked(stamps[1..], e.name, i);
      }
      ListKeysSame(stamps[1..], xs, ys);
      ItemsSnoc(Picked(xs, e.name), e);
    } else {
      ListKeysMore(stamps[1..], xs, ys, e);
    }
  }

  lemma PickedNothing<T>(name: string)
    ensures Picked<T>([], name) == []
  {
  }

  lemma {:induction false} ListKeysConcat(a: seq<Stamp>, b: seq<Stamp>, xs: seq<KeyEntry>)
    ensures ListKeys(a + b, xs) == ListKeys(a, xs) + ListKeys(b, xs)
    decreases |a|
  {
    if a == [] {
      assert a + b == b;
    } else {
      assert (a + b)[1..] == a[1..] + b;
      ListKeysConcat(a[1..], b, xs);
    }
  }

  lemma {:induction false} ListKeysNames(stamps: seq<Stamp>, xs: seq<KeyEntry>)
    ensures |ListKeys(stamps, xs)| == |stamps|
    ensures forall i :: 0 <= i < |stamps| ==> ListKeys(stamps, xs)[i].name == stamps[i].name
    decreases |stamps|
  {
    hide ItemsOf, Picked;
    if stamps != [] { ListKeysNames(stamps[1..], xs); }
  }

  lemma NonePicked<T>(xs: seq<Dated<T>>, name: string)
    requires Picked(xs, name) == []
    ensures forall i :: 0 <= i < |xs| ==> xs[i].name != name
  {
    hide Picked;
    forall i | 0 <= i < |xs|
      ensures xs[i].name != name
    {
      NotPicked(xs, name, i);
    }
  }

  lemma ListKeysOne(stamp: Stamp, xs: seq<KeyEntry>)
    ensures ListKeys([stamp], xs) == [Key(stamp.name, ItemsOf(Picked(xs, stamp.name)))]
  {
    hide Picked;
  }

  /** A section's keys after a value has been added: the document's own way of adding one. */
  lemma KeysOfPlaced(xs: seq<KeyEntry>, e: KeyEntry)
    requires SortedByName(xs) && forall i :: 0 <= i < |xs| ==> xs[i].order < e.order
    ensures KeysOf(Placed(xs, e)) == AddValue(KeysOf(xs), e.name, e.item)
  {
    hide Picked, Firsts, SortByOrder, SortedByName, AddValue, ListKeys, Placed;
    var stamps := SortByOrder(Firsts(xs));
    var ys := Placed(xs, e);
    OneFirst(xs, e.name);
    PickedSorted(Firsts(xs), e.name);
    FirstsPlaced(xs, e);
    forall k
      ensures Picked(ys, k) == if k == e.name then Picked(xs, k) + [e] else Picked(xs, k)
    {
      PickedPlaced(xs, e, k);
    }
    if Picked(xs, e.name) != [] {
      ListKeysMore(stamps, xs, ys, e);
    } else {
      NonePicked(stamps, e.name);
      ListKeysConcat(stamps, [StampOf(e)], ys);
      ListKeysSame(stamps, xs, ys);
      assert [] + [e] == [e];
      ListKeysOne(StampOf(e), ys);
      assert ItemsOf([e]) == [e.item];
      ListKeysNames(stamps, xs);
      AddValueNew(ListKeys(stamps, xs), e.name, e.item);
    }
  }

  // ------------------------------------------------------------------ adding a section

  lemma {:induction false} ListSectionsSame(stamps: seq<Stamp>, xs: seq<SectionEntry>, ys: seq<SectionEntry>)
    requires forall i :: 0 <= i < |stamps| ==> Picked(xs, stamps[i].name) == Picked(ys, stamps[i].name)
    ensures ListSections(stamps, xs) == ListSections(stamps, ys)
    decreases |stamps|
  {
    hide Picked, KeysOf;
    if stamps != [] { ListSectionsSame(stamps[1..], xs, ys); }
  }

  lemma {:induction false} ListSectionsConcat(a: seq<Stamp>, b: seq<Stamp>, xs: seq<SectionEntry>)
    ensures ListSections(a + b, xs) == ListSections(a, xs) + ListSections(b, xs)
    decreases |a|
  {
    hide SectionItem, KeysOf;
    if a == [] {
      assert a + b == b;
    } else {
      assert (a + b)[1..] == a[1..] + b;
      ListSectionsConcat(a[1..], b, xs);
    }
  }

  lemma {:induction false} ListSectionsNames(stamps: seq<Stamp>, xs: seq<SectionEntry>)
    ensures |ListSections(stamps, xs)| == |stamps|
    ensures forall i :: 0 <= i < |stamps| ==> ListSections(stamps, xs)[i].name == stamps[i].name
    decreases |stamps|
  {
    hide SectionItem, KeysOf;
    if stamps != [] { ListSectionsNames(stamps[1..], xs); }
  }

  lemma ListSectionsOne(stamp: Stamp, sections: seq<SectionEntry>)
    ensures ListSections([stamp], sections) == [Section(stamp.name, KeysOf(SectionItem(sections, stamp.name)))]
  {
    hide SectionItem, KeysOf;
  }

  lemma NoKeys()
    ensures KeysOf([]) == []
  {
  }

  /** A new section comes last. */
  lemma ListedPlaced(sections: seq<SectionEntry>, e: SectionEntry)
    requires SortedByName(sections) && forall i :: 0 <= i < |sections| ==> sections[i].order < e.order
    requires Picked(sections, e.name) == [] && e.item == []
    ensures Listed(Placed(sections, e)) == Add(Listed(sections), e.name, IniText.Header(e.name))
  {
    hide Picked, Firsts, SortByOrder, SortedByName, Add, ListSections, Placed;
    var stamps := SortByOrder(Firsts(sections));
    var ys := Placed(sections, e);
    OneFirst(sections, e.name);
    PickedSorted(Firsts(sections), e.name);
    FirstsPlaced(sections, e);
    NonePicked(stamps, e.name);
    forall k
      ensures Picked(ys, k) == if k == e.name then Picked(sections, k) + [e] else Picked(sections, k)
    {
      PickedPlaced(sections, e, k);
    }
    ListSectionsConcat(stamps, [StampOf(e)], ys);
    ListSectionsSame(stamps, sections, ys);
    assert [] + [e] == [e];
    ListSectionsOne(StampOf(e), ys);
    NoKeys();
    ListSectionsNames(stamps, sections);
    AddNew(ListSections(stamps, sections), e.name, IniText.Header(e.name));
  }

  // ------------------------------------------------------------------ adding to a section that is there

  lemma {:induction false} FirstsSame<T>(xs: seq<Dated<T>>, ys: seq<Dated<T>>)
    requires |xs| == |ys| && forall i :: 0 <= i < |xs| ==> xs[i].name == ys[i].name && xs[i].order == ys[i].order
    ensures Firsts(xs) == Firsts(ys)
    decreases |xs|
  {
    if xs != [] { FirstsSame(xs[..|xs| - 1], ys[..|ys| - 1]); }
  }

  /** Changing the keys of a section that is there. */
  lemma {:induction false} ListSectionsMore(stamps: seq<Stamp>, xs: seq<SectionEntry>, ys: seq<SectionEntry>,
                                            name: string, item: IniText.Item)
    requires |Picked(stamps, name)| == 1
    requires forall k :: k != name ==> Picked(ys, k) == Picked(xs, k)
    requires (var (before, after) := (KeysOf(SectionItem(xs, name)), KeysOf(SectionItem(ys, name)));
              after == if item.Header? then before else AddValue(before, item.key, item.value))
    ensures ListSections(stamps, ys) == Add(ListSections(stamps, xs), name, item)
    decreases |stamps|
  {
    hide Picked, KeysOf, SectionItem, AddValue;
    PickedNothing<()>(name);
    PickedCons(stamps, name);
    if stamps[0].name == name {
      NonePicked(stamps[1..], name);
      ListSectionsSame(stamps[1..], xs, ys);
    } else {
      SectionItemSame(xs, ys, stamps[0].name);
      ListSectionsMore(stamps[1..], xs, ys, name, item);
    }
  }

  lemma SectionItemSame(xs: seq<SectionEntry>, ys: seq<SectionEntry>, name: string)
    requires Picked(xs, name) == Picked(ys, name)
    ensures SectionItem(xs, name) == SectionItem(ys, name)
  {
    hide Picked;
  }

  lemma ListedChanged(sections: seq<SectionEntry>, at: nat, item': seq<KeyEntry>, item: IniText.Item)
    requires SortedByName(sections) && at < |sections|
    requires forall i :: 0 <= i < |sections| && i != at ==> sections[i].name != sections[at].name
    requires KeysOf(item') == if item.Header? then KeysOf(sections[at].item)
                              else AddValue(KeysOf(sections[at].item), item.key, item.value)
    ensures (var e := sections[at];
             Listed(sections[at := Dated(e.name, e.order, item')]) == Add(Listed(sections), e.name, item))
  {
    hide Picked, Firsts, SortByOrder, SortedByName, Add, ListSections, KeysOf, AddValue;
    var e := Dated(sections[at].name, sections[at].order, item');
    var ys := sections[at := e];
    var stamps := SortByOrder(Firsts(sections));
    forall k
      ensures Picked(ys, k) == if k == e.name then [e] else Picked(sections, k)
      ensures Picked(sections, k) == if k == e.name then [sections[at]] else Picked(sections, k)
    {
      PickedChanged(sections, at, e, k);
      PickedChanged(sections, at, sections[at], k);
      assert sections[at := sections[at]] == sections;
    }
    OneFirst(sections, e.name);
    PickedSorted(Firsts(sections), e.name);
    FirstsSame(sections, ys);
    ListSectionsMore(stamps, sections, ys, e.name, item);
  }

  /** Creating the section first makes no difference. */
  lemma {:induction false} AddTwice(doc: Document, section: string, name: string, key: string, value: string)
    ensures Add(Add(doc, section, IniText.Header(name)), section, IniText.Pair(key, value))
         == Add(doc, section, IniText.Pair(key, value))
    decreases |doc|
  {
    if doc == [] {
      assert AddValue([], key, value) == [Key(key, [value])];
    } else if doc[0].name != section {
      AddTwice(doc[1..], section, name, key, value);
    }
  }
}
