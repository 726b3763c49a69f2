/** What the INI store is made of: entries ordered by name, those of one name in the order they were added, each with
    the number that tells when it was loaded. */
module IniEntries {
  import opened Bytes
  import opened IniOrder

  type KeyEntry = Dated<string>
  type SectionEntry = Dated<seq<KeyEntry>>

  // ------------------------------------------------------------------ ordered entries

  ghost predicate SortedByName<T>(xs: seq<Dated<T>>)
  {
    forall i, j :: 0 <= i < j < |xs| ==> !Less(xs[j].name, xs[i].name)
  }

  /** The first place whose name is not less: where the entries of a name begin. */
  function Lower<T>(xs: seq<Dated<T>>, name: string): (n: nat)
    ensures n <= |xs|
    ensures forall i :: 0 <= i < n ==> Less(xs[i].name, name)
    ensures n < |xs| ==> !Less(xs[n].name, name)
  {
    if xs == [] || !Less(xs[0].name, name) then 0 else 1 + Lower(xs[1..], name)
  }

  /** The first place whose name is greater: where another entry of a name is added. */
  function Upper<T>(xs: seq<Dated<T>>, name: string): (n: nat)
    ensures n <= |xs|
    ensures forall i :: 0 <= i < n ==> !Less(name, xs[i].name)
    ensures n < |xs| ==> Less(name, xs[n].name)
  {
    if xs == [] || Less(name, xs[0].name) then 0 else 1 + Upper(xs[1..], name)
  }

  /** The entries of a name, in their order. */
  function Picked<T>(xs: seq<Dated<T>>, name: string): seq<Dated<T>>
  {
    if xs == [] then []
    else (if xs[0].name == name then [xs[0]] else []) + Picked(xs[1..], name)
  }

  lemma PickedCons<T>(xs: seq<Dated<T>>, name: string)
    requires xs != []
    ensures Picked(xs, name) == (if xs[0].name == name then [xs[0]] else []) + Picked(xs[1..], name)
  {
  }

  lemma {:induction false} PickedConcat<T>(xs: seq<Dated<T>>, ys: seq<Dated<T>>, name: string)
    ensures Picked(xs + ys, name) == Picked(xs, name) + Picked(ys, name)
    decreases |xs|
  {
    if xs == [] {
      assert xs + ys == ys;
    } else {
      hide Picked;
      assert (xs + ys)[1..] == xs[1..] + ys;
      PickedConcat(xs[1..], ys, name);
      PickedCons(xs + ys, name);
      PickedCons(xs, name);
      Associate(if xs[0].name == name then [xs[0]] else [], Picked(xs[1..], name), Picked(ys, name));
    }
  }

  lemma {:induction false} PickedNone<T>(xs: seq<Dated<T>>, name: string)
    requires forall i :: 0 <= i < |xs| ==> xs[i].name != name
    ensures Picked(xs, name) == []
    decreases |xs|
  {
    if xs != [] { PickedNone(xs[1..], name); }
  }

  lemma {:induction false} PickedAll<T>(xs: seq<Dated<T>>, name: string)
    requires forall i :: 0 <= i < |xs| ==> xs[i].name == name
    ensures Picked(xs, name) == xs
    decreases |xs|
  {
    if xs != [] { PickedAll(xs[1..], name); }
  }

  lemma NotLessThen<T>(xs: seq<Dated<T>>, name: string, i: nat)
    requires SortedByName(xs) && Lower(xs, name) <= i < |xs|
    ensures !Less(xs[i].name, name)
  {
    hide Less, Lower;
    var lo := Lower(xs, name);
    if i > lo && Less(xs[i].name, name) {
      LessTotal(xs[lo].name, name);
      if xs[lo].name != name { LessTransitive(xs[i].name, name, xs[lo].name); }
    }
  }

  lemma GreaterThen<T>(xs: seq<Dated<T>>, name: string, i: nat)
    requires SortedByName(xs) && Upper(xs, name) <= i < |xs|
    ensures Less(name, xs[i].name)
  {
    hide Less, Upper;
    var hi := Upper(xs, name);
    if i > hi {
      LessTotal(xs[i].name, xs[hi].name);
      if xs[i].name != xs[hi].name { LessTransitive(name, xs[hi].name, xs[i].name); }
    }
  }

  /** In order, the entries of a name lie together. */
  lemma RangeBounds<T>(xs: seq<Dated<T>>, name: string)
    requires SortedByName(xs)
    ensures Lower(xs, name) <= Upper(xs, name)
    ensures forall i :: 0 <= i < |xs| ==> (xs[i].name == name <==> Lower(xs, name) <= i < Upper(xs, name))
  {
    hide Less, Lower, Upper;
    var (lo, hi) := (Lower(xs, name), Upper(xs, name));
    LessIrreflexive(name);
    if hi < lo { NotLessThenGreater(xs[hi].name, name); }
    forall i | 0 <= i < |xs|
      ensures xs[i].name == name <==> lo <= i < hi
    {
      LessTotal(xs[i].name, name);
      if i >= lo { NotLessThen(xs, name, i); }
      if i >= hi { GreaterThen(xs, name, i); }
    }
  }

  lemma NotLessThenGreater(a: string, b: string)
    ensures !(Less(a, b) && Less(b, a))
  {
    hide Less;
    LessIrreflexive(a);
    if Less(a, b) && Less(b, a) { LessTransitive(a, b, a); }
  }

  lemma EqualIsNeitherLess(a: string, b: string)
    ensures a == b <==> !Less(a, b) && !Less(b, a)
  {
    hide Less;
    LessTotal(a, b);
    LessIrreflexive(a);
  }

  lemma RangeOf<T>(xs: seq<Dated<T>>, name: string)
    requires SortedByName(xs)
    ensures Lower(xs, name) <= Upper(xs, name)
    ensures forall i :: 0 <= i < |xs| ==> (xs[i].name == name <==> Lower(xs, name) <= i < Upper(xs, name))
    ensures Picked(xs, name) == xs[Lower(xs, name)..Upper(xs, name)]
  {
    hide Less, Picked, Lower, Upper;
    RangeBounds(xs, name);
    var (lo, hi) := (Lower(xs, name), Upper(xs, name));
    assert xs == xs[..lo] + xs[lo..hi] + xs[hi..];
    PickedConcat(xs[..lo] + xs[lo..hi], xs[hi..], name);
    PickedConcat(xs[..lo], xs[lo..hi], name);
    PickedNone(xs[..lo], name);
    PickedAll(xs[lo..hi], name);
    PickedNone(xs[hi..], name);
  }

  /** Where the containers' insert puts an entry: behind those of its name. */
  function Placed<T>(xs: seq<Dated<T>>, e: Dated<T>): (r: seq<Dated<T>>)
    ensures |r| == |xs| + 1
  {
    var hi := Upper(xs, e.name);
    xs[..hi] + [e] + xs[hi..]
  }

  lemma PlacedSorted<T>(xs: seq<Dated<T>>, e: Dated<T>)
    requires SortedByName(xs)
    ensures SortedByName(Placed(xs, e))
  {
    hide Less, Picked, Upper;
    var hi := Upper(xs, e.name);
    var ys := Placed(xs, e);
    forall i, j | 0 <= i < j < |ys|
      ensures !Less(ys[j].name, ys[i].name)
    {
      if i == hi {
        GreaterThen(xs, e.name, j - 1);
        NotLessThenGreater(e.name, ys[j].name);
      }
    }
  }

  /** What adding one does to the entries of each name. */
  lemma PickedPlaced<T>(xs: seq<Dated<T>>, e: Dated<T>, name: string)
    requires SortedByName(xs)
    ensures Picked(Placed(xs, e), name) == if name == e.name then Picked(xs, name) + [e] else Picked(xs, name)
  {
    hide Less, Picked, Upper;
    var at := Upper(xs, e.name);
    PickedConcat(xs[..at] + [e], xs[at..], name);
    PickedConcat(xs[..at], [e], name);
    PickedConcat(xs[..at], xs[at..], name);
    assert xs == xs[..at] + xs[at..];
    PickedOne(e, name);
    if name == e.name {
      RangeOf(xs, e.name);
      PickedNone(xs[at..], name);
    }
  }

  lemma PickedOne<T>(e: Dated<T>, name: string)
    ensures Picked([e], name) == if e.name == name then [e] else []
  {
  }

  // ------------------------------------------------------------------ one section's entries

  /** In name order, and the values of one key in the order they were loaded. */
  ghost predicate EntriesOk(xs: seq<KeyEntry>, order: nat, multiKey: bool)
  {
    && SortedByName(xs)
    && (forall i :: 0 <= i < |xs| ==> xs[i].order <= order)
    && (forall i, j :: 0 <= i < j < |xs| && xs[i].name == xs[j].name ==> multiKey && xs[i].order < xs[j].order)
  }

  /** The values of a key after an entry has been added under the load number `n`. */
  function NewValues(multiKey: bool, force: bool, vs: seq<KeyEntry>, key: string, value: string, n: nat): seq<KeyEntry>
  {
    if vs == [] then [Dated(key, n, value)]
    else if multiKey && !force then vs + [Dated(key, n, value)]
    else [Dated(key, vs[0].order, value)]
  }

  /** Looks through the values of a key for the smallest load number, starting at its first. */
  method FirstOrder(xs: seq<KeyEntry>, key: string, lo: nat, n: nat) returns (order: nat)
    requires n > 0 && EntriesOk(xs, n - 1, true) && lo == Lower(xs, key) < |xs| && xs[lo].name == key
    ensures order == xs[lo].order
  {
    hide Less, Lower, Upper;
    RangeBounds(xs, key);
    order := n;
    var i := lo;
    while i < |xs| && !Less(key, xs[i].name)
      invariant lo <= i <= Upper(xs, key)
      invariant order == if i == lo then n else xs[lo].order
    {
      UpperIs(xs, key, i);
      if xs[i].order < order {
        order := xs[i].order;
      }
      i := i + 1;
    }
    LessIrreflexive(key);
  }

  lemma UpperIs<T>(xs: seq<Dated<T>>, name: string, i: nat)
    requires SortedByName(xs) && i < |xs| && i <= Upper(xs, name)
    ensures Less(name, xs[i].name) <==> i == Upper(xs, name)
  {
  }

  /** The entries that keep their place when those with a given value, or all, are taken out. */
  function Kept(xs: seq<KeyEntry>, value: Option<string>): (r: seq<KeyEntry>)
    ensures |r| <= |xs|
  {
    if xs == [] then []
    else (if value == None || xs[0].item == value.value then [] else [xs[0]]) + Kept(xs[1..], value)
  }

  lemma {:induction false} KeptSnoc(xs: seq<KeyEntry>, e: KeyEntry, value: Option<string>)
    ensures Kept(xs + [e], value)
         == Kept(xs, value) + if value == None || e.item == value.value then [] else [e]
    decreases |xs|
  {
    if xs == [] {
      assert xs + [e] == [e];
    } else {
      hide Kept;
      var last := if value == None || e.item == value.value then [] else [e];
      KeptSnoc(xs[1..], e, value);
      assert xs == [xs[0]] + xs[1..] && xs + [e] == [xs[0]] + (xs[1..] + [e]);
      KeptCons(xs[0], xs[1..], value);
      KeptCons(xs[0], xs[1..] + [e], value);
      Associate(if value == None || xs[0].item == value.value then [] else [xs[0]], Kept(xs[1..], value), last);
    }
  }

  /** The entries while values are being erased: those from `lo` to `seen` have been looked at. */
  function Erased(xs: seq<KeyEntry>, value: Option<string>, lo: nat, seen: nat): seq<KeyEntry>
    requires lo <= seen <= |xs|
  {
    xs[..lo] + Kept(xs[lo..seen], value) + xs[seen..]
  }

  lemma EraseOne(xs: seq<KeyEntry>, value: Option<string>, lo: nat, seen: nat)
    requires lo <= seen < |xs|
    ensures (var (i, now, kept) := (lo + |Kept(xs[lo..seen], value)|, Erased(xs, value, lo, seen),
                                Kept(xs[lo..seen + 1], value));
             var gone := value == None || xs[seen].item == value.value;
             && i < |now| && now[i] == xs[seen]
             && Erased(xs, value, lo, seen + 1) == (if gone then now[..i] + now[i + 1..] else now)
             && |kept| == |Kept(xs[lo..seen], value)| + if gone then 0 else 1)
  {
    hide Kept;
    KeptSnoc(xs[lo..seen], xs[seen], value);
    assert xs[lo..seen] + [xs[seen]] == xs[lo..seen + 1];
    assert xs[seen..] == [xs[seen]] + xs[seen + 1..];
  }

  lemma ErasedNone(xs: seq<KeyEntry>, value: Option<string>, lo: nat)
    requires lo <= |xs|
    ensures Erased(xs, value, lo, lo) == xs && |Kept(xs[lo..lo], value)| == 0
  {
    assert xs == xs[..lo] + xs[lo..];
  }

  /** The entries without those of a key, or without those of one of its values. */
  function Without(xs: seq<KeyEntry>, key: string, value: Option<string>): seq<KeyEntry>
  {
    if xs == [] then []
    else if xs[0].name == key then Kept([xs[0]], value) + Without(xs[1..], key, value)
    else [xs[0]] + Without(xs[1..], key, value)
  }

  lemma {:induction false} WithoutConcat(xs: seq<KeyEntry>, ys: seq<KeyEntry>, key: string, value: Option<string>)
    ensures Without(xs + ys, key, value) == Without(xs, key, value) + Without(ys, key, value)
    decreases |xs|
  {
    hide Kept;
    if xs == [] {
      assert xs + ys == ys;
    } else {
      assert (xs + ys)[1..] == xs[1..] + ys;
      WithoutConcat(xs[1..], ys, key, value);
    }
  }

  lemma {:induction false} WithoutOther(xs: seq<KeyEntry>, key: string, value: Option<string>)
    requires forall i :: 0 <= i < |xs| ==> xs[i].name != key
    ensures Without(xs, key, value) == xs
    decreases |xs|
  {
    if xs != [] { WithoutOther(xs[1..], key, value); }
  }

  lemma {:induction false} WithoutOwn(xs: seq<KeyEntry>, key: string, value: Option<string>)
    requires forall i :: 0 <= i < |xs| ==> xs[i].name == key
    ensures Without(xs, key, value) == Kept(xs, value)
    decreases |xs|
  {
    if xs != [] {
      WithoutOwn(xs[1..], key, value);
      KeptOne(xs[0], value);
    }
  }

  lemma KeptOne(e: KeyEntry, value: Option<string>)
    ensures Kept([e], value) == if value == None || e.item == value.value then [] else [e]
  {
  }

  lemma ErasedIsWithout(xs: seq<KeyEntry>, key: string, value: Option<string>)
    requires SortedByName(xs)
    ensures Lower(xs, key) <= Upper(xs, key)
    ensures Erased(xs, value, Lower(xs, key), Upper(xs, key)) == Without(xs, key, value)
  {
    hide Less, Lower, Upper, Kept, Without, SortedByName;
    RangeBounds(xs, key);
    var lo := Lower(xs, key);
    var hi := Upper(xs, key);
    assert xs == xs[..lo] + xs[lo..hi] + xs[hi..];
    WithoutConcat(xs[..lo] + xs[lo..hi], xs[hi..], key, value);
    WithoutConcat(xs[..lo], xs[lo..hi], key, value);
    WithoutOther(xs[..lo], key, value);
    WithoutOwn(xs[lo..hi], key, value);
    WithoutOther(xs[hi..], key, value);
  }

  lemma WithoutOne(e: KeyEntry, key: string, value: Option<string>)
    ensures Without([e], key, value) == if e.name == key && (value == None || e.item == value.value) then [] else [e]
  {
  }

  lemma WithoutCons(xs: seq<KeyEntry>, key: string, value: Option<string>)
    requires xs != []
    ensures (var rest := Without(xs[1..], key, value);
             Without(xs, key, value)
             == if xs[0].name == key && (value == None || xs[0].item == value.value) then rest else [xs[0]] + rest)
  {
    KeptOne(xs[0], value);
  }

  lemma KeptCons(e: KeyEntry, xs: seq<KeyEntry>, value: Option<string>)
    ensures Kept([e] + xs, value) == (if value == None || e.item == value.value then [] else [e]) + Kept(xs, value)
  {
  }

  /** Taking out values of a key leaves the other keys alone. */
  lemma {:induction false} PickedWithout(xs: seq<KeyEntry>, key: string, value: Option<string>, name: string)
    ensures Picked(Without(xs, key, value), name)
      == if name == key then Kept(Picked(xs, key), value) else Picked(xs, name)
    decreases |xs|
  {
    if xs != [] {
      hide Kept, Without, Picked;
      var (one, rest) := (Without([xs[0]], key, value), Without(xs[1..], key, value));
      PickedWithout(xs[1..], key, value, name);
      WithoutConcat([xs[0]], xs[1..], key, value);
      assert xs == [xs[0]] + xs[1..];
      WithoutOne(xs[0], key, value);
      PickedConcat(one, rest, name);
      PickedConcat([xs[0]], xs[1..], name);
      PickedOne(xs[0], name);
      KeptCons(xs[0], Picked(xs[1..], key), value);
      assert [] + rest == rest && [] + Picked(rest, name) == Picked(rest, name);
      assert [] + Picked(xs[1..], name) == Picked(xs[1..], name);
    }
  }

  /** An entry may stand in front of another. */
  ghost predicate MayPrecede(a: KeyEntry, b: KeyEntry, multiKey: bool)
  {
    !Less(b.name, a.name) && (a.name == b.name ==> multiKey && a.order < b.order)
  }

  lemma TailOk(xs: seq<KeyEntry>, order: nat, multiKey: bool)
    requires EntriesOk(xs, order, multiKey) && xs != []
    ensures EntriesOk(xs[1..], order, multiKey) && xs[0].order <= order
    ensures forall e :: e in xs[1..] ==> MayPrecede(xs[0], e, multiKey)
  {
    hide Less;
    var ys := xs[1..];
    assert forall i :: 0 <= i < |ys| ==> ys[i] == xs[i + 1];
  }

  lemma HeadOk(e: KeyEntry, xs: seq<KeyEntry>, order: nat, multiKey: bool)
    requires EntriesOk(xs, order, multiKey) && e.order <= order
    requires forall x :: x in xs ==> MayPrecede(e, x, multiKey)
    ensures EntriesOk([e] + xs, order, multiKey)
  {
    hide Less;
    var ys := [e] + xs;
    assert forall i :: 0 < i < |ys| ==> ys[i] == xs[i - 1] && ys[i] in xs;
  }

  lemma {:induction false} WithoutOk(xs: seq<KeyEntry>, key: string, value: Option<string>, order: nat, multiKey: bool)
    requires EntriesOk(xs, order, multiKey)
    ensures EntriesOk(Without(xs, key, value), order, multiKey)
    ensures forall e :: e in Without(xs, key, value) ==> e in xs
    decreases |xs|
  {
    if xs != [] {
      hide Kept, EntriesOk, MayPrecede, Without;
      TailOk(xs, order, multiKey);
      WithoutOk(xs[1..], key, value, order, multiKey);
      WithoutCons(xs, key, value);
      HeadOk(xs[0], Without(xs[1..], key, value), order, multiKey);
    }
  }

  /** Erases the matching values of a key, one after the other, from its first on. */
  method EraseValues(xs0: seq<KeyEntry>, key: string, value: Option<string>, lo: nat)
    returns (xs: seq<KeyEntry>, deleted: bool)
    requires SortedByName(xs0) && lo == Lower(xs0, key) < Upper(xs0, key)
    ensures xs == Without(xs0, key, value)
    ensures deleted <==> |Kept(Picked(xs0, key), value)| < |Picked(xs0, key)|
  {
    hide Less, Lower, Upper, Kept, Erased, Without, Picked, SortedByName;
    ghost var hi := Upper(xs0, key);
    xs, deleted := xs0, false;
    var i: nat, first := lo, true;
    ghost var seen := lo;
    ErasedNone(xs0, value, lo);
    while first || (i < |xs| && !Less(key, xs[i].name))
      invariant first ==> seen == lo
      invariant lo <= seen <= hi && i == lo + |Kept(xs0[lo..seen], value)| && i <= seen
      invariant xs == Erased(xs0, value, lo, seen) && |xs| == |xs0| - (seen - i)
      invariant deleted <==> |Kept(xs0[lo..seen], value)| < seen - lo
      decreases |xs0| - seen
    {
      EraseOne(xs0, value, lo, seen);
      UpperIs(xs0, key, seen);
      first := false;
      if value.Some? { EqualIsNeitherLess(value.value, xs[i].item); }
      if value == None || (!Less(value.value, xs[i].item) && !Less(xs[i].item, value.value)) {
        xs := xs[..i] + xs[i + 1..];
        deleted := true;
      } else {
        i := i + 1;
      }
      seen := seen + 1;
    }
    if seen < |xs0| {
      EraseOne(xs0, value, lo, seen);
      UpperIs(xs0, key, seen);
    }
    ErasedIsWithout(xs0, key, value);
    RangeOf(xs0, key);
  }

  lemma {:induction false} NoneKept(xs: seq<KeyEntry>)
    ensures Kept(xs, None) == []
    decreases |xs|
  {
    if xs != [] { NoneKept(xs[1..]); }
  }

  /** What the containers' find says. */
  lemma LookedUp(xs: seq<KeyEntry>, key: string, order: nat, multiKey: bool)
    requires EntriesOk(xs, order, multiKey)
    ensures (var (at, vs) := (Lower(xs, key), Picked(xs, key));
             && SortedByName(xs)
             && (vs != [] <==> at < |xs| && xs[at].name == key)
             && (vs != [] ==> at < Upper(xs, key) && vs[0] == xs[at])
             && (!multiKey ==> |vs| <= 1))
  {
    hide Less, Picked, Lower, Upper;
    RangeOf(xs, key);
    var (lo, hi) := (Lower(xs, key), Upper(xs, key));
    if hi - lo >= 2 { assert xs[lo].name == xs[lo + 1].name; }
  }

  lemma PlacedOk(xs: seq<KeyEntry>, e: KeyEntry, order: nat, multiKey: bool)
    requires order > 0 && EntriesOk(xs, order - 1, multiKey) && e.order <= order
    requires Picked(xs, e.name) == [] || (multiKey && e.order == order)
    ensures EntriesOk(Placed(xs, e), order, multiKey)
    ensures forall k :: Picked(Placed(xs, e), k) == if k == e.name then Picked(xs, k) + [e] else Picked(xs, k)
  {
    hide Less, Picked, Lower, Upper, EntriesOk;
    assert SortedByName(xs) by { EntriesSorted(xs, order - 1, multiKey); }
    RangeOf(xs, e.name);
    PlacedSorted(xs, e);
    PlacedApart(xs, Upper(xs, e.name), e, order, multiKey);
    forall k
      ensures Picked(Placed(xs, e), k) == if k == e.name then Picked(xs, k) + [e] else Picked(xs, k)
    {
      PickedPlaced(xs, e, k);
    }
  }

  lemma EntriesSorted(xs: seq<KeyEntry>, order: nat, multiKey: bool)
    requires EntriesOk(xs, order, multiKey)
    ensures SortedByName(xs)
  {
  }

  lemma PlacedApart(xs: seq<KeyEntry>, at: nat, e: KeyEntry, order: nat, multiKey: bool)
    requires order > 0 && EntriesOk(xs, order - 1, multiKey) && e.order <= order && at <= |xs|
    requires SortedByName(xs[..at] + [e] + xs[at..])
    requires forall i :: 0 <= i < |xs| && xs[i].name == e.name ==> i < at && multiKey && e.order == order
    ensures EntriesOk(xs[..at] + [e] + xs[at..], order, multiKey)
  {
    hide SortedByName;
    var ys := xs[..at] + [e] + xs[at..];
    assert forall i :: 0 <= i < |ys| ==> ys[i] == if i < at then xs[i] else if i == at then e else xs[i - 1];
  }

  lemma ChangedOk(xs: seq<KeyEntry>, at: nat, value: string, order: nat, multiKey: bool)
    requires order > 0 && EntriesOk(xs, order - 1, multiKey) && !multiKey && at < |xs|
    ensures (var ys := xs[at := Dated(xs[at].name, xs[at].order, value)];
             && EntriesOk(ys, order, multiKey)
             && forall k :: Picked(ys, k) == if k == xs[at].name then [ys[at]] else Picked(xs, k))
  {
    hide Less, Picked;
    var ys := xs[at := Dated(xs[at].name, xs[at].order, value)];
    assert forall i :: 0 <= i < |xs| ==> ys[i].name == xs[i].name && ys[i].order == xs[i].order;
    forall k
      ensures Picked(ys, k) == if k == xs[at].name then [ys[at]] else Picked(xs, k)
    {
      PickedChanged(xs, at, ys[at], k);
    }
  }

  /** Changing an entry whose name no other has. */
  lemma PickedChanged<T>(xs: seq<Dated<T>>, at: nat, e: Dated<T>, name: string)
    requires at < |xs| && e.name == xs[at].name
    requires forall i :: 0 <= i < |xs| && i != at ==> xs[i].name != e.name
    ensures Picked(xs[at := e], name) == if name == e.name then [e] else Picked(xs, name)
  {
    hide Picked;
    var (front, back) := (xs[..at], xs[at + 1..]);
    assert xs == front + [xs[at]] + back && xs[at := e] == front + [e] + back;
    PickedConcat(front + [e], back, name);
    PickedConcat(front, [e], name);
    PickedConcat(front + [xs[at]], back, name);
    PickedConcat(front, [xs[at]], name);
    PickedOne(e, name);
    PickedOne(xs[at], name);
    if name == e.name {
      PickedNone(front, name);
      PickedNone(back, name);
    }
  }

  /** Adding a value to a section's entries, as a new one or instead of the ones there were. */
  method AddToSection(xs: seq<KeyEntry>, multiKey: bool, force: bool, key: string, value: string, order: nat)
    returns (ys: seq<KeyEntry>, inserted: bool)
    requires order > 0 && EntriesOk(xs, order - 1, multiKey)
    ensures EntriesOk(ys, order, multiKey)
    ensures inserted <==> Picked(xs, key) == []
    ensures forall k ::
      Picked(ys, k)
      == if k == key then NewValues(multiKey, force, Picked(xs, k), key, value, order) else Picked(xs, k)
    ensures multiKey && !force ==> ys == Placed(xs, Dated(key, order, value))
  {
    hide Less, Picked, Lower, Upper, Without, Kept, Placed, SortedByName;
    var (at, number) := (Lower(xs, key), order);
    ys := xs;
    LookedUp(xs, key, order - 1, multiKey);
    var found := at < |xs| && xs[at].name == key;
    inserted := !found;
    if found && multiKey && force {
      number := FirstOrder(xs, key, at, order);
      var deleted;
      ys, deleted := EraseValues(xs, key, None, at);
      WithoutOk(xs, key, None, order - 1, multiKey);
      NoneKept(Picked(xs, key));
      forall k
        ensures Picked(ys, k) == if k == key then [] else Picked(xs, k)
      {
        PickedWithout(xs, key, None, k);
      }
      found := false;
    }
    if !found || (multiKey && !force) {
      PlacedOk(ys, Dated(key, number, value), order, multiKey);
      ys := Placed(ys, Dated(key, number, value));
    } else {
      ys := xs[at := Dated(key, xs[at].order, value)];
      ChangedOk(xs, at, value, order, multiKey);
    }
  }
}
