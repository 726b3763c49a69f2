/** The order of names, and of entries by when they were loaded. */
module IniOrder {
  import opened StableSort

  /** Strings in the order of their characters; a prefix comes first. */
  predicate Less(a: string, b: string)
  {
    if a == "" || b == "" then a == "" && b != ""
    else if a[0] != b[0] then a[0] < b[0]
    else Less(a[1..], b[1..])
  }

  lemma {:induction false} LessIrreflexive(a: string)
    ensures !Less(a, a)
    decreases |a|
  {
    if a != "" { LessIrreflexive(a[1..]); }
  }

  lemma {:induction false} LessTransitive(a: string, b: string, c: string)
    requires Less(a, b) && Less(b, c)
    ensures Less(a, c)
    decreases |a|
  {
    if a != "" && b != "" && c != "" && a[0] == b[0] == c[0] { LessTransitive(a[1..], b[1..], c[1..]); }
  }

  lemma {:induction false} LessTotal(a: string, b: string)
    ensures a == b || Less(a, b) || Less(b, a)
    decreases |a|
  {
    if a != "" && b != "" && a[0] == b[0] {
      LessTotal(a[1..], b[1..]);
      assert a == [a[0]] + a[1..] && b == [b[0]] + b[1..];
    }
  }

  /** Anything that was loaded at some point and has a name. */
  datatype Dated<T> = Dated(name: string, order: nat, item: T)

  function OrderOf<T>(e: Dated<T>): nat
  {
    e.order
  }

  /** Entries by load order. */
  function SortByOrder<T>(xs: seq<Dated<T>>): seq<Dated<T>>
  {
    Sort(OrderOf<T>, xs)
  }

  ghost predicate AllBefore<T>(xs: seq<Dated<T>>, order: nat)
  {
    forall i :: 0 <= i < |xs| ==> xs[i].order < order
  }

  /** Wherever the latest entry stands, sorting puts it last. */
  lemma LatestComesLast<T>(front: seq<Dated<T>>, e: Dated<T>, back: seq<Dated<T>>)
    requires AllBefore(front, e.order) && AllBefore(back, e.order)
    ensures SortByOrder(front + [e] + back) == SortByOrder(front + back) + [e]
  {
    GreatestComesLast(OrderOf<T>, front, e, back);
  }
}
