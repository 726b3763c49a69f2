/** The library's stable sort: ordered by a key, entries with the same key in the order they came. */
module StableSort {
  /** Puts an entry in front of the first that is not less. */
  function Insert<T>(key: T -> nat, e: T, xs: seq<T>): (r: seq<T>)
    ensures |r| == |xs| + 1
  {
    if xs == [] || key(e) <= key(xs[0]) then [e] + xs else [xs[0]] + Insert(key, e, xs[1..])
  }

  function Sort<T>(key: T -> nat, xs: seq<T>): (r: seq<T>)
    ensures |r| == |xs|
  {
    if xs == [] then [] else Insert(key, xs[0], Sort(key, xs[1..]))
  }

  ghost predicate Ordered<T>(key: T -> nat, xs: seq<T>)
  {
    forall i, j :: 0 <= i < j < |xs| ==> key(xs[i]) <= key(xs[j])
  }

  /** The entries with one key, in their order. */
  function WithKey<T>(key: T -> nat, xs: seq<T>, k: nat): seq<T>
  {
    if xs == [] then [] else (if key(xs[0]) == k then [xs[0]] else []) + WithKey(key, xs[1..], k)
  }

  // ------------------------------------------------------------------ what sorting does

  /** No entry is less than a key. */
  ghost predicate NotBelow<T>(key: T -> nat, k: nat, xs: seq<T>)
  {
    forall i :: 0 <= i < |xs| ==> k <= key(xs[i])
  }

  lemma OrderedCons<T>(key: T -> nat, xs: seq<T>)
    requires xs != []
    ensures Ordered(key, xs) <==> NotBelow(key, key(xs[0]), xs[1..]) && Ordered(key, xs[1..])
  {
    assert forall i :: 0 < i < |xs| ==> xs[i] == xs[1..][i - 1];
  }

  lemma {:induction false} InsertOrdered<T>(key: T -> nat, e: T, xs: seq<T>, k: nat)
    requires Ordered(key, xs) && NotBelow(key, k, xs) && k <= key(e)
    ensures Ordered(key, Insert(key, e, xs)) && NotBelow(key, k, Insert(key, e, xs))
    decreases |xs|
  {
    hide Ordered;
    var r := Insert(key, e, xs);
    OrderedCons(key, r);
    if xs == [] || key(e) <= key(xs[0]) {
      if xs != [] { OrderedCons(key, xs); }
      assert r[1..] == xs;
    } else {
      OrderedCons(key, xs);
      InsertOrdered(key, e, xs[1..], key(xs[0]));
      assert r[1..] == Insert(key, e, xs[1..]);
    }
  }

  lemma {:induction false} InsertStable<T>(key: T -> nat, e: T, xs: seq<T>, k: nat)
    ensures WithKey(key, Insert(key, e, xs), k) == (if key(e) == k then [e] else []) + WithKey(key, xs, k)
    decreases |xs|
  {
    hide WithKey;
    var r := Insert(key, e, xs);
    WithKeyCons(key, r, k);
    if xs == [] || key(e) <= key(xs[0]) {
      assert r[1..] == xs;
    } else {
      assert r[1..] == Insert(key, e, xs[1..]);
      InsertStable(key, e, xs[1..], k);
      WithKeyCons(key, xs, k);
      OneOfTwo(if key(e) == k then [e] else [], if key(xs[0]) == k then [xs[0]] else [], WithKey(key, xs[1..], k));
    }
  }

  /** Of two neighbours of which at most one is there it does not matter which comes first. */
  lemma OneOfTwo<T>(a: seq<T>, b: seq<T>, c: seq<T>)
    requires a == [] || b == []
    ensures b + (a + c) == a + (b + c)
  {
    assert [] + c == c && [] + (a + c) == a + c && [] + (b + c) == b + c;
  }

  lemma {:induction false} InsertKeepsAll<T>(key: T -> nat, e: T, xs: seq<T>)
    ensures multiset(Insert(key, e, xs)) == multiset(xs) + multiset{e}
    decreases |xs|
  {
    if xs != [] && key(e) > key(xs[0]) {
      InsertKeepsAll(key, e, xs[1..]);
      assert xs == [xs[0]] + xs[1..];
    }
  }

  /** Sorting orders the entries and keeps all of them. */
  lemma {:induction false} SortOrders<T>(key: T -> nat, xs: seq<T>)
    ensures Ordered(key, Sort(key, xs)) && multiset(Sort(key, xs)) == multiset(xs)
    decreases |xs|
  {
    if xs != [] {
      SortOrders(key, xs[1..]);
      InsertOrdered(key, xs[0], Sort(key, xs[1..]), 0);
      InsertKeepsAll(key, xs[0], Sort(key, xs[1..]));
      assert xs == [xs[0]] + xs[1..];
    }
  }

  /** Entries with the same key stay in the order they came. */
  lemma {:induction false} SortStable<T>(key: T -> nat, xs: seq<T>, k: nat)
    ensures WithKey(key, Sort(key, xs), k) == WithKey(key, xs, k)
    decreases |xs|
  {
    if xs != [] {
      SortStable(key, xs[1..], k);
      InsertStable(key, xs[0], Sort(key, xs[1..]), k);
    }
  }

  lemma {:induction false} WithKeyThere<T>(key: T -> nat, xs: seq<T>, k: nat)
    requires WithKey(key, xs, k) != []
    ensures WithKey(key, xs, k)[0] in xs && key(WithKey(key, xs, k)[0]) == k
    decreases |xs|
  {
    if key(xs[0]) != k { WithKeyThere(key, xs[1..], k); }
  }

  /** Order and stability say all there is: two such lists with the same entries for each key are the same. */
  lemma {:induction false} OnlyOneStableSort<T>(key: T -> nat, xs: seq<T>, ys: seq<T>)
    requires Ordered(key, xs) && Ordered(key, ys)
    requires forall k: nat :: WithKey(key, xs, k) == WithKey(key, ys, k)
    ensures xs == ys
    decreases |xs|
  {
    hide WithKey, Ordered;
    if xs == [] && ys == [] {
    } else if xs == [] {
      WithKeyNone<T>(key, key(ys[0]));
      WithKeyFirst(key, ys);
    } else {
      var k := key(xs[0]);
      WithKeyFirst(key, xs);
      WithKeyThere(key, ys, k);
      WithKeyFirst(key, ys);
      var k' := key(ys[0]);
      WithKeyThere(key, xs, k');
      LeastFirst(key, xs, WithKey(key, xs, k')[0]);
      LeastFirst(key, ys, WithKey(key, ys, k)[0]);
      OrderedCons(key, xs);
      OrderedCons(key, ys);
      forall j: nat
        ensures WithKey(key, xs[1..], j) == WithKey(key, ys[1..], j)
      {
        WithKeyCons(key, xs, j);
        WithKeyCons(key, ys, j);
        assert WithKey(key, xs, j) == WithKey(key, ys, j);
        SameTails(if k == j then [xs[0]] else [], WithKey(key, xs[1..], j), WithKey(key, ys[1..], j));
      }
      OnlyOneStableSort(key, xs[1..], ys[1..]);
      assert xs == [xs[0]] + xs[1..] && ys == [ys[0]] + ys[1..];
    }
  }

  lemma SameTails<T>(a: seq<T>, b: seq<T>, c: seq<T>)
    requires a + b == a + c
    ensures b == c
  {
    assert b == (a + b)[|a|..] && c == (a + c)[|a|..];
  }

  lemma WithKeyNone<T>(key: T -> nat, k: nat)
    ensures WithKey(key, [], k) == []
  {
  }

  lemma WithKeyCons<T>(key: T -> nat, xs: seq<T>, k: nat)
    requires xs != []
    ensures WithKey(key, xs, k) == (if key(xs[0]) == k then [xs[0]] else []) + WithKey(key, xs[1..], k)
  {
  }

  lemma WithKeyFirst<T>(key: T -> nat, xs: seq<T>)
    requires xs != []
    ensures WithKey(key, xs, key(xs[0])) != [] && WithKey(key, xs, key(xs[0]))[0] == xs[0]
  {
  }

  lemma LeastFirst<T>(key: T -> nat, xs: seq<T>, e: T)
    requires Ordered(key, xs) && e in xs
    ensures key(xs[0]) <= key(e)
  {
  }

  // ------------------------------------------------------------------ an entry that comes last

  ghost predicate AllBelow<T>(key: T -> nat, xs: seq<T>, k: nat)
  {
    forall i :: 0 <= i < |xs| ==> key(xs[i]) < k
  }

  lemma SortKeepsBelow<T>(key: T -> nat, xs: seq<T>, k: nat)
    requires AllBelow(key, xs, k)
    ensures AllBelow(key, Sort(key, xs), k)
  {
    SortOrders(key, xs);
    var r := Sort(key, xs);
    forall i | 0 <= i < |r|
      ensures key(r[i]) < k
    {
      assert r[i] in multiset(r);
      assert r[i] in xs;
    }
  }

  /** Inserting in front of a last entry that stays last. */
  lemma {:induction false} InsertBeforeLast<T>(key: T -> nat, e: T, xs: seq<T>, last: T)
    requires key(e) < key(last)
    ensures Insert(key, e, xs + [last]) == Insert(key, e, xs) + [last]
    decreases |xs|
  {
    if xs == [] {
      assert xs + [last] == [last];
      assert [e] + xs + [last] == [e] + [last];
    } else {
      assert (xs + [last])[1..] == xs[1..] + [last];
      InsertBeforeLast(key, e, xs[1..], last);
      if key(e) <= key(xs[0]) { assert [e] + (xs + [last]) == [e] + xs + [last]; }
    }
  }

  lemma {:induction false} InsertLatest<T>(key: T -> nat, e: T, xs: seq<T>)
    requires AllBelow(key, xs, key(e))
    ensures Insert(key, e, xs) == xs + [e]
    decreases |xs|
  {
    if xs != [] { InsertLatest(key, e, xs[1..]); }
  }

  /** Wherever the greatest entry stands, sorting puts it last. */
  lemma {:induction false} GreatestComesLast<T>(key: T -> nat, front: seq<T>, e: T, back: seq<T>)
    requires AllBelow(key, front, key(e)) && AllBelow(key, back, key(e))
    ensures Sort(key, front + [e] + back) == Sort(key, front + back) + [e]
    decreases |front|
  {
    if front == [] {
      assert front + [e] + back == [e] + back && front + back == back;
      assert ([e] + back)[1..] == back;
      SortKeepsBelow(key, back, key(e));
      InsertLatest(key, e, Sort(key, back));
    } else {
      assert (front + [e] + back)[1..] == front[1..] + [e] + back;
      assert (front + back)[1..] == front[1..] + back;
      GreatestComesLast(key, front[1..], e, back);
      InsertBeforeLast(key, front[0], Sort(key, front[1..] + back), e);
    }
  }
}
