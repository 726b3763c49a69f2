/** Which source line an address belongs to: the table a compilation unit builds from its line program, the look-up in
    it, and the look-up over all units of a file. */
module LineTable {
  import opened Bytes
  import opened StableSort

  const ADDRESSES := 0x1_0000_0000_0000_0000

  type Location = n: nat | n < ADDRESSES

  /** A row of a line program. `source` stands for the table of file names that the row's file index belongs to. */
  datatype Row = Row(loc: Location, source: Option<nat>, file: int, line: int,
                     beginStatement: bool, block: bool, endSequence: bool)
  {
    predicate IsValid()
    {
      source != None && line > 0
    }
  }

  const NOWHERE := Row(0, None, -1, -1, false, false, false)

  function LocOf(r: Row): nat
  {
    r.loc
  }

  // ------------------------------------------------------------------ building the table

  /** How far the table has got: the location of the last row taken, whether rows are looked at or passed over up to
      the end of their sequence, the base of the sequence and the rows taken. */
  datatype Scan = Scan(pc: Location, looking: bool, base: Location, kept: seq<Row>)

  const START := Scan(0, true, 0, [])

  function Step(s: Scan, row: Row, low: Location, high: Location): Scan
  {
    if s.pc == 0 && !s.looking then s.(looking := row.endSequence)
    else if s.pc == 0 && row.loc == 0 then s.(looking := false)
    else
      var base := if row.loc == 0 && s.base == 0 then s.pc else s.base;
      var loc := (row.loc + base) % ADDRESSES;
      var base' := if row.endSequence then 0 else base;
      if low <= loc <= high then Scan(loc, s.looking, base', s.kept + [row.(loc := loc)])
      else s.(base := base')
  }

  function Run(s: Scan, rows: seq<Row>, low: Location, high: Location): Scan
    decreases |rows|
  {
    if rows == [] then s else Run(Step(s, rows[0], low, high), rows[1..], low, high)
  }

  /** The rows taken, in the order of the program. */
  function Kept(rows: seq<Row>, low: Location, high: Location): seq<Row>
  {
    Run(START, rows, low, high).kept
  }

  lemma RunNothing(s: Scan, low: Location, high: Location)
    ensures Run(s, [], low, high) == s
  {
  }

  lemma {:induction false} RunConcat(s: Scan, a: seq<Row>, b: seq<Row>, low: Location, high: Location)
    ensures Run(s, a + b, low, high) == Run(Run(s, a, low, high), b, low, high)
    decreases |a|
  {
    hide Step;
    if a == [] {
      assert a + b == b;
    } else {
      assert (a + b)[1..] == a[1..] + b;
      RunConcat(Step(s, a[0], low, high), a[1..], b, low, high);
    }
  }

  method BuildLines(rows: seq<Row>, low: Location, high: Location) returns (lines: seq<Row>)
    ensures lines == Sort(LocOf, Kept(rows, low, high))
  {
    lines := [];
    var pc: Location, seqCheck, seqBase: Location := 0, true, 0;
    var l := 0;
    while l < |rows|
      invariant l <= |rows|
      invariant Run(Scan(pc, seqCheck, seqBase, lines), rows[l..], low, high) == Run(START, rows, low, high)
    {
      var row := rows[l];
      ghost var before := Scan(pc, seqCheck, seqBase, lines);
      assert rows[l..][1..] == rows[l + 1..];
      l := l + 1;
      var loc := row.loc;
      if pc == 0 {
        if !seqCheck {
          seqCheck := row.endSequence;
          continue;
        }
        if loc == 0 {
          seqCheck := false;
          continue;
        }
      }
      if loc == 0 && seqBase == 0 {
        seqBase := pc;
      }
      if seqBase != 0 {
        loc := (loc + seqBase) % ADDRESSES;
      }
      if row.endSequence {
        seqBase := 0;
      }
      if loc >= low && loc <= high {
        pc := loc;
        lines := lines + [row.(loc := loc)];
      }
      assert Scan(pc, seqCheck, seqBase, lines) == Step(before, row, low, high);
    }
    if lines != [] {
      lines := Sort(LocOf, lines);
    }
  }

  // ------------------------------------------------------------------ what the table holds, sequence by sequence

  /** A sequence of a line program: its last row ends it, and locations do not go down. */
  ghost predicate IsSequence(s: seq<Row>)
  {
    && s != [] && s[|s| - 1].endSequence
    && (forall i :: 0 <= i < |s| - 1 ==> !s[i].endSequence)
    && (forall i, j :: 0 <= i < j < |s| ==> s[i].loc <= s[j].loc)
  }

  /** A sequence's rows moved to a base, those that then lie in the unit. */
  function Moved(s: seq<Row>, base: Location, low: Location, high: Location): seq<Row>
    decreases |s|
  {
    if s == [] then []
    else
      var loc := (s[0].loc + base) % ADDRESSES;
      (if low <= loc <= high then [s[0].(loc := loc)] else []) + Moved(s[1..], base, low, high)
  }

  function LastPc(pc: Location, rows: seq<Row>): Location
  {
    if rows == [] then pc else rows[|rows| - 1].loc
  }

  /** Do an odd number of one-row sequences at zero stand directly at the end? Each that is looked at makes the one
      behind it be passed over. */
  predicate OddOnes(sequences: seq<seq<Row>>)
    decreases |sequences|
  {
    && sequences != []
    && (var (front, last) := (sequences[..|sequences| - 1], sequences[|sequences| - 1]);
        |last| == 1 && last[0].loc == 0 && !OddOnes(front))
  }

  /** What the sequences of a program contribute: one that starts at zero is moved to where the last row taken is. As
      long as that is nowhere it is passed over, and so is any behind an odd number of one-row sequences at zero. */
  function Placed(sequences: seq<seq<Row>>, low: Location, high: Location): seq<Row>
    requires forall i :: 0 <= i < |sequences| ==> sequences[i] != []
    decreases |sequences|
  {
    if sequences == [] then []
    else
      var (front, s) := (sequences[..|sequences| - 1], sequences[|sequences| - 1]);
      var rows := Placed(front, low, high);
      var pc := LastPc(0, rows);
      if pc == 0 && (s[0].loc == 0 || OddOnes(front)) then rows
      else rows + Moved(s, if s[0].loc == 0 then pc else 0, low, high)
  }

  function Flat(sequences: seq<seq<Row>>): seq<Row>
  {
    if sequences == [] then [] else sequences[0] + Flat(sequences[1..])
  }

  lemma TailIsSequence(s: seq<Row>)
    requires IsSequence(s) && |s| > 1
    ensures IsSequence(s[1..]) && !s[0].endSequence && s[0].loc <= s[1].loc
  {
    assert forall i :: 0 <= i < |s[1..]| ==> s[1..][i] == s[i + 1];
  }

  lemma {:induction false} PassOver(st: Scan, s: seq<Row>, low: Location, high: Location)
    requires IsSequence(s) && st.pc == 0 && !st.looking
    ensures Run(st, s, low, high) == st.(looking := true)
    decreases |s|
  {
    hide IsSequence;
    if |s| == 1 {
      SequenceOfOne(s);
      assert s[1..] == [];
    } else {
      SequenceNotEmpty(s);
      TailIsSequence(s);
      PassOver(st, s[1..], low, high);
    }
  }

  lemma SequenceNotEmpty(s: seq<Row>)
    requires IsSequence(s)
    ensures s != []
  {
  }

  lemma SequenceOfOne(s: seq<Row>)
    requires IsSequence(s) && |s| == 1
    ensures s[0].endSequence
  {
  }

  /** Rows that are looked at are all moved by the same base. */
  lemma {:induction false} TakeRows(st: Scan, s: seq<Row>, base: Location, low: Location, high: Location)
    requires IsSequence(s) && st.looking
    requires st.base == base || (st.base == 0 && s[0].loc == 0 && base == st.pc)
    requires base == 0 ==> s[0].loc != 0
    requires st.pc == 0 ==> s[0].loc != 0
    ensures (var rows := Moved(s, base, low, high);
             Run(st, s, low, high) == Scan(LastPc(st.pc, rows), true, 0, st.kept + rows))
    decreases |s|
  {
    hide IsSequence, Step, Moved, LastPc;
    SequenceNotEmpty(s);
    var one := Moved([s[0]], base, low, high);
    var more := Moved(s[1..], base, low, high);
    StepMoves(st, s[0], base, low, high);
    MovedCons(s, base, low, high);
    if |s| == 1 {
      SequenceOfOne(s);
      assert one + more == one;
    } else {
      TailIsSequence(s);
      var st' := Step(st, s[0], low, high);
      TakeRows(st', s[1..], base, low, high);
      LastPcConcat(st.pc, one, more);
      Associate(st.kept, one, more);
    }
  }

  /** One row that is looked at: what it adds, and that its successors are looked at with the same base. */
  lemma StepMoves(st: Scan, row: Row, base: Location, low: Location, high: Location)
    requires st.looking && (st.pc == 0 ==> row.loc != 0) && (base == 0 ==> row.loc != 0)
    requires st.base == base || (st.base == 0 && row.loc == 0 && base == st.pc)
    ensures (var one := Moved([row], base, low, high);
             var st' := Step(st, row, low, high);
             && st' == Scan(LastPc(st.pc, one), true, if row.endSequence then 0 else base, st.kept + one)
             && (st'.pc == 0 ==> row.loc != 0))
  {
    assert st.kept + [] == st.kept;
  }

  /** A row is moved by adding the base in 64 bits, and kept from the unit's lower bound up to its upper one. */
  lemma MovedRow(row: Row, base: Location, low: Location, high: Location)
    ensures (var sum := row.loc + base;
             var loc := if sum < 0x1_0000_0000_0000_0000 then sum else sum - 0x1_0000_0000_0000_0000;
             Moved([row], base, low, high) == if loc < low || high < loc then [] else [row.(loc := loc)])
  {
  }

  lemma MovedCons(s: seq<Row>, base: Location, low: Location, high: Location)
    requires s != []
    ensures Moved(s, base, low, high) == Moved([s[0]], base, low, high) + Moved(s[1..], base, low, high)
    ensures |s| == 1 ==> Moved(s[1..], base, low, high) == []
  {
  }

  lemma LastPcConcat(pc: Location, a: seq<Row>, b: seq<Row>)
    ensures LastPc(pc, a + b) == LastPc(LastPc(pc, a), b)
  {
  }

  lemma FirstPassed(st: Scan, s: seq<Row>, low: Location, high: Location)
    requires IsSequence(s) && st.pc == 0 && st.looking && s[0].loc == 0
    ensures Run(st, s, low, high) == st.(looking := |s| > 1)
  {
    hide IsSequence;
    SequenceNotEmpty(s);
    if |s| == 1 {
      assert s[1..] == [];
    } else {
      TailIsSequence(s);
      PassOver(st.(looking := false), s[1..], low, high);
    }
  }

  lemma {:induction false} FlatSnoc(front: seq<seq<Row>>, s: seq<Row>)
    ensures Flat(front + [s]) == Flat(front) + s
    decreases |front|
  {
    if front == [] {
      assert front + [s] == [s] && [s][1..] == [];
    } else {
      assert (front + [s])[1..] == front[1..] + [s];
      FlatSnoc(front[1..], s);
    }
  }

  /** A one-row sequence at zero leaves the last location where it is. */
  lemma OneKeepsPc(s: seq<Row>, pc: Location, low: Location, high: Location)
    requires |s| == 1 && s[0].loc == 0
    ensures LastPc(pc, Moved(s, pc, low, high)) == pc
  {
  }

  /** Where the scan of a program stands when its sequences are through. */
  lemma {:induction false} RunSequences(sequences: seq<seq<Row>>, low: Location, high: Location)
    requires forall i :: 0 <= i < |sequences| ==> IsSequence(sequences[i])
    ensures forall i :: 0 <= i < |sequences| ==> sequences[i] != []
    ensures (var rows := Placed(sequences, low, high);
             var pc := LastPc(0, rows);
             Run(START, Flat(sequences), low, high) == Scan(pc, !(pc == 0 && OddOnes(sequences)), 0, rows))
    decreases |sequences|
  {
    hide IsSequence, Moved, LastPc, Run;
    forall i | 0 <= i < |sequences|
      ensures sequences[i] != []
    {
      SequenceNotEmpty(sequences[i]);
    }
    if sequences == [] {
      RunNothing(START, low, high);
      NothingTaken();
    } else {
      var (front, s) := (sequences[..|sequences| - 1], sequences[|sequences| - 1]);
      assert sequences == front + [s];
      RunSequences(front, low, high);
      FlatSnoc(front, s);
      RunConcat(START, Flat(front), s, low, high);
      OneSequence(Run(START, Flat(front), low, high), s, low, high);
      var rows := Placed(front, low, high);
      LastPcConcat(0, rows, Moved(s, if s[0].loc == 0 then LastPc(0, rows) else 0, low, high));
      if |s| == 1 && s[0].loc == 0 { OneKeepsPc(s, LastPc(0, rows), low, high); }
    }
  }

  lemma NothingTaken()
    ensures LastPc(0, []) == 0
  {
  }

  lemma OneSequence(st: Scan, s: seq<Row>, low: Location, high: Location)
    requires IsSequence(s) && st.base == 0 && (st.looking || st.pc == 0)
    ensures s != []
    ensures Run(st, s, low, high)
         == if st.pc == 0 && !st.looking then st.(looking := true)
            else if st.pc == 0 && s[0].loc == 0 then st.(looking := |s| > 1)
            else
              var rows := Moved(s, if s[0].loc == 0 then st.pc else 0, low, high);
              Scan(LastPc(st.pc, rows), true, 0, st.kept + rows)
  {
    hide IsSequence, Moved, LastPc, Run;
    SequenceNotEmpty(s);
    if st.pc == 0 && !st.looking {
      PassOver(st, s, low, high);
    } else if st.pc == 0 && s[0].loc == 0 {
      FirstPassed(st, s, low, high);
    } else {
      TakeRows(st, s, if s[0].loc == 0 then st.pc else 0, low, high);
    }
  }

  /** The rows taken from any program that is made of sequences. */
  lemma KeptBySequence(sequences: seq<seq<Row>>, low: Location, high: Location)
    requires forall i :: 0 <= i < |sequences| ==> IsSequence(sequences[i])
    ensures forall i :: 0 <= i < |sequences| ==> sequences[i] != []
    ensures Kept(Flat(sequences), low, high) == Placed(sequences, low, high)
  {
    RunSequences(sequences, low, high);
  }

  /** A sequence that does not start at zero adds its rows in the unit to any program of sequences, if and only if there
      are such rows and not at once nothing taken yet and an odd number of one-row sequences at zero directly in
      front. */
  lemma SwallowedExactly(front: seq<seq<Row>>, s: seq<Row>, low: Location, high: Location)
    requires forall i :: 0 <= i < |front| ==> IsSequence(front[i])
    requires IsSequence(s) && s[0].loc != 0 && Moved(s, 0, low, high) != []
    ensures (var (before, after) := (Kept(Flat(front), low, high), Kept(Flat(front) + s, low, high));
             && (after == before + Moved(s, 0, low, high) || after == before)
             && (after == before <==> LastPc(0, before) == 0 && OddOnes(front)))
  {
    hide IsSequence, Moved, LastPc, Run, Placed;
    RunSequences(front, low, high);
    RunConcat(START, Flat(front), s, low, high);
    OneSequence(Run(START, Flat(front), low, high), s, low, high);
  }

  ghost predicate AllAtZero(sequences: seq<seq<Row>>)
  {
    forall i :: 0 <= i < |sequences| ==> IsSequence(sequences[i]) && sequences[i][0].loc == 0
  }

  lemma {:induction false} NoneTakenAtZero(sequences: seq<seq<Row>>, low: Location, high: Location)
    requires AllAtZero(sequences)
    ensures forall i :: 0 <= i < |sequences| ==> sequences[i] != []
    ensures Placed(sequences, low, high) == []
    decreases |sequences|
  {
    if sequences != [] { NoneTakenAtZero(sequences[..|sequences| - 1], low, high); }
  }

  /** In front, where the wrong addresses are: behind sequences that all start at zero, the first right one comes
      through if and only if those do not end with an odd number of one-row sequences. */
  lemma FirstComesThrough(zeros: seq<seq<Row>>, s: seq<Row>, low: Location, high: Location)
    requires AllAtZero(zeros) && IsSequence(s) && s[0].loc != 0 && Moved(s, 0, low, high) != []
    ensures Kept(Flat(zeros) + s, low, high) == Moved(s, 0, low, high) <==> !OddOnes(zeros)
  {
    hide IsSequence, Moved, Placed, Kept;
    KeptAtZero(zeros, low, high);
    SwallowedExactly(zeros, s, low, high);
    NothingTaken();
    assert [] + Moved(s, 0, low, high) == Moved(s, 0, low, high);
  }

  lemma KeptAtZero(zeros: seq<seq<Row>>, low: Location, high: Location)
    requires AllAtZero(zeros)
    ensures forall i :: 0 <= i < |zeros| ==> IsSequence(zeros[i])
    ensures Kept(Flat(zeros), low, high) == []
  {
    KeptBySequence(zeros, low, high);
    NoneTakenAtZero(zeros, low, high);
  }

  /** A line-table row at a location, that ends its sequence or not. */
  function RowAt(loc: Location, end: bool): Row
  {
    Row(loc, Some(1), 1, 1, true, false, end)
  }

  /** One sequence of a single row at zero loses the rows behind it, two do not. */
  lemma RowsLost()
    ensures (var (one, a, b) := (RowAt(0, true), RowAt(100, false), RowAt(104, true));
             && Kept([a, b], 0, 1000) == [a, b]
             && Kept([one, a, b], 0, 1000) == []
             && Kept([one, one, a, b], 0, 1000) == [a, b])
  {
    var (one, a, b) := (RowAt(0, true), RowAt(100, false), RowAt(104, true));
    hide Run, Step;
    var looked := START.(looking := false);
    StepsOfWitness();
    RunCons(START, a, [b]);
    RunCons(START.(pc := 100, kept := [a]), b, []);
    RunCons(looked, a, [b]);
    RunCons(looked, b, []);
    RunCons(START, one, [a, b]);
    RunCons(START, one, [one, a, b]);
    RunCons(looked, one, [a, b]);
    RunNothing(START, 0, 1000);
    RunNothing(Scan(104, true, 0, [a, b]), 0, 1000);
    assert [a] + [b] == [a, b] && [one] + [a, b] == [one, a, b] && [one] + [one, a, b] == [one, one, a, b];
  }

  lemma StepsOfWitness()
    ensures (var (one, a, b) := (RowAt(0, true), RowAt(100, false), RowAt(104, true));
             var looked := START.(looking := false);
             && Step(START, one, 0, 1000) == looked && Step(looked, one, 0, 1000) == START
             && Step(looked, a, 0, 1000) == looked && Step(looked, b, 0, 1000) == START
             && Step(START, a, 0, 1000) == START.(pc := 100, kept := [a])
             && Step(START.(pc := 100, kept := [a]), b, 0, 1000) == Scan(104, true, 0, [a, b]))
  {
  }

  lemma RunCons(st: Scan, row: Row, rows: seq<Row>)
    ensures Run(st, [row] + rows, 0, 1000) == Run(Step(st, row, 0, 1000), rows, 0, 1000)
  {
    hide Step;
    assert ([row] + rows)[1..] == rows;
  }

  /** Whatever follows, a sequence of one row at zero in front takes the sequence behind it away. */
  lemma OneRowSwallowsNext(one: seq<Row>, next: seq<Row>, rest: seq<Row>, low: Location, high: Location)
    requires IsSequence(one) && |one| == 1 && one[0].loc == 0 && IsSequence(next)
    ensures Kept(one + next + rest, low, high) == Kept(rest, low, high)
  {
    hide IsSequence, Run;
    FirstPassed(START, one, low, high);
    PassOver(START.(looking := false), next, low, high);
    RunConcat(START, one + next, rest, low, high);
    RunConcat(START, one, next, low, high);
  }

  // ------------------------------------------------------------------ looking up an address

  /** Of the rows below an address those closest to it, and of these the last. */
  function Below(rows: seq<Row>, addr: nat): Option<Row>
  {
    if rows == [] then None
    else
      var (best, r) := (Below(rows[..|rows| - 1], addr), rows[|rows| - 1]);
      if r.loc < addr && (best == None || best.value.loc <= r.loc) then Some(r) else best
  }

  /** The row for an address in terms of the rows taken, in program order: the first at the address, or else the last
      of those closest below. There is none outside the unit, nor behind the last row. */
  ghost function SourceAt(kept: seq<Row>, low: Location, high: Location, addr: Location): Option<Row>
  {
    if !(low <= addr < high) || AllBelow(LocOf, kept, addr) then None
    else
      var here := WithKey(LocOf, kept, addr);
      var line :=
        if here != [] then here[0] else if Below(kept, addr) == None then NOWHERE else Below(kept, addr).value;
      if line.IsValid() then Some(line) else None
  }

  lemma BelowSnoc(rows: seq<Row>, r: Row, addr: nat)
    ensures (var best := Below(rows, addr);
             Below(rows + [r], addr)
               == if r.loc < addr && (best == None || best.value.loc <= r.loc) then Some(r) else best)
  {
    assert (rows + [r])[..|rows + [r]| - 1] == rows;
  }

  lemma {:induction false} WithKeySnoc(rows: seq<Row>, r: Row, k: nat)
    ensures WithKey(LocOf, rows + [r], k) == WithKey(LocOf, rows, k) + if r.loc == k then [r] else []
    decreases |rows|
  {
    hide WithKey;
    WithKeyNone(LocOf, k);
    WithKeyCons(LocOf, rows + [r], k);
    if rows == [] {
      assert (rows + [r])[1..] == [];
    } else {
      assert (rows + [r])[1..] == rows[1..] + [r];
      WithKeyCons(LocOf, rows, k);
      WithKeySnoc(rows[1..], r, k);
    }
  }

  /** What is found below an address is below it, no row below is closer, and it is the last of its location. */
  lemma {:induction false} BelowIs(rows: seq<Row>, addr: nat)
    ensures Below(rows, addr) == None ==> NotBelow(LocOf, addr, rows)
    ensures Below(rows, addr).Some? ==>
      (var r := Below(rows, addr).value;
       var same := WithKey(LocOf, rows, r.loc);
       && r.loc < addr && same != [] && same[|same| - 1] == r
       && forall i :: 0 <= i < |rows| && rows[i].loc < addr ==> rows[i].loc <= r.loc)
    decreases |rows|
  {
    hide Below, WithKey;
    if rows == [] {
      NothingBelow(addr);
    } else {
      var front := rows[..|rows| - 1];
      var last := rows[|rows| - 1];
      assert rows == front + [last];
      BelowIs(front, addr);
      BelowSnoc(front, last, addr);
      if Below(rows, addr).Some? { WithKeySnoc(front, last, Below(rows, addr).value.loc); }
    }
  }

  lemma NothingBelow(addr: nat)
    ensures Below([], addr) == None
  {
  }

  /** A stable sort does not change what is found. */
  lemma BelowSorted(rows: seq<Row>, addr: nat)
    ensures Below(Sort(LocOf, rows), addr) == Below(rows, addr)
  {
    hide Below, WithKey;
    var sorted := Sort(LocOf, rows);
    SortOrders(LocOf, rows);
    BelowIs(rows, addr);
    BelowIs(sorted, addr);
    SameRows(rows, sorted);
    if Below(rows, addr).Some? {
      var r := Below(rows, addr).value;
      WithKeyThere(LocOf, rows, r.loc);
      assert WithKey(LocOf, rows, r.loc)[0] in sorted;
    }
    if Below(sorted, addr).Some? {
      var r := Below(sorted, addr).value;
      SortStable(LocOf, rows, r.loc);
      WithKeyThere(LocOf, sorted, r.loc);
      assert WithKey(LocOf, sorted, r.loc)[0] in rows;
    }
  }

  lemma SameRows(a: seq<Row>, b: seq<Row>)
    requires multiset(a) == multiset(b)
    ensures forall r :: r in a <==> r in b
  {
    assert forall r :: r in a <==> r in multiset(a);
    assert forall r :: r in b <==> r in multiset(b);
  }

  lemma AllBelowSorted(rows: seq<Row>, addr: nat)
    ensures AllBelow(LocOf, Sort(LocOf, rows), addr) <==> AllBelow(LocOf, rows, addr)
  {
    var sorted := Sort(LocOf, rows);
    SortOrders(LocOf, rows);
    SameRows(rows, sorted);
    assert forall i :: 0 <= i < |sorted| ==> sorted[i] in rows;
    assert forall i :: 0 <= i < |rows| ==> rows[i] in sorted;
  }

  lemma SourceAtSorted(kept: seq<Row>, low: Location, high: Location, addr: Location)
    ensures SourceAt(Sort(LocOf, kept), low, high, addr) == SourceAt(kept, low, high, addr)
  {
    hide Below, WithKey, AllBelow;
    AllBelowSorted(kept, addr);
    BelowSorted(kept, addr);
    SortStable(LocOf, kept, addr);
  }

  /** The first row at the address. */
  ghost predicate IsFirstAt(kept: seq<Row>, addr: nat, i: nat)
  {
    i < |kept| && kept[i].loc == addr && forall j :: 0 <= j < i ==> kept[j].loc != addr
  }

  /** Between rows, the last of those closest below the address. */
  ghost predicate IsLastBelow(kept: seq<Row>, addr: nat, i: nat)
  {
    && i < |kept| && kept[i].loc < addr
    && (forall j :: 0 <= j < |kept| ==> kept[j].loc != addr) && (exists j :: 0 <= j < |kept| && kept[j].loc > addr)
    && (forall j :: 0 <= j < |kept| && kept[j].loc < addr ==> kept[j].loc <= kept[i].loc)
    && (forall j :: i < j < |kept| ==> kept[j].loc != kept[i].loc)
  }

  /** An address in the unit belongs to the first row at it or, between rows, to the last of those closest below, if
      that row has a file and a line; to nothing else. */
  lemma SourceExactly(kept: seq<Row>, low: Location, high: Location, addr: Location, r: Row)
    ensures SourceAt(kept, low, high, addr) == Some(r) <==>
      && low <= addr < high && r.source != None && r.line > 0
      && exists i: nat :: (IsFirstAt(kept, addr, i) || IsLastBelow(kept, addr, i)) && kept[i] == r
  {
    hide Below, WithKey, AllBelow;
    forall i: nat | IsFirstAt(kept, addr, i)
      ensures WithKey(LocOf, kept, addr) != [] && WithKey(LocOf, kept, addr)[0] == kept[i]
      ensures !AllBelow(LocOf, kept, addr)
    {
      FirstIsHere(kept, addr, i);
    }
    forall i: nat | IsLastBelow(kept, addr, i)
      ensures WithKey(LocOf, kept, addr) == [] && Below(kept, addr) == Some(kept[i]) && !AllBelow(LocOf, kept, addr)
    {
      LastIsBelow(kept, addr, i);
    }
    if WithKey(LocOf, kept, addr) != [] {
      var i := FirstOf(kept, addr);
      assert IsFirstAt(kept, addr, i);
    } else if !AllBelow(LocOf, kept, addr) && Below(kept, addr) != None {
      var i := BelowThere(kept, addr);
      assert IsLastBelow(kept, addr, i);
    }
  }

  lemma FirstIsHere(kept: seq<Row>, addr: nat, i: nat)
    requires IsFirstAt(kept, addr, i)
    ensures WithKey(LocOf, kept, addr) != [] && WithKey(LocOf, kept, addr)[0] == kept[i]
    ensures !AllBelow(LocOf, kept, addr)
  {
    hide WithKey;
    if WithKey(LocOf, kept, addr) == [] {
      NoneOf(kept, addr);
      assert false;
    }
    var j := FirstOf(kept, addr);
    assert LocOf(kept[i]) == addr && i == j;
  }

  lemma LastIsBelow(kept: seq<Row>, addr: nat, i: nat)
    requires IsLastBelow(kept, addr, i)
    ensures WithKey(LocOf, kept, addr) == [] && Below(kept, addr) == Some(kept[i]) && !AllBelow(LocOf, kept, addr)
  {
    hide WithKey, Below;
    if WithKey(LocOf, kept, addr) != [] {
      var j := FirstOf(kept, addr);
      assert false;
    }
    BelowIs(kept, addr);
    var k :| 0 <= k < |kept| && kept[k].loc > addr;
    assert LocOf(kept[k]) > addr && LocOf(kept[i]) < addr;
    var b := Below(kept, addr).value;
    var j := LastOf(kept, b.loc);
    assert j == i;
  }

  lemma BelowThere(kept: seq<Row>, addr: nat) returns (i: nat)
    requires WithKey(LocOf, kept, addr) == [] && !AllBelow(LocOf, kept, addr) && Below(kept, addr) != None
    ensures IsLastBelow(kept, addr, i) && Below(kept, addr) == Some(kept[i])
  {
    hide WithKey, Below;
    NoneOf(kept, addr);
    BelowIs(kept, addr);
    i := LastOf(kept, Below(kept, addr).value.loc);
    var j :| 0 <= j < |kept| && LocOf(kept[j]) >= addr;
    assert kept[j].loc > addr;
  }

  lemma {:induction false} FirstOf(rows: seq<Row>, k: nat) returns (i: nat)
    requires WithKey(LocOf, rows, k) != []
    ensures IsFirstAt(rows, k, i) && WithKey(LocOf, rows, k)[0] == rows[i]
    decreases |rows|
  {
    if rows[0].loc == k {
      i := 0;
    } else {
      i := FirstOf(rows[1..], k);
      i := i + 1;
    }
  }

  lemma {:induction false} NoneOf(rows: seq<Row>, k: nat)
    requires WithKey(LocOf, rows, k) == []
    ensures forall j :: 0 <= j < |rows| ==> rows[j].loc != k
    decreases |rows|
  {
    if rows != [] {
      NoneOf(rows[1..], k);
      assert forall j :: 0 < j < |rows| ==> rows[j] == rows[1..][j - 1];
    }
  }

  lemma {:induction false} LastOf(rows: seq<Row>, k: nat) returns (i: nat)
    requires WithKey(LocOf, rows, k) != []
    ensures i < |rows| && rows[i].loc == k && forall j :: i < j < |rows| ==> rows[j].loc != k
    ensures (var same := WithKey(LocOf, rows, k);
             same[|same| - 1] == rows[i])
    decreases |rows|
  {
    hide WithKey;
    WithKeyNone(LocOf, k);
    var (front, last) := (rows[..|rows| - 1], rows[|rows| - 1]);
    assert rows == front + [last];
    WithKeySnoc(front, last, k);
    if last.loc == k {
      i := |rows| - 1;
    } else {
      i := LastOf(front, k);
    }
  }

  /** In order, the rows in front of the first that is not below the address are all there is below. */
  lemma {:induction false} BelowStops(lines: seq<Row>, i: nat, addr: nat)
    requires i <= |lines| && NotBelow(LocOf, addr, lines[i..])
    ensures Below(lines, addr) == Below(lines[..i], addr)
    decreases |lines|
  {
    hide Below;
    if i == |lines| {
      assert lines[..i] == lines;
    } else {
      var front := lines[..|lines| - 1];
      assert lines == front + [lines[|lines| - 1]] && front[..i] == lines[..i];
      assert lines[i..][|lines| - 1 - i] == lines[|lines| - 1];
      forall j | 0 <= j < |front[i..]|
        ensures addr <= LocOf(front[i..][j])
      {
        assert front[i..][j] == lines[i..][j];
      }
      BelowSnoc(front, lines[|lines| - 1], addr);
      BelowStops(front, i, addr);
    }
  }

  lemma {:induction false} WithKeyStarts(lines: seq<Row>, i: nat, k: nat)
    requires i < |lines| && AllBelow(LocOf, lines[..i], k)
    requires NotBelow(LocOf, lines[i].loc, lines[i..]) && k <= lines[i].loc
    ensures lines[i].loc == k ==> WithKey(LocOf, lines, k) != [] && WithKey(LocOf, lines, k)[0] == lines[i]
    ensures lines[i].loc > k ==> WithKey(LocOf, lines, k) == []
    decreases |lines|
  {
    if i > 0 {
      assert lines[..i][0] == lines[0] && lines[1..][i - 1..] == lines[i..];
      var front := lines[1..][..i - 1];
      assert forall j :: 0 <= j < |front| ==> front[j] == lines[..i][j + 1];
      WithKeyStarts(lines[1..], i - 1, k);
    } else if lines[0].loc > k {
      assert lines[i..] == lines;
      WithKeyAbove(lines, k);
    }
  }

  lemma {:induction false} WithKeyAbove(lines: seq<Row>, k: nat)
    requires NotBelow(LocOf, k + 1, lines)
    ensures WithKey(LocOf, lines, k) == []
    decreases |lines|
  {
    if lines != [] { WithKeyAbove(lines[1..], k); }
  }

  class CompilationUnit {
    const pcLow: Location
    const pcHigh: Location
    const lines: seq<Row>
    ghost const kept: seq<Row>

    ghost predicate Valid()
    {
      lines == Sort(LocOf, kept)
    }

    /** The unit's bounds and its line program. */
    constructor (rows: seq<Row>, low: Location, high: Location)
      ensures Valid() && pcLow == low && pcHigh == high && kept == Kept(rows, low, high)
    {
      var table := BuildLines(rows, low, high);
      pcLow, pcHigh, lines, kept := low, high, table, Kept(rows, low, high);
    }

    method GetSource(addr: Location) returns (found: bool, line: Row)
      requires Valid()
      ensures found <==> SourceAt(kept, pcLow, pcHigh, addr).Some?
      ensures found ==> line == SourceAt(kept, pcLow, pcHigh, addr).value
    {
      hide Below, WithKey, AllBelow, Ordered, NotBelow;
      found, line := false, NOWHERE;
      SourceAtSorted(kept, pcLow, pcHigh, addr);
      SortOrders(LocOf, kept);
      AllOf(lines, addr);
      if lines != [] && pcLow <= addr < pcHigh {
        var last := NOWHERE;
        var i := 0;
        NothingBelow(addr);
        assert lines[..0] == [];
        while i < |lines|
          invariant i <= |lines| && AllBelow(LocOf, lines[..i], addr)
          invariant last == if Below(lines[..i], addr) == None then NOWHERE else Below(lines[..i], addr).value
        {
          var loc := lines[i];
          if addr <= loc.loc {
            LookedAt(lines, i, addr);
            line := if addr == loc.loc then loc else last;
            return line.IsValid(), line;
          }
          OneFurther(lines, i, addr);
          last := loc;
          i := i + 1;
        }
        assert lines[..i] == lines;
      }
    }
  }

  lemma AllOf(lines: seq<Row>, addr: nat)
    ensures AllBelow(LocOf, lines[..0], addr) && (lines == [] ==> AllBelow(LocOf, lines, addr))
  {
  }

  lemma LookedAt(lines: seq<Row>, i: nat, addr: nat)
    requires Ordered(LocOf, lines) && i < |lines| && AllBelow(LocOf, lines[..i], addr) && addr <= lines[i].loc
    ensures !AllBelow(LocOf, lines, addr)
    ensures Below(lines, addr) == Below(lines[..i], addr)
    ensures lines[i].loc == addr ==> WithKey(LocOf, lines, addr) != [] && WithKey(LocOf, lines, addr)[0] == lines[i]
    ensures lines[i].loc > addr ==> WithKey(LocOf, lines, addr) == []
  {
    hide Below, WithKey;
    assert LocOf(lines[i]) >= addr;
    assert forall j :: 0 <= j < |lines[i..]| ==>
      lines[i..][j] == lines[i + j] && LocOf(lines[i]) <= LocOf(lines[i + j]);
    BelowStops(lines, i, addr);
    WithKeyStarts(lines, i, addr);
  }

  lemma OneFurther(lines: seq<Row>, i: nat, addr: nat)
    requires Ordered(LocOf, lines) && i < |lines| && AllBelow(LocOf, lines[..i], addr) && lines[i].loc < addr
    ensures AllBelow(LocOf, lines[..i + 1], addr) && Below(lines[..i + 1], addr) == Some(lines[i])
  {
    hide Below;
    assert lines[..i + 1] == lines[..i] + [lines[i]];
    BelowSnoc(lines[..i], lines[i], addr);
    BelowIs(lines[..i], addr);
    if Below(lines[..i], addr).Some? {
      var r := Below(lines[..i], addr).value;
      WithKeyThere(LocOf, lines[..i], r.loc);
      var w := WithKey(LocOf, lines[..i], r.loc)[0];
      var j :| 0 <= j < i && lines[..i][j] == w;
      assert LocOf(lines[j]) <= LocOf(lines[i]);
    }
  }

  // ------------------------------------------------------------------ looking up in a whole file

  function WithoutEnds(rows: seq<Row>): seq<Row>
  {
    if rows == [] then []
    else WithoutEnds(rows[..|rows| - 1]) + if rows[|rows| - 1].endSequence then [] else [rows[|rows| - 1]]
  }

  /** Of several units' rows for an address: the last that does not end a sequence, or else the last. */
  function Best(hits: seq<Row>): Row
    requires hits != []
  {
    var inner := WithoutEnds(hits);
    if inner != [] then inner[|inner| - 1] else hits[|hits| - 1]
  }

  /** What the units say about an address, in their order. */
  ghost function Hits(units: seq<CompilationUnit>, addr: Location): seq<Row>
  {
    if units == [] then []
    else
      var u := units[|units| - 1];
      var here := SourceAt(u.kept, u.pcLow, u.pcHigh, addr);
      Hits(units[..|units| - 1], addr) + if here.Some? then [here.value] else []
  }

  lemma BestSnoc(hits: seq<Row>, h: Row)
    ensures Best(hits + [h]) == if hits == [] || Best(hits).endSequence || !h.endSequence then h else Best(hits)
  {
    assert (hits + [h])[..|hits + [h]| - 1] == hits;
    NoEnds(hits);
  }

  lemma {:induction false} NoEnds(rows: seq<Row>)
    ensures forall r :: r in WithoutEnds(rows) ==> !r.endSequence
    ensures WithoutEnds(rows) == [] ==> forall i :: 0 <= i < |rows| ==> rows[i].endSequence
    decreases |rows|
  {
    if rows != [] { NoEnds(rows[..|rows| - 1]); }
  }

  lemma HitsSnoc(units: seq<CompilationUnit>, i: nat, addr: Location)
    requires i < |units|
    ensures (var here := SourceAt(units[i].kept, units[i].pcLow, units[i].pcHigh, addr);
             Hits(units[..i + 1], addr)
               == if here.Some? then Hits(units[..i], addr) + [here.value] else Hits(units[..i], addr))
  {
    hide SourceAt;
    assert units[..i + 1][..i] == units[..i];
    assert Hits(units[..i], addr) + [] == Hits(units[..i], addr);
  }

  /** The row that answers for the file: that of the last unit whose row ends no sequence or, if all rows end one, of
      the last unit that has one. */
  lemma {:induction false} BestUnit(units: seq<CompilationUnit>, addr: Location, i: nat)
    requires i < |units| && Here(units[i], addr).Some?
    requires forall j :: i < j < |units| && Here(units[j], addr).Some? ==>
      !Here(units[i], addr).value.endSequence && Here(units[j], addr).value.endSequence
    requires Here(units[i], addr).value.endSequence ==>
      forall j :: 0 <= j < i && Here(units[j], addr).Some? ==> Here(units[j], addr).value.endSequence
    ensures Hits(units, addr) != [] && Best(Hits(units, addr)) == Here(units[i], addr).value
    decreases |units|
  {
    hide SourceAt, Best;
    var n := |units| - 1;
    var front := units[..n];
    var h := Here(units[i], addr).value;
    HitsSnoc(units, n, addr);
    assert units[..n + 1] == units;
    if i < n {
      BestUnit(front, addr, i);
      if Here(units[n], addr).Some? { BestSnoc(Hits(front, addr), Here(units[n], addr).value); }
    } else {
      BestSnoc(Hits(front, addr), h);
      if h.endSequence && Hits(front, addr) != [] { AllEnd(front, addr); }
    }
  }

  ghost function Here(unit: CompilationUnit, addr: Location): Option<Row>
  {
    SourceAt(unit.kept, unit.pcLow, unit.pcHigh, addr)
  }

  lemma {:induction false} AllEnd(units: seq<CompilationUnit>, addr: Location)
    requires forall j :: 0 <= j < |units| && Here(units[j], addr).Some? ==> Here(units[j], addr).value.endSequence
    ensures Hits(units, addr) != [] ==> Best(Hits(units, addr)).endSequence
    decreases |units|
  {
    hide SourceAt, Best;
    if units != [] {
      var n := |units| - 1;
      HitsSnoc(units, n, addr);
      assert units[..n + 1] == units;
      AllEnd(units[..n], addr);
      if Here(units[n], addr).Some? { BestSnoc(Hits(units[..n], addr), Here(units[n], addr).value); }
    }
  }

  lemma SourceIsValid(kept: seq<Row>, low: Location, high: Location, addr: Location)
    ensures SourceAt(kept, low, high, addr).Some? ==> SourceAt(kept, low, high, addr).value.IsValid()
  {
  }

  /** Looks an address up in all units of a file. */
  method GetSource(units: seq<CompilationUnit>, addr: Location) returns (found: bool, line: Row)
    requires forall i :: 0 <= i < |units| ==> units[i].Valid()
    ensures found <==> Hits(units, addr) != []
    ensures line == if found then Best(Hits(units, addr)) else NOWHERE
  {
    hide Best, SourceAt;
    found := false;
    var best := NOWHERE;
    var i := 0;
    assert units[..0] == [];
    while i < |units|
      invariant i <= |units|
      invariant best == if Hits(units[..i], addr) == [] then NOWHERE else Best(Hits(units[..i], addr))
      invariant best.IsValid() <==> Hits(units[..i], addr) != []
      invariant found ==> Hits(units[..i], addr) != []
    {
      HitsSnoc(units, i, addr);
      SourceIsValid(units[i].kept, units[i].pcLow, units[i].pcHigh, addr);
      var row;
      found, row := units[i].GetSource(addr);
      if found {
        BestSnoc(Hits(units[..i], addr), row);
        if !best.IsValid() {
          best := row;
        } else if best.endSequence || !row.endSequence {
          best := row;
        }
      }
      i := i + 1;
    }
    assert units[..i] == units;
    line := NOWHERE;
    if best.IsValid() {
      line := best;
      found := true;
    }
  }
}
