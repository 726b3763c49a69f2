/** Macro tables and the expansion of text with their values. */
module Macros {
  import opened Bytes
  import opened MacroText

  // ------------------------------------------------------------------ tables

  datatype Macro = Macro(kind: string, attribute: string, value: string)

  /** Named maps of macros; those to be read first, in their order, and the global one behind them. */
  datatype Table = Table(maps: map<string, map<string, Macro>>, readMaps: seq<string>)
  {
    ghost predicate IsValid()
    {
      GLOBAL in maps && forall i :: 0 <= i < |readMaps| ==> readMaps[i] in maps
    }
  }

  const GLOBAL := "global"

  /** Lower case, of the letters A to Z. */
  function Lower(s: string): string
  {
    if s == "" then "" else [if 'A' <= s[0] <= 'Z' then (s[0] as int + 32) as char else s[0]] + Lower(s[1..])
  }

  function KeyFilter(key: string): string
  {
    Lower(if |key| > 2 && key[0] == '%' && key[1] == '{' && key[|key| - 1] == '}' then key[2..|key| - 1] else key)
  }

  ghost predicate FoundIn(t: Table, i: nat, key: string)
    requires t.IsValid() && i <= |t.readMaps|
  {
    key in t.maps[if i < |t.readMaps| then t.readMaps[i] else GLOBAL]
  }

  /** The macro of a key: from the first map that has it. */
  ghost function Lookup(t: Table, i: nat, key: string): Option<Macro>
    requires t.IsValid() && i <= |t.readMaps|
    decreases |t.readMaps| - i
  {
    if FoundIn(t, i, key) then Some(t.maps[if i < |t.readMaps| then t.readMaps[i] else GLOBAL][key])
    else if i < |t.readMaps| then Lookup(t, i + 1, key)
    else None
  }

  method Get(t: Table, name: string) returns (m: Option<Macro>)
    requires t.IsValid()
    ensures m == Lookup(t, 0, KeyFilter(name))
  {
    var key := KeyFilter(name);
    for i := 0 to |t.readMaps|
      invariant Lookup(t, 0, key) == Lookup(t, i, key)
    {
      var rm := t.readMaps[i];
      if key in t.maps[rm] {
        return Some(t.maps[rm][key]);
      }
    }
    if key in t.maps[GLOBAL] {
      return Some(t.maps[GLOBAL][key]);
    }
    return None;
  }

  /** The first read map that has the key decides, whatever the maps behind it hold. */
  lemma {:induction false} FirstMapWins(t: Table, start: nat, i: nat, key: string)
    requires t.IsValid() && start <= i < |t.readMaps| && key in t.maps[t.readMaps[i]]
    requires forall j :: start <= j < i ==> key !in t.maps[t.readMaps[j]]
    ensures Lookup(t, start, key) == Some(t.maps[t.readMaps[i]][key])
    decreases i - start
  {
    if start < i { FirstMapWins(t, start + 1, i, key); }
  }

  /** A key that no read map has is looked up in the map called global, which may lack it as well. */
  lemma {:induction false} GlobalIsLast(t: Table, start: nat, key: string)
    requires t.IsValid() && start <= |t.readMaps|
    requires forall j :: start <= j < |t.readMaps| ==> key !in t.maps[t.readMaps[j]]
    ensures Lookup(t, start, key) == if key in t.maps["global"] then Some(t.maps["global"][key]) else None
    decreases |t.readMaps| - start
  {
    if start < |t.readMaps| { GlobalIsLast(t, start + 1, key); }
  }

  lemma {:induction false} LowerAt(s: string, i: nat)
    requires i < |s|
    ensures |Lower(s)| == |s|
    ensures Lower(s)[i] == if 'A' <= s[i] <= 'Z' then s[i] - 'A' + 'a' else s[i]
    decreases |s|
  {
    if i > 0 { LowerAt(s[1..], i - 1); } else if |s| > 1 { LowerAt(s[1..], 0); }
  }

  /** Capital letters do not matter in a name, and neither does writing it as a reference. */
  lemma NamesAreOne(name: string, other: string)
    requires |name| == |other|
    requires forall i :: 0 <= i < |name| ==>
      other[i] == name[i] || ('A' <= name[i] <= 'Z' && other[i] == name[i] - 'A' + 'a')
    ensures KeyFilter("%{" + name + "}") == KeyFilter("%{" + other + "}")
    ensures !("%{" <= name) ==> KeyFilter(name) == KeyFilter("%{" + name + "}") && KeyFilter(name) == KeyFilter(other)
  {
    LowerSame(name, other);
    Unwrapped(name);
    Unwrapped(other);
    if !("%{" <= name) {
      Unwritten(name);
      assert |name| >= 2 ==> name[..2] == [name[0], name[1]] && other[..2] == [other[0], other[1]];
      Unwritten(other);
    }
  }

  lemma {:induction false} LowerSame(name: string, other: string)
    requires |name| == |other|
    requires forall i :: 0 <= i < |name| ==>
      other[i] == name[i] || ('A' <= name[i] <= 'Z' && other[i] == name[i] - 'A' + 'a')
    ensures Lower(name) == Lower(other)
    decreases |name|
  {
    if name != "" { LowerSame(name[1..], other[1..]); }
  }

  lemma Unwrapped(name: string)
    ensures KeyFilter("%{" + name + "}") == Lower(name)
  {
    var key := "%{" + name + "}";
    assert key[2..|key| - 1] == name;
  }

  lemma Unwritten(name: string)
    requires !("%{" <= name)
    ensures KeyFilter(name) == Lower(name)
  {
    assert |name| >= 2 ==> name[..2] == [name[0], name[1]];
  }

  ghost function Value(t: Table, name: string): Option<string>
    requires t.IsValid()
  {
    var m := Lookup(t, 0, KeyFilter(name));
    if m == None then None else Some(m.value.value)
  }

  // ------------------------------------------------------------------ expansion

  /** What comes of an expansion: the text, a reference that is not defined, or too many passes. */
  datatype Result = Ok(text: string) | Undefined(reference: string) | Looped

  const MAX_PASSES := 1000

  function NameOf(m: string): string
  {
    if |m| <= 3 then "" else m[2..|m| - 1]
  }

  /** One pass: the references found at its start are replaced one after the other. */
  ghost function Pass(t: Table, s: string, found: seq<string>): Result
    requires t.IsValid() && forall i :: 0 <= i < |found| ==> found[i] != ""
    decreases |found|
  {
    if found == [] then Ok(s)
    else
      match Value(t, NameOf(found[0]))
      case None => Undefined(found[0])
      case Some(v) => Pass(t, Replace(s, found[0], v), found[1..])
  }

  /** Passes until there is nothing to replace. */
  ghost function ExpandFrom(t: Table, s: string, count: nat): Result
    requires t.IsValid()
    decreases MAX_PASSES - count
  {
    if count >= MAX_PASSES then Looped
    else if FindAll(s) == [] then Ok(s)
    else
      match Pass(t, s, FindAll(s))
      case Ok(s') => ExpandFrom(t, s', count + 1)
      case other => other
  }

  method Expand(t: Table, text: string) returns (r: Result)
    requires t.IsValid()
    ensures r == ExpandFrom(t, text, 0)
  {
    hide Lookup, KeyFilter, FindAll, Replace, NameOf;
    var s, expanded, count := text, true, 0;
    while expanded
      invariant count <= MAX_PASSES
      invariant if expanded then ExpandFrom(t, text, 0) == ExpandFrom(t, s, count) else ExpandFrom(t, text, 0) == Ok(s)
      decreases expanded, MAX_PASSES - count
    {
      count := count + 1;
      if count > MAX_PASSES {
        return Looped;
      }
      expanded := false;
      ghost var start := s;
      var found := FindAll(s);
      var i := 0;
      while i < |found|
        invariant i <= |found| && (expanded <==> i > 0)
        invariant Pass(t, start, found) == Pass(t, s, found[i..])
        invariant i == 0 ==> s == start
      {
        var m := found[i];
        assert found[i..][1..] == found[i + 1..];
        var macro := Get(t, NameOf(m));
        if macro == None {
          return Undefined(m);
        }
        s := Replace(s, m, macro.value.value);
        expanded := true;
        i := i + 1;
      }
      assert found[i..] == [];
    }
    return Ok(s);
  }

  // ------------------------------------------------------------------ what may come of it, whatever the table

  /** No references are left in a text that comes out, and a reference that is called undefined is. */
  lemma {:induction false} WhatComesOut(t: Table, s: string, count: nat)
    requires t.IsValid()
    ensures (var r := ExpandFrom(t, s, count);
             && (r.Ok? ==> FindAll(r.text) == [])
             && (r.Undefined? ==> Value(t, NameOf(r.reference)) == None))
    decreases MAX_PASSES - count
  {
    hide FindAll, Pass, Value;
    if count < MAX_PASSES && FindAll(s) != [] {
      PassUndefined(t, s, FindAll(s));
      var r := Pass(t, s, FindAll(s));
      if r.Ok? { WhatComesOut(t, r.text, count + 1); }
    }
  }

  lemma {:induction false} PassUndefined(t: Table, s: string, found: seq<string>)
    requires t.IsValid() && forall i :: 0 <= i < |found| ==> found[i] != ""
    ensures (var r := Pass(t, s, found);
             !r.Looped? && (r.Undefined? ==> Value(t, NameOf(r.reference)) == None))
    decreases |found|
  {
    hide Value, Replace;
    if found != [] && Value(t, NameOf(found[0])).Some? {
      PassUndefined(t, Replace(s, found[0], Value(t, NameOf(found[0])).value), found[1..]);
    }
  }

  /** Of several references that are not defined the first one found is reported. */
  lemma {:induction false} FirstUndefined(t: Table, s: string, found: seq<string>, i: nat)
    requires t.IsValid() && forall j :: 0 <= j < |found| ==> found[j] != ""
    requires i < |found| && Value(t, NameOf(found[i])) == None
    requires forall j :: 0 <= j < i ==> Value(t, NameOf(found[j])).Some?
    ensures Pass(t, s, found) == Undefined(found[i])
    decreases i
  {
    hide Value, Replace;
    if i > 0 { FirstUndefined(t, Replace(s, found[0], Value(t, NameOf(found[0])).value), found[1..], i - 1); }
  }

  // ------------------------------------------------------------------ the full substitution

  ghost predicate Defined(t: Table, tokens: seq<Token>)
    requires t.IsValid()
  {
    forall i :: 0 <= i < |tokens| && tokens[i].Ref? ==> Value(t, tokens[i].name).Some?
  }

  /** One more than the greatest rank of what is referred to, zero if there is nothing. */
  function Height(rank: string -> nat, tokens: seq<Token>): nat
  {
    if tokens == [] then 0
    else
      var (here, rest) := (if tokens[0].Ref? then rank(tokens[0].name) + 1 else 0, Height(rank, tokens[1..]));
      if here > rest then here else rest
  }

  /** No macro refers to itself, directly or not: each has a rank above those of the macros its value refers to. All
      that are referred to are defined, and values are well delimited. */
  ghost predicate Ranked(t: Table, rank: string -> nat)
    requires t.IsValid()
  {
    forall name ::
      Value(t, name).Some? ==>
        var tokens := Tokens(Value(t, name).value);
        Delimited(tokens) && Defined(t, tokens) && Height(rank, tokens) <= rank(name)
  }

  /** Every reference replaced by its value's full substitution. */
  ghost function Full(t: Table, rank: string -> nat, tokens: seq<Token>): seq<Token>
    requires t.IsValid() && Ranked(t, rank) && Defined(t, tokens)
    decreases Height(rank, tokens), |tokens|
  {
    if tokens == [] then []
    else
      DefinedTail(t, tokens);
      (if tokens[0].Lit? then [tokens[0]] else Full(t, rank, Tokens(Value(t, tokens[0].name).value)))
        + Full(t, rank, tokens[1..])
  }

  lemma DefinedTail(t: Table, tokens: seq<Token>)
    requires t.IsValid() && Defined(t, tokens) && tokens != []
    ensures Defined(t, tokens[1..]) && (tokens[0].Ref? ==> Value(t, tokens[0].name).Some?)
  {
    assert forall i :: 0 <= i < |tokens[1..]| ==> tokens[1..][i] == tokens[i + 1];
  }

  lemma DefinedCons(t: Table, first: Token, rest: seq<Token>)
    requires t.IsValid() && Defined(t, rest) && (first.Ref? ==> Value(t, first.name).Some?)
    ensures Defined(t, [first] + rest)
  {
    hide Value;
  }

  lemma DefinedConcat(t: Table, a: seq<Token>, b: seq<Token>)
    requires t.IsValid() && Defined(t, a) && Defined(t, b)
    ensures Defined(t, a + b)
  {
    hide Value;
  }

  lemma {:induction false} FullConcat(t: Table, rank: string -> nat, a: seq<Token>, b: seq<Token>)
    requires t.IsValid() && Ranked(t, rank) && Defined(t, a) && Defined(t, b)
    ensures Defined(t, a + b) && Full(t, rank, a + b) == Full(t, rank, a) + Full(t, rank, b)
    decreases |a|
  {
    hide Value, Ranked, Defined;
    DefinedConcat(t, a, b);
    if a == [] {
      assert a + b == b;
    } else {
      DefinedTail(t, a);
      assert (a + b)[1..] == a[1..] + b;
      FullConcat(t, rank, a[1..], b);
      FullCons(t, rank, a);
      FullCons(t, rank, a + b);
      Associate(FullFirst(t, rank, a[0]), Full(t, rank, a[1..]), Full(t, rank, b));
    }
  }

  ghost function FullFirst(t: Table, rank: string -> nat, token: Token): seq<Token>
    requires t.IsValid() && Ranked(t, rank) && (token.Ref? ==> Value(t, token.name).Some?)
  {
    if token.Lit? then [token] else Full(t, rank, Tokens(Value(t, token.name).value))
  }

  lemma FullCons(t: Table, rank: string -> nat, tokens: seq<Token>)
    requires t.IsValid() && Ranked(t, rank) && Defined(t, tokens) && tokens != []
    ensures Defined(t, tokens[1..]) && (tokens[0].Ref? ==> Value(t, tokens[0].name).Some?)
    ensures Full(t, rank, tokens) == FullFirst(t, rank, tokens[0]) + Full(t, rank, tokens[1..])
  {
    hide Value, Ranked, Defined;
    DefinedTail(t, tokens);
  }

  /** Replacing a reference by its value does not change what the text stands for. */
  lemma {:induction false} FullSubst(t: Table, rank: string -> nat, tokens: seq<Token>, name: string)
    requires t.IsValid() && Ranked(t, rank) && Defined(t, tokens) && Value(t, name).Some?
    ensures (var tokens' := Subst(tokens, name, Tokens(Value(t, name).value));
             Defined(t, tokens') && Full(t, rank, tokens') == Full(t, rank, tokens))
    decreases |tokens|
  {
    hide Value, Defined, Tokens, Full, FullFirst;
    var v := Tokens(Value(t, name).value);
    assert Defined(t, v);
    if tokens != [] {
      FullCons(t, rank, tokens);
      FullSubst(t, rank, tokens[1..], name);
      var rest := Subst(tokens[1..], name, v);
      if tokens[0] == Ref(name) {
        FullConcat(t, rank, v, rest);
        FullOfRef(t, rank, name);
      } else {
        DefinedCons(t, tokens[0], rest);
        FullCons(t, rank, [tokens[0]] + rest);
        assert ([tokens[0]] + rest)[1..] == rest;
      }
    }
  }

  lemma FullOfRef(t: Table, rank: string -> nat, name: string)
    requires t.IsValid() && Ranked(t, rank) && Value(t, name).Some?
    ensures FullFirst(t, rank, Ref(name)) == Full(t, rank, Tokens(Value(t, name).value))
  {
    hide Value, Ranked, Full;
  }

  // ------------------------------------------------------------------ ranks go down

  /** What is referred to has a rank below the given one, or one less again unless it is still to be replaced. */
  ghost predicate Pending(rank: string -> nat, tokens: seq<Token>, top: nat, found: seq<string>)
  {
    forall i :: 0 <= i < |tokens| && tokens[i].Ref? ==>
      rank(tokens[i].name) <= top && (rank(tokens[i].name) == top ==> Reference(tokens[i].name) in found)
  }

  lemma {:induction false} HeightBound(rank: string -> nat, tokens: seq<Token>, h: nat)
    ensures Height(rank, tokens) <= h <==> forall i :: 0 <= i < |tokens| && tokens[i].Ref? ==> rank(tokens[i].name) < h
    decreases |tokens|
  {
    if tokens != [] {
      HeightBound(rank, tokens[1..], h);
      assert forall i :: 0 < i < |tokens| ==> tokens[i] == tokens[1..][i - 1];
    }
  }

  lemma {:induction false} SubstAmong(tokens: seq<Token>, name: string, v: seq<Token>)
    ensures forall x :: x in Subst(tokens, name, v) ==> x in v || (x in tokens && x != Ref(name))
    decreases |tokens|
  {
    if tokens != [] {
      SubstAmong(tokens[1..], name, v);
      assert forall x :: x in tokens[1..] ==> x in tokens;
    }
  }

  /** Replacing one of the references that are still to be replaced. */
  lemma PendingSubst(rank: string -> nat, tokens: seq<Token>, top: nat, name: string, v: seq<Token>, found: seq<string>)
    requires Pending(rank, tokens, top, [Reference(name)] + found) && NameOk(name)
    requires Height(rank, v) <= rank(name) <= top
    ensures Pending(rank, Subst(tokens, name, v), top, found)
  {
    HeightBound(rank, v, rank(name));
    SubstAmong(tokens, name, v);
    var after := Subst(tokens, name, v);
    forall i | 0 <= i < |after| && after[i].Ref?
      ensures rank(after[i].name) <= top && (rank(after[i].name) == top ==> Reference(after[i].name) in found)
    {
      assert after[i] in after;
      if after[i] in v {
        var j :| 0 <= j < |v| && v[j] == after[i];
      } else {
        var j :| 0 <= j < |tokens| && tokens[j] == after[i];
        if Reference(after[i].name) == Reference(name) { ReferenceOne(after[i].name, name); }
      }
    }
  }

  lemma ReferenceOne(a: string, b: string)
    requires Reference(a) == Reference(b)
    ensures a == b
  {
    assert |Reference(a)| == |a| + 3 && |Reference(b)| == |b| + 3;
    assert Reference(a)[2..|a| + 2] == a && Reference(b)[2..|b| + 2] == b;
  }

  /** References to macros that are defined, of ranks up to the given one. */
  ghost predicate FoundOk(t: Table, rank: string -> nat, top: nat, found: seq<string>)
    requires t.IsValid()
  {
    forall i :: 0 <= i < |found| ==>
      var name := NameOf(found[i]);
      NameOk(name) && found[i] == Reference(name) && Value(t, name).Some? && rank(name) <= top
  }

  /** A pass keeps what the text stands for, and the greatest rank goes down. */
  lemma {:induction false} PassRanked(t: Table, rank: string -> nat, tokens: seq<Token>, top: nat, found: seq<string>)
    returns (after: seq<Token>)
    requires t.IsValid() && Ranked(t, rank) && Delimited(tokens) && Defined(t, tokens)
    requires Pending(rank, tokens, top, found) && FoundOk(t, rank, top, found)
    ensures forall i :: 0 <= i < |found| ==> found[i] != ""
    ensures Pass(t, Text(tokens), found) == Ok(Text(after))
    ensures Delimited(after) && Defined(t, after) && Full(t, rank, after) == Full(t, rank, tokens)
    ensures Height(rank, after) <= top
    decreases |found|
  {
    hide Value, Defined, Full, Tokens, Text, Subst, Replace, NameOf, Height, Delimited, NameOk;
    assert forall i :: 0 <= i < |found| ==> |found[i]| == |Reference(NameOf(found[i]))|;
    if found == [] {
      after := tokens;
      HeightBound(rank, tokens, top);
    } else {
      var name := NameOf(found[0]);
      var v := Tokens(Value(t, name).value);
      assert found == [Reference(name)] + found[1..];
      TextOfTokens(Value(t, name).value);
      ReplaceIsSubst(tokens, name, v);
      SubstDelimited(tokens, name, v);
      FullSubst(t, rank, tokens, name);
      PendingSubst(rank, tokens, top, name, v, found[1..]);
      after := PassRanked(t, rank, Subst(tokens, name, v), top, found[1..]);
    }
  }

  lemma {:induction false} ReferencesOk(t: Table, rank: string -> nat, tokens: seq<Token>, top: nat)
    requires t.IsValid() && Delimited(tokens) && Defined(t, tokens) && Height(rank, tokens) <= top + 1
    ensures FoundOk(t, rank, top, References(tokens))
    ensures forall i :: 0 <= i < |tokens| && tokens[i].Ref? ==> Reference(tokens[i].name) in References(tokens)
    decreases |tokens|
  {
    hide Value, NameOf, NameOk;
    if tokens != [] {
      DefinedTail(t, tokens);
      ReferencesOk(t, rank, tokens[1..], top);
      assert forall i :: 0 < i < |tokens| ==> tokens[i] == tokens[1..][i - 1];
      if tokens[0].Ref? { NameOfReference(tokens[0].name); }
    }
  }

  lemma NameOfReference(name: string)
    requires NameOk(name)
    ensures NameOf(Reference(name)) == name
  {
  }

  lemma {:induction false} NothingToReplace(t: Table, rank: string -> nat, tokens: seq<Token>)
    requires t.IsValid() && Ranked(t, rank) && Defined(t, tokens)
    ensures References(tokens) == [] <==> Height(rank, tokens) == 0
    ensures Height(rank, tokens) == 0 ==> Full(t, rank, tokens) == tokens
    decreases |tokens|
  {
    hide Value, Defined, Ranked;
    if tokens != [] {
      DefinedTail(t, tokens);
      NothingToReplace(t, rank, tokens[1..]);
      FullCons(t, rank, tokens);
      assert [tokens[0]] + tokens[1..] == tokens;
    }
  }

  lemma {:induction false} ExpandRanked(t: Table, rank: string -> nat, tokens: seq<Token>, count: nat)
    requires t.IsValid() && Ranked(t, rank) && Delimited(tokens) && Defined(t, tokens)
    requires Height(rank, tokens) + count < MAX_PASSES
    ensures ExpandFrom(t, Text(tokens), count) == Ok(Text(Full(t, rank, tokens)))
    decreases Height(rank, tokens)
  {
    hide Value, Defined, Ranked, Full, Tokens, Text, Pass, FindAll, Height, Delimited, References;
    var s := Text(tokens);
    FindAllTokens(s);
    TokensOfText(tokens);
    NothingToReplace(t, rank, tokens);
    var h := Height(rank, tokens);
    if h > 0 {
      ReferencesOk(t, rank, tokens, h - 1);
      HeightBound(rank, tokens, h);
      var after := PassRanked(t, rank, tokens, h - 1, FindAll(s));
      ExpandRanked(t, rank, after, count + 1);
    }
  }

  /** Text that refers to defined macros only, at most 999 deep, expands to its full substitution. */
  lemma ExpandIsFull(t: Table, rank: string -> nat, text: string)
    requires t.IsValid() && Ranked(t, rank)
    requires Delimited(Tokens(text)) && Defined(t, Tokens(text)) && Height(rank, Tokens(text)) < MAX_PASSES
    ensures ExpandFrom(t, text, 0) == Ok(Text(Full(t, rank, Tokens(text))))
  {
    hide Value, Defined, Ranked, Full, Tokens, Text, ExpandFrom, Height, Delimited;
    TextOfTokens(text);
    ExpandRanked(t, rank, Tokens(text), 0);
  }

  // ------------------------------------------------------------------ how deep it may go

  function Start(names: seq<string>): string
  {
    if names == [] then "" else Reference(names[0])
  }

  /** Each name's value refers to the next, and the last one's is empty. */
  ghost predicate IsChain(t: Table, names: seq<string>)
    requires t.IsValid()
    decreases |names|
  {
    names == [] || (NameOk(names[0]) && Value(t, names[0]) == Some(Start(names[1..])) && IsChain(t, names[1..]))
  }

  lemma {:induction false} ChainFrom(t: Table, names: seq<string>, count: nat)
    requires t.IsValid() && IsChain(t, names) && count <= MAX_PASSES
    ensures ExpandFrom(t, Start(names), count) == if count + |names| < MAX_PASSES then Ok("") else Looped
    decreases |names|
  {
    hide Value, NameOk;
    if names != [] && count < MAX_PASSES {
      var s := Reference(names[0]);
      ChainFrom(t, names[1..], count + 1);
      OneReference(names[0]);
      assert [s][1..] == [];
      assert Pass(t, s, [s]) == Ok(Start(names[1..]));
    }
  }

  lemma OneReference(name: string)
    requires NameOk(name)
    ensures (var s := Reference(name);
             && FindAll(s) == [s] && NameOf(s) == name
             && forall v :: Replace(s, s, v) == v)
  {
    var s := Reference(name);
    assert s + "" == s;
    ReferenceMatches(name, "");
    assert s[..|s|] == s && s[|s|..] == "";
    forall v
      ensures Replace(s, s, v) == v
    {
      ReplaceHere(name, "", v);
      assert v + "" == v;
    }
  }

  /** A chain of references expands exactly when it is less than 1000 long. */
  lemma ChainLimit(t: Table, names: seq<string>)
    requires t.IsValid() && IsChain(t, names) && names != []
    ensures ExpandFrom(t, Reference(names[0]), 0) == if |names| < 1000 then Ok("") else Looped
  {
    hide Value, NameOk, ExpandFrom, IsChain;
    ChainFrom(t, names, 0);
  }
}
