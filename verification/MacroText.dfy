/** Text with macro references, and what the string library makes of it. */
module MacroText {
  /** Text in pieces: single characters and references. */
  datatype Token = Lit(c: char) | Ref(name: string)

  function Reference(name: string): string
  {
    "%{" + name + "}"
  }

  function TextOf(t: Token): string
  {
    if t.Lit? then [t.c] else Reference(t.name)
  }

  function Text(tokens: seq<Token>): string
  {
    if tokens == [] then "" else TextOf(tokens[0]) + Text(tokens[1..])
  }

  // ------------------------------------------------------------------ finding and replacing

  /** Where the first closing brace is, or the end. */
  function Brace(s: string): (n: nat)
    ensures n <= |s| && (n < |s| ==> s[n] == '}')
    ensures forall i :: 0 <= i < n ==> s[i] != '}'
  {
    if s == "" || s[0] == '}' then 0 else 1 + Brace(s[1..])
  }

  /** Does the pattern `%{[^}]+}` match here? */
  predicate Matches(s: string)
  {
    |s| >= 2 && s[0] == '%' && s[1] == '{' && 0 < Brace(s[2..]) < |s| - 2
  }

  function MatchLength(s: string): (n: nat)
    requires Matches(s)
    ensures 3 < n <= |s|
  {
    Brace(s[2..]) + 3
  }

  /** All matches from left to right, none overlapping another. */
  function FindAll(s: string): (found: seq<string>)
    ensures forall i :: 0 <= i < |found| ==> found[i] != ""
    decreases |s|
  {
    if s == "" then []
    else if Matches(s) then [s[..MatchLength(s)]] + FindAll(s[MatchLength(s)..])
    else FindAll(s[1..])
  }

  /** The string library's replacement of every `m`, from left to right. */
  function Replace(s: string, m: string, v: string): string
    requires m != ""
    decreases |s|
  {
    if s == "" then ""
    else if m <= s then v + Replace(s[|m|..], m, v)
    else [s[0]] + Replace(s[1..], m, v)
  }

  function Tokens(s: string): seq<Token>
    decreases |s|
  {
    if s == "" then []
    else if Matches(s) then [Ref(s[2..MatchLength(s) - 1])] + Tokens(s[MatchLength(s)..])
    else [Lit(s[0])] + Tokens(s[1..])
  }

  /** Nothing is lost by taking text apart. */
  lemma {:induction false} TextOfTokens(s: string)
    ensures Text(Tokens(s)) == s
    decreases |s|
  {
    hide Matches, MatchLength, Text;
    if s == "" {
      NoText();
    } else if Matches(s) {
      var n := MatchLength(s);
      TextOfTokens(s[n..]);
      MatchIsReference(s);
      TextCons(Ref(s[2..n - 1]), Tokens(s[n..]));
    } else {
      TextOfTokens(s[1..]);
      TextCons(Lit(s[0]), Tokens(s[1..]));
    }
  }

  lemma NoText()
    ensures Text([]) == ""
  {
  }

  lemma TextCons(t: Token, tokens: seq<Token>)
    ensures Text([t] + tokens) == TextOf(t) + Text(tokens)
  {
  }

  lemma MatchIsReference(s: string)
    requires Matches(s)
    ensures (var n := MatchLength(s);
             s == Reference(s[2..n - 1]) + s[n..] && s[..n] == Reference(s[2..n - 1]))
  {
  }

  /** A reference in literal characters is found behind text that has none of its start. */
  lemma {:induction false} FindsReference(before: string, name: string, rest: string)
    requires '%' !in before && name != "" && '}' !in name
    ensures FindAll(before + "%{" + name + "}" + rest) == ["%{" + name + "}"] + FindAll(rest)
    decreases |before|
  {
    hide FindAll;
    var s := before + "%{" + name + "}" + rest;
    if before == "" {
      BraceOf(name, rest);
      assert s[0] == '%' && s[1] == '{' && s[2..] == name + "}" + rest;
      var n := |name| + 3;
      assert s[..n] == "%{" + name + "}" && s[n..] == rest;
      FindAllUnfold(s);
    } else {
      assert s[0] == before[0] && s[1..] == before[1..] + "%{" + name + "}" + rest;
      FindsReference(before[1..], name, rest);
      FindAllUnfold(s);
    }
  }

  lemma FindAllUnfold(s: string)
    ensures FindAll(s)
         == if s == "" then []
            else if Matches(s) then [s[..MatchLength(s)]] + FindAll(s[MatchLength(s)..])
            else FindAll(s[1..])
  {
    hide Matches, MatchLength;
  }

  /** Nothing is found without its start, its end or a name. */
  lemma {:induction false} FindsNothing(s: string)
    requires '%' !in s || '}' !in s || '{' !in s
    ensures FindAll(s) == []
    decreases |s|
  {
    hide FindAll;
    FindAllUnfold(s);
    if s != "" {
      NeedsAll(s);
      FindsNothing(s[1..]);
    }
  }

  lemma NeedsAll(s: string)
    ensures Matches(s) ==> '%' in s && '{' in s && '}' in s
  {
    if |s| >= 2 && Brace(s[2..]) < |s| - 2 { assert s[2..][Brace(s[2..])] == s[Brace(s[2..]) + 2]; }
  }

  function References(tokens: seq<Token>): seq<string>
  {
    if tokens == [] then []
    else (if tokens[0].Ref? then [Reference(tokens[0].name)] else []) + References(tokens[1..])
  }

  /** What is found is what the pieces refer to. */
  lemma {:induction false} FindAllTokens(s: string)
    ensures FindAll(s) == References(Tokens(s))
    decreases |s|
  {
    if s == "" {
    } else if Matches(s) {
      var n := MatchLength(s);
      FindAllTokens(s[n..]);
      assert s[..n] == Reference(s[2..n - 1]);
      assert Tokens(s)[1..] == Tokens(s[n..]);
    } else {
      FindAllTokens(s[1..]);
      assert Tokens(s)[1..] == Tokens(s[1..]);
    }
  }

  // ------------------------------------------------------------------ well delimited text

  predicate NameOk(name: string)
  {
    name != "" && '%' !in name && '}' !in name
  }

  /** A name holds no percent sign, and a percent sign of its own has a character behind it that is no opening brace. */
  predicate FirstDelimited(tokens: seq<Token>)
    requires tokens != []
  {
    if tokens[0].Ref? then NameOk(tokens[0].name)
    else tokens[0].c == '%' ==> |tokens| > 1 && tokens[1].Lit? && tokens[1].c != '{'
  }

  predicate Delimited(tokens: seq<Token>)
  {
    tokens == [] || (FirstDelimited(tokens) && Delimited(tokens[1..]))
  }

  lemma {:induction false} DelimitedConcat(a: seq<Token>, b: seq<Token>)
    requires Delimited(a) && Delimited(b)
    ensures Delimited(a + b)
    decreases |a|
  {
    if a == [] {
      assert a + b == b;
    } else {
      assert (a + b)[1..] == a[1..] + b;
      DelimitedConcat(a[1..], b);
    }
  }

  lemma {:induction false} BraceOf(name: string, rest: string)
    requires '}' !in name
    ensures Brace(name + "}" + rest) == |name|
    decreases |name|
  {
    if name == "" {
      assert "" + "}" + rest == "}" + rest;
    } else {
      assert name[0] in name && forall c :: c in name[1..] ==> c in name;
      assert (name + "}" + rest)[1..] == name[1..] + "}" + rest;
      BraceOf(name[1..], rest);
    }
  }

  lemma ReferenceMatches(name: string, rest: string)
    requires NameOk(name)
    ensures (var s := Reference(name) + rest;
             && Matches(s) && MatchLength(s) == |name| + 3
             && s[..|name| + 3] == Reference(name) && s[2..|name| + 2] == name && s[|name| + 3..] == rest)
  {
    var s := Reference(name) + rest;
    assert s[2..] == name + "}" + rest;
    BraceOf(name, rest);
  }

  /** Well delimited pieces are what their text is taken apart into. */
  lemma {:induction false} TokensOfText(tokens: seq<Token>)
    requires Delimited(tokens)
    ensures Tokens(Text(tokens)) == tokens
    decreases |tokens|
  {
    hide Matches, MatchLength, Reference, NameOk;
    if tokens != [] {
      var rest := Text(tokens[1..]);
      TokensOfText(tokens[1..]);
      var s := TextOf(tokens[0]) + rest;
      if tokens[0].Ref? {
        ReferenceMatches(tokens[0].name, rest);
        RefTokens(tokens[0].name, rest);
      } else {
        LitTokens(tokens);
      }
      assert tokens == [tokens[0]] + tokens[1..];
    }
  }

  lemma RefTokens(name: string, rest: string)
    requires NameOk(name)
    ensures Tokens(Reference(name) + rest) == [Ref(name)] + Tokens(rest)
  {
    hide Matches, MatchLength;
    ReferenceMatches(name, rest);
  }

  lemma LitTokens(tokens: seq<Token>)
    requires Delimited(tokens) && tokens != [] && tokens[0].Lit?
    ensures Tokens(Text(tokens)) == [tokens[0]] + Tokens(Text(tokens[1..]))
  {
    var s := Text(tokens);
    assert s[0] == tokens[0].c && s[1..] == Text(tokens[1..]);
    assert |tokens| > 1 && tokens[1].Lit? ==> Text(tokens[1..])[0] == tokens[1].c;
  }

  // ------------------------------------------------------------------ replacing a reference

  function Subst(tokens: seq<Token>, name: string, v: seq<Token>): seq<Token>
  {
    if tokens == [] then []
    else (if tokens[0] == Ref(name) then v else [tokens[0]]) + Subst(tokens[1..], name, v)
  }

  lemma {:induction false} TextConcat(a: seq<Token>, b: seq<Token>)
    ensures Text(a + b) == Text(a) + Text(b)
    decreases |a|
  {
    if a == [] {
      assert a + b == b;
    } else {
      assert (a + b)[1..] == a[1..] + b;
      TextConcat(a[1..], b);
    }
  }

  /** A stretch without percent signs holds no reference's start. */
  lemma {:induction false} ReplaceGoesOn(a: string, rest: string, m: string, v: string)
    requires m != "" && m[0] == '%' && '%' !in a
    ensures Replace(a + rest, m, v) == a + Replace(rest, m, v)
    decreases |a|
  {
    if a == "" {
      assert a + rest == rest;
    } else {
      assert a[0] in a && forall c :: c in a[1..] ==> c in a;
      assert (a + rest)[1..] == a[1..] + rest && (a + rest)[0] == a[0];
      ReplaceGoesOn(a[1..], rest, m, v);
    }
  }

  lemma ReplaceHere(name: string, rest: string, v: string)
    requires NameOk(name)
    ensures Replace(Reference(name) + rest, Reference(name), v) == v + Replace(rest, Reference(name), v)
  {
    var s := Reference(name) + rest;
    assert Reference(name) <= s && s[|Reference(name)|..] == rest;
  }

  lemma DifferentNames(name: string, other: string, rest: string)
    requires NameOk(name) && NameOk(other) && name != other
    ensures !(Reference(name) <= Reference(other) + rest)
  {
    var s := Reference(other) + rest;
    ReferenceMatches(other, rest);
    if Reference(name) <= s { SameReference(name, s); }
  }

  lemma SameReference(name: string, s: string)
    requires NameOk(name) && Reference(name) <= s
    ensures Matches(s) && s[2..MatchLength(s) - 1] == name
  {
    var m := Reference(name);
    ReferenceMatches(name, s[|m|..]);
    assert s == m + s[|m|..];
  }

  lemma ReplaceElsewhere(name: string, other: string, rest: string, v: string)
    requires NameOk(name) && NameOk(other) && name != other
    ensures Replace(Reference(other) + rest, Reference(name), v) == Reference(other) + Replace(rest, Reference(name), v)
  {
    var m := Reference(name);
    var s := Reference(other) + rest;
    DifferentNames(name, other, rest);
    var behind := "{" + other + "}";
    assert s[1..] == behind + rest && s[0] == '%';
    ReplaceGoesOn(behind, rest, m, v);
    assert "%" + behind == Reference(other);
    assert ['%'] + (behind + Replace(rest, m, v)) == Reference(other) + Replace(rest, m, v);
  }

  lemma ReplaceLit(tokens: seq<Token>, name: string, v: string)
    requires Delimited(tokens) && tokens != [] && tokens[0].Lit? && NameOk(name)
    ensures Replace(Text(tokens), Reference(name), v) == [tokens[0].c] + Replace(Text(tokens[1..]), Reference(name), v)
  {
    var s := Text(tokens);
    assert s[0] == tokens[0].c && s[1..] == Text(tokens[1..]);
    var m := Reference(name);
    assert |tokens| > 1 && tokens[1].Lit? ==> Text(tokens[1..])[0] == tokens[1].c;
  }

  /** Replacing in the text is putting pieces in place of references. */
  lemma {:induction false} ReplaceIsSubst(tokens: seq<Token>, name: string, v: seq<Token>)
    requires Delimited(tokens) && NameOk(name)
    ensures Replace(Text(tokens), Reference(name), Text(v)) == Text(Subst(tokens, name, v))
    decreases |tokens|
  {
    hide Replace, NameOk;
    if tokens == [] {
      ReplaceNothing(Reference(name), Text(v));
    } else {
      var first := tokens[0];
      var rest := tokens[1..];
      ReplaceIsSubst(rest, name, v);
      var put := if first == Ref(name) then v else [first];
      TextConcat(put, Subst(rest, name, v));
      TextOfOne(first);
      if first == Ref(name) {
        ReplaceHere(name, Text(rest), Text(v));
      } else if first.Ref? {
        ReplaceElsewhere(name, first.name, Text(rest), Text(v));
      } else {
        ReplaceLit(tokens, name, Text(v));
      }
    }
  }

  lemma TextOfOne(t: Token)
    ensures Text([t]) == TextOf(t)
  {
    assert Text([t][1..]) == "";
  }

  lemma ReplaceNothing(m: string, v: string)
    requires m != ""
    ensures Replace("", m, v) == ""
  {
  }

  lemma {:induction false} SubstDelimited(tokens: seq<Token>, name: string, v: seq<Token>)
    requires Delimited(tokens) && Delimited(v)
    ensures Delimited(Subst(tokens, name, v))
    ensures tokens != [] && tokens[0].Lit? ==> Subst(tokens, name, v) != [] && Subst(tokens, name, v)[0] == tokens[0]
    decreases |tokens|
  {
    if tokens != [] {
      var rest := Subst(tokens[1..], name, v);
      SubstDelimited(tokens[1..], name, v);
      if tokens[0] == Ref(name) {
        DelimitedConcat(v, rest);
      } else {
        assert ([tokens[0]] + rest)[1..] == rest;
      }
    }
  }
}
