/** What the statements of a configuration look like, and what they then do. */
module CfgSyntax {
  import opened Text
  import opened Wrappers
  import opened CfgVars
  import opened CfgLines

  /** Expansion leaves a keyword alone, and what stands behind it is what is expanded. */
  lemma ExpandedBehind(w: Config, d: Data, head: string, s: string)
    requires '[' !in head
    ensures Expanded(w, d, head + s) == head + Expanded(w, d, s)
    ensures Drop(Expanded(w, d, head + s), |head|) == Expanded(w, d, s)
  {
    ExpandPrefix(d.vars, w.env, head, s);
  }

  /** A bracketed name stands for its value. */
  lemma ExpandedName(w: Config, d: Data, x: string)
    requires ']' !in x
    ensures Expanded(w, d, "[" + x + "]") == ValueOf(d.vars, w.env, x)
  {
    ExpandBracket(d.vars, w.env, x, "");
    assert "[" + x + "]" + "" == "[" + x + "]";
  }

  /** A line without white space at its ends and without the comment character is all looked at. */
  lemma PlainBody(s: string, cc: Mark)
    requires s != "" && !IsSpace(s[0]) && !IsSpace(s[|s| - 1]) && cc !in s
    ensures Body(s, cc) == s && Lead(s) == ""
  {
    hide StripComment;
    StripsFirstComment(s, cc);
  }

  lemma {:induction false} TrimBehind(head: string, s: string)
    ensures TrimRight(head + s) == if TrimRight(s) == "" then TrimRight(head) else head + TrimRight(s)
  {
    if s == "" {
      assert head + s == head;
    } else {
      assert (head + s)[|head + s| - 1] == s[|s| - 1];
      if IsSpace(s[|s| - 1]) {
        TrimBehind(head, s[..|s| - 1]);
        assert (head + s)[..|head + s| - 1] == head + s[..|s| - 1];
      }
    }
  }

  lemma Prefixed(p: string, rest: string)
    ensures HasPrefix(p + rest, p)
  {
    assert (p + rest)[..|p|] == p;
    StricmpReflexive(p);
  }

  /** A text that differs from a keyword in one of its letters does not begin with it. */
  lemma NotPrefixed(s: string, p: string, k: nat)
    requires k < |p| && k < |s| && ToLower(s[k]) != ToLower(p[k])
    ensures !HasPrefix(s, p)
  {
    if |p| <= |s| {
      assert s[..|p|][k] == s[k];
      Differ(s[..|p|], p, k);
    }
  }

  lemma {:induction false} Differ(a: string, b: string, k: nat)
    requires k < |a| && k < |b| && ToLower(a[k]) != ToLower(b[k])
    ensures Stricmp(a, b) != 0
  {
    if k == 0 {
    } else {
      Differ(a[1..], b[1..], k - 1);
    }
  }

  /** Each keyword is recognised whatever follows it. */
  lemma Keywords(rest: string)
    ensures Classify("if " + rest) == If
    ensures Classify("ifdef " + rest) == Ifdef && Classify("ifndef " + rest) == Ifdef
    ensures Classify("elseif " + rest) == ElseIf && Classify("elif " + rest) == ElseIf
    ensures Classify("else" + rest) == Else || HasPrefix("else" + rest, "elseif ")
    ensures Classify("endif" + rest) == Endif
    ensures Classify("set " + rest) == Set
    ensures Classify("include" + rest) == Include
  {
    hide HasPrefix;
    Prefixed("if ", rest);
    IfdefKeyword("ifdef ", rest);
    IfdefKeyword("ifndef ", rest);
    ElseKeywords(rest);
    EndifKeyword(rest);
    PlainKeyword("set ", rest);
    PlainKeyword("include", rest);
  }

  lemma IfdefKeyword(p: string, rest: string)
    requires p == "ifdef " || p == "ifndef "
    ensures Classify(p + rest) == Ifdef
  {
    hide HasPrefix;
    Prefixed(p, rest);
    NotPrefixed(p + rest, "if ", 2);
  }

  lemma ElseKeywords(rest: string)
    ensures Classify("elseif " + rest) == ElseIf && Classify("elif " + rest) == ElseIf
    ensures Classify("else" + rest) == Else || HasPrefix("else" + rest, "elseif ")
  {
    hide HasPrefix;
    Prefixed("elseif ", rest);
    Prefixed("elif ", rest);
    Prefixed("else", rest);
    NotIf("elseif " + rest);
    NotIf("elif " + rest);
    NotIf("else" + rest);
    NotPrefixed("else" + rest, "elif ", 2);
  }

  lemma NotIf(s: string)
    requires s != "" && ToLower(s[0]) != 'i'
    ensures !HasPrefix(s, "if ") && !HasPrefix(s, "ifdef ") && !HasPrefix(s, "ifndef ") && !HasPrefix(s, "include")
  {
    hide HasPrefix;
    NotPrefixed(s, "if ", 0);
    NotPrefixed(s, "ifdef ", 0);
    NotPrefixed(s, "ifndef ", 0);
    NotPrefixed(s, "include", 0);
  }

  lemma EndifKeyword(rest: string)
    ensures Classify("endif" + rest) == Endif
  {
    hide HasPrefix;
    var s := "endif" + rest;
    Prefixed("endif", rest);
    NotIf(s);
    NotPrefixed(s, "elseif ", 1);
    NotPrefixed(s, "elif ", 1);
    NotPrefixed(s, "else", 1);
  }

  lemma PlainKeyword(p: string, rest: string)
    requires p == "set " || p == "include"
    ensures Classify(p + rest) == if p == "set " then Set else Include
  {
    hide HasPrefix;
    var s := p + rest;
    Prefixed(p, rest);
    NotPrefixed(s, "elseif ", 0);
    NotPrefixed(s, "elif ", 0);
    NotPrefixed(s, "else", 0);
    NotPrefixed(s, "endif", 0);
    if p == "set " {
      NotIf(s);
    } else {
      NotPrefixed(s, "if ", 1);
      NotPrefixed(s, "ifdef ", 1);
      NotPrefixed(s, "ifndef ", 1);
      NotPrefixed(s, "set ", 0);
    }
  }

  /** `if` and `elseif` test what stands behind them, expanded. */
  lemma IfLine(w: Config, d: Data, expr: string)
    ensures var e := Expanded(w, d, expr);
            && Test(w, d, "if " + expr) == Tested(w.holds(e), !w.wellFormed(e))
            && TestAgain(w, d, "elseif " + expr) == Tested(w.holds(" " + e), !w.wellFormed(" " + e))
            && TestAgain(w, d, "elif " + expr) == Tested(w.holds(" " + e), !w.wellFormed(" " + e))
  {
    hide Expand;
    Prefixed("if ", expr);
    ExpandedBehind(w, d, "if ", expr);
    ExpandedBehind(w, d, "elseif ", expr);
    ExpandedBehind(w, d, "elif ", expr);
    var e := Expanded(w, d, expr);
    FirstAt("elseif " + e, ' ', 6);
    FirstAt("elif " + e, ' ', 4);
    assert ("elseif " + e)[6..] == " " + e && ("elif " + e)[4..] == " " + e;
  }

  /** `ifdef` holds where the variable named behind it is defined; without a name it is an error. */
  lemma IfdefLine(w: Config, d: Data, s: string)
    ensures var name := TrimLeft(TrimRight(Expanded(w, d, s)));
            Test(w, d, "ifdef " + s)
            == if name == "" then Bad else Tested(GetVar(d.vars, w.env, name) != None, false)
  {
    hide HasPrefix, GetVar, Classify, Expand;
    var e := Expanded(w, d, s);
    IfdefKeyword("ifdef ", s);
    ExpandedBehind(w, d, "ifdef ", s);
    NotPrefixed("ifdef " + s, "ifn", 2);
    TrimBehind("ifdef ", e);
    assert TrimRight("ifdef ") == "ifdef";
    assert Drop(TrimRight("ifdef " + e), 6) == TrimRight(e);
  }

  /** `ifndef` holds where it is not. */
  lemma IfndefLine(w: Config, d: Data, s: string)
    ensures var name := TrimLeft(TrimRight(Expanded(w, d, s)));
            Test(w, d, "ifndef " + s)
            == if name == "" then Bad else Tested(GetVar(d.vars, w.env, name) == None, false)
  {
    hide HasPrefix, GetVar, Classify, Expand;
    var e := Expanded(w, d, s);
    IfdefKeyword("ifndef ", s);
    ExpandedBehind(w, d, "ifndef ", s);
    assert "ifndef " + s == "ifn" + ("def " + s);
    Prefixed("ifn", "def " + s);
    TrimBehind("ifndef ", e);
    assert TrimRight("ifndef ") == "ifndef";
    var rest := Drop(TrimRight("ifndef " + e), 6);
    assert rest == if TrimRight(e) == "" then "" else " " + TrimRight(e);
    assert TrimRight(e) != "" ==> rest[1..] == TrimRight(e);
  }

  lemma FirstLineBehind(head: string, s: string)
    requires '\n' !in head
    ensures FirstLine(head + s) == head + FirstLine(s) && Drop(FirstLine(head + s), |head|) == FirstLine(s)
  {
    var k := Find(s, '\n');
    if k < |s| {
      FirstAt(head + s, '\n', |head| + k);
    } else {
      assert Find(head + s, '\n') == |head + s|;
    }
    assert FirstLine(head + s) == head + FirstLine(s);
  }

  /** A `set` line gives the variable named before the first equals sign the value behind it; without
      an equals sign it is an error. */
  lemma SetLine(w: Config, d: Data, line: string, s: string)
    requires Body(line, d.comment) == "set " + s
    ensures forall name, value :: FirstLine(Expanded(w, d, s)) == name + "=" + value && '=' !in name ==>
              var vars := SetVar(d.vars, w.env, TrimLeft(TrimRight(name)), Unquoted(TrimLeft(value)));
              ActPlain(w, d, line) == Acted(d.(vars := vars), Skip, false)
    ensures '=' !in FirstLine(Expanded(w, d, s)) ==> ActPlain(w, d, line) == Acted(d, Skip, true)
  {
    hide SetVar, Classify, Body, Expand, Unquoted;
    PlainKeyword("set ", s);
    ExpandedBehind(w, d, "set ", s);
    FirstLineBehind("set ", Expanded(w, d, s));
    var e := FirstLine(Expanded(w, d, s));
    forall name, value | e == name + "=" + value && '=' !in name
      ensures Find(e, '=') == |name| && e[..|name|] == name && e[|name| + 1..] == value
    {
      FirstAt(e, '=', |name|);
    }
  }

  /** An `include` line enters the file named behind it, or is an error where there is none. */
  lemma IncludeLine(w: Config, d: Data, line: string, s: string)
    requires Body(line, d.comment) == "include" + s
    ensures var g := TrimRight(SkipBlanks(Expanded(w, d, s)));
            ActPlain(w, d, line) == if g in w.files then Acted(d, Enter(g), false) else Acted(d, Skip, true)
  {
    hide Classify, Body, Expand;
    PlainKeyword("include", s);
    ExpandedBehind(w, d, "include", s);
  }
}
