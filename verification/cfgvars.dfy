/** Variables of the configuration and their expansion in brackets. */
module CfgVars {
  import opened Text
  import opened Wrappers

  datatype Var = Var(name: string, value: string)

  type Environment = map<string, string>

  /** The position of a variable, or the length of the list. */
  function IndexOf(vars: seq<Var>, name: string): (i: nat)
    ensures i <= |vars|
    ensures i < |vars| ==> Stricmp(name, vars[i].name) == 0
    ensures forall k :: 0 <= k < i ==> Stricmp(name, vars[k].name) != 0
  {
    if vars == [] || Stricmp(name, vars[0].name) == 0 then 0 else 1 + IndexOf(vars[1..], name)
  }

  /** A variable set to nothing hides the environment. */
  function GetVar(vars: seq<Var>, env: Environment, name: string): Option<string> {
    var i := IndexOf(vars, name);
    if i < |vars| then (if vars[i].value == "" then None else Some(vars[i].value))
    else if name in env then Some(env[name])
    else None
  }

  function Without(vars: seq<Var>, name: string): seq<Var> {
    var i := IndexOf(vars, name);
    if i < |vars| then vars[..i] + vars[i + 1..] else vars
  }

  /** The variable is removed and appended again, except with no value: then it is appended only if
      the variable whose name is that empty value is defined. */
  function SetVar(vars: seq<Var>, env: Environment, name: string, value: string): seq<Var> {
    var rest := Without(vars, name);
    if value == "" && GetVar(rest, env, value) == None then rest else rest + [Var(name, value)]
  }

  predicate NamesDiffer(vars: seq<Var>) {
    forall i, j :: 0 <= i < j < |vars| ==> Stricmp(vars[i].name, vars[j].name) != 0
  }

  lemma NamesSame(a: string, b: string, c: string)
    requires Stricmp(a, b) == 0
    ensures Stricmp(c, a) == Stricmp(c, b) && (Stricmp(a, c) == 0 <==> Stricmp(b, c) == 0)
  {
    StricmpChains(c, a, b);
    StricmpFlips(c, a);
    StricmpFlips(c, b);
  }

  lemma SetVarDiffers(vars: seq<Var>, env: Environment, name: string, value: string)
    requires NamesDiffer(vars)
    ensures NamesDiffer(SetVar(vars, env, name, value))
  {
    WithoutLacks(vars, name);
    forall k | 0 <= k < |Without(vars, name)|
      ensures Stricmp(Without(vars, name)[k].name, name) != 0
    {
      StricmpFlips(Without(vars, name)[k].name, name);
    }
  }

  lemma WithoutLacks(vars: seq<Var>, name: string)
    requires NamesDiffer(vars)
    ensures NamesDiffer(Without(vars, name))
    ensures forall k :: 0 <= k < |Without(vars, name)| ==> Stricmp(name, Without(vars, name)[k].name) != 0
  {
    hide Stricmp, IndexOf;
    var i := IndexOf(vars, name);
    if i < |vars| {
      forall j | i < j < |vars| ensures Stricmp(name, vars[j].name) != 0 {
        NamesSame(name, vars[i].name, vars[j].name);
      }
    }
  }

  /** The position is unique, so any list with one entry of a name finds that entry. */
  lemma IndexUnique(vars: seq<Var>, name: string, i: nat)
    requires i <= |vars| && (i < |vars| ==> Stricmp(name, vars[i].name) == 0)
    requires forall k :: 0 <= k < i ==> Stricmp(name, vars[k].name) != 0
    ensures IndexOf(vars, name) == i
  {}

  lemma RemovedIndex(vars: seq<Var>, i: nat, other: string)
    requires i < |vars| && Stricmp(other, vars[i].name) != 0
    ensures var rest, k := vars[..i] + vars[i + 1..], IndexOf(vars, other);
            var k' := if k < i then k else k - 1;
            && 0 <= k' <= |rest| && IndexOf(rest, other) == k'
            && (k < |vars| <==> k' < |rest|)
            && (k < |vars| ==> rest[k'] == vars[k])
  {
    hide Stricmp, IndexOf;
    var rest, k := vars[..i] + vars[i + 1..], IndexOf(vars, other);
    assert k != i;
    if k < i {
      assert forall m :: 0 <= m <= k ==> rest[m] == vars[m];
      IndexUnique(rest, other, k);
    } else {
      assert forall m :: 0 <= m < k - 1 ==> rest[m] == if m < i then vars[m] else vars[m + 1];
      IndexUnique(rest, other, k - 1);
    }
  }

  lemma WithoutKeepsOthers(vars: seq<Var>, env: Environment, name: string, other: string)
    requires NamesDiffer(vars) && Stricmp(other, name) != 0
    ensures GetVar(Without(vars, name), env, other) == GetVar(vars, env, other)
  {
    hide Stricmp, IndexOf;
    var i := IndexOf(vars, name);
    if i < |vars| {
      NamesSame(name, vars[i].name, other);
      RemovedIndex(vars, i, other);
    }
  }

  lemma AppendedVar(vars: seq<Var>, env: Environment, v: Var, other: string)
    requires forall k :: 0 <= k < |vars| ==> Stricmp(v.name, vars[k].name) != 0
    ensures GetVar(vars + [v], env, other)
            == if Stricmp(other, v.name) == 0 then (if v.value == "" then None else Some(v.value))
               else GetVar(vars, env, other)
  {
    if Stricmp(other, v.name) == 0 {
      forall k | 0 <= k < |vars| ensures Stricmp(other, vars[k].name) != 0 {
        NamesSame(other, v.name, vars[k].name);
      }
      IndexUnique(vars + [v], other, |vars|);
    } else {
      var k := IndexOf(vars, other);
      IndexUnique(vars + [v], other, if k < |vars| then k else |vars| + 1);
    }
  }

  /** Setting a variable gives it its value and leaves all others alone. */
  lemma SetThenGet(vars: seq<Var>, env: Environment, name: string, value: string, other: string)
    requires NamesDiffer(vars) && value != ""
    ensures GetVar(SetVar(vars, env, name, value), env, other)
            == if Stricmp(other, name) == 0 then Some(value) else GetVar(vars, env, other)
  {
    WithoutLacks(vars, name);
    AppendedVar(Without(vars, name), env, Var(name, value), other);
    if Stricmp(other, name) != 0 {
      WithoutKeepsOthers(vars, env, name, other);
    }
  }

  /** Setting a variable to nothing leaves it undefined exactly when the environment does not define
      it either, or when some value is found under the empty name: a variable of the environment
      shows through, because the program looks up the empty value and not the name. */
  lemma UnsetThenGet(vars: seq<Var>, env: Environment, name: string, other: string)
    requires NamesDiffer(vars)
    ensures var after := SetVar(vars, env, name, "");
            && (Stricmp(other, name) != 0 ==> GetVar(after, env, other) == GetVar(vars, env, other))
            && (Stricmp(other, name) == 0 ==>
                  (GetVar(after, env, other) == None
                   <==> other !in env || GetVar(Without(vars, name), env, "") != None))
  {
    WithoutLacks(vars, name);
    var rest := Without(vars, name);
    AppendedVar(rest, env, Var(name, ""), other);
    if Stricmp(other, name) != 0 {
      WithoutKeepsOthers(vars, env, name, other);
    } else {
      forall k | 0 <= k < |rest| ensures Stricmp(other, rest[k].name) != 0 {
        NamesSame(other, name, rest[k].name);
      }
      IndexUnique(rest, other, |rest|);
    }
  }

  /** So a variable of the environment that is set to nothing still has its value. */
  lemma UnsetShowsThrough(name: string, v: string)
    requires name != ""
    ensures var env := map[name := v];
            GetVar(SetVar([], env, name, ""), env, name) == Some(v)
  {
    hide Stricmp;
    UnsetThenGet([], map[name := v], name, name);
    StricmpReflexive(name);
  }

  /* ---- Expansion ---- */

  /** The position of a character, or the length of the string. */
  function Find(s: string, c: char): (i: nat)
    ensures i <= |s|
    ensures i < |s| ==> s[i] == c
    ensures forall k :: 0 <= k < i ==> s[k] != c
  {
    if s == [] || s[0] == c then 0 else 1 + Find(s[1..], c)
  }

  function ValueOf(vars: seq<Var>, env: Environment, name: string): string {
    match GetVar(vars, env, name) case Some(v) => v case None => ""
  }

  /** The text with every bracketed name replaced, in one pass: values are not looked at again, and
      a bracket that is not closed stays. */
  function Expand(vars: seq<Var>, env: Environment, s: string): string
    decreases |s|
  {
    if s == [] then []
    else if s[0] == '[' && Find(s, ']') < |s| then
      var p := Find(s, ']');
      ValueOf(vars, env, s[1..p]) + Expand(vars, env, s[p + 1..])
    else [s[0]] + Expand(vars, env, s[1..])
  }

  lemma {:induction false} ExpandPlain(vars: seq<Var>, env: Environment, s: string)
    requires '[' !in s
    ensures Expand(vars, env, s) == s
  {
    if s == [] {
    } else {
      ExpandPlain(vars, env, s[1..]);
    }
  }

  /** Text without brackets in front is kept. */
  lemma {:induction false} ExpandPrefix(vars: seq<Var>, env: Environment, a: string, b: string)
    requires '[' !in a
    ensures Expand(vars, env, a + b) == a + Expand(vars, env, b)
  {
    hide ValueOf;
    if a == [] {
      assert a + b == b;
    } else {
      ExpandPrefix(vars, env, a[1..], b);
      assert (a + b)[1..] == a[1..] + b;
    }
  }

  /** What expansion makes of every text: text before the first bracket stays, a bracketed name gives
      the value of the variable or nothing, once, and a bracket that is not closed stays. */
  lemma {:induction false} ExpandExactly(vars: seq<Var>, env: Environment, a: string, x: string, b: string)
    requires '[' !in a && ']' !in x
    ensures Expand(vars, env, a + ("[" + x + "]" + b))
            == a + ((if GetVar(vars, env, x).Some? then GetVar(vars, env, x).value else "") + Expand(vars, env, b))
    ensures Expand(vars, env, a + x) == a + x
  {
    hide Expand, GetVar;
    ExpandPrefix(vars, env, a, "[" + x + "]" + b);
    ExpandPrefix(vars, env, a, x);
    Unclosed(vars, env, x);
    ExpandBracket(vars, env, x, b);
  }

  lemma ExpandBracket(vars: seq<Var>, env: Environment, x: string, b: string)
    requires ']' !in x
    ensures Expand(vars, env, "[" + x + "]" + b) == ValueOf(vars, env, x) + Expand(vars, env, b)
  {
    hide ValueOf, Find;
    var s := "[" + x + "]" + b;
    FirstAt(s, ']', |x| + 1);
    assert s[1..|x| + 1] == x && s[|x| + 2..] == b;
  }

  lemma {:induction false} Unclosed(vars: seq<Var>, env: Environment, x: string)
    requires ']' !in x
    ensures Expand(vars, env, x) == x
  {
    hide ValueOf;
    if x == [] {
    } else {
      Unclosed(vars, env, x[1..]);
    }
  }

  lemma {:induction false} FirstAt(s: string, c: char, k: nat)
    requires k < |s| && s[k] == c && forall i :: 0 <= i < k ==> s[i] != c
    ensures Find(s, c) == k
  {
    if k == 0 {
    } else {
      FirstAt(s[1..], c, k - 1);
    }
  }

  /** Quotes the two characters that expansion would act on. */
  function Escape(s: string): string {
    if s == [] then []
    else (if s[0] == '[' then "[[]" else if s[0] == '`' then "[`]" else [s[0]]) + Escape(s[1..])
  }

  /** With the two variables that every configuration starts with, expansion undoes quoting. */
  lemma {:induction false} ExpandUndoesEscape(vars: seq<Var>, env: Environment, s: string)
    requires GetVar(vars, env, "[") == Some("[") && GetVar(vars, env, "`") == Some("`")
    ensures Expand(vars, env, Escape(s)) == s
  {
    if s == [] {
    } else {
      ExpandUndoesEscape(vars, env, s[1..]);
      var rest := Escape(s[1..]);
      if s[0] == '[' || s[0] == '`' {
        var e := Escape(s);
        assert e == ['[', s[0], ']'] + rest;
        assert Find(e, ']') == 2 by {
          assert e[0] != ']' && e[1] != ']' && e[2] == ']';
        }
        assert e[1..2] == [s[0]] && e[3..] == rest;
      } else {
        assert Escape(s)[1..] == rest;
      }
    }
  }

  /** The variables a configuration starts with. */
  function InitialVars(vars: seq<Var>, env: Environment, os: string): seq<Var> {
    var v := SetVar(vars, env, "OS", os);
    var v := SetVar(v, env, "[", "[");
    var v := SetVar(v, env, "`", "`");
    var v := SetVar(v, env, "\"", "\"");
    var v := SetVar(v, env, "'", "'");
    var v := SetVar(v, env, "#", "#");
    if GetVar(v, env, "module") == None then SetVar(v, env, "module", " ") else v
  }

  lemma InitialVarsQuote(vars: seq<Var>, env: Environment, os: string)
    requires NamesDiffer(vars)
    ensures var v := InitialVars(vars, env, os);
            NamesDiffer(v) && GetVar(v, env, "[") == Some("[") && GetVar(v, env, "`") == Some("`")
  {
    hide SetVar, GetVar;
    DifferentNames();
    var v1 := SetVar(vars, env, "OS", os);
    SetVarDiffers(vars, env, "OS", os);
    var v2 := SetQuote(v1, env, "[", "[");
    var v3 := SetQuote(v2, env, "`", "`");
    var v4 := SetQuote(v3, env, "\"", "\"");
    var v5 := SetQuote(v4, env, "'", "'");
    var v6 := SetQuote(v5, env, "#", "#");
    var v7 := SetQuote(v6, env, "module", " ");
  }

  /** Any later variable of another name leaves the two in place. */
  lemma SetQuote(vars: seq<Var>, env: Environment, name: string, value: string) returns (after: seq<Var>)
    requires NamesDiffer(vars) && value != ""
    ensures after == SetVar(vars, env, name, value) && NamesDiffer(after)
    ensures GetVar(after, env, "[") == if Stricmp("[", name) == 0 then Some(value) else GetVar(vars, env, "[")
    ensures GetVar(after, env, "`") == if Stricmp("`", name) == 0 then Some(value) else GetVar(vars, env, "`")
  {
    after := SetVar(vars, env, name, value);
    SetVarDiffers(vars, env, name, value);
    SetThenGet(vars, env, name, value, "[");
    SetThenGet(vars, env, name, value, "`");
  }

  /** What a configuration starts with: the operating system, five characters under their own names, and
      a module if there was none. */
  lemma InitialVarsExactly(vars: seq<Var>, env: Environment, os: string, name: string)
    requires NamesDiffer(vars) && os != ""
    ensures var v := GetVar(InitialVars(vars, env, os), env, name);
            if Fold(name) == "os" then v == Some(os)
            else if name in {"[", "`", "\"", "'", "#"} then v == Some(name)
            else if Fold(name) == "module" && GetVar(vars, env, "module") == None then v == Some(" ")
            else v == GetVar(vars, env, name)
  {
    hide SetVar, GetVar, Stricmp;
    SameNames(name);
    SameNames("module");
    var v1 := Defined(vars, env, "OS", os, name);
    var v2 := Defined(v1, env, "[", "[", name);
    var v3 := Defined(v2, env, "`", "`", name);
    var v4 := Defined(v3, env, "\"", "\"", name);
    var v5 := Defined(v4, env, "'", "'", name);
    var v6 := Defined(v5, env, "#", "#", name);
    var v7 := Defined(v6, env, "module", " ", name);
  }

  lemma Defined(vars: seq<Var>, env: Environment, name: string, value: string, other: string)
    returns (after: seq<Var>)
    requires NamesDiffer(vars) && value != ""
    ensures after == SetVar(vars, env, name, value) && NamesDiffer(after)
    ensures GetVar(after, env, other) == if Stricmp(other, name) == 0 then Some(value) else GetVar(vars, env, other)
    ensures GetVar(after, env, "module")
            == if Stricmp("module", name) == 0 then Some(value) else GetVar(vars, env, "module")
  {
    after := SetVar(vars, env, name, value);
    SetVarDiffers(vars, env, name, value);
    SetThenGet(vars, env, name, value, other);
    SetThenGet(vars, env, name, value, "module");
  }

  lemma SameNames(name: string)
    ensures forall c {:trigger Stricmp(name, c)} :: c in {"OS", "[", "`", "\"", "'", "#", "module"} ==>
              (Stricmp(name, c) == 0 <==> Fold(name) == if c == "OS" then "os" else c)
    ensures (Fold(name) == "[" <==> name == "[") && (Fold(name) == "`" <==> name == "`")
    ensures (Fold(name) == "\"" <==> name == "\"") && (Fold(name) == "'" <==> name == "'")
    ensures Fold(name) == "#" <==> name == "#"
  {
    StricmpFold(name, "OS");
    StricmpFold(name, "[");
    StricmpFold(name, "`");
    StricmpFold(name, "\"");
    StricmpFold(name, "'");
    StricmpFold(name, "#");
    StricmpFold(name, "module");
    FoldAt(name);
    hide Fold;
    FoldedNames(name);
  }

  /** The names as they are compared. */
  lemma FoldedNames(name: string)
    ensures Fold("OS") == "os" && Fold("[") == "[" && Fold("`") == "`" && Fold("\"") == "\"" && Fold("'") == "'"
    ensures Fold("#") == "#" && Fold("module") == "module"
    ensures |name| == 1 && |Fold(name)| == 1 && Fold(name)[0] in {'[', '`', '"', '\'', '#'} ==> name == Fold(name)
  {
    hide Fold;
    FoldAt("OS");
    FoldAt("[");
    FoldAt("`");
    FoldAt("\"");
    FoldAt("'");
    FoldAt("#");
    FoldAt("module");
    FoldAt(name);
  }

  lemma DifferentNames()
    ensures Stricmp("[", "[") == 0 && Stricmp("`", "`") == 0
    ensures Stricmp("[", "`") != 0 && Stricmp("[", "\"") != 0 && Stricmp("[", "'") != 0
    ensures Stricmp("[", "#") != 0 && Stricmp("[", "module") != 0
    ensures Stricmp("`", "\"") != 0 && Stricmp("`", "'") != 0 && Stricmp("`", "#") != 0
    ensures Stricmp("`", "module") != 0
  {}
}
