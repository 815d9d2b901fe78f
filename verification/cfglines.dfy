/** What one line of a configuration file does. */
module CfgLines {
  import opened Text
  import opened Wrappers
  import opened CfgVars

  function TrimLeft(s: string): string {
    if s != [] && IsSpace(s[0]) then TrimLeft(s[1..]) else s
  }

  function TrimRight(s: string): string {
    if s != [] && IsSpace(s[|s| - 1]) then TrimRight(s[..|s| - 1]) else s
  }

  function Drop(s: string, n: nat): string {
    if n <= |s| then s[n..] else ""
  }

  predicate HasPrefix(s: string, p: string) {
    |p| <= |s| && Stricmp(s[..|p|], p) == 0
  }

  /** The characters that may start a comment. */
  predicate IsMark(c: char) {
    c == '!' || c == '#' || c == '$' || c == '%' || c == ';'
  }

  type Mark = c: char | IsMark(c) witness '#'

  /** A comment character between white space starts a comment. */
  predicate CommentAt(s: string, cc: Mark, i: nat)
    requires 0 < i < |s|
  {
    s[i] == cc && (s[i - 1] == ' ' || s[i - 1] == '\t') && (i + 1 == |s| || IsSpace(s[i + 1]))
  }

  function CutComment(s: string, cc: Mark, i: nat): string
    requires 0 < i
    decreases |s| - i
  {
    if i >= |s| then s
    else if CommentAt(s, cc, i) then s[..i - 1]
    else CutComment(s, cc, i + 1)
  }

  function StripComment(s: string, cc: Mark): string {
    if s == "" || s[0] == cc then "" else TrimRight(CutComment(s, cc, 1))
  }

  /** A comment begins at this place of a line. */
  predicate CommentFrom(s: string, cc: Mark, i: nat)
    requires i < |s|
  {
    if i == 0 then s[0] == cc else CommentAt(s, cc, i)
  }

  /** What stays of a line is a prefix in which no comment begins and which has no white space at its
      end; what goes otherwise is white space. */
  lemma StripsFirstComment(s: string, cc: Mark)
    ensures var t := StripComment(s, cc);
            && |t| <= |s| && t == s[..|t|] && (t != "" ==> !IsSpace(t[|t| - 1]))
            && (forall i :: 0 <= i < |t| ==> !CommentFrom(s, cc, i))
            && (forall k :: |t| <= k < |s| && !IsSpace(s[k]) ==> exists i :: 0 <= i <= k && CommentFrom(s, cc, i))
  {
    if s != "" && s[0] == cc {
      assert CommentFrom(s, cc, 0);
    } else if s != "" {
      CutsAtFirst(s, cc, 1);
      var cut := CutComment(s, cc, 1);
      Trims(cut);
      var t := StripComment(s, cc);
      assert forall i :: 0 < i < |t| ==> CommentFrom(s, cc, i) == CommentAt(s, cc, i);
      assert forall k :: |t| <= k < |cut| ==> cut[k] == s[k] && IsSpace(s[k]);
      assert |cut| < |s| ==> CommentFrom(s, cc, |cut| + 1);
    }
  }

  lemma {:induction false} CutsAtFirst(s: string, cc: Mark, i: nat)
    requires 0 < i
    ensures var t := CutComment(s, cc, i);
            && |t| <= |s| && t == s[..|t|]
            && (forall k :: i <= k <= |t| && k < |s| ==> !CommentAt(s, cc, k))
            && (|t| < |s| ==> |t| + 1 < |s| && |t| + 1 >= i && CommentAt(s, cc, |t| + 1) && IsSpace(s[|t|]))
    decreases |s| - i
  {
    if i < |s| && !CommentAt(s, cc, i) {
      CutsAtFirst(s, cc, i + 1);
    }
  }

  lemma {:induction false} Trims(s: string)
    ensures var t := TrimRight(s);
            && |t| <= |s| && t == s[..|t|] && (t != "" ==> !IsSpace(t[|t| - 1]))
            && forall k :: |t| <= k < |s| ==> IsSpace(s[k])
  {
    if s != [] && IsSpace(s[|s| - 1]) {
      Trims(s[..|s| - 1]);
    }
  }

  /** The part of a line that is looked at, and the white space before it. */
  function Body(line: string, cc: Mark): string {
    StripComment(TrimLeft(line), cc)
  }

  function Lead(line: string): string {
    if line != [] && IsSpace(line[0]) then [line[0]] + Lead(line[1..]) else []
  }

  datatype Kind = If | Ifdef | ElseIf | Else | Endif | Set | Include | CommentChar | Text

  /** The tests in the order of the program: `else` needs only its four letters, so does every word
      that starts with them. */
  function Classify(s: string): Kind {
    if HasPrefix(s, "if ") then If
    else if HasPrefix(s, "ifdef ") || HasPrefix(s, "ifndef ") then Ifdef
    else if HasPrefix(s, "elseif ") || HasPrefix(s, "elif ") then ElseIf
    else if HasPrefix(s, "else") then Else
    else if HasPrefix(s, "endif") then Endif
    else if HasPrefix(s, "set ") then Set
    else if HasPrefix(s, "include") then Include
    else if HasPrefix(s, "commentchar") && |s| > 11 && IsSpace(s[11]) then CommentChar
    else Text
  }

  predicate Conditional(k: Kind) {
    k.If? || k.Ifdef? || k.ElseIf? || k.Else? || k.Endif?
  }

  /** What the program reads besides the text: files, environment, and the value and well-formedness
      of a comparison in an `if`. */
  datatype Config = Config(files: map<string, seq<string>>, env: Environment,
                           holds: string -> bool, wellFormed: string -> bool)

  /** What lines change and other lines depend on. */
  datatype Data = Data(vars: seq<Var>, comment: Mark, names: seq<string>)

  datatype Frame = Frame(state: bool, inElse: bool, wasTrue: bool)

  /** The stack of open `if`s, top last, and the errors: any error, the number of misplaced `elseif`,
      `else` and `endif` lines, and the number of `ifdef` lines refused because they name nothing. */
  datatype Ctl = Ctl(ifs: seq<Frame>, data: Data, wasError: bool, misplaced: nat, refused: nat)

  datatype Effect = Skip | Return(line: string) | Enter(file: string)

  /** The cached condition of the program stands for this. */
  predicate Live(ifs: seq<Frame>) {
    forall i :: 0 <= i < |ifs| ==> ifs[i].state
  }

  datatype Tested = Bad | Tested(state: bool, error: bool)

  function Expanded(w: Config, d: Data, s: string): string {
    Expand(d.vars, w.env, s)
  }

  /** The test of an `if`, `ifdef` or `ifndef` line. */
  function Test(w: Config, d: Data, s: string): Tested {
    var e := Expanded(w, d, s);
    if Classify(s).If? then
      Tested(w.holds(Drop(e, 3)), !w.wellFormed(Drop(e, 3)))
    else
      var name := TrimLeft(Drop(TrimRight(e), 6));
      if name == "" then Bad
      else Tested((GetVar(d.vars, w.env, name) != None) != HasPrefix(s, "ifn"), false)
  }

  function TestAgain(w: Config, d: Data, s: string): Tested {
    var e := Expanded(w, d, s);
    var expr := Drop(e, Find(e, ' '));
    Tested(w.holds(expr), !w.wellFormed(expr))
  }

  /** A value with a line break in it ends what is set. */
  function FirstLine(s: string): string {
    s[..Find(s, '\n')]
  }

  function AfterSet(w: Config, d: Data, s: string): Option<Data> {
    var args := Drop(FirstLine(Expanded(w, d, s)), 4);
    var eq := Find(args, '=');
    if eq == |args| then None
    else
      var name := TrimLeft(TrimRight(args[..eq]));
      var value := Unquoted(TrimLeft(args[eq + 1..]));
      Some(d.(vars := SetVar(d.vars, w.env, name, value)))
  }

  /** A quoted value ends at the first quote that has no backslash before it. */
  function Unquoted(v: string): string {
    if v != [] && v[0] == '"' then v[1..EndQuote(v, 1)] else v
  }

  function EndQuote(v: string, i: nat): (e: nat)
    requires 0 < i <= |v|
    ensures i <= e <= |v|
    decreases |v| - i
  {
    if i == |v| || (v[i] == '"' && v[i - 1] != '\\') then i else EndQuote(v, i + 1)
  }

  /** A value between quotes is taken without them, and what follows the second quote is dropped. */
  lemma {:induction false} UnquotedBack(v: string, rest: string)
    requires forall i :: 0 <= i < |v| ==> v[i] != '"'
    requires v == "" || v[|v| - 1] != '\\'
    ensures Unquoted("\"" + v + "\"" + rest) == v
  {
    var q := "\"" + v + "\"" + rest;
    EndsAt(q, 1, |v| + 1);
    assert q[1..|v| + 1] == v;
  }

  lemma {:induction false} EndsAt(q: string, i: nat, e: nat)
    requires 0 < i <= e < |q| && q[e] == '"' && q[e - 1] != '\\'
    requires forall k :: i <= k < e ==> q[k] != '"'
    ensures EndQuote(q, i) == e
    decreases e - i
  {
    if i == e {
    } else {
      EndsAt(q, i + 1, e);
    }
  }

  function AfterCommentChar(w: Config, d: Data, s: string): Data {
    var arg := TrimLeft(Drop(s, 11));
    if arg == [] || !IsMark(arg[0]) then d
    else
      var vars := SetVar(d.vars, w.env, [d.comment], "");
      d.(vars := SetVar(vars, w.env, [arg[0]], [arg[0]]), comment := arg[0])
  }

  function FileName(w: Config, d: Data, s: string): string {
    TrimRight(SkipBlanks(Drop(Expanded(w, d, s), 7)))
  }

  function SkipBlanks(s: string): string {
    if s != [] && (s[0] == ' ' || s[0] == '\t') then SkipBlanks(s[1..]) else s
  }

  datatype Acted = Acted(data: Data, effect: Effect, error: bool)

  /** What a line other than a conditional does where it is live. */
  function ActPlain(w: Config, d: Data, line: string): Acted {
    var s := Body(line, d.comment);
    match Classify(s)
    case Set =>
      (match AfterSet(w, d, s)
       case None => Acted(d, Skip, true)
       case Some(d') => Acted(d', Skip, false))
    case Include =>
      var name := FileName(w, d, s);
      if name in w.files then Acted(d, Enter(name), false) else Acted(d, Skip, true)
    case CommentChar => Acted(AfterCommentChar(w, d, s), Skip, false)
    case _ => Acted(d, Return(Lead(line) + s), false)
  }

  function Misplaced(c: Ctl): Ctl {
    c.(wasError := true, misplaced := c.misplaced + 1)
  }

  /** The stack after a conditional line. */
  function ActConditional(w: Config, c: Ctl, s: string): Ctl
    requires Conditional(Classify(s))
  {
    var n := |c.ifs|;
    match Classify(s)
    case If | Ifdef =>
      (match Test(w, c.data, s)
       case Bad => c.(wasError := true, refused := c.refused + 1)
       case Tested(v, err) => c.(ifs := c.ifs + [Frame(v, false, v)], wasError := c.wasError || err))
    case ElseIf =>
      if n == 0 || c.ifs[n - 1].inElse then Misplaced(c)
      else if c.ifs[n - 1].wasTrue then c.(ifs := c.ifs[n - 1 := c.ifs[n - 1].(state := false)])
      else
        var t := TestAgain(w, c.data, s);
        c.(ifs := c.ifs[n - 1 := Frame(t.state, false, t.state)], wasError := c.wasError || t.error)
    case Else =>
      if n == 0 || c.ifs[n - 1].inElse then Misplaced(c)
      else c.(ifs := c.ifs[n - 1 := Frame(!c.ifs[n - 1].wasTrue, true, c.ifs[n - 1].wasTrue)])
    case Endif =>
      if n == 0 then Misplaced(c) else c.(ifs := c.ifs[..n - 1])
  }

  /** What one line does: conditionals always, all others only where they are live. */
  function Act(w: Config, c: Ctl, line: string): (Ctl, Effect) {
    var s := Body(line, c.data.comment);
    if Conditional(Classify(s)) then (ActConditional(w, c, s), Skip)
    else if !Live(c.ifs) then (c, Skip)
    else
      var a := ActPlain(w, c.data, line);
      (c.(data := a.data, wasError := c.wasError || a.error), a.effect)
  }
}
