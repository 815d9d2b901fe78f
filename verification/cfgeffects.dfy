/** What lines are and do, stated on their text alone. */
module CfgEffects {
  import opened Text
  import opened Wrappers
  import opened CfgVars
  import opened CfgLines
  import opened CfgSyntax
  import opened CfgWalk

  /* ---- Keywords ---- */

  /** The text begins with this word, in upper or lower case. */
  predicate Starts(s: string, word: string) {
    |word| <= |s| && Fold(s[..|word|]) == word
  }

  predicate StartsCommentChar(s: string) {
    Starts(s, "commentchar") && |s| > 11 && IsSpace(s[11])
  }

  predicate Keyword(s: string) {
    || Starts(s, "if ") || Starts(s, "ifdef ") || Starts(s, "ifndef ") || Starts(s, "elseif ") || Starts(s, "elif ")
    || Starts(s, "else") || Starts(s, "endif") || Starts(s, "set ") || Starts(s, "include") || StartsCommentChar(s)
  }

  lemma PrefixStarts(s: string, word: string)
    requires |word| >= 3 && Fold(word) == word
    ensures HasPrefix(s, word) <==> Starts(s, word)
    ensures Starts(s, word) ==>
              ToLower(s[0]) == word[0] && ToLower(s[1]) == word[1] && ToLower(s[2]) == word[2]
  {
    if |word| <= |s| {
      StricmpFold(s[..|word|], word);
      FoldAt(s[..|word|]);
    }
  }

  lemma Lowercase(word: string)
    requires forall i :: 0 <= i < |word| ==> !('A' <= word[i] <= 'Z')
    ensures Fold(word) == word
  {
    FoldAt(word);
  }

  /** Every text is of one kind, by the word it begins with. A text that begins with no keyword is
      plain. */
  lemma KindExactly(s: string)
    ensures Classify(s) == If <==> Starts(s, "if ")
    ensures Classify(s) == Ifdef <==> Starts(s, "ifdef ") || Starts(s, "ifndef ")
    ensures Classify(s) == ElseIf <==> Starts(s, "elseif ") || Starts(s, "elif ")
    ensures Classify(s) == Else <==> Starts(s, "else") && !Starts(s, "elseif ")
    ensures Classify(s) == Endif <==> Starts(s, "endif")
    ensures Classify(s) == Set <==> Starts(s, "set ")
    ensures Classify(s) == Include <==> Starts(s, "include")
    ensures Classify(s) == CommentChar <==> StartsCommentChar(s)
    ensures Classify(s) == CfgLines.Text <==> !Keyword(s)
  {
    hide HasPrefix, Starts, Fold, ToLower;
    Word(s, "if ");
    Word(s, "ifdef ");
    Word(s, "ifndef ");
    Word(s, "elseif ");
    Word(s, "elif ");
    Word(s, "else");
    Word(s, "endif");
    Word(s, "set ");
    Word(s, "include");
    Word(s, "commentchar");
  }

  lemma Word(s: string, word: string)
    requires |word| >= 3 && forall i :: 0 <= i < |word| ==> !('A' <= word[i] <= 'Z')
    ensures HasPrefix(s, word) <==> Starts(s, word)
    ensures Starts(s, word) ==>
              |s| >= |word| && ToLower(s[0]) == word[0] && ToLower(s[1]) == word[1] && ToLower(s[2]) == word[2]
  {
    hide HasPrefix, ToLower;
    Lowercase(word);
    PrefixStarts(s, word);
  }

  /* ---- Trimming and quotes ---- */

  lemma {:induction false} TrimsLeft(s: string)
    ensures var n := |s| - |TrimLeft(s)|;
            && n >= 0 && TrimLeft(s) == s[n..] && Lead(s) == s[..n]
            && (forall i :: 0 <= i < n ==> IsSpace(s[i])) && (n < |s| ==> !IsSpace(s[n]))
  {
    if s != "" && IsSpace(s[0]) {
      TrimsLeft(s[1..]);
      var n := |s| - |TrimLeft(s)|;
      assert forall i :: 0 < i < n ==> s[i] == s[1..][i - 1];
      assert s[..n] == [s[0]] + s[1..][..n - 1];
    } else {
      assert s[0..] == s && s[..0] == "";
    }
  }

  lemma {:induction false} SkipsBlanks(s: string)
    ensures var n := |s| - |SkipBlanks(s)|;
            && n >= 0 && SkipBlanks(s) == s[n..]
            && (forall i :: 0 <= i < n ==> s[i] == ' ' || s[i] == '\t') && (n < |s| ==> s[n] != ' ' && s[n] != '\t')
  {
    if s != "" && (s[0] == ' ' || s[0] == '\t') {
      SkipsBlanks(s[1..]);
      var n := |s| - |SkipBlanks(s)|;
      assert forall i :: 0 < i < n ==> s[i] == s[1..][i - 1];
    } else {
      assert s[0..] == s;
    }
  }

  /** The first line of a text is all before its first line break. */
  lemma FirstLineExactly(s: string)
    ensures var t := FirstLine(s);
            t <= s && '\n' !in t && (|t| < |s| ==> s[|t|] == '\n')
  {}

  /** A quote without a backslash before it. */
  predicate EndsQuoted(v: string, i: nat)
    requires 0 < i < |v|
  {
    v[i] == '"' && v[i - 1] != '\\'
  }

  /** A value in quotes ends at the first quote without a backslash; any other is taken whole. */
  lemma UnquotedExactly(v: string)
    ensures v == "" || v[0] != '"' ==> Unquoted(v) == v
    ensures v != "" && v[0] == '"' ==>
              var e := |Unquoted(v)| + 1;
              && e <= |v| && Unquoted(v) == v[1..e] && (forall i :: 0 < i < e ==> !EndsQuoted(v, i))
              && (e < |v| ==> EndsQuoted(v, e))
  {
    if v != "" && v[0] == '"' {
      QuoteEnds(v, 1);
    }
  }

  lemma {:induction false} QuoteEnds(v: string, i: nat)
    requires 0 < i <= |v|
    ensures var e := EndQuote(v, i);
            && (forall k :: i <= k < e ==> !EndsQuoted(v, k)) && (e < |v| ==> EndsQuoted(v, e))
    decreases |v| - i
  {
    if i == |v| || EndsQuoted(v, i) {
    } else {
      QuoteEnds(v, i + 1);
    }
  }

  /* ---- What is delivered ---- */

  /** A comment begins at place `i` of a line whose text begins at place `k`. */
  predicate CommentBegins(line: string, cc: char, k: nat, i: nat)
    requires k <= i < |line|
  {
    && line[i] == cc
    && (i == k || ((line[i - 1] == ' ' || line[i - 1] == '\t') && (i + 1 == |line| || IsSpace(line[i + 1]))))
  }

  /** `t` is what is kept of a line whose text begins at place `k`: a prefix with all white space at
      the beginning of the line, in which no comment begins and whose text does not end in white
      space. All else that is cut is white space, or stands at or behind the beginning of a comment. */
  predicate IsKept(line: string, cc: char, k: nat, t: string) {
    && k <= |t| <= |line| && t == line[..|t|]
    && (forall i :: 0 <= i < k ==> IsSpace(line[i])) && (k < |line| ==> !IsSpace(line[k]))
    && (k < |t| ==> !IsSpace(t[|t| - 1]))
    && (forall i :: k <= i < |t| ==> !CommentBegins(line, cc, k, i))
    && (forall i :: |t| <= i < |line| && !IsSpace(line[i]) ==>
          exists j :: |t| <= j <= i && CommentBegins(line, cc, k, j))
  }

  /** That determines it. */
  lemma KeptOnce(line: string, cc: char, k: nat, t: string, k': nat, t': string)
    requires IsKept(line, cc, k, t) && IsKept(line, cc, k', t')
    ensures k == k' && t == t'
  {
    assert k == k';
    NotLonger(line, cc, k, t, t');
    NotLonger(line, cc, k, t', t);
  }

  lemma NotLonger(line: string, cc: char, k: nat, t: string, t': string)
    requires IsKept(line, cc, k, t) && IsKept(line, cc, k, t')
    ensures |t'| <= |t|
  {
    hide CommentBegins;
  }

  lemma SameComments(line: string, cc: Mark, k: nat)
    requires k <= |line|
    ensures forall i :: k <= i < |line| ==> (CommentBegins(line, cc, k, i) <==> CommentFrom(line[k..], cc, i - k))
  {
    forall i | k <= i < |line| ensures CommentBegins(line, cc, k, i) <==> CommentFrom(line[k..], cc, i - k) {
      assert line[i] == line[k..][i - k];
    }
  }

  /** The white space and the text that the program looks at are kept. */
  lemma BodyKept(line: string, cc: Mark)
    ensures IsKept(line, cc, |Lead(line)|, Lead(line) + Body(line, cc))
    ensures (Lead(line) + Body(line, cc))[|Lead(line)|..] == Body(line, cc)
  {
    hide StripComment, TrimLeft, Lead, CommentBegins, CommentFrom;
    TrimsLeft(line);
    var k, s := |Lead(line)|, TrimLeft(line);
    var t := Lead(line) + StripComment(s, cc);
    StripsFirstComment(s, cc);
    SameComments(line, cc, k);
    forall i | k <= i < |t| ensures !CommentBegins(line, cc, k, i) {
      assert !CommentFrom(s, cc, i - k);
    }
    forall i | |t| <= i < |line| && !IsSpace(line[i]) ensures exists j :: |t| <= j <= i && CommentBegins(line, cc, k, j)
    {
      assert !IsSpace(s[i - k]);
      var j :| 0 <= j <= i - k && CommentFrom(s, cc, j);
      assert CommentBegins(line, cc, k, j + k);
    }
  }

  /** A line is delivered where it is live and its text begins with no keyword, and then what is kept
      of it is delivered. */
  lemma LineDelivered(w: Config, c: Ctl, line: string, k: nat, t: string)
    requires IsKept(line, c.data.comment, k, t)
    ensures Act(w, c, line).1.Return? <==> Live(c.ifs) && !Keyword(t[k..])
    ensures Act(w, c, line).1.Return? ==> Act(w, c, line).1 == Return(t)
  {
    hide IsKept, Body, Lead, Classify, Keyword, Live, ActConditional;
    var cc := c.data.comment;
    BodyKept(line, cc);
    KeptOnce(line, cc, k, t, |Lead(line)|, Lead(line) + Body(line, cc));
    KindExactly(Body(line, cc));
  }

  /** This is what is kept of a line, with some comment character, and begins with no keyword. */
  ghost predicate IsText(line: string, t: string) {
    exists cc: char, k: nat ::
      cc in {'!', '#', '$', '%', ';'} && IsKept(line, cc, k, t) && !Keyword(t[k..])
  }

  /** This was delivered from the line it names. */
  ghost predicate IsDelivered(w: Config, o: Out) {
    o.file in w.files && 1 <= o.nr <= |w.files[o.file]| && IsText(w.files[o.file][o.nr - 1], o.line)
  }

  ghost predicate AllDelivered(w: Config, out: seq<Out>) {
    forall o :: o in out ==> IsDelivered(w, o)
  }

  /** All that reading a file delivers, from itself and all it includes, are lines of these files, under
      their numbers and without their comments. */
  lemma {:induction false} FileDelivers(w: Config, depth: nat, f: string, c: Ctl)
    requires f in w.files
    ensures AllDelivered(w, WholeFile(w, depth, f, c).out)
    decreases depth, |w.files[f]|, 3
  {
    hide Line, Lines;
    LinesDeliver(w, depth, f, 0, c);
  }

  lemma {:induction false} LinesDeliver(w: Config, depth: nat, f: string, nr: nat, c: Ctl)
    requires f in w.files && nr <= |w.files[f]|
    ensures AllDelivered(w, Lines(w, depth, f, w.files[f][nr..], nr, c).out)
    decreases depth, |w.files[f]| - nr, 1
  {
    hide Line, IsDelivered;
    var lines := w.files[f][nr..];
    if lines == [] {
    } else {
      LineDelivers(w, depth, f, nr, c);
      assert lines[1..] == w.files[f][nr + 1..];
      LinesDeliver(w, depth, f, nr + 1, Line(w, depth, f, lines[0], nr + 1, c).ctl);
    }
  }

  lemma {:induction false} LineDelivers(w: Config, depth: nat, f: string, nr: nat, c: Ctl)
    requires f in w.files && nr < |w.files[f]|
    ensures AllDelivered(w, Line(w, depth, f, w.files[f][nr], nr + 1, c).out)
    decreases depth, 0, 0
  {
    hide Act, WholeFile, IsDelivered;
    var line := w.files[f][nr];
    var (c', effect) := Act(w, c, line);
    EntersFile(w, c, line);
    match effect
    case Skip =>
    case Return(t) =>
      Delivers(w, f, nr, c);
    case Enter(g) =>
      if depth > 0 {
        FileDelivers(w, depth - 1, g, c');
      }
  }

  lemma Delivers(w: Config, f: string, nr: nat, c: Ctl)
    requires f in w.files && nr < |w.files[f]| && Act(w, c, w.files[f][nr]).1.Return?
    ensures IsDelivered(w, Out(Act(w, c, w.files[f][nr]).1.line, f, nr + 1))
  {
    hide Act, IsKept, Body, Lead, Keyword;
    var line, cc := w.files[f][nr], c.data.comment;
    BodyKept(line, cc);
    LineDelivered(w, c, line, |Lead(line)|, Lead(line) + Body(line, cc));
    assert IsMark(cc);
  }

  /* ---- Errors ---- */

  /** An `elseif`, `else` or `endif` is misplaced where no level is open, the first two also behind an
      `else`. */
  predicate IsMisplaced(k: Kind, ifs: seq<Frame>) {
    && (k.ElseIf? || k.Else? || k.Endif?)
    && (ifs == [] || (!k.Endif? && ifs[|ifs| - 1].inElse))
  }

  /** A misplaced line is counted, and does nothing else. */
  lemma MisplacedExactly(w: Config, c: Ctl, line: string)
    ensures var k, r := Classify(Body(line, c.data.comment)), Act(w, c, line).0;
            && (IsMisplaced(k, c.ifs) ==> r == c.(wasError := true, misplaced := c.misplaced + 1))
            && (!IsMisplaced(k, c.ifs) ==> r.misplaced == c.misplaced)
  {
    hide Classify, Body, Test, TestAgain, ActPlain, Live;
  }

  /** Everything that makes a reading fail in the end: a misplaced line, an `ifdef` without a name, an
      ill-formed test that is made, a live `set` without an equals sign and a live `include` of no
      file. */
  lemma ErrorExactly(w: Config, c: Ctl, line: string)
    ensures var s := Body(line, c.data.comment);
            var k, e := Classify(s), Expanded(w, c.data, s);
            Act(w, c, line).0.wasError
            <==> || c.wasError || IsMisplaced(k, c.ifs)
                 || (k.If? && !w.wellFormed(Drop(e, 3)))
                 || (k.Ifdef? && TrimLeft(Drop(TrimRight(e), 6)) == "")
                 || (k.ElseIf? && !IsMisplaced(k, c.ifs) && !c.ifs[|c.ifs| - 1].wasTrue
                     && !w.wellFormed(Drop(e, Find(e, ' '))))
                 || (k.Set? && Live(c.ifs) && '=' !in Drop(FirstLine(e), 4))
                 || (k.Include? && Live(c.ifs) && TrimRight(SkipBlanks(Drop(e, 7))) !in w.files)
  {
    hide Classify, Body, Live, SetVar, Unquoted, TrimLeft, TrimRight, Expand, SkipBlanks, AfterCommentChar, GetVar;
    hide HasPrefix;
  }

  /* ---- The comment character ---- */

  /** A `commentchar` line with a valid character makes it the comment character and gives the variable
      of that name its value, while that of the old character is set to nothing; with any other it does
      nothing. */
  lemma CommentCharLine(w: Config, d: Data, line: string, name: string)
    requires StartsCommentChar(Body(line, d.comment)) && NamesDiffer(d.vars)
    ensures var arg, a := TrimLeft(Body(line, d.comment)[11..]), ActPlain(w, d, line);
            && a.effect == Skip && !a.error && a.data.names == d.names
            && if arg == "" || arg[0] !in {'!', '#', '$', '%', ';'} then a.data == d
               else
                 && a.data.comment == arg[0] && GetVar(a.data.vars, w.env, [arg[0]]) == Some([arg[0]])
                 && (Stricmp(name, [arg[0]]) != 0 ==>
                       GetVar(a.data.vars, w.env, name) == GetVar(SetVar(d.vars, w.env, [d.comment], ""), w.env, name))
  {
    hide Body, GetVar, SetVar, Classify, TrimLeft, NamesDiffer, Stricmp;
    KindExactly(Body(line, d.comment));
    var arg := TrimLeft(Body(line, d.comment)[11..]);
    if arg != "" && IsMark(arg[0]) {
      var vars := SetVar(d.vars, w.env, [d.comment], "");
      SetVarDiffers(d.vars, w.env, [d.comment], "");
      StricmpReflexive([arg[0]]);
      SetThenGet(vars, w.env, [arg[0]], [arg[0]], [arg[0]]);
      SetThenGet(vars, w.env, [arg[0]], [arg[0]], name);
    }
  }
}
