/** The meaning of a configuration: files read line by line, with included files read in place. */
module CfgWalk {
  import opened CfgVars
  import opened CfgLines

  /** A delivered line with the file and the number of the line it came from. */
  datatype Out = Out(line: string, file: string, nr: nat)

  /** What a reading leaves behind and delivers, in how many steps, and whether it met an include
      nested deeper than it was allowed to follow. */
  datatype Walked = Walked(ctl: Ctl, out: seq<Out>, steps: nat, deep: bool)

  /** One line of `f`, with the file it includes if it includes one, to this depth of nesting. */
  function Line(w: Config, depth: nat, f: string, line: string, nr: nat, c: Ctl): Walked
    decreases depth, 0, 0
  {
    var (c', effect) := Act(w, c, line);
    match effect
    case Skip => Walked(c', [], 1, false)
    case Return(text) => Walked(c', [Out(text, f, nr)], 1, false)
    case Enter(g) =>
      if depth == 0 then Walked(c', [], 1, true)
      else
        var inner := WholeFile(w, depth - 1, g, c');
        inner.(steps := 1 + inner.steps)
  }

  function Then(r: Walked, s: Walked): Walked {
    Walked(s.ctl, r.out + s.out, r.steps + s.steps, r.deep || s.deep)
  }

  /** The lines of `f` behind number `nr`, included files in their place. */
  function Lines(w: Config, depth: nat, f: string, lines: seq<string>, nr: nat, c: Ctl): Walked
    decreases depth, |lines|, 1
  {
    if lines == [] then Walked(c, [], 0, false)
    else
      var first := Line(w, depth, f, lines[0], nr + 1, c);
      Then(first, Lines(w, depth, f, lines[1..], nr + 1, first.ctl))
  }

  /** A file to its end, where its name is noted. */
  function WholeFile(w: Config, depth: nat, f: string, c: Ctl): Walked
    requires f in w.files
    decreases depth, |w.files[f]|, 3
  {
    ToEnd(w, depth, f, w.files[f], 0, c)
  }

  function ToEnd(w: Config, depth: nat, f: string, lines: seq<string>, nr: nat, c: Ctl): Walked
    decreases depth, |lines|, 2
  {
    var r := Lines(w, depth, f, lines, nr, c);
    r.(ctl := Noted(r.ctl, f), steps := r.steps + 1)
  }

  function Noted(c: Ctl, f: string): Ctl {
    c.(data := NotedIn(c.data, f))
  }

  function NotedIn(d: Data, f: string): Data {
    d.(names := d.names + [f])
  }

  /** One part of a file after another. */
  lemma {:induction false} LinesAppend(w: Config, depth: nat, f: string, a: seq<string>, b: seq<string>,
                                       nr: nat, c: Ctl)
    ensures var r := Lines(w, depth, f, a, nr, c);
            Lines(w, depth, f, a + b, nr, c) == Then(r, Lines(w, depth, f, b, nr + |a|, r.ctl))
    decreases |a|
  {
    hide Line;
    if a == [] {
      assert a + b == b;
    } else {
      assert (a + b)[0] == a[0] && (a + b)[1..] == a[1..] + b;
      LinesAppend(w, depth, f, a[1..], b, nr + 1, Line(w, depth, f, a[0], nr + 1, c).ctl);
    }
  }

  /* ---- The depth does not matter where it suffices ---- */

  lemma {:induction false} DeeperFile(w: Config, depth: nat, more: nat, f: string, c: Ctl)
    requires f in w.files && depth <= more && !WholeFile(w, depth, f, c).deep
    ensures WholeFile(w, more, f, c) == WholeFile(w, depth, f, c)
    decreases depth, |w.files[f]|, 3
  {
    DeeperLines(w, depth, more, f, w.files[f], 0, c);
  }

  lemma {:induction false} DeeperLines(w: Config, depth: nat, more: nat, f: string, lines: seq<string>, nr: nat, c: Ctl)
    requires depth <= more && !Lines(w, depth, f, lines, nr, c).deep
    ensures Lines(w, more, f, lines, nr, c) == Lines(w, depth, f, lines, nr, c)
    decreases depth, |lines|, 1
  {
    hide Act;
    if lines == [] {
    } else {
      var (c', effect) := Act(w, c, lines[0]);
      if effect.Enter? {
        EntersFile(w, c, lines[0]);
        DeeperFile(w, depth - 1, more - 1, effect.file, c');
      }
      DeeperLines(w, depth, more, f, lines[1..], nr + 1, Line(w, depth, f, lines[0], nr + 1, c).ctl);
    }
  }

  lemma EntersFile(w: Config, c: Ctl, line: string)
    ensures var effect := Act(w, c, line).1;
            effect.Enter? ==> effect.file in w.files && effect == ActPlain(w, c.data, line).effect
  {}

  /* ---- The names of variables stay different up to case ---- */

  lemma PlainKeepsNames(w: Config, d: Data, line: string)
    requires NamesDiffer(d.vars)
    ensures NamesDiffer(ActPlain(w, d, line).data.vars)
  {
    hide SetVar, NamesDiffer, Classify, Body, Expand;
    var s := Body(line, d.comment);
    match Classify(s)
    case Set =>
      var args := Drop(FirstLine(Expanded(w, d, s)), 4);
      var eq := Find(args, '=');
      if eq < |args| {
        SetVarDiffers(d.vars, w.env, TrimLeft(TrimRight(args[..eq])), Unquoted(TrimLeft(args[eq + 1..])));
      }
    case CommentChar =>
      var arg := TrimLeft(Drop(s, 11));
      if arg != [] && IsMark(arg[0]) {
        SetVarDiffers(d.vars, w.env, [d.comment], "");
        SetVarDiffers(SetVar(d.vars, w.env, [d.comment], ""), w.env, [arg[0]], [arg[0]]);
      }
    case _ =>
  }

  lemma {:induction false} FileKeepsNames(w: Config, depth: nat, f: string, c: Ctl)
    requires f in w.files && NamesDiffer(c.data.vars)
    ensures NamesDiffer(WholeFile(w, depth, f, c).ctl.data.vars)
    decreases depth, |w.files[f]|, 3
  {
    LinesKeepNames(w, depth, f, w.files[f], 0, c);
  }

  lemma {:induction false} LinesKeepNames(w: Config, depth: nat, f: string, lines: seq<string>, nr: nat, c: Ctl)
    requires NamesDiffer(c.data.vars)
    ensures NamesDiffer(Lines(w, depth, f, lines, nr, c).ctl.data.vars)
    decreases depth, |lines|, 1
  {
    hide NamesDiffer, ActPlain, ActConditional, Classify, Body;
    if lines == [] {
    } else {
      var (c', effect) := Act(w, c, lines[0]);
      ConditionalKeepsData(w, c, Body(lines[0], c.data.comment));
      PlainKeepsNames(w, c.data, lines[0]);
      EntersFile(w, c, lines[0]);
      if effect.Enter? && depth > 0 {
        FileKeepsNames(w, depth - 1, effect.file, c');
      }
      LinesKeepNames(w, depth, f, lines[1..], nr + 1, Line(w, depth, f, lines[0], nr + 1, c).ctl);
    }
  }

  /* ---- Includes without cycles ---- */

  type Rank = map<string, nat>

  /** Where this holds of the variables, the line keeps it and includes only files of lower rank. */
  ghost predicate Descends(w: Config, rank: Rank, ok: Data -> bool, f: string, line: string)
    requires f in rank
  {
    forall d :: ok(d) ==>
                  var a := ActPlain(w, d, line);
                  ok(a.data) && (a.effect.Enter? ==> a.effect.file in rank && rank[a.effect.file] < rank[f])
  }

  ghost predicate AllDescend(w: Config, rank: Rank, ok: Data -> bool, f: string, lines: seq<string>)
    requires f in rank
  {
    forall l :: l in lines ==> Descends(w, rank, ok, f, l)
  }

  /** Among these files, and with variables of which `ok` holds throughout, includes have no cycle. */
  ghost predicate Acyclic(w: Config, rank: Rank, ok: Data -> bool) {
    && (forall f :: f in rank ==> f in w.files && AllDescend(w, rank, ok, f, w.files[f]))
    && (forall f, d :: f in rank && ok(d) ==> ok(NotedIn(d, f)))
  }

  /** Then the rank of a file is depth enough. */
  lemma {:induction false} AcyclicFile(w: Config, rank: Rank, ok: Data -> bool, depth: nat, f: string, c: Ctl)
    requires Acyclic(w, rank, ok) && f in rank && rank[f] <= depth && ok(c.data)
    ensures var r := WholeFile(w, depth, f, c); !r.deep && ok(r.ctl.data)
    decreases depth, |w.files[f]|, 3
  {
    hide Descends;
    AcyclicLines(w, rank, ok, depth, f, w.files[f], 0, c);
  }

  lemma {:induction false} AcyclicLines(w: Config, rank: Rank, ok: Data -> bool, depth: nat, f: string,
                                        lines: seq<string>, nr: nat, c: Ctl)
    requires Acyclic(w, rank, ok) && f in rank && rank[f] <= depth && ok(c.data)
    requires AllDescend(w, rank, ok, f, lines)
    ensures var r := Lines(w, depth, f, lines, nr, c); !r.deep && ok(r.ctl.data)
    decreases depth, |lines|, 1
  {
    hide Acyclic, ActPlain, ActConditional;
    if lines == [] {
    } else {
      var (c', effect) := Act(w, c, lines[0]);
      assert Descends(w, rank, ok, f, lines[0]);
      ConditionalKeepsData(w, c, Body(lines[0], c.data.comment));
      EntersFile(w, c, lines[0]);
      if effect.Enter? {
        AcyclicFile(w, rank, ok, depth - 1, effect.file, c');
      }
      AcyclicLines(w, rank, ok, depth, f, lines[1..], nr + 1, Line(w, depth, f, lines[0], nr + 1, c).ctl);
    }
  }

  lemma ConditionalKeepsData(w: Config, c: Ctl, s: string)
    ensures Conditional(Classify(s)) ==> ActConditional(w, c, s).data == c.data
  {}
}
