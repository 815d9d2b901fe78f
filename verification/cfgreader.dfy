/** The reader of configuration files, with its stacks, its cached condition and its variables. */
module CfgReader {
  import opened Text
  import opened Wrappers
  import opened CfgVars
  import opened CfgLines
  import opened CfgWalk

  /** An open file: its name, the lines not yet read and the number of those read. */
  datatype Open = Open(name: string, lines: seq<string>, nr: nat)

  /** What is still to come from these open files, the innermost last, to this depth of nesting. */
  function Pending(w: Config, depth: nat, files: seq<Open>, c: Ctl): Walked
    requires |files| <= depth + 1
  {
    if files == [] then Walked(c, [], 0, false)
    else
      var last := |files| - 1;
      var r := ToEnd(w, depth - last, files[last].name, files[last].lines, files[last].nr, c);
      Then(r, Pending(w, depth, files[..last], r.ctl))
  }

  /** A file that is read to its end gives way to the one that included it. */
  lemma PendingEnd(w: Config, depth: nat, files: seq<Open>, c: Ctl)
    requires |files| <= depth + 1 && files != [] && files[|files| - 1].lines == []
    ensures var last := |files| - 1;
            var c' := Noted(c, files[last].name);
            && Pending(w, depth, files, c) == Then(Walked(c', [], 1, false), Pending(w, depth, files[..last], c'))
            && (last == 0 ==> Pending(w, depth, files, c) == Walked(c', [], 1, false))
  {
    var last := |files| - 1;
    var f := files[last];
    assert Lines(w, depth - last, f.name, f.lines, f.nr, c) == Walked(c, [], 0, false);
  }

  /** The open files behind one line: the line is read, and a file it includes is open. */
  function After(w: Config, outer: seq<Open>, o: Open, effect: Effect): seq<Open>
    requires o.lines != []
  {
    outer + [Open(o.name, o.lines[1..], o.nr + 1)]
    + (if effect.Enter? && effect.file in w.files then [Open(effect.file, w.files[effect.file], 0)] else [])
  }

  function Delivered(effect: Effect, f: string, nr: nat): seq<Out> {
    if effect.Return? then [Out(effect.line, f, nr)] else []
  }

  /** A line of the innermost file, and what it leaves to do. Only an include at the full depth
      leaves something that is not followed. */
  lemma PendingLine(w: Config, depth: nat, outer: seq<Open>, o: Open, c: Ctl)
    requires |outer| <= depth && o.lines != []
    ensures var (c', effect) := Act(w, c, o.lines[0]);
            var files := After(w, outer, o, effect);
            && (effect.Enter? ==> effect.file in w.files)
            && if effect.Enter? && |outer| == depth then Pending(w, depth, outer + [o], c).deep
               else
                 && |files| <= depth + 1
                 && Pending(w, depth, outer + [o], c)
                    == Then(Walked(c', Delivered(effect, o.name, o.nr + 1), 1, false), Pending(w, depth, files, c'))
  {
    hide Act, ActPlain, Then, Pending;
    EntersFile(w, c, o.lines[0]);
    var (c', effect) := Act(w, c, o.lines[0]);
    var rest := Open(o.name, o.lines[1..], o.nr + 1);
    PendingTop(w, depth, outer, o, c);
    assert outer + [rest] + [] == outer + [rest];
    if effect.Enter? {
      if |outer| == depth {
        DeepThen(Line(w, 0, o.name, o.lines[0], o.nr + 1, c), Pending(w, depth, outer + [rest], c'));
      } else {
        PendingInner(w, depth, outer + [rest], effect.file, c');
      }
    }
  }

  lemma DeepThen(r: Walked, s: Walked)
    requires r.deep
    ensures Then(r, s).deep
  {}

  lemma PendingTop(w: Config, depth: nat, outer: seq<Open>, o: Open, c: Ctl)
    requires |outer| <= depth && o.lines != []
    ensures var first := Line(w, depth - |outer|, o.name, o.lines[0], o.nr + 1, c);
            var files := outer + [Open(o.name, o.lines[1..], o.nr + 1)];
            Pending(w, depth, outer + [o], c) == Then(first, Pending(w, depth, files, first.ctl))
  {
    hide Line;
    var first := Line(w, depth - |outer|, o.name, o.lines[0], o.nr + 1, c);
    var rest := Open(o.name, o.lines[1..], o.nr + 1);
    assert (outer + [o])[..|outer|] == outer && (outer + [rest])[..|outer|] == outer;
    var r := ToEnd(w, depth - |outer|, rest.name, rest.lines, rest.nr, first.ctl);
    assert ToEnd(w, depth - |outer|, o.name, o.lines, o.nr, c) == Then(first, r);
    ThenAssociates(first, r, Pending(w, depth, outer, r.ctl));
  }

  lemma PendingInner(w: Config, depth: nat, files: seq<Open>, g: string, c: Ctl)
    requires 0 < |files| <= depth && g in w.files
    ensures var inner := WholeFile(w, depth - |files|, g, c);
            Then(inner.(steps := 1 + inner.steps), Pending(w, depth, files, inner.ctl))
            == Then(Walked(c, [], 1, false), Pending(w, depth, files + [Open(g, w.files[g], 0)], c))
  {
    var o := Open(g, w.files[g], 0);
    var inner := WholeFile(w, depth - |files|, g, c);
    assert (files + [o])[..|files|] == files;
    ThenAssociates(Walked(c, [], 1, false), inner, Pending(w, depth, files, inner.ctl));
  }

  lemma ThenAssociates(a: Walked, b: Walked, c: Walked)
    ensures Then(Then(a, b), c) == Then(a, Then(b, c))
  {}

  /* ---- The depth suffices exactly where the reading ends ---- */

  /** One step with these files open: the end of the innermost one, or its next line. */
  function Stepped(w: Config, files: seq<Open>, c: Ctl): (seq<Open>, Ctl)
    requires files != []
  {
    var last := |files| - 1;
    var o := files[last];
    if o.lines == [] then (files[..last], Noted(c, o.name))
    else
      var (c', effect) := Act(w, c, o.lines[0]);
      (After(w, files[..last], o, effect), c')
  }

  /** All files are read to their ends within so many steps. */
  predicate Halts(w: Config, files: seq<Open>, c: Ctl, steps: nat)
    decreases steps
  {
    files == [] || (steps > 0 && var (files', c') := Stepped(w, files, c); Halts(w, files', c', steps - 1))
  }

  lemma PendingStep(w: Config, depth: nat, files: seq<Open>, c: Ctl)
    requires files != [] && |files| <= depth + 1
    ensures var p, (files', c') := Pending(w, depth, files, c), Stepped(w, files, c);
            if |files'| > depth + 1 then p.deep
            else var q := Pending(w, depth, files', c'); p.deep == q.deep && p.steps == q.steps + 1
  {
    hide Pending, Act;
    var last := |files| - 1;
    var o := files[last];
    assert files == files[..last] + [o];
    if o.lines == [] {
      PendingEnd(w, depth, files, c);
    } else {
      PendingLine(w, depth, files[..last], o, c);
    }
  }

  lemma {:induction false} DepthOfHalt(w: Config, depth: nat, files: seq<Open>, c: Ctl, steps: nat)
    requires Halts(w, files, c, steps) && |files| + steps <= depth + 1
    ensures !Pending(w, depth, files, c).deep
    decreases steps
  {
    hide Act;
    if files == [] {
    } else {
      var (files', c') := Stepped(w, files, c);
      DepthOfHalt(w, depth, files', c', steps - 1);
      PendingStep(w, depth, files, c);
    }
  }

  lemma {:induction false} HaltOfDepth(w: Config, depth: nat, files: seq<Open>, c: Ctl, steps: nat)
    requires |files| <= depth + 1 && !Pending(w, depth, files, c).deep && Pending(w, depth, files, c).steps == steps
    ensures Halts(w, files, c, steps)
    decreases steps
  {
    hide Act;
    if files == [] {
    } else {
      var (files', c') := Stepped(w, files, c);
      PendingStep(w, depth, files, c);
      HaltOfDepth(w, depth, files', c', steps - 1);
    }
  }

  /** The reading of a file ends if and only if some depth of nesting suffices for it. */
  lemma EndsExactly(w: Config, f: string, c: Ctl)
    requires f in w.files
    ensures (exists steps :: Halts(w, [Open(f, w.files[f], 0)], c, steps))
            <==> (exists depth: nat :: !WholeFile(w, depth, f, c).deep)
  {
    var files := [Open(f, w.files[f], 0)];
    hide Halts, Pending, WholeFile;
    if steps :| Halts(w, files, c, steps) {
      DepthOfHalt(w, steps, files, c, steps);
      FirstPending(w, steps, f, c);
    }
    if depth: nat :| !WholeFile(w, depth, f, c).deep {
      FirstPending(w, depth, f, c);
      HaltOfDepth(w, depth, files, c, Pending(w, depth, files, c).steps);
    }
  }

  lemma FirstPending(w: Config, depth: nat, f: string, c: Ctl)
    requires f in w.files
    ensures Pending(w, depth, [Open(f, w.files[f], 0)], c) == WholeFile(w, depth, f, c)
  {
    var files := [Open(f, w.files[f], 0)];
    var r := ToEnd(w, depth, f, w.files[f], 0, c);
    assert files[..0] == [];
    assert Pending(w, depth, files, c) == Then(r, Pending(w, depth, [], r.ctl));
  }

  class ConfigReader {
    const w: Config
    var hcfg: seq<string>
    var curName: string
    var lineNr: nat
    var incStack: seq<Open>
    var ifStack: seq<Frame>
    var condition: bool
    var vars: seq<Var>
    var commentChar: Mark
    var names: seq<string>
    var wasError: bool
    var misplaced: nat
    var refused: nat

    ghost function State(): Ctl
      reads this
    {
      Ctl(ifStack, Data(vars, commentChar, names), wasError, misplaced, refused)
    }

    ghost function OpenFiles(): seq<Open>
      reads this
    {
      incStack + [Open(curName, hcfg, lineNr)]
    }

    /** The cached condition is the conjunction of all stacked states. */
    ghost predicate Valid()
      reads this
    {
      condition == Live(ifStack)
    }

    /** What is still to be read nests no deeper than this. */
    ghost predicate InDepth(depth: nat)
      reads this
    {
      |incStack| <= depth && !Pending(w, depth, OpenFiles(), State()).deep
    }

    /** All that is still to come. */
    ghost function Rest(depth: nat): Walked
      requires InDepth(depth)
      reads this
    {
      Pending(w, depth, OpenFiles(), State())
    }

    /** Opens a file. Variables that were set before stay, and those of every configuration are set. */
    constructor (w: Config, vars: seq<Var>, name: string, os: string)
      requires name in w.files
      ensures Valid() && this.w == w
      ensures OpenFiles() == [Open(name, w.files[name], 0)] && incStack == []
      ensures State() == Ctl([], Data(InitialVars(vars, w.env, os), '#', []), false, 0, 0)
    {
      hide InitialVars;
      this.w := w;
      hcfg, curName, lineNr, incStack := w.files[name], name, 0, [];
      ifStack, condition := [], true;
      this.vars, commentChar, names := InitialVars(vars, w.env, os), '#', [];
      wasError, misplaced, refused := false, 0, 0;
    }

    /** The conjunction, computed afresh from the stack. */
    method SetCond()
      modifies this`condition
      ensures condition == Live(ifStack)
    {
      condition := true;
      for i := 0 to |ifStack|
        invariant condition == Live(ifStack[..i])
      {
        LiveNext(ifStack, i);
        condition := ifStack[i].state && condition;
      }
      assert ifStack[..|ifStack|] == ifStack;
    }

    method LookUp(name: string) returns (r: Option<string>)
      ensures r == GetVar(vars, w.env, name)
    {
      hide Stricmp;
      for i := 0 to |vars|
        invariant forall k :: 0 <= k < i ==> Stricmp(name, vars[k].name) != 0
      {
        if Stricmp(name, vars[i].name) == 0 {
          IndexUnique(vars, name, i);
          return if vars[i].value == "" then None else Some(vars[i].value);
        }
      }
      IndexUnique(vars, name, |vars|);
      r := if name in w.env then Some(w.env[name]) else None;
    }

    method Define(name: string, value: string)
      modifies this`vars
      ensures vars == SetVar(old(vars), w.env, name, value)
    {
      hide Stricmp, IndexOf;
      var i := 0;
      while i < |vars| && Stricmp(vars[i].name, name) != 0
        invariant i <= |vars| && vars == old(vars)
        invariant forall k :: 0 <= k < i ==> Stricmp(name, vars[k].name) != 0
      {
        StricmpFlips(vars[i].name, name);
        i := i + 1;
      }
      if i < |vars| {
        StricmpFlips(vars[i].name, name);
      }
      IndexUnique(vars, name, i);
      if i < |vars| {
        ShiftDown(i);
      }
      assert vars == Without(old(vars), name);
      if value == "" {
        var v := LookUp(value);
        if v == None {
          return;
        }
      }
      vars := vars + [Var(name, value)];
    }

    /** Removes a variable: those behind it move down by one place. */
    method ShiftDown(i: nat)
      requires i < |vars|
      modifies this`vars
      ensures vars == old(vars)[..i] + old(vars)[i + 1..]
    {
      var v, n := vars, |vars| - 1;
      for j := i to n
        invariant v == vars[..i] + vars[i + 1..j + 1] + vars[j..]
      {
        v := v[j := v[j + 1]];
      }
      vars := v[..n];
    }

    /** Expands bracketed names into a buffer that grows as the program's does: there is always room
        for what is left of the source and the terminator. */
    method VarsExpand(line: string) returns (r: string)
      ensures r == Expand(vars, w.env, line)
    {
      if '[' !in line {
        ExpandPlain(vars, w.env, line);
        return line;
      }
      hide GetVar, Find, Expand;
      var curlen := |line| + 1;
      var parsed := new char[curlen](_ => '\0');
      var dest: nat, src: nat := 0, 0;
      assert line[0..] == line && parsed[..0] == [];
      while src < |line|
        invariant src <= |line| && 2 <= curlen == parsed.Length && fresh(parsed)
        invariant dest + (|line| - src) + 1 <= curlen
        invariant parsed[..dest] + Expand(vars, w.env, line[src..]) == Expand(vars, w.env, line)
      {
        ghost var done := parsed[..dest];
        if dest >= curlen - 2 {
          curlen := curlen + 80;
          parsed := Realloc(parsed, curlen);
        }
        assert parsed[..dest] == done;
        parsed, curlen, dest, src := ExpandOne(parsed, curlen, dest, line, src);
      }
      ExpandEnd(vars, w.env, line);
      parsed[dest] := '\0';
      r := parsed[..dest];
    }

    /** One character of the line, or one name in brackets. */
    method ExpandOne(buffer: array<char>, curlen: nat, dest: nat, line: string, src: nat)
      returns (parsed: array<char>, curlen': nat, dest': nat, src': nat)
      requires src < |line| && curlen == buffer.Length && dest + (|line| - src) + 1 <= curlen
      modifies buffer
      ensures parsed == buffer || fresh(parsed)
      ensures src < src' <= |line| && curlen <= curlen' == parsed.Length
      ensures dest' + (|line| - src') + 1 <= curlen'
      ensures parsed[..dest'] + Expand(vars, w.env, line[src'..])
              == old(buffer[..dest]) + Expand(vars, w.env, line[src..])
    {
      hide GetVar, Find, Expand;
      ghost var done := buffer[..dest];
      parsed, curlen' := buffer, curlen;
      ExpandNext(vars, w.env, line, src);
      var p := src + Find(line[src..], ']');
      if line[src] == '[' && p < |line| {
        parsed, curlen', dest' := PutVariable(parsed, curlen, dest, line[src + 1..p], |line| - src);
        Regrouped(done, ValueOf(vars, w.env, line[src + 1..p]), Expand(vars, w.env, line[p + 1..]));
        src' := p + 1;
      } else {
        parsed[dest] := line[src];
        dest' := dest + 1;
        assert parsed[..dest'] == done + [line[src]];
        Regrouped(done, [line[src]], Expand(vars, w.env, line[src + 1..]));
        src' := src + 1;
      }
    }

    /** The value of a variable behind what is written; nothing if there is none. */
    method PutVariable(buffer: array<char>, curlen: nat, dest: nat, name: string, ghost left: nat)
      returns (parsed: array<char>, curlen': nat, dest': nat)
      requires curlen == buffer.Length && |name| + 2 <= left && dest + left + 1 <= curlen
      modifies buffer
      ensures parsed == buffer || fresh(parsed)
      ensures curlen <= curlen' == parsed.Length && dest' + (left - |name| - 2) + 1 <= curlen'
      ensures parsed[..dest'] == old(buffer[..dest]) + ValueOf(vars, w.env, name)
    {
      hide GetVar;
      parsed, curlen', dest' := buffer, curlen, dest;
      var v := LookUp(name);
      if v.Some? {
        parsed, curlen' := AppendValue(parsed, curlen, dest, |name|, v.value, left);
        dest' := dest + |v.value|;
      }
    }

    /** An `if`, `ifdef` or `ifndef` line opens a level, unless it names nothing. */
    method Opens(s: string)
      requires Valid() && (Classify(s).If? || Classify(s).Ifdef?)
      modifies this`ifStack, this`condition, this`wasError, this`refused
      ensures Valid() && State() == ActConditional(w, old(State()), s)
    {
      hide Expand, Classify, GetVar, HasPrefix;
      var str := VarsExpand(s);
      var state: bool;
      if Classify(s).If? {
        state, wasError := w.holds(Drop(str, 3)), wasError || !w.wellFormed(Drop(str, 3));
      } else {
        var name := TrimLeft(Drop(TrimRight(str), 6));
        if name == "" {
          wasError, refused := true, refused + 1;
          return;
        }
        var v := LookUp(name);
        state := v != None;
        if HasPrefix(s, "ifn") {
          state := !state;
        }
      }
      Push(state);
    }

    method Push(state: bool)
      requires Valid()
      modifies this`ifStack, this`condition
      ensures Valid() && ifStack == old(ifStack) + [Frame(state, false, state)]
    {
      ifStack := ifStack + [Frame(state, false, state)];
      LiveNext(ifStack, |ifStack| - 1);
      assert ifStack[..|ifStack| - 1] == old(ifStack) && ifStack[..|ifStack|] == ifStack;
      condition := condition && state;
    }

    method Misplace()
      modifies this`wasError, this`misplaced
      ensures State() == Misplaced(old(State()))
    {
      wasError, misplaced := true, misplaced + 1;
    }

    /** An `elseif` line tests again, unless the branch before it was taken. */
    method Turns(s: string)
      requires Valid() && Classify(s).ElseIf?
      modifies this`ifStack, this`condition, this`wasError, this`misplaced
      ensures Valid() && State() == ActConditional(w, old(State()), s)
    {
      hide Expand, Classify;
      var top := |ifStack| - 1;
      if top == -1 || ifStack[top].inElse {
        Misplace();
        return;
      }
      var str := VarsExpand(s);
      if ifStack[top].wasTrue {
        ifStack := ifStack[top := ifStack[top].(state := false)];
      } else {
        var expr := Drop(str, Find(str, ' '));
        wasError := wasError || !w.wellFormed(expr);
        ifStack := ifStack[top := ifStack[top].(state := w.holds(expr), wasTrue := w.holds(expr))];
      }
      SetCond();
    }

    /** An `else` line takes what no branch before it took. */
    method Flips(s: string)
      requires Valid() && Classify(s).Else?
      modifies this`ifStack, this`condition, this`wasError, this`misplaced
      ensures Valid() && State() == ActConditional(w, old(State()), s)
    {
      var top := |ifStack| - 1;
      if top == -1 || ifStack[top].inElse {
        Misplace();
        return;
      }
      ifStack := ifStack[top := ifStack[top].(inElse := true, state := !ifStack[top].wasTrue)];
      SetCond();
    }

    method Closes(s: string)
      requires Valid() && Classify(s).Endif?
      modifies this`ifStack, this`condition, this`wasError, this`misplaced
      ensures Valid() && State() == ActConditional(w, old(State()), s)
    {
      if |ifStack| == 0 {
        Misplace();
        return;
      }
      ifStack := ifStack[..|ifStack| - 1];
      SetCond();
    }

    method Sets(s: string)
      modifies this`vars, this`wasError
      ensures State() == (var d := AfterSet(w, old(State()).data, s);
                          if d == None then old(State()).(wasError := true) else old(State()).(data := d.value))
    {
      hide Expand, SetVar;
      var str := VarsExpand(s);
      str := FirstLine(str);
      var args := Drop(str, 4);
      var eq := Find(args, '=');
      if eq == |args| {
        wasError := true;
        return;
      }
      Define(TrimLeft(TrimRight(args[..eq])), Unquoted(TrimLeft(args[eq + 1..])));
    }

    method ChangesComment(s: string)
      modifies this`vars, this`commentChar
      ensures State() == old(State()).(data := AfterCommentChar(w, old(State()).data, s))
    {
      hide SetVar;
      var arg := TrimLeft(Drop(s, 11));
      if arg != [] && IsMark(arg[0]) {
        Define([commentChar], "");
        commentChar := arg[0];
        Define([commentChar], [commentChar]);
      }
    }

    /** One line: conditionals always, all others only where the cached condition holds. */
    method DoLine(line: string) returns (effect: Effect)
      requires Valid()
      modifies this`ifStack, this`condition, this`vars, this`commentChar
      modifies this`wasError, this`misplaced, this`refused
      ensures Valid() && (State(), effect) == Act(w, old(State()), line)
    {
      hide Classify, Body, ActConditional, AfterSet, AfterCommentChar, Expand;
      var s := Body(line, commentChar);
      effect := Skip;
      var kind := Classify(s);
      if kind.If? || kind.Ifdef? {
        Opens(s);
      } else if kind.ElseIf? {
        Turns(s);
      } else if kind.Else? {
        Flips(s);
      } else if kind.Endif? {
        Closes(s);
      } else if condition {
        effect := DoPlain(line, s);
      }
    }

    /** A line other than a conditional, where it is live. */
    method DoPlain(line: string, s: string) returns (effect: Effect)
      requires s == Body(line, commentChar) && !Conditional(Classify(s))
      modifies this`vars, this`commentChar, this`wasError
      ensures var a := ActPlain(w, old(State()).data, line);
              effect == a.effect
              && State() == old(State()).(data := a.data, wasError := old(wasError) || a.error)
    {
      hide Classify, Body, AfterSet, AfterCommentChar, Expand;
      var kind := Classify(s);
      effect := Skip;
      if kind.Set? {
        Sets(s);
      } else if kind.Include? {
        var str := VarsExpand(s);
        var name := TrimRight(SkipBlanks(Drop(str, 7)));
        if name in w.files {
          effect := Enter(name);
        } else {
          wasError := true;
        }
      } else if kind.CommentChar? {
        ChangesComment(s);
      } else {
        effect := Return(Lead(line) + s);
      }
    }

    /** At the end of a file its name is noted, and the file that included it comes back. */
    method NextFile(ghost depth: nat) returns (more: bool)
      requires Valid() && InDepth(depth) && hcfg == []
      modifies this`names, this`incStack, this`hcfg, this`curName, this`lineNr
      ensures Valid() && (more ==> InDepth(depth))
      ensures more ==> old(Rest(depth)) == Then(Walked(State(), [], 1, false), Rest(depth))
      ensures !more ==> old(Rest(depth)) == Walked(State(), [], 1, false)
      ensures !more ==> incStack == [] && hcfg == []
    {
      hide Pending, Live;
      ghost var files := OpenFiles();
      PendingEnd(w, depth, files, State());
      assert files[..|files| - 1] == incStack;
      names := names + [curName];
      more := incStack != [];
      if more {
        var sp := |incStack| - 1;
        curName, hcfg, lineNr := incStack[sp].name, incStack[sp].lines, incStack[sp].nr;
        incStack := incStack[..sp];
        assert OpenFiles() == old(incStack);
      }
    }

    /** One line of the current file. */
    method NextLine(ghost depth: nat) returns (line: Option<string>)
      requires Valid() && InDepth(depth) && hcfg != []
      modifies this
      ensures Valid() && InDepth(depth)
      ensures old(Rest(depth))
              == Then(Walked(State(), if line == None then [] else [Out(line.value, curName, lineNr)], 1, false),
                      Rest(depth))
    {
      hide Pending, Act, Live;
      ghost var o := Open(curName, hcfg, lineNr);
      PendingLine(w, depth, incStack, o, State());
      var str := hcfg[0];
      hcfg, lineNr := hcfg[1..], lineNr + 1;
      var effect := DoLine(str);
      line := None;
      if effect.Return? {
        line := Some(effect.line);
      } else if effect.Enter? {
        incStack := incStack + [Open(curName, hcfg, lineNr)];
        curName, hcfg, lineNr := effect.file, w.files[effect.file], 0;
      }
      assert OpenFiles() == After(w, old(incStack), o, effect);
    }

    /** The next line to deliver: always the first of those the recursive reading still gives, with
        the name and the line number of its file; the rest stays. At the end the state is the one
        that reading ends in. */
    method ConfigLine(ghost depth: nat) returns (line: Option<string>)
      requires Valid() && InDepth(depth)
      modifies this
      ensures Valid() && (line != None ==> InDepth(depth))
      ensures var before := old(Rest(depth));
              if line == None then before.out == [] && before.ctl == State() && incStack == [] && hcfg == []
              else
                && before.out != [] && before.out[0] == Out(line.value, curName, lineNr)
                && Rest(depth).out == before.out[1..] && Rest(depth).ctl == before.ctl
    {
      hide Pending, Live;
      line := None;
      while line == None
        invariant Valid() && InDepth(depth)
        invariant old(Rest(depth)).ctl == Rest(depth).ctl
        invariant old(Rest(depth)).out
                  == (if line == None then [] else [Out(line.value, curName, lineNr)]) + Rest(depth).out
        decreases Rest(depth).steps, line == None
      {
        if hcfg == [] {
          var more := NextFile(depth);
          if !more {
            return;
          }
        } else {
          line := NextLine(depth);
        }
      }
    }
  }

  lemma ExpandEnd(vars: seq<Var>, env: Environment, line: string)
    ensures Expand(vars, env, line[|line|..]) == []
  {}

  /** Puts a value in the place of a name in brackets. The buffer grows by what the value is longer
      than the name and the brackets, so there is still room for the rest of the source. */
  method AppendValue(buffer: array<char>, curlen: nat, dest: nat, nameLen: nat, value: string, ghost left: nat)
    returns (parsed: array<char>, curlen': nat)
    requires curlen == buffer.Length && nameLen + 2 <= left && dest + left + 1 <= curlen
    modifies buffer
    ensures parsed == buffer || fresh(parsed)
    ensures curlen <= curlen' == parsed.Length && dest + |value| + (left - nameLen - 2) + 1 <= curlen'
    ensures parsed[..dest + |value|] == old(buffer[..dest]) + value
  {
    parsed, curlen' := buffer, curlen;
    if |value| > nameLen + 2 {
      curlen' := curlen + |value| - nameLen - 2;
      parsed := Realloc(parsed, curlen');
    }
    CopyString(parsed, dest, value);
  }

  lemma Regrouped(a: string, b: string, c: string)
    ensures a + (b + c) == a + b + c
  {}

  /** One step of the expansion, at a position in the line. */
  lemma ExpandNext(vars: seq<Var>, env: Environment, line: string, src: nat)
    requires src < |line|
    ensures var p := src + Find(line[src..], ']');
            Expand(vars, env, line[src..])
            == if line[src] == '[' && p < |line|
               then ValueOf(vars, env, line[src + 1..p]) + Expand(vars, env, line[p + 1..])
               else [line[src]] + Expand(vars, env, line[src + 1..])
  {
    hide Find, ValueOf;
    var s := line[src..];
    var p := Find(s, ']');
    assert s[1..] == line[src + 1..];
    if s[0] == '[' && p < |s| {
      assert s[1..p] == line[src + 1..src + p] && s[p + 1..] == line[src + p + 1..];
    }
  }

  method Realloc(a: array<char>, n: nat) returns (b: array<char>)
    requires a.Length <= n
    ensures fresh(b) && b.Length == n && b[..a.Length] == a[..]
  {
    b := new char[n](i => '\0');
    forall i | 0 <= i < a.Length {
      b[i] := a[i];
    }
  }

  /** The string and its terminator, within the buffer. */
  method CopyString(buffer: array<char>, at: nat, s: string)
    requires at + |s| + 1 <= buffer.Length
    modifies buffer
    ensures buffer[..at + |s|] == old(buffer[..at]) + s && buffer[at + |s|] == '\0'
  {
    forall i | 0 <= i < |s| {
      buffer[at + i] := s[i];
    }
    buffer[at + |s|] := '\0';
  }

  lemma LiveNext(ifs: seq<Frame>, i: nat)
    requires i < |ifs|
    ensures Live(ifs[..i + 1]) <==> Live(ifs[..i]) && ifs[i].state
  {
    forall k | 0 <= k < i ensures ifs[..i + 1][k] == ifs[..i][k] {}
    assert ifs[..i + 1][i] == ifs[i];
  }
}
