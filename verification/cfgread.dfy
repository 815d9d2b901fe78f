/** Reading a whole configuration: the reader delivers what the nested blocks of its files mean. */
module CfgRead {
  import opened Text
  import opened Wrappers
  import opened CfgVars
  import opened CfgLines
  import opened CfgWalk
  import opened CfgBlocks
  import opened CfgReader
  import opened CfgSyntax
  import opened CfgEffects

  /** The state in which reading begins: the variables set by callers, the directory of the file, and
      those of every configuration. */
  function Start(w: Config, vars: seq<Var>, dir: string, os: string): Ctl {
    Ctl([], Data(InitialVars(SetVar(vars, w.env, "configdir", dir), w.env, os), '#', []), false, 0, 0)
  }

  /** The state at the beginning: no level is open, nothing was read, and comments begin with a hash; and
      the variables by their names. */
  lemma StartExactly(w: Config, vars: seq<Var>, dir: string, os: string, name: string)
    requires NamesDiffer(vars) && os != "" && dir != ""
    ensures var c := Start(w, vars, dir, os);
            c.ifs == [] && c.data.names == [] && c.data.comment == '#' && !c.wasError && c.misplaced == c.refused == 0
    ensures var v := GetVar(Start(w, vars, dir, os).data.vars, w.env, name);
            if Fold(name) == "os" then v == Some(os)
            else if Fold(name) == "configdir" then v == Some(dir)
            else if name in {"[", "`", "\"", "'", "#"} then v == Some(name)
            else if Fold(name) == "module" && GetVar(vars, w.env, "module") == None then v == Some(" ")
            else v == GetVar(vars, w.env, name)
  {
    hide SetVar, GetVar, Stricmp, InitialVars, Fold, NamesDiffer;
    var before := SetVar(vars, w.env, "configdir", dir);
    SetVarDiffers(vars, w.env, "configdir", dir);
    SetThenGet(vars, w.env, "configdir", dir, name);
    SetThenGet(vars, w.env, "configdir", dir, "module");
    InitialVarsExactly(before, w.env, os, name);
    DirectoryName(name);
  }

  lemma DirectoryName(name: string)
    ensures Stricmp(name, "configdir") == 0 <==> Fold(name) == "configdir"
    ensures Stricmp("module", "configdir") != 0
    ensures |name| == 1 ==> Fold(name) != "configdir"
  {
    hide Stricmp, Fold;
    StricmpFold(name, "configdir");
    StricmpFold("module", "configdir");
    Lowercase("configdir");
    Lowercase("module");
    FoldAt(name);
  }

  /** Lines are taken until there are none. What comes out is the recursive reading of the file with
      everything it includes, whatever its lines are, if some depth suffices for that reading. Where
      the files met are nested blocks, the lines and the variables are those the blocks mean, and no
      level is left open. Every line that comes out is what is kept of the line it names. Without a name,
      or a file of that name, there is no reader. */
  method ReadConfig(w: Config, vars: seq<Var>, dir: string, name: string, os: string, ghost depth: nat)
    returns (out: seq<Out>, reader: ConfigReader?)
    requires name in w.files ==> !WholeFile(w, depth, name, Start(w, vars, dir, os)).deep
    ensures reader == null <==> name == "" || name !in w.files
    ensures reader == null ==> out == []
    ensures reader != null ==> fresh(reader) && reader.Valid() && reader.incStack == [] && reader.hcfg == []
    ensures reader != null ==>
              var r := WholeFile(w, depth, name, Start(w, vars, dir, os));
              out == r.out && reader.State() == r.ctl
    ensures AllDelivered(w, out)
    ensures reader != null ==> forall blocks {:trigger Nested(w, blocks)} :: Nested(w, blocks) && name in blocks ==>
              var r := RunFile(w, depth, blocks, name, Start(w, vars, dir, os).data);
              r.fits ==>
                out == r.out && reader.State().data == r.data && reader.ifStack == [] && reader.misplaced == 0
  {
    hide Pending, InitialVars, SetVar, Live, WholeFile, Nested, RunFile, IsDelivered;
    out, reader := [], null;
    if name == "" || name !in w.files {
      return;
    }
    reader := new ConfigReader(w, SetVar(vars, w.env, "configdir", dir), name, os);
    FirstPending(w, depth, name, reader.State());
    out := Drain(reader, depth);
    ghost var c := Start(w, vars, dir, os);
    FileDelivers(w, depth, name, c);
    forall blocks | Nested(w, blocks) && name in blocks && RunFile(w, depth, blocks, name, c.data).fits
      ensures FileDoes(w, depth, blocks, name, c)
    {
      StartMeaning(w, depth, blocks, name, c);
    }
  }

  method Drain(reader: ConfigReader, ghost depth: nat) returns (out: seq<Out>)
    requires reader.Valid() && reader.InDepth(depth)
    modifies reader
    ensures reader.Valid() && reader.incStack == [] && reader.hcfg == []
    ensures out == old(reader.Rest(depth)).out && reader.State() == old(reader.Rest(depth)).ctl
  {
    hide Pending, Live;
    ghost var all := reader.Rest(depth);
    out := [];
    var line := reader.ConfigLine(depth);
    while line != None
      invariant reader.Valid()
      invariant if line == None then
                  reader.incStack == [] && reader.hcfg == [] && out == all.out && reader.State() == all.ctl
                else
                  && reader.InDepth(depth) && reader.Rest(depth).ctl == all.ctl
                  && out + [Out(line.value, reader.curName, reader.lineNr)] + reader.Rest(depth).out == all.out
      decreases |all.out| - |out|, line != None
    {
      out := out + [Out(line.value, reader.curName, reader.lineNr)];
      line := reader.ConfigLine(depth);
    }
  }

  ghost predicate FileDoes(w: Config, depth: nat, blocks: map<string, Block>, name: string, c: Ctl)
    requires name in w.files && name in blocks
  {
    Does(WholeFile(w, depth, name, c), [], c, true, RunFile(w, depth, blocks, name, c.data))
  }

  lemma StartMeaning(w: Config, depth: nat, blocks: map<string, Block>, name: string, c: Ctl)
    requires name in w.files && Nested(w, blocks) && name in blocks && c.ifs == []
    requires RunFile(w, depth, blocks, name, c.data).fits
    ensures FileDoes(w, depth, blocks, name, c)
  {
    hide WholeFile, RunFile;
    FileMeaning(w, depth, blocks, name, c);
  }

  /** A file named only by a variable is read in place like any other. */
  lemma IncludedByVariable(w: Config, f: string, x: string, g: string, c: Ctl)
    requires Body("include [" + x + "]", c.data.comment) == "include [" + x + "]" && ']' !in x
    requires f in w.files && w.files[f] == ["include [" + x + "]"] && Live(c.ifs)
    requires GetVar(c.data.vars, w.env, x) == Some(g) && g in w.files && TrimRight(SkipBlanks(g)) == g
    requires !WholeFile(w, 0, g, c).deep
    ensures var r := WholeFile(w, 1, f, c); !r.deep && r.out == WholeFile(w, 0, g, c).out
  {
    hide Body, Classify, WholeFile, GetVar, Live;
    var line := "include [" + x + "]";
    BlankAndName(w, c.data, x);
    IncludedFile(w, c, line, " [" + x + "]", g);
    var inner := WholeFile(w, 0, g, c);
    assert Line(w, 1, f, line, 1, c) == inner.(steps := 1 + inner.steps);
    WholeOfOne(w, 1, f, line, c);
  }

  lemma BlankAndName(w: Config, d: Data, x: string)
    requires ']' !in x
    ensures Expanded(w, d, " [" + x + "]") == " " + ValueOf(d.vars, w.env, x)
  {
    hide ValueOf;
    ExpandedName(w, d, x);
    ExpandPrefix(d.vars, w.env, " ", "[" + x + "]");
    assert " " + ("[" + x + "]") == " [" + x + "]";
  }

  lemma IncludedFile(w: Config, c: Ctl, line: string, s: string, g: string)
    requires Body(line, c.data.comment) == line == "include" + s && Live(c.ifs)
    requires Expanded(w, c.data, s) == " " + g && g in w.files && TrimRight(SkipBlanks(g)) == g
    ensures Act(w, c, line) == (c, Enter(g))
  {
    hide Body, Classify, Live, ActPlain;
    PlainKeyword("include", s);
    IncludeLine(w, c.data, line, s);
    assert (" " + g)[1..] == g;
  }

  lemma WholeOfOne(w: Config, depth: nat, f: string, line: string, c: Ctl)
    requires f in w.files && w.files[f] == [line]
    ensures var r, first := WholeFile(w, depth, f, c), Line(w, depth, f, line, 1, c);
            r.deep == first.deep && r.out == first.out
  {
    OneLine(w, depth, f, line, 0, c);
  }
}
