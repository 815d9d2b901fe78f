/** Files nested by their keywords alone: when the line machine reads them as they are nested. */
module CfgNested {
  import opened Wrappers
  import opened CfgVars
  import opened CfgLines
  import opened CfgSyntax
  import opened CfgWalk
  import opened CfgBlocks

  /** The line is of this kind, whatever the comment character. */
  ghost predicate Always(line: string, k: Kind) {
    forall cc: Mark :: Classify(Body(line, cc)) == k
  }

  lemma KindAlways(d: Data, line: string, k: Kind)
    requires Always(line, k)
    ensures KindOf(d, line) == k
  {}

  ghost predicate Keyworded(b: Block) {
    match b
    case Nil => true
    case Cons(item, rest) => ItemKeyworded(item) && Keyworded(rest)
  }

  ghost predicate ItemKeyworded(item: Item) {
    match item
    case Plain(line) => forall cc: Mark :: !Conditional(Classify(Body(line, cc)))
    case Choice(head, body, tail) =>
      (Always(head, If) || Always(head, Ifdef)) && Keyworded(body) && TailKeyworded(tail)
  }

  ghost predicate TailKeyworded(t: Tail) {
    match t
    case End(line) => Always(line, Endif)
    case Otherwise(line, body, end) => Always(line, Else) && Keyworded(body) && Always(end, Endif)
    case OrIf(line, body, rest) => Always(line, ElseIf) && Keyworded(body) && TailKeyworded(rest)
  }

  /** Each of these files is nested by its keywords. */
  ghost predicate AllKeyworded(w: Config, blocks: map<string, Block>) {
    Nested(w, blocks) && forall f :: f in blocks ==> Keyworded(blocks[f])
  }

  /** All files read to their ends are among these. */
  predicate Known(blocks: map<string, Block>, c: Ctl) {
    forall f :: f in c.data.names ==> f in blocks
  }

  /** What a reading does to the level of the stack, apart from what is misplaced or refused. */
  predicate Balanced(c: Ctl, r: Ctl, level: int) {
    && c.misplaced <= r.misplaced && c.refused <= r.refused && c.data.names <= r.data.names
    && level - (r.refused - c.refused) <= |r.ifs| <= level - (r.refused - c.refused) + (r.misplaced - c.misplaced)
    && (c.refused < r.refused || c.wasError ==> r.wasError)
  }

  lemma BalancedThen(c: Ctl, m: Ctl, r: Ctl, before: int, level: int)
    requires Balanced(c, m, before) && Balanced(m, r, |m.ifs| + level - before)
    ensures Balanced(c, r, level)
  {}

  lemma KnownEarlier(blocks: map<string, Block>, c: Ctl, r: Ctl)
    requires c.data.names <= r.data.names && Known(blocks, r)
    ensures Known(blocks, c)
  {}

  /* ---- Every reading grows its names, and only refused heads and misplaced lines unbalance it ---- */

  lemma PlainKeepsLevels(w: Config, d: Data, line: string)
    ensures ActPlain(w, d, line).data.names == d.names
  {}

  /** The level after one line. */
  function LevelAfter(k: Kind, level: int): int {
    if k.If? || k.Ifdef? then level + 1 else if k.Endif? then level - 1 else level
  }

  lemma ConditionalBalances(w: Config, c: Ctl, s: string)
    requires Conditional(Classify(s))
    ensures Balanced(c, ActConditional(w, c, s), LevelAfter(Classify(s), |c.ifs|))
  {
    hide Test, TestAgain, Classify;
  }

  /** Of two states, the second has at least the names and the refused lines of the first. */
  predicate Grows(c: Ctl, r: Ctl) {
    c.data.names <= r.data.names && c.refused <= r.refused
  }

  lemma GrowsThen(c: Ctl, m: Ctl, r: Ctl)
    requires Grows(c, m) && Grows(m, r)
    ensures Grows(c, r)
  {}

  lemma {:induction false} FileGrows(w: Config, depth: nat, f: string, c: Ctl)
    requires f in w.files
    ensures var r := WholeFile(w, depth, f, c).ctl; Grows(c, r) && f in r.data.names
    decreases depth, |w.files[f]|, 3
  {
    LinesGrow(w, depth, f, w.files[f], 0, c);
  }

  lemma {:induction false} LineGrows(w: Config, depth: nat, f: string, line: string, nr: nat, c: Ctl)
    ensures Grows(c, Line(w, depth, f, line, nr, c).ctl)
    decreases depth, 0, 0
  {
    hide ActPlain, ActConditional, Classify, Body;
    var (c', effect) := Act(w, c, line);
    ActGrows(w, c, line);
    EntersFile(w, c, line);
    if effect.Enter? && depth > 0 {
      FileGrows(w, depth - 1, effect.file, c');
    }
  }

  lemma ActGrows(w: Config, c: Ctl, line: string)
    ensures Grows(c, Act(w, c, line).0)
  {
    hide Test, TestAgain, ActPlain, Classify, Body;
    PlainKeepsLevels(w, c.data, line);
  }

  lemma {:induction false} LinesGrow(w: Config, depth: nat, f: string, lines: seq<string>, nr: nat, c: Ctl)
    ensures Grows(c, Lines(w, depth, f, lines, nr, c).ctl)
    decreases depth, |lines|, 1
  {
    hide Line;
    if lines == [] {
    } else {
      LineGrows(w, depth, f, lines[0], nr + 1, c);
      LinesGrow(w, depth, f, lines[1..], nr + 1, Line(w, depth, f, lines[0], nr + 1, c).ctl);
    }
  }

  lemma LineBalances(w: Config, depth: nat, f: string, line: string, nr: nat, c: Ctl)
    requires Conditional(KindOf(c.data, line))
    ensures Balanced(c, Line(w, depth, f, line, nr, c).ctl, LevelAfter(KindOf(c.data, line), |c.ifs|))
  {
    hide Classify, Body, Balanced, ActConditional, LevelAfter;
    ConditionalBalances(w, c, Body(line, c.data.comment));
  }

  lemma {:induction false} FileBalances(w: Config, depth: nat, blocks: map<string, Block>, f: string, c: Ctl)
    requires AllKeyworded(w, blocks) && f in blocks && Known(blocks, WholeFile(w, depth, f, c).ctl)
    ensures Balanced(c, WholeFile(w, depth, f, c).ctl, |c.ifs|)
    decreases depth, blocks[f], 2
  {
    hide Line, Lines, Keyworded;
    FileGrows(w, depth, f, c);
    BlockBalances(w, depth, blocks, f, blocks[f], 0, c);
  }

  lemma {:induction false} BlockBalances(w: Config, depth: nat, blocks: map<string, Block>, f: string, b: Block,
                                         nr: nat, c: Ctl)
    requires AllKeyworded(w, blocks) && Keyworded(b) && Known(blocks, Lines(w, depth, f, CfgBlocks.Text(b), nr, c).ctl)
    ensures Balanced(c, Lines(w, depth, f, CfgBlocks.Text(b), nr, c).ctl, |c.ifs|)
    decreases depth, b, 1
  {
    hide Line, AllKeyworded, ItemKeyworded, ItemText, Known, Balanced;
    match b
    case Nil => SameBalances(c);
    case Cons(item, rest) =>
      var m := Lines(w, depth, f, ItemText(item), nr, c).ctl;
      var r := Lines(w, depth, f, CfgBlocks.Text(rest), nr + |ItemText(item)|, m).ctl;
      LinesAppend(w, depth, f, ItemText(item), CfgBlocks.Text(rest), nr, c);
      LinesGrow(w, depth, f, CfgBlocks.Text(rest), nr + |ItemText(item)|, m);
      KnownEarlier(blocks, m, r);
      ItemBalances(w, depth, blocks, f, item, nr, c);
      BlockBalances(w, depth, blocks, f, rest, nr + |ItemText(item)|, m);
      BalancedThen(c, m, r, |c.ifs|, |c.ifs|);
  }

  lemma SameBalances(c: Ctl)
    ensures Balanced(c, c, |c.ifs|)
  {}

  lemma {:induction false} ItemBalances(w: Config, depth: nat, blocks: map<string, Block>, f: string, item: Item,
                                        nr: nat, c: Ctl)
    requires AllKeyworded(w, blocks) && ItemKeyworded(item)
    requires Known(blocks, Lines(w, depth, f, ItemText(item), nr, c).ctl)
    ensures Balanced(c, Lines(w, depth, f, ItemText(item), nr, c).ctl, |c.ifs|)
    decreases depth, item, 1
  {
    hide Line, Lines, AllKeyworded, Known, Balanced, Keyworded, TailKeyworded;
    match item
    case Plain(line) =>
      OneLine(w, depth, f, line, nr, c);
      PlainBalances(w, depth, blocks, f, line, nr, c);
    case Choice(head, body, tail) =>
      var c1 := Line(w, depth, f, head, nr + 1, c).ctl;
      var c2 := Lines(w, depth, f, CfgBlocks.Text(body), nr + 1, c1).ctl;
      var r := Lines(w, depth, f, TailText(tail), nr + 1 + |CfgBlocks.Text(body)|, c2).ctl;
      LineBalances(w, depth, f, head, nr + 1, c);
      HeadBodyRest(w, depth, f, head, CfgBlocks.Text(body), TailText(tail), nr, c);
      LinesGrow(w, depth, f, TailText(tail), nr + 1 + |CfgBlocks.Text(body)|, c2);
      KnownEarlier(blocks, c2, r);
      BlockBalances(w, depth, blocks, f, body, nr + 1, c1);
      TailBalances(w, depth, blocks, f, tail, nr + 1 + |CfgBlocks.Text(body)|, c2);
      BodyBalances(c, c1, c2, r, |c.ifs| + 1, |c.ifs|);
  }

  /** A conditional line, a body that keeps the level and what follows. */
  lemma BodyBalances(c: Ctl, c1: Ctl, c2: Ctl, r: Ctl, inner: int, level: int)
    requires Balanced(c, c1, inner) && Balanced(c1, c2, |c1.ifs|) && Balanced(c2, r, |c2.ifs| + level - inner)
    ensures Balanced(c, r, level)
  {
    hide Balanced;
    BalancedThen(c, c1, c2, inner, inner);
    BalancedThen(c, c2, r, inner, level);
  }

  lemma {:induction false} PlainBalances(w: Config, depth: nat, blocks: map<string, Block>, f: string, line: string,
                                         nr: nat, c: Ctl)
    requires AllKeyworded(w, blocks) && !Conditional(KindOf(c.data, line))
    requires Known(blocks, Line(w, depth, f, line, nr + 1, c).ctl)
    ensures Balanced(c, Line(w, depth, f, line, nr + 1, c).ctl, |c.ifs|)
    decreases depth, Plain(line), 0
  {
    hide Classify, Body, Live, ActPlain, AllKeyworded, WholeFile;
    EntersFile(w, c, line);
    PlainKeepsLevels(w, c.data, line);
    var (c', effect) := Act(w, c, line);
    if effect.Enter? && depth > 0 {
      FileGrows(w, depth - 1, effect.file, c');
      FileBalances(w, depth - 1, blocks, effect.file, c');
    }
  }

  lemma {:induction false} TailBalances(w: Config, depth: nat, blocks: map<string, Block>, f: string, t: Tail,
                                        nr: nat, c: Ctl)
    requires AllKeyworded(w, blocks) && TailKeyworded(t)
    requires Known(blocks, Lines(w, depth, f, TailText(t), nr, c).ctl)
    ensures Balanced(c, Lines(w, depth, f, TailText(t), nr, c).ctl, |c.ifs| - 1)
    decreases depth, t, 1
  {
    hide Line, Lines, AllKeyworded, Known, Balanced, Keyworded;
    match t
    case End(line) =>
      OneLine(w, depth, f, line, nr, c);
      LineBalances(w, depth, f, line, nr + 1, c);
    case Otherwise(line, body, end) =>
      OtherwiseBalances(w, depth, blocks, f, t, nr, c);
    case OrIf(line, body, rest) =>
      OrIfBalances(w, depth, blocks, f, t, nr, c);
  }

  lemma {:induction false} OtherwiseBalances(w: Config, depth: nat, blocks: map<string, Block>, f: string, t: Tail,
                                             nr: nat, c: Ctl)
    requires AllKeyworded(w, blocks) && t.Otherwise? && TailKeyworded(t)
    requires Known(blocks, Lines(w, depth, f, TailText(t), nr, c).ctl)
    ensures Balanced(c, Lines(w, depth, f, TailText(t), nr, c).ctl, |c.ifs| - 1)
    decreases depth, t, 0
  {
    hide Line, Lines, AllKeyworded, Known, Balanced, Keyworded;
    var Otherwise(line, body, end) := t;
    var c1 := Line(w, depth, f, line, nr + 1, c).ctl;
    var c2 := Lines(w, depth, f, CfgBlocks.Text(body), nr + 1, c1).ctl;
    var r := Lines(w, depth, f, [end], nr + 1 + |CfgBlocks.Text(body)|, c2).ctl;
    LineBalances(w, depth, f, line, nr + 1, c);
    HeadBodyRest(w, depth, f, line, CfgBlocks.Text(body), [end], nr, c);
    LinesGrow(w, depth, f, [end], nr + 1 + |CfgBlocks.Text(body)|, c2);
    KnownEarlier(blocks, c2, r);
    BlockBalances(w, depth, blocks, f, body, nr + 1, c1);
    OneLine(w, depth, f, end, nr + 1 + |CfgBlocks.Text(body)|, c2);
    LineBalances(w, depth, f, end, nr + 2 + |CfgBlocks.Text(body)|, c2);
    BodyBalances(c, c1, c2, r, |c.ifs|, |c.ifs| - 1);
  }

  lemma {:induction false} OrIfBalances(w: Config, depth: nat, blocks: map<string, Block>, f: string, t: Tail,
                                        nr: nat, c: Ctl)
    requires AllKeyworded(w, blocks) && t.OrIf? && TailKeyworded(t)
    requires Known(blocks, Lines(w, depth, f, TailText(t), nr, c).ctl)
    ensures Balanced(c, Lines(w, depth, f, TailText(t), nr, c).ctl, |c.ifs| - 1)
    decreases depth, t, 0
  {
    hide Line, Lines, AllKeyworded, Known, Balanced, Keyworded;
    var OrIf(line, body, rest) := t;
    var c1 := Line(w, depth, f, line, nr + 1, c).ctl;
    var c2 := Lines(w, depth, f, CfgBlocks.Text(body), nr + 1, c1).ctl;
    var r := Lines(w, depth, f, TailText(rest), nr + 1 + |CfgBlocks.Text(body)|, c2).ctl;
    LineBalances(w, depth, f, line, nr + 1, c);
    HeadBodyRest(w, depth, f, line, CfgBlocks.Text(body), TailText(rest), nr, c);
    LinesGrow(w, depth, f, TailText(rest), nr + 1 + |CfgBlocks.Text(body)|, c2);
    KnownEarlier(blocks, c2, r);
    BlockBalances(w, depth, blocks, f, body, nr + 1, c1);
    TailBalances(w, depth, blocks, f, rest, nr + 1 + |CfgBlocks.Text(body)|, c2);
    BodyBalances(c, c1, c2, r, |c.ifs|, |c.ifs| - 1);
  }

  /* ---- A reading that refuses nothing is the one meant ---- */

  /** The reading met no include beyond the depth, no file that is not among these, and refused no
      line. */
  predicate Clean(blocks: map<string, Block>, c: Ctl, r: Walked) {
    !r.deep && Known(blocks, r.ctl) && r.ctl.refused == c.refused
  }

  lemma CleanParts(blocks: map<string, Block>, c: Ctl, m: Walked, r: Walked)
    requires Grows(c, m.ctl) && Grows(m.ctl, r.ctl) && Clean(blocks, c, Then(m, r))
    ensures Clean(blocks, c, m) && Clean(blocks, m.ctl, r)
  {
    KnownEarlier(blocks, m.ctl, r.ctl);
  }

  /** Then it was what the nesting takes it for. */
  lemma {:induction false} FileAgrees(w: Config, depth: nat, blocks: map<string, Block>, f: string, c: Ctl)
    requires AllKeyworded(w, blocks) && f in blocks && Live(c.ifs) && Clean(blocks, c, WholeFile(w, depth, f, c))
    ensures RunFile(w, depth, blocks, f, c.data).fits
    decreases depth, blocks[f], 2
  {
    hide Lines, RunBlock, Live, Keyworded;
    BlockAgrees(w, depth, blocks, f, blocks[f], 0, c);
  }

  lemma {:induction false} BlockAgrees(w: Config, depth: nat, blocks: map<string, Block>, f: string, b: Block,
                                       nr: nat, c: Ctl)
    requires AllKeyworded(w, blocks) && Keyworded(b) && Clean(blocks, c, Lines(w, depth, f, CfgBlocks.Text(b), nr, c))
    ensures if Live(c.ifs) then RunBlock(w, depth, blocks, f, b, nr, c.data).fits else Sound(w, c.data, b)
    decreases depth, b, 1
  {
    hide Line, Live, AllKeyworded, ItemKeyworded, ItemText, RunItem, ItemSound, Clean, Grows;
    match b
    case Nil =>
    case Cons(item, rest) =>
      var m := Lines(w, depth, f, ItemText(item), nr, c);
      var r := Lines(w, depth, f, CfgBlocks.Text(rest), nr + |ItemText(item)|, m.ctl);
      LinesAppend(w, depth, f, ItemText(item), CfgBlocks.Text(rest), nr, c);
      LinesGrow(w, depth, f, ItemText(item), nr, c);
      LinesGrow(w, depth, f, CfgBlocks.Text(rest), nr + |ItemText(item)|, m.ctl);
      CleanParts(blocks, c, m, r);
      ItemAgrees(w, depth, blocks, f, item, nr, c);
      OnlyNested(w, blocks);
      ItemMeaning(w, depth, blocks, f, item, nr, c);
      BlockAgrees(w, depth, blocks, f, rest, nr + |ItemText(item)|, m.ctl);
  }

  lemma OnlyNested(w: Config, blocks: map<string, Block>)
    requires AllKeyworded(w, blocks)
    ensures Nested(w, blocks)
  {}

  lemma {:induction false} ItemAgrees(w: Config, depth: nat, blocks: map<string, Block>, f: string, item: Item,
                                      nr: nat, c: Ctl)
    requires AllKeyworded(w, blocks) && ItemKeyworded(item)
    requires Clean(blocks, c, Lines(w, depth, f, ItemText(item), nr, c))
    ensures if Live(c.ifs) then RunItem(w, depth, blocks, f, item, nr, c.data).fits else ItemSound(w, c.data, item)
    decreases depth, item, 1
  {
    match item
    case Plain(line) =>
      hide Line, Live, AllKeyworded, RunItem, Clean;
      OneLine(w, depth, f, line, nr, c);
      if Live(c.ifs) {
        PlainAgrees(w, depth, blocks, f, line, nr, c);
      }
    case Choice(head, body, tail) =>
      hide Line, Live, AllKeyworded, RunItem, ItemSound, Clean;
      ChoiceAgrees(w, depth, blocks, f, item, nr, c);
  }

  lemma {:induction false} PlainAgrees(w: Config, depth: nat, blocks: map<string, Block>, f: string, line: string,
                                       nr: nat, c: Ctl)
    requires AllKeyworded(w, blocks) && !Conditional(KindOf(c.data, line))
    requires Clean(blocks, c, Line(w, depth, f, line, nr + 1, c)) && Live(c.ifs)
    ensures RunItem(w, depth, blocks, f, Plain(line), nr, c.data).fits
    decreases depth, Plain(line), 0
  {
    hide Classify, Body, Live, ActPlain, AllKeyworded;
    EntersFile(w, c, line);
    var (c', effect) := Act(w, c, line);
    if effect.Enter? {
      hide WholeFile, RunFile;
      FileGrows(w, depth - 1, effect.file, c');
      FileAgrees(w, depth - 1, blocks, effect.file, c');
    }
  }

  lemma RefusesHead(w: Config, depth: nat, f: string, line: string, nr: nat, c: Ctl)
    requires KindOf(c.data, line).If? || KindOf(c.data, line).Ifdef?
    ensures IsHead(w, c.data, line) <==> Line(w, depth, f, line, nr, c).ctl.refused == c.refused
  {
    hide Test, ActPlain, Classify, Body;
  }

  lemma {:induction false} ChoiceAgrees(w: Config, depth: nat, blocks: map<string, Block>, f: string, item: Item,
                                        nr: nat, c: Ctl)
    requires AllKeyworded(w, blocks) && item.Choice? && ItemKeyworded(item)
    requires Clean(blocks, c, Lines(w, depth, f, ItemText(item), nr, c))
    ensures if Live(c.ifs) then RunItem(w, depth, blocks, f, item, nr, c.data).fits else ItemSound(w, c.data, item)
    decreases depth, item, 0
  {
    hide Line, Lines, Live, AllKeyworded, TestHolds, IsHead, Sound, TailSound, Keyworded, TailKeyworded;
    hide RunBlock, RunTail, Clean, CfgBlocks.Text, Grows;
    var Choice(head, body, tail) := item;
    HeadBodyRest(w, depth, f, head, CfgBlocks.Text(body), TailText(tail), nr, c);
    var first := Line(w, depth, f, head, nr + 1, c);
    var second := Lines(w, depth, f, CfgBlocks.Text(body), nr + 1, first.ctl);
    ThreeClean(w, depth, blocks, f, head, CfgBlocks.Text(body), TailText(tail), nr, c);
    HeadClean(w, depth, blocks, f, head, nr + 1, c);
    HeadLine(w, depth, f, head, nr + 1, c);
    var v := TestHolds(w, c.data, head);
    LivePush(c.ifs, Frame(v, false, v));
    BlockAgrees(w, depth, blocks, f, body, nr + 1, first.ctl);
    OnlyNested(w, blocks);
    BlockMeaning(w, depth, blocks, f, body, nr + 1, first.ctl);
    TailAgrees(w, depth, blocks, f, tail, nr + 1 + |CfgBlocks.Text(body)|, second.ctl, c.ifs, v, v);
  }

  lemma HeadClean(w: Config, depth: nat, blocks: map<string, Block>, f: string, head: string, nr: nat, c: Ctl)
    requires Always(head, If) || Always(head, Ifdef)
    requires Clean(blocks, c, Line(w, depth, f, head, nr, c))
    ensures IsHead(w, c.data, head)
  {
    hide Line, IsHead;
    RefusesHead(w, depth, f, head, nr, c);
  }

  /** A line, a part and another part in a clean reading are read cleanly. */
  lemma ThreeClean(w: Config, depth: nat, blocks: map<string, Block>, f: string, head: string, body: seq<string>,
                   rest: seq<string>, nr: nat, c: Ctl)
    requires Clean(blocks, c, Lines(w, depth, f, [head] + (body + rest), nr, c))
    ensures var first := Line(w, depth, f, head, nr + 1, c);
            var second := Lines(w, depth, f, body, nr + 1, first.ctl);
            && Clean(blocks, c, first) && Clean(blocks, first.ctl, second)
            && Clean(blocks, second.ctl, Lines(w, depth, f, rest, nr + 1 + |body|, second.ctl))
  {
    hide Line, Lines, Clean, Grows;
    HeadBodyRest(w, depth, f, head, body, rest, nr, c);
    var first := Line(w, depth, f, head, nr + 1, c);
    var second := Lines(w, depth, f, body, nr + 1, first.ctl);
    var third := Lines(w, depth, f, rest, nr + 1 + |body|, second.ctl);
    LineGrows(w, depth, f, head, nr + 1, c);
    LinesGrow(w, depth, f, body, nr + 1, first.ctl);
    LinesGrow(w, depth, f, rest, nr + 1 + |body|, second.ctl);
    GrowsThen(first.ctl, second.ctl, third.ctl);
    CleanParts(blocks, c, first, Then(second, third));
    CleanParts(blocks, first.ctl, second, third);
  }

  lemma {:induction false} TailAgrees(w: Config, depth: nat, blocks: map<string, Block>, f: string, t: Tail,
                                      nr: nat, c: Ctl, ifs: seq<Frame>, state: bool, wasTrue: bool)
    requires AllKeyworded(w, blocks) && TailKeyworded(t) && c.ifs == ifs + [Frame(state, false, wasTrue)]
    requires Clean(blocks, c, Lines(w, depth, f, TailText(t), nr, c))
    ensures if Live(ifs) && !wasTrue then RunTail(w, depth, blocks, f, t, nr, c.data).fits
            else TailSound(w, c.data, t)
    decreases depth, t, 1
  {
    hide Line, Lines, Live, AllKeyworded, Clean, CfgBlocks.Text, RunBlock, Sound, Keyworded;
    match t
    case End(line) =>
    case Otherwise(line, body, end) =>
      ThreeClean(w, depth, blocks, f, line, CfgBlocks.Text(body), [end], nr, c);
      ElseLine(w, depth, f, line, nr + 1, c, ifs, wasTrue, state);
      var c1 := Line(w, depth, f, line, nr + 1, c).ctl;
      LivePush(ifs, Frame(!wasTrue, true, wasTrue));
      BlockAgrees(w, depth, blocks, f, body, nr + 1, c1);
    case OrIf(line, body, rest) =>
      OrIfAgrees(w, depth, blocks, f, t, nr, c, ifs, state, wasTrue);
  }

  lemma {:induction false} OrIfAgrees(w: Config, depth: nat, blocks: map<string, Block>, f: string, t: Tail,
                                      nr: nat, c: Ctl, ifs: seq<Frame>, state: bool, wasTrue: bool)
    requires AllKeyworded(w, blocks) && t.OrIf? && TailKeyworded(t) && c.ifs == ifs + [Frame(state, false, wasTrue)]
    requires Clean(blocks, c, Lines(w, depth, f, TailText(t), nr, c))
    ensures if Live(ifs) && !wasTrue then RunTail(w, depth, blocks, f, t, nr, c.data).fits
            else TailSound(w, c.data, t)
    decreases depth, t, 0
  {
    hide Line, Lines, Live, AllKeyworded, Clean, CfgBlocks.Text, RunBlock, Sound, Keyworded, AgainHolds, KindOf;
    var OrIf(line, body, rest) := t;
    assert KindOf(c.data, line).ElseIf? by { KindAlways(c.data, line, ElseIf); }
    hide Always;
    ThreeClean(w, depth, blocks, f, line, CfgBlocks.Text(body), TailText(rest), nr, c);
    OrIfLine(w, depth, f, line, nr + 1, c, ifs, wasTrue, state);
    var c1 := Line(w, depth, f, line, nr + 1, c).ctl;
    var v := AgainHolds(w, c.data, line);
    LivePush(ifs, Frame(!wasTrue && v, false, wasTrue || v));
    BlockAgrees(w, depth, blocks, f, body, nr + 1, c1);
    OnlyNested(w, blocks);
    BlockMeaning(w, depth, blocks, f, body, nr + 1, c1);
    var c2 := Lines(w, depth, f, CfgBlocks.Text(body), nr + 1, c1).ctl;
    TailAgrees(w, depth, blocks, f, rest, nr + 1 + |CfgBlocks.Text(body)|, c2, ifs, !wasTrue && v, wasTrue || v);
  }

  /** Of a configuration nested by its keywords every reading to its end comes back to the level it
      began with, with nothing misplaced, if and only if no line was refused. Then it is the reading
      that the nesting means. Otherwise an error was noted. */
  lemma FileExactly(w: Config, depth: nat, blocks: map<string, Block>, f: string, c: Ctl)
    requires AllKeyworded(w, blocks) && f in blocks && Live(c.ifs)
    requires var r := WholeFile(w, depth, f, c); !r.deep && Known(blocks, r.ctl)
    ensures var r := WholeFile(w, depth, f, c);
            && (|r.ctl.ifs| == |c.ifs| && r.ctl.misplaced == c.misplaced <==> r.ctl.refused == c.refused)
            && (r.ctl.refused == c.refused ==> Does(r, c.ifs, c, true, RunFile(w, depth, blocks, f, c.data)))
            && (r.ctl.refused != c.refused ==> r.ctl.wasError)
  {
    hide AllKeyworded, Live, WholeFile, RunFile;
    FileBalances(w, depth, blocks, f, c);
    OnlyNested(w, blocks);
    if WholeFile(w, depth, f, c).ctl.refused == c.refused {
      FileAgrees(w, depth, blocks, f, c);
      FileMeaning(w, depth, blocks, f, c);
    }
  }

  /* ---- A refused line closes the wrong level ---- */

  /** Two `if`s, one within the other, where the inner one names only a variable. */
  const UNNAMED: seq<string> := ["if a", "ifdef [x]", "endif", "b", "endif"]

  const UNNAMED_BLOCK: Block :=
    Cons(Choice("if a", Cons(Choice("ifdef [x]", Nil, End("endif")), Cons(Plain("b"), Nil)), End("endif")), Nil)

  lemma ShortIsText(s: string)
    requires |s| == 1
    ensures Classify(s) == CfgLines.Text
  {}

  lemma UnnamedKinds(cc: Mark)
    ensures Body("if a", cc) == "if a" && Classify("if a") == If
    ensures Body("ifdef [x]", cc) == "ifdef [x]" && Classify("ifdef [x]") == Ifdef
    ensures Body("endif", cc) == "endif" && Classify("endif") == Endif
    ensures Body("b", cc) == "b" && Lead("b") == "" && Classify("b") == CfgLines.Text
  {
    hide Body, Classify;
    PlainBody("if a", cc);
    PlainBody("ifdef [x]", cc);
    PlainBody("endif", cc);
    PlainBody("b", cc);
    assert "if " + "a" == "if a" && "ifdef " + "[x]" == "ifdef [x]" && "endif" + "" == "endif";
    Keywords("a");
    Keywords("[x]");
    Keywords("");
    ShortIsText("b");
  }

  lemma UnnamedNested()
    ensures CfgBlocks.Text(UNNAMED_BLOCK) == UNNAMED && Keyworded(UNNAMED_BLOCK)
  {
    hide Body, Classify;
    forall cc: Mark
      ensures Body("if a", cc) == "if a" && Classify("if a") == If
      ensures Body("ifdef [x]", cc) == "ifdef [x]" && Classify("ifdef [x]") == Ifdef
      ensures Body("endif", cc) == "endif" && Classify("endif") == Endif
      ensures Body("b", cc) == "b" && Classify("b") == CfgLines.Text
    {
      UnnamedKinds(cc);
    }
  }

  lemma UnnamedTests(w: Config, d: Data)
    requires !w.holds("a") && GetVar(d.vars, w.env, "x") == None
    ensures Test(w, d, "if a") == Tested(false, !w.wellFormed("a")) && Test(w, d, "ifdef [x]") == Bad
  {
    hide Test, Expand;
    assert "if " + "a" == "if a" && "ifdef " + "[x]" == "ifdef [x]" && "[" + "x" + "]" == "[x]";
    ExpandPlain(d.vars, w.env, "a");
    IfLine(w, d, "a");
    ExpandedName(w, d, "x");
    IfdefLine(w, d, "[x]");
  }

  /** Where the variable is not defined and the outer test fails, the first `endif` closes the outer
      `if`, the line behind it is delivered although the nesting passes it over, and the second
      `endif` is misplaced. */
  lemma RefusedClosesOuter(w: Config, f: string, c: Ctl)
    requires f in w.files && w.files[f] == UNNAMED && c.ifs == []
    requires !w.holds("a") && GetVar(c.data.vars, w.env, "x") == None
    ensures var r := WholeFile(w, 0, f, c);
            && r.out == [Out("b", f, 4)] && r.ctl.ifs == [] && r.ctl.misplaced == c.misplaced + 1
            && r.ctl.refused == c.refused + 1 && r.ctl.wasError && !r.deep
    ensures var blocks := map[f := UNNAMED_BLOCK];
            AllKeyworded(w, blocks) && RunFile(w, 0, blocks, f, c.data).out == []
  {
    hide Body, Classify, Test, Lines, Keyworded, RunBlock, CfgBlocks.Text;
    UnnamedKinds(c.data.comment);
    UnnamedTests(w, c.data);
    UnnamedNested();
    UnnamedMeaning(w, f, c.data);
    UnnamedReading(w, f, c);
  }

  lemma UnnamedMeaning(w: Config, f: string, d: Data)
    requires !TestHolds(w, d, "if a")
    ensures RunBlock(w, 0, map[f := UNNAMED_BLOCK], f, UNNAMED_BLOCK, 0, d).out == []
  {
    hide TestHolds, IsHead, KindOf;
  }

  function Begun(w: Config, c: Ctl): Ctl {
    c.(wasError := c.wasError || !w.wellFormed("a"))
  }

  /** With the outer `if` open. */
  function Opened(c: Ctl): Ctl {
    c.(ifs := [Frame(false, false, false)])
  }

  lemma UnnamedHeads(w: Config, c: Ctl)
    requires c.ifs == [] && !w.holds("a") && GetVar(c.data.vars, w.env, "x") == None
    ensures Act(w, c, "if a") == (Opened(Begun(w, c)), Skip)
    ensures Act(w, Opened(c), "ifdef [x]") == (Opened(c).(wasError := true, refused := c.refused + 1), Skip)
  {
    hide Body, Classify, Test, TestAgain, ActPlain, Live;
    UnnamedKinds(c.data.comment);
    UnnamedTests(w, c.data);
    assert c.ifs + [Frame(false, false, false)] == [Frame(false, false, false)];
  }

  lemma UnnamedOthers(w: Config, c: Ctl)
    requires c.ifs == []
    ensures Act(w, Opened(c), "endif") == (c, Skip)
    ensures Act(w, c, "b") == (c, Return("b"))
    ensures Act(w, c, "endif") == (Misplaced(c), Skip)
  {
    hide Body, Classify, Test, TestAgain;
    UnnamedKinds(c.data.comment);
    assert "" + "b" == "b";
  }

  lemma UnnamedReading(w: Config, f: string, c: Ctl)
    requires c.ifs == [] && !w.holds("a") && GetVar(c.data.vars, w.env, "x") == None
    ensures var r := Lines(w, 0, f, UNNAMED, 0, c);
            && r.out == [Out("b", f, 4)] && r.ctl.ifs == [] && r.ctl.misplaced == c.misplaced + 1
            && r.ctl.refused == c.refused + 1 && r.ctl.wasError && !r.deep
  {
    hide Act, Test, Lines;
    var begun := Begun(w, c);
    var noted := c.(wasError := true, refused := c.refused + 1);
    UnnamedHeads(w, c);
    UnnamedHeads(w, begun);
    UnnamedOthers(w, noted);
    UnnamedInTurn();
    LineFirst(w, f, "if a", UNNAMED[1..], 0, c);
    LineFirst(w, f, "ifdef [x]", UNNAMED[2..], 1, Opened(begun));
    LineFirst(w, f, "endif", UNNAMED[3..], 2, Opened(noted));
    LineFirst(w, f, "b", UNNAMED[4..], 3, noted);
    LineFirst(w, f, "endif", [], 4, noted);
    NoLines(w, f, 5, Misplaced(noted));
  }

  lemma UnnamedInTurn()
    ensures UNNAMED == ["if a"] + UNNAMED[1..] && UNNAMED[1..] == ["ifdef [x]"] + UNNAMED[2..]
    ensures UNNAMED[2..] == ["endif"] + UNNAMED[3..] && UNNAMED[3..] == ["b"] + UNNAMED[4..]
    ensures UNNAMED[4..] == ["endif"] + []
  {}

  lemma LineFirst(w: Config, f: string, line: string, rest: seq<string>, nr: nat, c: Ctl)
    ensures var first := Line(w, 0, f, line, nr + 1, c);
            Lines(w, 0, f, [line] + rest, nr, c) == Then(first, Lines(w, 0, f, rest, nr + 1, first.ctl))
  {
    hide Line;
    assert ([line] + rest)[1..] == rest;
  }

  lemma NoLines(w: Config, f: string, nr: nat, c: Ctl)
    ensures Lines(w, 0, f, [], nr, c) == Walked(c, [], 0, false)
  {}
}
