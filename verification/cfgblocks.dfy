/** Configurations as nested blocks: what the line machine does with `if`, `elseif`, `else` and
    `endif` is what the nesting means. */
module CfgBlocks {
  import opened CfgLines
  import opened CfgWalk

  datatype Block = Nil | Cons(item: Item, rest: Block)

  /** A line of its own, or a choice between blocks. An `ifdef` that names nothing is dropped, so it
      is a line of its own and begins no choice. */
  datatype Item = Plain(line: string) | Choice(head: string, body: Block, tail: Tail)

  datatype Tail =
    | End(line: string)
    | Otherwise(line: string, body: Block, end: string)
    | OrIf(line: string, body: Block, rest: Tail)

  function Text(b: Block): seq<string> {
    match b
    case Nil => []
    case Cons(item, rest) => ItemText(item) + Text(rest)
  }

  function ItemText(item: Item): seq<string> {
    match item
    case Plain(line) => [line]
    case Choice(head, body, tail) => [head] + (Text(body) + TailText(tail))
  }

  function TailText(t: Tail): seq<string> {
    match t
    case End(line) => [line]
    case Otherwise(line, body, end) => [line] + (Text(body) + [end])
    case OrIf(line, body, rest) => [line] + (Text(body) + TailText(rest))
  }

  /** What a line is where it stands, with the comment character of that place. */
  function KindOf(d: Data, line: string): Kind {
    Classify(Body(line, d.comment))
  }

  /** An `if`, or an `ifdef` that does not lack a name. */
  predicate IsHead(w: Config, d: Data, line: string) {
    (KindOf(d, line).If? || KindOf(d, line).Ifdef?) && Test(w, d, Body(line, d.comment)) != Bad
  }

  predicate Nameless(w: Config, d: Data, line: string) {
    KindOf(d, line).Ifdef? && Test(w, d, Body(line, d.comment)) == Bad
  }

  /** Neither a part of a choice nor the beginning of one. */
  predicate IsSingle(w: Config, d: Data, line: string) {
    Nameless(w, d, line) || !Conditional(KindOf(d, line))
  }

  /** All lines of a block that is passed over are what the nesting takes them for. Such a block
      changes no variables, so they are the same for all its lines. */
  predicate Sound(w: Config, d: Data, b: Block) {
    match b
    case Nil => true
    case Cons(item, rest) => ItemSound(w, d, item) && Sound(w, d, rest)
  }

  predicate ItemSound(w: Config, d: Data, item: Item) {
    match item
    case Plain(line) => IsSingle(w, d, line)
    case Choice(head, body, tail) => IsHead(w, d, head) && Sound(w, d, body) && TailSound(w, d, tail)
  }

  predicate TailSound(w: Config, d: Data, t: Tail) {
    match t
    case End(line) => KindOf(d, line).Endif?
    case Otherwise(line, body, end) => KindOf(d, line).Else? && Sound(w, d, body) && KindOf(d, end).Endif?
    case OrIf(line, body, rest) => KindOf(d, line).ElseIf? && Sound(w, d, body) && TailSound(w, d, rest)
  }

  /** These files are the texts of these blocks. */
  ghost predicate Nested(w: Config, blocks: map<string, Block>) {
    forall f :: f in blocks ==> f in w.files && w.files[f] == Text(blocks[f])
  }

  /* ---- The meaning of blocks, without any stack ---- */

  /** The variables left, the lines delivered, and whether everything met on the way fitted: every
      line was what the nesting takes it for, and every file included was a nested one within the
      depth. */
  datatype Ran = Ran(data: Data, out: seq<Out>, fits: bool)

  function AndThen(r: Ran, s: Ran): Ran {
    Ran(s.data, r.out + s.out, r.fits && s.fits)
  }

  function Provided(r: Ran, fits: bool): Ran {
    r.(fits := r.fits && fits)
  }

  function RunBlock(w: Config, depth: nat, blocks: map<string, Block>, f: string, b: Block, nr: nat, d: Data): Ran
    decreases depth, b, 1
  {
    match b
    case Nil => Ran(d, [], true)
    case Cons(item, rest) =>
      var r := RunItem(w, depth, blocks, f, item, nr, d);
      AndThen(r, RunBlock(w, depth, blocks, f, rest, nr + |ItemText(item)|, r.data))
  }

  /** Of a choice, the first block whose test holds is run, or else the last block if it has no
      test; tests are made one after the other and none after the first that holds. All other
      blocks are passed over. */
  function RunItem(w: Config, depth: nat, blocks: map<string, Block>, f: string, item: Item, nr: nat, d: Data): Ran
    decreases depth, item, 1
  {
    match item
    case Plain(line) =>
      var a := if Nameless(w, d, line) then Acted(d, Skip, true) else ActPlain(w, d, line);
      Provided(match a.effect
         case Skip => Ran(a.data, [], true)
         case Return(text) => Ran(a.data, [Out(text, f, nr + 1)], true)
         case Enter(g) =>
           if depth == 0 || g !in blocks then Ran(a.data, [], false)
           else RunFile(w, depth - 1, blocks, g, a.data),
         IsSingle(w, d, line))
    case Choice(head, body, tail) =>
      if TestHolds(w, d, head) then
        var r := RunBlock(w, depth, blocks, f, body, nr + 1, d);
        Provided(r, IsHead(w, d, head) && TailSound(w, r.data, tail))
      else
        var r := RunTail(w, depth, blocks, f, tail, nr + 1 + |Text(body)|, d);
        Provided(r, IsHead(w, d, head) && Sound(w, d, body))
  }

  function RunTail(w: Config, depth: nat, blocks: map<string, Block>, f: string, t: Tail, nr: nat, d: Data): Ran
    decreases depth, t, 1
  {
    match t
    case End(line) => Ran(d, [], KindOf(d, line).Endif?)
    case Otherwise(line, body, end) =>
      var r := RunBlock(w, depth, blocks, f, body, nr + 1, d);
      Provided(r, KindOf(d, line).Else? && KindOf(r.data, end).Endif?)
    case OrIf(line, body, rest) =>
      if AgainHolds(w, d, line) then
        var r := RunBlock(w, depth, blocks, f, body, nr + 1, d);
        Provided(r, KindOf(d, line).ElseIf? && TailSound(w, r.data, rest))
      else
        var r := RunTail(w, depth, blocks, f, rest, nr + 1 + |Text(body)|, d);
        Provided(r, KindOf(d, line).ElseIf? && Sound(w, d, body))
  }

  function RunFile(w: Config, depth: nat, blocks: map<string, Block>, f: string, d: Data): Ran
    requires f in blocks
    decreases depth, blocks[f], 2
  {
    var r := RunBlock(w, depth, blocks, f, blocks[f], 0, d);
    r.(data := NotedIn(r.data, f))
  }

  function TestHolds(w: Config, d: Data, head: string): bool {
    var t := Test(w, d, Body(head, d.comment));
    t.Tested? && t.state
  }

  function AgainHolds(w: Config, d: Data, line: string): bool {
    TestAgain(w, d, Body(line, d.comment)).state
  }

  /* ---- The line machine does the same ---- */

  /** The stack is back where it was and nothing was misplaced; the data and the delivered lines are
      those of the run if it was live, and nothing happened if it was not. */
  ghost predicate Does(r: Walked, ifs: seq<Frame>, c: Ctl, live: bool, ran: Ran) {
    && !r.deep && r.ctl.ifs == ifs && r.ctl.misplaced == c.misplaced
    && r.ctl.data == (if live then ran.data else c.data)
    && r.out == (if live then ran.out else [])
  }

  lemma LivePush(ifs: seq<Frame>, fr: Frame)
    ensures Live(ifs + [fr]) <==> Live(ifs) && fr.state
  {
    if Live(ifs + [fr]) {
      forall i | 0 <= i < |ifs| ensures ifs[i].state {
        assert (ifs + [fr])[i] == ifs[i];
      }
      assert (ifs + [fr])[|ifs|] == fr;
    }
  }

  lemma HeadLine(w: Config, depth: nat, f: string, line: string, nr: nat, c: Ctl)
    requires IsHead(w, c.data, line)
    ensures var r := Line(w, depth, f, line, nr, c);
            var v := TestHolds(w, c.data, line);
            && r.out == [] && !r.deep && r.ctl.data == c.data
            && r.ctl.misplaced == c.misplaced && r.ctl.refused == c.refused
            && r.ctl.ifs == c.ifs + [Frame(v, false, v)]
  {
    hide Test, ActPlain, Classify, Body;
  }

  lemma EndLine(w: Config, depth: nat, f: string, line: string, nr: nat, c: Ctl)
    requires KindOf(c.data, line).Endif? && c.ifs != []
    ensures var r := Line(w, depth, f, line, nr, c);
            && r.out == [] && !r.deep && r.ctl.data == c.data
            && r.ctl.misplaced == c.misplaced && r.ctl.refused == c.refused
            && r.ctl.ifs == c.ifs[..|c.ifs| - 1]
  {
    hide Test, ActPlain, Classify, Body;
  }

  lemma ElseLine(w: Config, depth: nat, f: string, line: string, nr: nat, c: Ctl, ifs: seq<Frame>,
                 wasTrue: bool, state: bool)
    requires KindOf(c.data, line).Else? && c.ifs == ifs + [Frame(state, false, wasTrue)]
    ensures var r := Line(w, depth, f, line, nr, c);
            && r.out == [] && !r.deep && r.ctl.data == c.data
            && r.ctl.misplaced == c.misplaced && r.ctl.refused == c.refused
            && r.ctl.ifs == ifs + [Frame(!wasTrue, true, wasTrue)]
  {
    hide Test, ActPlain, Classify, Body;
  }

  lemma OrIfLine(w: Config, depth: nat, f: string, line: string, nr: nat, c: Ctl, ifs: seq<Frame>,
                 wasTrue: bool, state: bool)
    requires KindOf(c.data, line).ElseIf? && c.ifs == ifs + [Frame(state, false, wasTrue)]
    ensures var r := Line(w, depth, f, line, nr, c);
            var v := AgainHolds(w, c.data, line);
            && r.out == [] && !r.deep && r.ctl.data == c.data
            && r.ctl.misplaced == c.misplaced && r.ctl.refused == c.refused
            && r.ctl.ifs == ifs + [Frame(!wasTrue && v, false, wasTrue || v)]
  {
    hide Test, TestAgain, ActPlain, Classify, Body;
  }

  /** For every block the line machine does what the block means, live or passed over. */
  lemma {:induction false} BlockMeaning(w: Config, depth: nat, blocks: map<string, Block>, f: string, b: Block,
                                        nr: nat, c: Ctl)
    requires Nested(w, blocks)
    requires if Live(c.ifs) then RunBlock(w, depth, blocks, f, b, nr, c.data).fits else Sound(w, c.data, b)
    ensures Does(Lines(w, depth, f, Text(b), nr, c), c.ifs, c, Live(c.ifs),
                 RunBlock(w, depth, blocks, f, b, nr, c.data))
    decreases depth, b, 1
  {
    hide Line, Live, Nested, ItemText, RunItem, ItemSound;
    match b
    case Nil =>
    case Cons(item, rest) =>
      assert Text(b) == ItemText(item) + Text(rest);
      LinesAppend(w, depth, f, ItemText(item), Text(rest), nr, c);
      ItemMeaning(w, depth, blocks, f, item, nr, c);
      BlockMeaning(w, depth, blocks, f, rest, nr + |ItemText(item)|, Lines(w, depth, f, ItemText(item), nr, c).ctl);
  }

  lemma {:induction false} ItemMeaning(w: Config, depth: nat, blocks: map<string, Block>, f: string, item: Item,
                                       nr: nat, c: Ctl)
    requires Nested(w, blocks)
    requires if Live(c.ifs) then RunItem(w, depth, blocks, f, item, nr, c.data).fits else ItemSound(w, c.data, item)
    ensures Does(Lines(w, depth, f, ItemText(item), nr, c), c.ifs, c, Live(c.ifs),
                 RunItem(w, depth, blocks, f, item, nr, c.data))
    decreases depth, item, 1
  {
    match item
    case Plain(line) =>
      PlainMeaning(w, depth, blocks, f, line, nr, c);
      OneLine(w, depth, f, line, nr, c);
    case Choice(head, body, tail) =>
      hide Live, Nested, RunItem, ItemSound;
      ChoiceMeaning(w, depth, blocks, f, item, nr, c);
  }

  lemma {:induction false} ChoiceMeaning(w: Config, depth: nat, blocks: map<string, Block>, f: string, item: Item,
                                         nr: nat, c: Ctl)
    requires Nested(w, blocks) && item.Choice?
    requires if Live(c.ifs) then RunItem(w, depth, blocks, f, item, nr, c.data).fits else ItemSound(w, c.data, item)
    ensures Does(Lines(w, depth, f, ItemText(item), nr, c), c.ifs, c, Live(c.ifs),
                 RunItem(w, depth, blocks, f, item, nr, c.data))
    decreases depth, item, 0
  {
    hide Line, Lines, Live, Nested, Act, TestHolds, IsHead, ActPlain, Sound, TailSound, Text;
    hide RunBlock, RunTail, RunFile;
    var Choice(head, body, tail) := item;
    HeadBodyRest(w, depth, f, head, Text(body), TailText(tail), nr, c);
    HeadLine(w, depth, f, head, nr + 1, c);
    var c1 := Line(w, depth, f, head, nr + 1, c).ctl;
    var v := TestHolds(w, c.data, head);
    LivePush(c.ifs, Frame(v, false, v));
    BlockMeaning(w, depth, blocks, f, body, nr + 1, c1);
    var c2 := Lines(w, depth, f, Text(body), nr + 1, c1).ctl;
    TailMeaning(w, depth, blocks, f, tail, nr + 1 + |Text(body)|, c2, c.ifs, v, v);
  }

  /** A conditional line, the block behind it and what follows that. */
  lemma HeadBodyRest(w: Config, depth: nat, f: string, head: string, body: seq<string>, rest: seq<string>,
                     nr: nat, c: Ctl)
    ensures var first := Line(w, depth, f, head, nr + 1, c);
            var second := Lines(w, depth, f, body, nr + 1, first.ctl);
            Lines(w, depth, f, [head] + (body + rest), nr, c)
            == Then(first, Then(second, Lines(w, depth, f, rest, nr + 1 + |body|, second.ctl)))
  {
    hide Line;
    var all := [head] + (body + rest);
    assert all[0] == head && all[1..] == body + rest;
    LinesAppend(w, depth, f, body, rest, nr + 1, Line(w, depth, f, head, nr + 1, c).ctl);
  }

  lemma OneLine(w: Config, depth: nat, f: string, line: string, nr: nat, c: Ctl)
    ensures Lines(w, depth, f, [line], nr, c) == Line(w, depth, f, line, nr + 1, c)
  {
    hide Line;
    var r := Line(w, depth, f, line, nr + 1, c);
    assert Lines(w, depth, f, [], nr + 1, r.ctl) == Walked(r.ctl, [], 0, false);
  }

  lemma {:induction false} PlainMeaning(w: Config, depth: nat, blocks: map<string, Block>, f: string, line: string,
                                        nr: nat, c: Ctl)
    requires Nested(w, blocks)
    requires if Live(c.ifs) then RunItem(w, depth, blocks, f, Plain(line), nr, c.data).fits
             else ItemSound(w, c.data, Plain(line))
    ensures Does(Line(w, depth, f, line, nr + 1, c), c.ifs, c, Live(c.ifs),
                 RunItem(w, depth, blocks, f, Plain(line), nr, c.data))
    decreases depth, Plain(line), 0
  {
    hide Classify, Body, Live, Test, TestAgain, ActPlain;
    EntersFile(w, c, line);
    var (c', effect) := Act(w, c, line);
    if effect.Enter? {
      FileMeaning(w, depth - 1, blocks, effect.file, c');
    }
  }

  lemma {:induction false} TailMeaning(w: Config, depth: nat, blocks: map<string, Block>, f: string, t: Tail,
                                       nr: nat, c: Ctl, ifs: seq<Frame>, state: bool, wasTrue: bool)
    requires Nested(w, blocks) && c.ifs == ifs + [Frame(state, false, wasTrue)]
    requires if Live(ifs) && !wasTrue then RunTail(w, depth, blocks, f, t, nr, c.data).fits
             else TailSound(w, c.data, t)
    ensures Does(Lines(w, depth, f, TailText(t), nr, c), ifs, c, Live(ifs) && !wasTrue,
                 RunTail(w, depth, blocks, f, t, nr, c.data))
    decreases depth, t, 1
  {
    hide Line, Lines, Live, Nested, Act, KindOf;
    match t
    case End(line) =>
      OneLine(w, depth, f, line, nr, c);
      EndLine(w, depth, f, line, nr + 1, c);
    case Otherwise(line, body, end) =>
      OtherwiseMeaning(w, depth, blocks, f, t, nr, c, ifs, state, wasTrue);
    case OrIf(line, body, rest) =>
      OrIfMeaning(w, depth, blocks, f, t, nr, c, ifs, state, wasTrue);
  }

  lemma {:induction false} OtherwiseMeaning(w: Config, depth: nat, blocks: map<string, Block>, f: string, t: Tail,
                                            nr: nat, c: Ctl, ifs: seq<Frame>, state: bool, wasTrue: bool)
    requires Nested(w, blocks) && t.Otherwise? && c.ifs == ifs + [Frame(state, false, wasTrue)]
    requires if Live(ifs) && !wasTrue then RunTail(w, depth, blocks, f, t, nr, c.data).fits
             else TailSound(w, c.data, t)
    ensures Does(Lines(w, depth, f, TailText(t), nr, c), ifs, c, Live(ifs) && !wasTrue,
                 RunTail(w, depth, blocks, f, t, nr, c.data))
    decreases depth, t, 0
  {
    hide Line, Lines, Live, Nested, Act, KindOf, RunBlock, RunFile, ActPlain, Sound, Text;
    var Otherwise(line, body, end) := t;
    HeadBodyRest(w, depth, f, line, Text(body), [end], nr, c);
    ElseLine(w, depth, f, line, nr + 1, c, ifs, wasTrue, state);
    var c1 := Line(w, depth, f, line, nr + 1, c).ctl;
    LivePush(ifs, Frame(!wasTrue, true, wasTrue));
    BlockMeaning(w, depth, blocks, f, body, nr + 1, c1);
    var c2 := Lines(w, depth, f, Text(body), nr + 1, c1).ctl;
    OneLine(w, depth, f, end, nr + 1 + |Text(body)|, c2);
    EndLine(w, depth, f, end, nr + 2 + |Text(body)|, c2);
  }

  lemma {:induction false} OrIfMeaning(w: Config, depth: nat, blocks: map<string, Block>, f: string, t: Tail,
                                       nr: nat, c: Ctl, ifs: seq<Frame>, state: bool, wasTrue: bool)
    requires Nested(w, blocks) && t.OrIf? && c.ifs == ifs + [Frame(state, false, wasTrue)]
    requires if Live(ifs) && !wasTrue then RunTail(w, depth, blocks, f, t, nr, c.data).fits
             else TailSound(w, c.data, t)
    ensures Does(Lines(w, depth, f, TailText(t), nr, c), ifs, c, Live(ifs) && !wasTrue,
                 RunTail(w, depth, blocks, f, t, nr, c.data))
    decreases depth, t, 0
  {
    hide Line, Lines, Live, Nested, Act, AgainHolds, KindOf, RunBlock, RunFile, ActPlain, Sound, Text;
    var OrIf(line, body, rest) := t;
    HeadBodyRest(w, depth, f, line, Text(body), TailText(rest), nr, c);
    OrIfLine(w, depth, f, line, nr + 1, c, ifs, wasTrue, state);
    var c1 := Line(w, depth, f, line, nr + 1, c).ctl;
    var v := AgainHolds(w, c.data, line);
    LivePush(ifs, Frame(!wasTrue && v, false, wasTrue || v));
    BlockMeaning(w, depth, blocks, f, body, nr + 1, c1);
    var c2 := Lines(w, depth, f, Text(body), nr + 1, c1).ctl;
    TailMeaning(w, depth, blocks, f, rest, nr + 1 + |Text(body)|, c2, ifs, !wasTrue && v, wasTrue || v);
  }

  /** A whole configuration delivers exactly the lines its nesting selects, if what it meets fits. */
  lemma {:induction false} FileMeaning(w: Config, depth: nat, blocks: map<string, Block>, f: string, c: Ctl)
    requires Nested(w, blocks) && f in blocks && Live(c.ifs) && RunFile(w, depth, blocks, f, c.data).fits
    ensures Does(WholeFile(w, depth, f, c), c.ifs, c, true, RunFile(w, depth, blocks, f, c.data))
    decreases depth, blocks[f], 2
  {
    hide Line, Live, RunBlock;
    BlockMeaning(w, depth, blocks, f, blocks[f], 0, c);
  }

  /* ---- Where everything fits ---- */

  /** The block is well nested wherever `ok` holds of the variables. */
  ghost predicate BlockSound(w: Config, ok: Data -> bool, b: Block) {
    forall d :: ok(d) ==> Sound(w, d, b)
  }

  ghost predicate ItemAlways(w: Config, ok: Data -> bool, item: Item) {
    forall d :: ok(d) ==> ItemSound(w, d, item)
  }

  ghost predicate TailAlways(w: Config, ok: Data -> bool, t: Tail) {
    forall d :: ok(d) ==> TailSound(w, d, t)
  }

  /** What the files of a configuration are, whatever the variables, as long as `ok` holds of them:
      well nested, and without cycles of includes. */
  ghost predicate WellNested(w: Config, rank: Rank, ok: Data -> bool, blocks: map<string, Block>) {
    && Nested(w, blocks) && Acyclic(w, rank, ok)
    && forall f :: f in rank ==> f in blocks && BlockSound(w, ok, blocks[f])
  }

  lemma ConsParts(w: Config, ok: Data -> bool, item: Item, rest: Block)
    requires BlockSound(w, ok, Cons(item, rest))
    ensures ItemAlways(w, ok, item) && BlockSound(w, ok, rest)
  {
    forall d | ok(d) ensures ItemSound(w, d, item) && Sound(w, d, rest) {
      assert Sound(w, d, Cons(item, rest));
    }
  }

  lemma ChoiceParts(w: Config, ok: Data -> bool, head: string, body: Block, tail: Tail)
    requires ItemAlways(w, ok, Choice(head, body, tail))
    ensures BlockSound(w, ok, body) && TailAlways(w, ok, tail) && forall d :: ok(d) ==> IsHead(w, d, head)
  {
    forall d | ok(d) ensures Sound(w, d, body) && TailSound(w, d, tail) && IsHead(w, d, head) {
      assert ItemSound(w, d, Choice(head, body, tail));
    }
  }

  lemma TailParts(w: Config, ok: Data -> bool, t: Tail)
    requires TailAlways(w, ok, t) && !t.End?
    ensures BlockSound(w, ok, t.body) && (t.OrIf? ==> TailAlways(w, ok, t.rest))
  {
    forall d | ok(d) ensures Sound(w, d, t.body) && (t.OrIf? ==> TailSound(w, d, t.rest)) {
      assert TailSound(w, d, t);
    }
  }

  lemma DescendParts(w: Config, rank: Rank, ok: Data -> bool, f: string, a: seq<string>, b: seq<string>)
    requires f in rank && AllDescend(w, rank, ok, f, a + b)
    ensures AllDescend(w, rank, ok, f, a) && AllDescend(w, rank, ok, f, b)
  {
    hide Descends;
    assert forall l :: l in a ==> l in a + b;
    assert forall l :: l in b ==> l in a + b;
  }

  lemma OneDescends(w: Config, rank: Rank, ok: Data -> bool, f: string, line: string, d: Data)
    requires f in rank && AllDescend(w, rank, ok, f, [line]) && ok(d)
    ensures var a := ActPlain(w, d, line);
            ok(a.data) && (a.effect.Enter? ==> a.effect.file in rank && rank[a.effect.file] < rank[f])
  {
    hide ActPlain;
    assert line in [line];
    assert Descends(w, rank, ok, f, line);
  }

  /** Then everything fits, at the depth of the rank. */
  lemma {:induction false} FileFits(w: Config, rank: Rank, ok: Data -> bool, depth: nat,
                                    blocks: map<string, Block>, f: string, d: Data)
    requires WellNested(w, rank, ok, blocks) && f in rank && rank[f] <= depth && ok(d)
    ensures var r := RunFile(w, depth, blocks, f, d); r.fits && ok(r.data)
    decreases depth, blocks[f], 2
  {
    hide BlockSound, AllDescend, RunBlock;
    BlockFits(w, rank, ok, depth, blocks, f, blocks[f], 0, d);
  }

  lemma {:induction false} BlockFits(w: Config, rank: Rank, ok: Data -> bool, depth: nat,
                                     blocks: map<string, Block>, f: string, b: Block, nr: nat, d: Data)
    requires WellNested(w, rank, ok, blocks) && f in rank && rank[f] <= depth && ok(d)
    requires AllDescend(w, rank, ok, f, Text(b)) && BlockSound(w, ok, b)
    ensures var r := RunBlock(w, depth, blocks, f, b, nr, d); r.fits && ok(r.data)
    decreases depth, b, 1
  {
    hide WellNested, AllDescend, BlockSound, ItemAlways, RunItem, ItemText;
    match b
    case Nil =>
    case Cons(item, rest) =>
      DescendParts(w, rank, ok, f, ItemText(item), Text(rest));
      ConsParts(w, ok, item, rest);
      ItemFits(w, rank, ok, depth, blocks, f, item, nr, d);
      var r := RunItem(w, depth, blocks, f, item, nr, d);
      BlockFits(w, rank, ok, depth, blocks, f, rest, nr + |ItemText(item)|, r.data);
  }

  lemma {:induction false} ItemFits(w: Config, rank: Rank, ok: Data -> bool, depth: nat,
                                    blocks: map<string, Block>, f: string, item: Item, nr: nat, d: Data)
    requires WellNested(w, rank, ok, blocks) && f in rank && rank[f] <= depth && ok(d)
    requires AllDescend(w, rank, ok, f, ItemText(item)) && ItemAlways(w, ok, item)
    ensures var r := RunItem(w, depth, blocks, f, item, nr, d); r.fits && ok(r.data)
    decreases depth, item, 1
  {
    hide WellNested, AllDescend, Text, TailText, IsHead, TestHolds, ActPlain, Sound, TailSound;
    hide RunBlock, RunTail, RunFile, Nameless, IsSingle;
    assert ItemSound(w, d, item);
    match item
    case Plain(line) =>
      PlainFits(w, rank, ok, depth, blocks, f, line, nr, d);
    case Choice(head, body, tail) =>
      hide ItemAlways;
      ChoiceParts(w, ok, head, body, tail);
      DescendParts(w, rank, ok, f, [head], Text(body) + TailText(tail));
      DescendParts(w, rank, ok, f, Text(body), TailText(tail));
      if TestHolds(w, d, head) {
        BlockFits(w, rank, ok, depth, blocks, f, body, nr + 1, d);
      } else {
        TailFits(w, rank, ok, depth, blocks, f, tail, nr + 1 + |Text(body)|, d);
      }
  }

  lemma {:induction false} PlainFits(w: Config, rank: Rank, ok: Data -> bool, depth: nat,
                                     blocks: map<string, Block>, f: string, line: string, nr: nat, d: Data)
    requires WellNested(w, rank, ok, blocks) && f in rank && rank[f] <= depth && ok(d)
    requires AllDescend(w, rank, ok, f, [line]) && IsSingle(w, d, line)
    ensures var r := RunItem(w, depth, blocks, f, Plain(line), nr, d); r.fits && ok(r.data)
    decreases depth, Plain(line), 0
  {
    hide WellNested, AllDescend, ActPlain, RunFile, Nameless, IsSingle;
    OneDescends(w, rank, ok, f, line, d);
    var a := ActPlain(w, d, line);
    if a.effect.Enter? {
      InBlocks(w, rank, ok, blocks, a.effect.file);
      FileFits(w, rank, ok, depth - 1, blocks, a.effect.file, a.data);
    }
  }

  lemma InBlocks(w: Config, rank: Rank, ok: Data -> bool, blocks: map<string, Block>, f: string)
    requires WellNested(w, rank, ok, blocks) && f in rank
    ensures f in blocks
  {}

  lemma {:induction false} TailFits(w: Config, rank: Rank, ok: Data -> bool, depth: nat,
                                    blocks: map<string, Block>, f: string, t: Tail, nr: nat, d: Data)
    requires WellNested(w, rank, ok, blocks) && f in rank && rank[f] <= depth && ok(d)
    requires AllDescend(w, rank, ok, f, TailText(t)) && TailAlways(w, ok, t)
    ensures var r := RunTail(w, depth, blocks, f, t, nr, d); r.fits && ok(r.data)
    decreases depth, t, 1
  {
    hide WellNested, AllDescend, RunBlock, Text, KindOf, AgainHolds, Sound, BlockSound;
    assert TailSound(w, d, t);
    match t
    case End(line) =>
    case Otherwise(line, body, end) =>
      TailParts(w, ok, t);
      DescendParts(w, rank, ok, f, [line], Text(body) + [end]);
      DescendParts(w, rank, ok, f, Text(body), [end]);
      BlockFits(w, rank, ok, depth, blocks, f, body, nr + 1, d);
      var r := RunBlock(w, depth, blocks, f, body, nr + 1, d);
      assert TailSound(w, r.data, t);
    case OrIf(line, body, rest) =>
      TailParts(w, ok, t);
      DescendParts(w, rank, ok, f, [line], Text(body) + TailText(rest));
      DescendParts(w, rank, ok, f, Text(body), TailText(rest));
      if AgainHolds(w, d, line) {
        BlockFits(w, rank, ok, depth, blocks, f, body, nr + 1, d);
      } else {
        TailFits(w, rank, ok, depth, blocks, f, rest, nr + 1 + |Text(body)|, d);
      }
  }
}
