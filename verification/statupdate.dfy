/** The update of the statistics file from the lists in memory. */
module StatUpdate {
  import opened Text
  import opened Wrappers
  import opened StatLinks
  import opened StatEchoes
  import opened StatFile
  import opened StatList
  import opened StatBook

  /** Appends the record of an area to the output, or reports a write error. */
  method WriteEcho(out: seq<Byte>, e: StatEcho) returns (out': seq<Byte>, ok: bool)
    requires e.Valid()
    ensures ok == EchoBytes(e.Value()).Some?
    ensures ok ==> out' == out + EchoBytes(e.Value()).value
  {
    hide Short, ChainBytes, IsChain, LinksOf, Wrap16;
    if e.links == 0 {
      return out, true;
    }
    var realLinks := CountLinks(e);
    var tagLen := Wrap16(|e.tag|);
    if tagLen <= 0 {
      return out, false;
    }
    TagFits(|e.tag|);
    out' := WriteChain(out + Short(realLinks) + Short(tagLen) + e.tag[..tagLen], e);
    ok := true;
    WriteParts(out, Short(realLinks), Short(tagLen), e.tag[..tagLen], ChainBytes(LinksOf(e.nodes)));
  }

  lemma WriteParts(out: seq<Byte>, a: seq<Byte>, b: seq<Byte>, c: seq<Byte>, d: seq<Byte>)
    ensures out + a + b + c + d == out + (a + b + c + d)
  {}

  method CountLinks(e: StatEcho) returns (n: Int16)
    requires e.Valid()
    ensures n == Wrap16(|e.nodes|)
  {
    hide Wrap16;
    n := 0;
    Wrap16Zero();
    var cl := e.chain;
    ghost var i := 0;
    while cl != null
      invariant i <= |e.nodes| && cl == NodeAt(e.nodes, i) && n == Wrap16(i)
      decreases |e.nodes| - i
    {
      Wrap16Adds(i, 1);
      n := Wrap16(n + 1);
      cl := cl.next;
      i := i + 1;
    }
  }

  method WriteChain(out: seq<Byte>, e: StatEcho) returns (out': seq<Byte>)
    requires e.Valid()
    ensures out' == out + ChainBytes(LinksOf(e.nodes))
  {
    hide LinkBytes, LinksOf;
    out' := out;
    var cl := e.chain;
    ghost var i, s := 0, LinksOf(e.nodes);
    assert s[0..] == s;
    while cl != null
      invariant i <= |e.nodes| && cl == NodeAt(e.nodes, i)
      invariant out' + ChainBytes(s[i..]) == out + ChainBytes(s)
      decreases |e.nodes| - i
    {
      ChainNext(out', s, i);
      out' := out' + LinkBytes(cl.link);
      cl := cl.next;
      i := i + 1;
    }
  }

  lemma ChainNext(out: seq<Byte>, s: seq<LinkStat>, i: nat)
    requires i < |s|
    ensures out + ChainBytes(s[i..]) == out + LinkBytes(s[i]) + ChainBytes(s[i + 1..])
  {
    hide LinkBytes;
    assert s[i..][1..] == s[i + 1..];
  }

  /** Reads one record into a new area with a new chain. Without an area, `ok` tells the end of the
      file from a broken file. */
  method ReadEcho(b: seq<Byte>) returns (old_: StatEcho?, rest: seq<Byte>, ok: bool)
    ensures match EchoAt(b)
            case Eof => old_ == null && ok
            case Broken => old_ == null && !ok
            case Record(e, r) => old_ != null && ok && rest == r && old_.Valid() && old_.Value() == e
    ensures old_ != null ==> fresh(old_) && forall n :: n in old_.nodes ==> fresh(n)
  {
    hide ShortAt, ChainAt, LinkAt, IsChain, LinksOf;
    old_, rest, ok := null, b, true;
    if |b| < 4 {
      return;
    }
    var links := ShortAt(b);
    var tagLen: int := ShortAt(b[2..]);
    if tagLen <= 0 || |b| < 4 + tagLen {
      ok := false;
      return;
    }
    var me := new StatEcho(b[4..4 + tagLen], null);
    me.links := links;
    rest, ok := ReadChain(b[4 + tagLen..], me, if links > 0 then links else 0);
    if ok {
      old_ := me;
    }
  }

  method ReadChain(b: seq<Byte>, me: StatEcho, n: nat) returns (rest: seq<Byte>, ok: bool)
    requires me.Valid() && me.nodes == []
    modifies me`chain, me`nodes
    ensures ok == (|b| >= LINK_SIZE * n)
    ensures ok ==> rest == b[LINK_SIZE * n..] && me.Valid() && LinksOf(me.nodes) == ChainAt(b, n)
    ensures forall k :: k in me.nodes ==> fresh(k)
  {
    hide LinkAt, LinksOf, Spliced, IsChain, ChainAt;
    rest, ok := b, true;
    var prev: ChainLink? := null;
    ChainAtNone(b);
    for i := 0 to n
      invariant me.Valid() && |me.nodes| == i && forall k :: k in me.nodes ==> fresh(k)
      invariant prev == if i == 0 then null else me.nodes[i - 1]
      invariant |b| >= LINK_SIZE * i && rest == b[LINK_SIZE * i..]
      invariant LinksOf(me.nodes) == ChainAt(b, i)
    {
      if |rest| < LINK_SIZE {
        ok := false;
        return;
      }
      var l := new ChainLink(LinkAt(rest), null);
      ChainAtNext(b, i);
      assert prev != null ==> prev in me.nodes;
      me.Link(l, prev, i, i);
      SplicedAtEnd(ChainAt(b, i), l.link);
      prev := l;
      rest := rest[LINK_SIZE..];
    }
  }

  lemma ChainAtNone(b: seq<Byte>)
    ensures ChainAt(b, 0) == []
  {}

  lemma {:induction false} ChainAtNext(b: seq<Byte>, i: nat)
    requires |b| >= LINK_SIZE * (i + 1)
    ensures ChainAt(b, i + 1) == ChainAt(b, i) + [LinkAt(b[LINK_SIZE * i..])]
  {
    hide LinkAt;
    if i == 0 {
    } else {
      ChainAtNext(b[LINK_SIZE..], i - 1);
      assert b[LINK_SIZE..][LINK_SIZE * (i - 1)..] == b[LINK_SIZE * i..];
    }
  }

  lemma SplicedAtEnd<T>(s: seq<T>, x: T)
    ensures Spliced(s, |s|, |s|, x) == s + [x]
  {}

  /** The bytes still to be written behind `out`, when these new areas and the rest of the old file
      are still to come; nothing if that fails. */
  function Remaining(out: seq<Byte>, news: seq<EchoStat>, b: seq<Byte>): Option<seq<Byte>> {
    var olds := FileRecords(b);
    if olds.None? then None else Appended(out, FileBytes(MergedEchoes(news, olds.value)))
  }

  function Appended(out: seq<Byte>, more: Option<seq<Byte>>): Option<seq<Byte>> {
    match more case Some(c) => Some(out + c) case None => None
  }

  lemma RemainingWrites(out: seq<Byte>, e: EchoStat, news: seq<EchoStat>, olds: seq<EchoStat>)
    requires MergedEchoes(news, olds) != [] && MergedEchoes(news, olds)[0] == e
    ensures Appended(out, FileBytes(MergedEchoes(news, olds)))
            == if EchoBytes(e).None? then None
               else Appended(out + EchoBytes(e).value, FileBytes(MergedEchoes(news, olds)[1..]))
  {
    hide EchoBytes, MergedEchoes;
    var m := MergedEchoes(news, olds);
    if EchoBytes(e).Some? && FileBytes(m[1..]).Some? {
      assert out + (EchoBytes(e).value + FileBytes(m[1..]).value) == out + EchoBytes(e).value + FileBytes(m[1..]).value;
    }
  }

  /** A new area before the next old record is written as it is. */
  lemma RemainingNew(out: seq<Byte>, news: seq<EchoStat>, b: seq<Byte>)
    requires EchoAt(b).Record? && news != [] && Stricmp(news[0].tag, EchoAt(b).echo.tag) < 0
    ensures Remaining(out, news, b)
            == if EchoBytes(news[0]).None? then None else Remaining(out + EchoBytes(news[0]).value, news[1..], b)
  {
    if FileRecords(b).Some? {
      RemainingWrites(out, news[0], news, FileRecords(b).value);
    }
  }

  lemma RemainingMerged(out: seq<Byte>, news: seq<EchoStat>, b: seq<Byte>)
    requires EchoAt(b).Record? && news != [] && Stricmp(news[0].tag, EchoAt(b).echo.tag) == 0
    ensures var e := MergedEcho(news[0], EchoAt(b).echo);
            Remaining(out, news, b)
            == if EchoBytes(e).None? then None else Remaining(out + EchoBytes(e).value, news[1..], EchoAt(b).rest)
  {
    if FileRecords(b).Some? {
      RemainingWrites(out, MergedEcho(news[0], EchoAt(b).echo), news, FileRecords(b).value);
    }
  }

  lemma RemainingOld(out: seq<Byte>, news: seq<EchoStat>, b: seq<Byte>)
    requires EchoAt(b).Record? && (news != [] ==> Stricmp(news[0].tag, EchoAt(b).echo.tag) > 0)
    ensures var e := EchoAt(b).echo;
            Remaining(out, news, b)
            == if EchoBytes(e).None? then None else Remaining(out + EchoBytes(e).value, news, EchoAt(b).rest)
  {
    if FileRecords(b).Some? {
      RemainingWrites(out, EchoAt(b).echo, news, FileRecords(b).value);
    }
  }

  /** This is the list of the areas still to be written. */
  ghost predicate Pending(cur: StatEcho?, tail: seq<StatEcho>)
    reads tail`next, tail`chain, tail`nodes, NodesOf(tail)`next
  {
    IsList(cur, tail) && AllValid(tail) && AllApart(tail)
  }

  /** Its first area is independent of the others. */
  lemma PendingTail(cur: StatEcho, tail: seq<StatEcho>)
    requires Pending(cur, tail)
    ensures tail != [] && cur == tail[0] && cur.Valid()
    ensures Pending(cur.next, tail[1..]) && cur.next == ItemAt(tail[1..], 0) && cur !in tail[1..]
    ensures forall n :: n in cur.nodes ==> n !in NodesOf(tail[1..])
    ensures Values(tail) == [cur.Value()] + Values(tail[1..])
  {
    hide IsChain, LinksOf;
    AllValidAt(tail);
    forall e | e in tail[1..] ensures ValidWithin(e, NodesOf(tail[1..])) && Apart(cur, e) {
      var i :| 0 <= i < |tail[1..]| && tail[1..][i] == e;
      assert e == tail[i + 1];
    }
  }

  /** Nothing happened to the rest of the list. */
  twostate lemma StillPending(tail: seq<StatEcho>)
    requires old(Pending(ItemAt(tail, 0), tail))
    requires forall i :: 0 <= i < |tail| ==> unchanged(tail[i])
    requires forall n :: n in old(NodesOf(tail)) ==> unchanged(n)
    ensures Pending(ItemAt(tail, 0), tail) && Values(tail) == old(Values(tail))
  {
    hide IsChain, LinksOf, Distinct;
    assert NodesOf(tail) == old(NodesOf(tail));
  }

  /** The promise the loops keep: as long as nothing failed, what is written and what is still to
      come make up the new file; once something failed, there is no new file. */
  ghost predicate OnCourse(goal: Option<seq<Byte>>, ok: bool, out: seq<Byte>, news: seq<EchoStat>, b: seq<Byte>) {
    goal == if ok then Remaining(out, news, b) else None
  }

  /** Writes the new areas whose tags come before that of the old record. */
  method WriteLesser(cur0: StatEcho?, ghost tail0: seq<StatEcho>, tag: seq<Byte>, out0: seq<Byte>, ok0: bool,
                     ghost b: seq<Byte>, ghost goal: Option<seq<Byte>>)
    returns (cur: StatEcho?, ghost tail: seq<StatEcho>, out: seq<Byte>, ok: bool)
    requires Pending(cur0, tail0) && EchoAt(b).Record? && EchoAt(b).echo.tag == tag
    requires OnCourse(goal, ok0, out0, Values(tail0), b)
    ensures Pending(cur, tail) && (forall e :: e in tail ==> e in tail0)
    ensures cur != null ==> Stricmp(cur.tag, tag) >= 0
    ensures OnCourse(goal, ok, out, Values(tail), b)
  {
    hide Values, Stricmp, EchoBytes, Remaining, EchoAt, Pending;
    cur, tail, out, ok := cur0, tail0, out0, ok0;
    while cur != null && Stricmp(cur.tag, tag) < 0
      invariant Pending(cur, tail) && forall e :: e in tail ==> e in tail0
      invariant OnCourse(goal, ok, out, Values(tail), b)
      decreases |tail|
    {
      PendingTail(cur, tail);
      RemainingNew(out, Values(tail), b);
      var written;
      tail := tail[1..];
      out, written := WriteFirst(out, cur, tail);
      ok := ok && written;
      cur := cur.next;
    }
  }

  /** Merges the old record into the new area with the same tag, and writes that. */
  method UpdateEcho(cur: StatEcho, ghost tail: seq<StatEcho>, old_: StatEcho, out0: seq<Byte>, ok0: bool,
                    ghost b: seq<Byte>, ghost goal: Option<seq<Byte>>)
    returns (out: seq<Byte>, ok: bool)
    requires Pending(cur, tail) && Stricmp(cur.tag, old_.tag) == 0
    requires EchoAt(b).Record? && old_.Valid() && old_.Value() == EchoAt(b).echo
    requires old_ !in tail && forall n :: n in old_.nodes ==> n !in NodesOf(tail)
    requires OnCourse(goal, ok0, out0, Values(tail), b)
    modifies cur`chain, cur`nodes, cur`links, cur.nodes
    ensures tail != [] && cur == tail[0] && Pending(cur.next, tail[1..]) && cur.next == old(cur.next)
    ensures forall e :: e in tail[1..] ==> e in tail && e.nodes == old(e.nodes)
    ensures OnCourse(goal, ok, out, Values(tail[1..]), EchoAt(b).rest)
  {
    hide Values, Stricmp, EchoBytes, Remaining, EchoAt, Pending, MergedEcho, IsChain, LinksOf;
    PendingTail(cur, tail);
    RemainingMerged(out0, Values(tail), b);
    MergeHead(cur, tail, old_);
    var written;
    out, written := WriteFirst(out0, cur, tail[1..]);
    ok := ok0 && written;
  }

  /** Writing an area changes nothing about those behind it. */
  method WriteFirst(out: seq<Byte>, e: StatEcho, ghost tail: seq<StatEcho>) returns (out': seq<Byte>, ok: bool)
    requires e.Valid() && Pending(e.next, tail)
    ensures ok == EchoBytes(old(e.Value())).Some?
    ensures ok ==> out' == out + EchoBytes(old(e.Value())).value
    ensures Pending(e.next, tail) && Values(tail) == old(Values(tail))
  {
    hide EchoBytes, IsChain, LinksOf, Distinct, AllValid, AllApart;
    out', ok := WriteEcho(out, e);
    StillPending(tail);
  }

  /** The merge changes the first area and no other. */
  method MergeHead(cur: StatEcho, ghost tail: seq<StatEcho>, old_: StatEcho)
    requires Pending(cur, tail) && old_.Valid()
    requires old_ !in tail && forall n :: n in old_.nodes ==> n !in NodesOf(tail)
    modifies cur`chain, cur`nodes, cur`links, cur.nodes
    ensures tail != [] && cur == tail[0] && cur.Valid() && cur.next == old(cur.next)
    ensures cur.Value() == MergedEcho(old(cur.Value()), old(old_.Value()))
    ensures Pending(cur.next, tail[1..]) && Values(tail[1..]) == old(Values(tail[1..]))
    ensures forall e :: e in tail[1..] ==> e in tail && e.nodes == old(e.nodes)
  {
    hide Values, Pending, MergedAsWritten, Merged, Wrap16, LinksOf, IsChain;
    PendingTail(cur, tail);
    OwnNodes(tail);
    cur.Merge(old_);
    StillPending(tail[1..]);
  }

  lemma OwnNodes(tail: seq<StatEcho>)
    requires tail != []
    ensures forall n :: n in tail[0].nodes ==> n in NodesOf(tail)
  {
    InNodesOf(tail, 0);
  }

  lemma PendingHead(cur: StatEcho?, tail: seq<StatEcho>)
    requires Pending(cur, tail)
    ensures cur == ItemAt(tail, 0)
  {}

  lemma AllInNodesOf(echoes: seq<StatEcho>)
    ensures forall e, n :: e in echoes && n in e.nodes ==> n in NodesOf(echoes)
  {}

  lemma NodesShrink(tail: seq<StatEcho>, whole: seq<StatEcho>)
    requires forall e :: e in tail ==> e in whole
    ensures NodesOf(tail) <= NodesOf(whole)
  {}

  lemma RemainingAtEnd(out: seq<Byte>, news: seq<EchoStat>, b: seq<Byte>)
    requires !EchoAt(b).Record?
    ensures Remaining(out, news, b) == if EchoAt(b).Eof? then Appended(out, FileBytes(news)) else None
  {}

  /** Takes an old record that was read: writes the new areas before it, and then the area with its
      tag, merged, or else the record itself. */
  method UpdateRecord(cur0: StatEcho?, ghost tail0: seq<StatEcho>, old_: StatEcho, out0: seq<Byte>,
                      ghost b: seq<Byte>, ghost goal: Option<seq<Byte>>)
    returns (cur: StatEcho?, ghost tail: seq<StatEcho>, out: seq<Byte>, ok: bool)
    requires Pending(cur0, tail0)
    requires EchoAt(b).Record? && old_.Valid() && old_.Value() == EchoAt(b).echo
    requires old_ !in tail0 && forall n :: n in old_.nodes ==> n !in NodesOf(tail0)
    requires OnCourse(goal, true, out0, Values(tail0), b)
    modifies tail0, NodesOf(tail0)
    ensures Pending(cur, tail) && forall e :: e in tail ==> e in tail0 && e.nodes == old(e.nodes)
    ensures OnCourse(goal, ok, out, Values(tail), EchoAt(b).rest)
  {
    hide Values, Stricmp, EchoBytes, EchoAt, Pending, Remaining, IsChain, LinksOf, NodesOf;
    AllInNodesOf(tail0);
    label lesser:
    cur, tail, out, ok := WriteLesser(cur0, tail0, old_.tag, out0, true, b, goal);
    KeepsEcho@lesser(old_);
    AllInNodesOf(tail0);
    NodesShrink(tail, tail0);
    PendingHead(cur, tail);
    if cur != null && Stricmp(cur.tag, old_.tag) == 0 {
      PendingTail(cur, tail);
      assert cur in tail0 && cur.nodes == old(cur.nodes);
      out, ok := UpdateEcho(cur, tail, old_, out, ok, b, goal);
      cur, tail := cur.next, tail[1..];
    } else {
      out, ok := KeepRecord(cur, tail, old_, out, ok, b, goal);
    }
  }

  /** Writes an old record as it is. */
  method KeepRecord(cur: StatEcho?, ghost tail: seq<StatEcho>, old_: StatEcho, out0: seq<Byte>, ok0: bool,
                    ghost b: seq<Byte>, ghost goal: Option<seq<Byte>>)
    returns (out: seq<Byte>, ok: bool)
    requires Pending(cur, tail) && (cur != null ==> Stricmp(cur.tag, old_.tag) > 0)
    requires EchoAt(b).Record? && old_.Valid() && old_.Value() == EchoAt(b).echo
    requires OnCourse(goal, ok0, out0, Values(tail), b)
    ensures Pending(cur, tail)
    ensures OnCourse(goal, ok, out, Values(tail), EchoAt(b).rest)
  {
    hide Values, Stricmp, EchoBytes, EchoAt, Pending, Remaining, IsChain, LinksOf;
    PendingHead(cur, tail);
    if cur != null {
      PendingTail(cur, tail);
    } else {
      PendingNone(tail);
    }
    RemainingOld(out0, Values(tail), b);
    var written;
    out, written := WriteEcho(out0, old_);
    StillPending(tail);
    ok := ok0 && written;
  }

  lemma PendingNone(tail: seq<StatEcho>)
    requires Pending(null, tail)
    ensures tail == [] && Values(tail) == []
  {}

  /** One round of the main loop: reads a record and takes it, or finds the end of the file. */
  method UpdateNext(cur0: StatEcho?, ghost tail0: seq<StatEcho>, out0: seq<Byte>, input: seq<Byte>,
                    ghost goal: Option<seq<Byte>>)
    returns (cur: StatEcho?, ghost tail: seq<StatEcho>, out: seq<Byte>, rest: seq<Byte>, ok: bool, atEnd: bool)
    requires Pending(cur0, tail0) && OnCourse(goal, true, out0, Values(tail0), input)
    modifies tail0, NodesOf(tail0)
    ensures Pending(cur, tail) && forall e :: e in tail ==> e in tail0 && e.nodes == old(e.nodes)
    ensures !atEnd ==> OnCourse(goal, ok, out, Values(tail), rest) && |rest| < |input|
    ensures atEnd ==> goal == if ok then Appended(out, FileBytes(Values(tail))) else None
  {
    hide Values, EchoBytes, Pending, Remaining, IsChain, LinksOf, FileBytes, Appended;
    PendingHead(cur0, tail0);
    cur, tail, out := cur0, tail0, out0;
    var old_;
    old_, rest, ok := ReadEcho(input);
    atEnd := old_ == null;
    StillPending(tail0);
    if atEnd {
      RemainingAtEnd(out, Values(tail), input);
    } else {
      cur, tail, out, ok := UpdateRecord(cur, tail, old_, out, input, goal);
    }
  }

  /** The main loop: takes the old records in turn until the old file ends or something fails. */
  method UpdateRecords(head: StatEcho?, ghost echoes: seq<StatEcho>, body: seq<Byte>, ghost goal: Option<seq<Byte>>)
    returns (cur: StatEcho?, ghost tail: seq<StatEcho>, out: seq<Byte>, ok: bool)
    requires Pending(head, echoes) && goal == Remaining([], Values(echoes), body)
    modifies echoes, NodesOf(echoes)
    ensures Pending(cur, tail)
    ensures goal == if ok then Appended(out, FileBytes(Values(tail))) else None
  {
    hide Values, Pending, Remaining, FileBytes, Appended, NodesOf;
    cur, tail, out, ok := head, echoes, [], true;
    var input, atEnd := body, false;
    AllInNodesOf(echoes);
    while ok && !atEnd
      invariant Pending(cur, tail)
      invariant forall e :: e in tail ==> e in echoes && e.nodes == old(e.nodes)
      invariant if atEnd then goal == (if ok then Appended(out, FileBytes(Values(tail))) else None)
                else OnCourse(goal, ok, out, Values(tail), input)
      decreases ok, if atEnd then 0 else |input| + 1
    {
      OnlyNodesOf(tail);
      cur, tail, out, input, ok, atEnd := UpdateNext(cur, tail, out, input, goal);
    }
  }

  lemma OnlyNodesOf(echoes: seq<StatEcho>)
    ensures forall n :: n in NodesOf(echoes) ==> exists e :: e in echoes && n in e.nodes
  {}

  /** Writes the new areas behind the last old record. */
  method WriteRest(head: StatEcho?, ghost echoes: seq<StatEcho>, out0: seq<Byte>, ghost goal: Option<seq<Byte>>)
    returns (out: seq<Byte>, ok: bool)
    requires Pending(head, echoes) && goal == Appended(out0, FileBytes(Values(echoes)))
    ensures goal == if ok then Some(out) else None
  {
    hide Values, EchoBytes, Pending, IsChain, LinksOf;
    var cur := head;
    ghost var tail := echoes;
    out, ok := out0, true;
    while ok && cur != null
      invariant Pending(cur, tail)
      invariant goal == if ok then Appended(out, FileBytes(Values(tail))) else None
      decreases |tail|, ok
    {
      PendingTail(cur, tail);
      AppendedNext(out, Values(tail));
      tail := tail[1..];
      label writing:
      out, ok := WriteEcho(out, cur);
      StillPending@writing(tail);
      cur := cur.next;
    }
    if ok {
      PendingNone(tail);
      assert out + [] == out;
    }
  }

  lemma AppendedNext(out: seq<Byte>, news: seq<EchoStat>)
    requires news != []
    ensures Appended(out, FileBytes(news))
            == if EchoBytes(news[0]).None? then None
               else Appended(out + EchoBytes(news[0]).value, FileBytes(news[1..]))
  {
    hide EchoBytes;
    if EchoBytes(news[0]).Some? && FileBytes(news[1..]).Some? {
      assert out + (EchoBytes(news[0]).value + FileBytes(news[1..]).value)
          == out + EchoBytes(news[0]).value + FileBytes(news[1..]).value;
    }
  }

  /** The update: the new file in the place of the old one, or the old one if nothing is to be
      added, if the statistics are switched off, or if something fails. A failure switches the
      statistics off. The lists are not to be used afterwards. */
  method UpdStat(book: Book, file: Stored, now: int) returns (file': Stored)
    requires book.Valid()
    modifies book`doStat, book.echoes, NodesOf(book.echoes)
    ensures var news := old(Values(book.echoes));
            if !old(book.doStat) || news == [] then file' == file && book.doStat == old(book.doStat)
            else match Updated(news, file, now)
                 case Some(f) => file' == f && book.doStat
                 case None => file' == file && !book.doStat
  {
    hide Values, FileRecords, FileBytes, MergedEchoes, Pending, NodesOf, IsChain;
    file' := file;
    if !book.doStat {
      return;
    }
    assert (book.statecho == null) == (Values(book.echoes) == []);
    if book.statecho == null {
      return;
    }
    if file.File? && file.rev != REVISION {
      book.doStat := false;
      return;
    }
    ghost var news := Values(book.echoes);
    var body := if file.File? then file.body else [];
    ghost var goal := Remaining([], news, body);
    IsPending(book);
    GoalIsUpdated(news, file, now);
    var cur, out, ok;
    ghost var tail;
    cur, tail, out, ok := UpdateRecords(book.statecho, book.echoes, body, goal);
    if ok {
      out, ok := WriteRest(cur, tail, out, goal);
    }
    book.doStat := ok;
    if ok {
      file' := File(REVISION, if file.File? then file.since else now, out);
    }
  }

  lemma IsPending(book: Book)
    requires book.Valid()
    ensures Pending(book.statecho, book.echoes)
  {}

  lemma GoalIsUpdated(news: seq<EchoStat>, file: Stored, now: int)
    requires file.File? ==> file.rev == REVISION
    ensures var goal := Remaining([], news, if file.File? then file.body else []);
            Updated(news, file, now)
            == if goal.None? then None
               else Some(File(REVISION, if file.File? then file.since else now, goal.value))
  {
    var records := FileRecords(if file.File? then file.body else []);
    if !file.File? {
      NothingLeft();
    }
    if records.Some? && FileBytes(MergedEchoes(news, records.value)).Some? {
      var c := FileBytes(MergedEchoes(news, records.value)).value;
      assert [] + c == c;
    }
  }
}
