/** The life of a statistics file: rounds of events, each followed by an update of the file. */
module StatRounds {
  import opened Text
  import opened Wrappers
  import opened StatLinks
  import opened StatEchoes
  import opened StatFile

  /** What is counted between two updates, and the time of the update. */
  datatype Round = Round(history: seq<Event>, now: int)

  function AfterRound(file: Stored, r: Round): Stored {
    if r.history == [] then file
    else match Updated(Collected(r.history), file, r.now) case Some(f) => f case None => file
  }

  function AfterRounds(rounds: seq<Round>): Stored {
    if rounds == [] then Missing
    else AfterRound(AfterRounds(rounds[..|rounds| - 1]), rounds[|rounds| - 1])
  }

  function AllEvents(rounds: seq<Round>): seq<Event> {
    if rounds == [] then [] else AllEvents(rounds[..|rounds| - 1]) + rounds[|rounds| - 1].history
  }

  function Records(file: Stored): seq<EchoStat> {
    if file.File? && FileRecords(file.body).Some? then FileRecords(file.body).value else []
  }

  /** Every tag can be stored, and no chain outgrows its counter. */
  predicate Storing(news: seq<EchoStat>, olds: seq<EchoStat>) {
    && (forall e :: e in news ==> 1 <= |e.tag| <= 0x7fff && |e.chain| <= 0x7fff)
    && forall e, o :: e in news && o in olds && Stricmp(e.tag, o.tag) == 0 ==> |Merged(e.chain, o.chain)| <= 0x7fff
  }

  /** This update overwrites the old link of this area and address. */
  predicate Loses(news: seq<EchoStat>, olds: seq<EchoStat>, tag: string, a: Addr) {
    HasTag(news, tag) && Overwritten(ChainOf(news, tag), ChainOf(olds, tag), a)
  }

  /** The last of these rounds loses the link. */
  predicate LastLoses(rounds: seq<Round>, tag: string, a: Addr)
    requires rounds != []
  {
    var n := |rounds| - 1;
    Loses(Collected(rounds[n].history), Records(AfterRounds(rounds[..n])), tag, a)
  }

  /** The events since the last round that lost the link. */
  function Since(rounds: seq<Round>, tag: string, a: Addr): seq<Event> {
    if rounds == [] || LastLoses(rounds, tag, a) then []
    else Since(rounds[..|rounds| - 1], tag, a) + rounds[|rounds| - 1].history
  }

  predicate AllStoring(rounds: seq<Round>) {
    rounds == []
    || (var n := |rounds| - 1;
        AllStoring(rounds[..n]) && Storing(Collected(rounds[n].history), Records(AfterRounds(rounds[..n]))))
  }

  /** No gap between new addresses of an area receives two old links. */
  ghost predicate NoGapShared(news: seq<EchoStat>, olds: seq<EchoStat>) {
    forall tag: string :: HasTag(news, tag) ==> NoSharedGap(ChainOf(news, tag), ChainOf(olds, tag))
  }

  ghost predicate NoGapsShared(rounds: seq<Round>) {
    rounds == []
    || (var n := |rounds| - 1;
        NoGapsShared(rounds[..n])
        && NoGapShared(Collected(rounds[n].history), Records(AfterRounds(rounds[..n]))))
  }

  /** A file that updates leave behind. */
  predicate Sane(file: Stored) {
    && !file.Truncated? && (file.File? ==> file.rev == REVISION && FileRecords(file.body).Some?)
    && Sorted(Records(file)) && AllStorable(Records(file)) && Counted(Records(file))
  }

  lemma {:induction false} ChainsNotEmpty(history: seq<Event>)
    ensures forall e :: e in Collected(history) ==> e.chain != []
    ensures history != [] ==> Collected(history) != []
  {
    if history == [] {
    } else {
      var n := |history| - 1;
      ChainsNotEmpty(history[..n]);
      PutStatNotEmpty(Collected(history[..n]), history[n]);
    }
  }

  lemma {:induction false} PutStatNotEmpty(es: seq<EchoStat>, ev: Event)
    requires forall e :: e in es ==> e.chain != []
    ensures PutStat(es, ev) != [] && forall e :: e in PutStat(es, ev) ==> e.chain != []
  {
    hide Stricmp, Wrap16, Bump;
    if es == [] || Stricmp(ev.tag, es[0].tag) < 0 || Stricmp(ev.tag, es[0].tag) == 0 {
    } else {
      PutStatNotEmpty(es[1..], ev);
    }
  }

  lemma CollectedFits(history: seq<Event>, olds: seq<EchoStat>)
    requires Storing(Collected(history), olds) && AllStorable(olds)
    ensures Fit(Collected(history), olds) && Sorted(Collected(history))
  {
    hide Stricmp, Wrap16, Sorted;
    var news := Collected(history);
    ChainsNotEmpty(history);
    CollectedTallies(history, "", Addr(0, 0, 0, 0));
    forall e | e in news ensures e.links == |e.chain| && Storable(e) {
      Wrap16Fits(|e.chain|);
    }
  }

  /** One round: the file holds the merged records, recounted. */
  lemma RoundWrites(file: Stored, r: Round)
    requires Sane(file) && r.history != [] && Storing(Collected(r.history), Records(file))
    ensures var news, olds := Collected(r.history), Records(file);
            && AllStorable(MergedEchoes(news, olds)) && Sorted(news)
            && AfterRound(file, r).File? && AfterRound(file, r).rev == REVISION
            && FileRecords(AfterRound(file, r).body) == Some(AllRecounted(MergedEchoes(news, olds)))
  {
    hide FileRecords, FileBytes, AllStorable, Collected, Sorted, Counted, Storing;
    var news, olds := Collected(r.history), Records(file);
    CollectedFits(r.history, olds);
    MergedStorable(news, olds);
    FileRoundTrip(MergedEchoes(news, olds));
  }

  lemma RoundKeepsSane(file: Stored, r: Round)
    requires Sane(file) && Storing(Collected(r.history), Records(file))
    ensures Sane(AfterRound(file, r))
  {
    hide FileRecords, MergedEchoes, AllStorable, Collected, Sorted, Counted, Storing;
    if r.history != [] {
      RoundWrites(file, r);
      var news, olds := Collected(r.history), Records(file);
      MergedEchoesSorted(news, olds);
      RecountedSame(MergedEchoes(news, olds), "");
    }
  }

  /** One round: the counters of every area and address are those before together with what the
      round counted, or gone if the link was overwritten; then the round counted nothing for it. */
  lemma RoundAdds(file: Stored, r: Round, tag: string, a: Addr)
    requires Sane(file) && Storing(Collected(r.history), Records(file))
    ensures Find(Records(AfterRound(file, r)), tag, a)
            == if Loses(Collected(r.history), Records(file), tag, a) then None
               else Added(Find(Collected(r.history), tag, a), Find(Records(file), tag, a))
    ensures Loses(Collected(r.history), Records(file), tag, a) ==>
              forall ev :: ev in r.history ==> !Concerns(ev, tag, a)
  {
    hide FileRecords, MergedEchoes, AllStorable, Collected, Sorted, Counted, Storing;
    hide Plus, Stricmp, Overwritten, ChainOf;
    var news, olds := Collected(r.history), Records(file);
    CollectedTallies(r.history, tag, a);
    if r.history == [] {
      NoTags(tag, a);
    } else {
      RoundWrites(file, r);
      RecountedSame(MergedEchoes(news, olds), tag);
      MergeConserves(news, olds, tag, a);
      ChainSorted(olds, tag);
      if Loses(news, olds, tag, a) {
        LostHasNoNews(ChainOf(news, tag), ChainOf(olds, tag), a);
      }
    }
  }

  lemma NoTags(tag: string, a: Addr)
    ensures Collected([]) == [] && !HasTag([], tag) && Find([], tag, a) == None
  {}

  /** A new link is not overwritten. */
  lemma LostHasNoNews(news: seq<LinkStat>, olds: seq<LinkStat>, a: Addr)
    requires SortedChain(olds) && Overwritten(news, olds, a)
    ensures FindLink(news, a) == None
  {
    var i :| 0 <= i < |olds| - 1 && olds[i].addr == a && !NewBetween(news, a, olds[i + 1].addr);
    assert Acmp(a, olds[i + 1].addr) < 0;
    if FindLink(news, a) != None {
      MemberFound(news, a);
    }
  }

  lemma {:induction false} MemberFound(s: seq<LinkStat>, a: Addr)
    requires FindLink(s, a) != None
    ensures exists l :: l in s && l.addr == a
  {
    if s[0].addr == a {
      assert s[0] in s;
    } else {
      MemberFound(s[1..], a);
    }
  }

  lemma AddedCount(x: Option<Counters>, y: Option<Counters>)
    ensures CountOf(Added(x, y)) == Plus(CountOf(x), CountOf(y))
  {
    hide Plus;
    WrapsNothing(CountOf(x));
    WrapsNothing(CountOf(y));
  }

  lemma WrapsNothing(c: Counters)
    ensures Plus(ZERO, c) == c == Plus(c, ZERO)
  {
    hide Wrap32;
    Wrap32Fits(c.received);
    Wrap32Fits(c.sent);
    Wrap32Fits(c.dupes);
    Wrap32Fits(c.bad);
    Wrap32Fits(c.receivedBytes);
    Wrap32Fits(c.sentBytes);
  }

  predicate AnyConcerns(history: seq<Event>, tag: string, a: Addr) {
    exists ev :: ev in history && Concerns(ev, tag, a)
  }

  lemma NothingCounted(tag: string, a: Addr)
    ensures Tally([], tag, a) == ZERO && !AnyConcerns([], tag, a)
  {}

  lemma {:induction false} TallyAppends(g: seq<Event>, h: seq<Event>, tag: string, a: Addr)
    ensures Tally(g + h, tag, a) == Plus(Tally(h, tag, a), Tally(g, tag, a))
  {
    hide Wrap32, Concerns;
    forall kind: Kind ensures Number(g + h, tag, a, kind) == Number(g, tag, a, kind) + Number(h, tag, a, kind)
    {
      NumberAppends(g, h, tag, a, kind);
    }
    forall kind: Kind ensures Bytes(g + h, tag, a, kind) == Bytes(g, tag, a, kind) + Bytes(h, tag, a, kind)
    {
      BytesAppends(g, h, tag, a, kind);
    }
    WrapsAdd(Number(h, tag, a, Norm), Number(g, tag, a, Norm));
    WrapsAdd(Number(h, tag, a, Out), Number(g, tag, a, Out));
    WrapsAdd(Number(h, tag, a, Dupe), Number(g, tag, a, Dupe));
    WrapsAdd(Number(h, tag, a, Bad), Number(g, tag, a, Bad));
    WrapsAdd(Bytes(h, tag, a, Norm), Bytes(g, tag, a, Norm));
    WrapsAdd(Bytes(h, tag, a, Out), Bytes(g, tag, a, Out));
  }

  lemma WrapsAdd(x: int, y: int)
    ensures Wrap32(Wrap32(x) + Wrap32(y)) == Wrap32(x + y)
  {
    Wrap32Adds(x, Wrap32(y));
    Wrap32Adds(y, x);
  }

  lemma {:induction false} NumberAppends(g: seq<Event>, h: seq<Event>, tag: string, a: Addr, kind: Kind)
    ensures Number(g + h, tag, a, kind) == Number(g, tag, a, kind) + Number(h, tag, a, kind)
  {
    if h == [] {
      assert g + h == g;
    } else {
      assert (g + h)[..|g + h| - 1] == g + h[..|h| - 1];
      NumberAppends(g, h[..|h| - 1], tag, a, kind);
    }
  }

  lemma {:induction false} BytesAppends(g: seq<Event>, h: seq<Event>, tag: string, a: Addr, kind: Kind)
    ensures Bytes(g + h, tag, a, kind) == Bytes(g, tag, a, kind) + Bytes(h, tag, a, kind)
  {
    if h == [] {
      assert g + h == g;
    } else {
      assert (g + h)[..|g + h| - 1] == g + h[..|h| - 1];
      BytesAppends(g, h[..|h| - 1], tag, a, kind);
    }
  }

  /** Over any rounds from the first, whatever gaps are shared: the file is sorted, and a link holds
      the tally of all its events since the last update that lost it. */
  lemma {:induction false} RoundsTally(rounds: seq<Round>, tag: string, a: Addr)
    requires AllStoring(rounds)
    ensures Sane(AfterRounds(rounds))
    ensures Find(Records(AfterRounds(rounds)), tag, a)
            == if AnyConcerns(Since(rounds, tag, a), tag, a) then Some(Tally(Since(rounds, tag, a), tag, a)) else None
    ensures CountOf(Find(Records(AfterRounds(rounds)), tag, a)) == Tally(Since(rounds, tag, a), tag, a)
  {
    hide Sane, Records, Find, Tally, Storing, AfterRound, Loses, AnyConcerns, Added;
    NothingCounted(tag, a);
    if rounds == [] {
      NoRounds(tag, a);
    } else {
      var n := |rounds| - 1;
      var file, h := AfterRounds(rounds[..n]), rounds[n].history;
      RoundsTally(rounds[..n], tag, a);
      RoundKeepsSane(file, rounds[n]);
      RoundAdds(file, rounds[n], tag, a);
      if !LastLoses(rounds, tag, a) {
        TalliesAdd(Since(rounds[..n], tag, a), h, Find(Records(file), tag, a), tag, a);
      }
    }
  }

  /** What the events of a round add to the tally of those before. */
  lemma TalliesAdd(g: seq<Event>, h: seq<Event>, before: Option<Counters>, tag: string, a: Addr)
    requires before == if AnyConcerns(g, tag, a) then Some(Tally(g, tag, a)) else None
    requires CountOf(before) == Tally(g, tag, a)
    ensures var after := Added(Find(Collected(h), tag, a), before);
            && after == (if AnyConcerns(g + h, tag, a) then Some(Tally(g + h, tag, a)) else None)
            && CountOf(after) == Tally(g + h, tag, a)
  {
    hide Concerns, Tally, Find, Collected;
    CollectedTallies(h, tag, a);
    TallyAppends(g, h, tag, a);
    AddedCount(Find(Collected(h), tag, a), before);
  }

  /** Where no gap is ever shared, nothing is lost. */
  lemma {:induction false} NothingLost(rounds: seq<Round>, tag: string, a: Addr)
    requires NoGapsShared(rounds)
    ensures Since(rounds, tag, a) == AllEvents(rounds)
  {
    hide NoSharedGap, Overwritten, ChainOf, HasTag, Collected, Records, AfterRounds;
    if rounds == [] {
    } else {
      var n := |rounds| - 1;
      NothingLost(rounds[..n], tag, a);
      var news, olds := Collected(rounds[n].history), Records(AfterRounds(rounds[..n]));
      GapsOverwrite(ChainOf(news, tag), ChainOf(olds, tag));
    }
  }

  /** Then every counter is the tally of all events of all rounds. */
  lemma RoundsTallyAll(rounds: seq<Round>, tag: string, a: Addr)
    requires AllStoring(rounds) && NoGapsShared(rounds)
    ensures CountOf(Find(Records(AfterRounds(rounds)), tag, a)) == Tally(AllEvents(rounds), tag, a)
  {
    hide *;
    RoundsTally(rounds, tag, a);
    NothingLost(rounds, tag, a);
  }

  lemma NoRounds(tag: string, a: Addr)
    ensures Sane(Missing) && Find(Records(Missing), tag, a) == None && Tally([], tag, a) == ZERO
  {
    NothingCounted(tag, a);
  }

  /* ---- A link that is lost ---- */

  function Single(tag: seq<Byte>, l: LinkStat): EchoStat {
    EchoStat(1, tag, [l])
  }

  lemma OneEvent(ev: Event)
    ensures Collected([ev]) == [Single(ev.tag, LinkStat(ev.addr, Bump(ZERO, ev.kind, ev.len)))]
  {
    hide Bump, Wrap16;
    Wrap16Fits(1);
    assert [ev][..0] == [] && Collected([]) == [];
    assert PutLink([], ev.addr, ev.kind, ev.len) == [LinkStat(ev.addr, Bump(ZERO, ev.kind, ev.len))];
    assert PutStat([], ev) == [Single(ev.tag, LinkStat(ev.addr, Bump(ZERO, ev.kind, ev.len)))];
  }

  lemma TwoEvents(ev: Event, ev': Event)
    requires ev.tag == ev'.tag && Acmp(ev.addr, ev'.addr) < 0
    ensures Collected([ev, ev'])
            == [EchoStat(2, ev.tag, [LinkStat(ev.addr, Bump(ZERO, ev.kind, ev.len)),
                                     LinkStat(ev'.addr, Bump(ZERO, ev'.kind, ev'.len))])]
  {
    hide Bump, Wrap16, Stricmp;
    Wrap16Fits(2);
    OneEvent(ev);
    StricmpReflexive(ev.tag);
    var l, l' := LinkStat(ev.addr, Bump(ZERO, ev.kind, ev.len)), LinkStat(ev'.addr, Bump(ZERO, ev'.kind, ev'.len));
    assert [ev, ev'][..1] == [ev] && [ev, ev'][1] == ev';
    assert PutLink([], ev'.addr, ev'.kind, ev'.len) == [l'] && [l][1..] == [];
    assert PutLink([l], ev'.addr, ev'.kind, ev'.len) == [l, l'];
    assert PutStat([Single(ev.tag, l)], ev') == [EchoStat(2, ev.tag, [l, l'])];
    assert Collected([ev, ev']) == PutStat(Collected([ev]), ev');
  }

  /** Two rounds: events for two addresses, an update, and one event for a later address before the
      next. The first address is gone from the file. */
  lemma LinkIsLost(x: Event, y: Event, z: Event, now: int, later: int)
    requires x.tag == y.tag == z.tag && 1 <= |x.tag| <= 0x7fff
    requires Acmp(x.addr, y.addr) < 0 && Acmp(y.addr, z.addr) < 0
    ensures var file := AfterRounds([Round([x, y], now)]);
            file.File? && Find(Records(file), x.tag, x.addr) == Some(Bump(ZERO, x.kind, x.len))
    ensures var file := AfterRounds([Round([x, y], now), Round([z], later)]);
            file.File? && FileRecords(file.body).Some? && Find(Records(file), x.tag, x.addr) == None
  {
    hide Bump, Acmp, Stricmp, FileRecords, Collected, Updated, PutStat, Overwritten, HasTag, Merged;
    var r, r' := Round([x, y], now), Round([z], later);
    assert [r][..0] == [] && [r, r'][..1] == [r];
    var olds := [EchoStat(2, x.tag, [LinkStat(x.addr, Bump(ZERO, x.kind, x.len)),
                                     LinkStat(y.addr, Bump(ZERO, y.kind, y.len))])];
    var news := [Single(z.tag, LinkStat(z.addr, Bump(ZERO, z.kind, z.len)))];
    TwoEvents(x, y);
    OneEvent(z);
    FirstRound(r, olds);
    StricmpReflexive(x.tag);
    LaterOverwrites(news[0], olds[0], x.addr);
    SecondRound(AfterRound(Missing, r), r', news, olds, x.tag, x.addr);
  }

  lemma LaterOverwrites(e: EchoStat, o: EchoStat, a: Addr)
    requires e.tag == o.tag && |e.chain| == 1 && |o.chain| == 2 && 1 <= |e.tag| <= 0x7fff
    requires o.chain[0].addr == a && Acmp(o.chain[1].addr, e.chain[0].addr) < 0
    ensures HasTag([e], e.tag) && ChainOf([e], e.tag) == e.chain && ChainOf([o], e.tag) == o.chain
    ensures Storing([e], [o]) && Overwritten(e.chain, o.chain, a)
  {
    hide Stricmp, Merged;
    StricmpReflexive(e.tag);
    MergedLengths(e.chain, o.chain);
    assert e in [e];
    assert !NewBetween(e.chain, a, o.chain[1].addr);
    assert o.chain[0].addr == a && 0 < |o.chain| - 1;
  }

  lemma FirstRound(r: Round, news: seq<EchoStat>)
    requires r.history != [] && Collected(r.history) == news && Storing(news, []) && Counted(news)
    ensures Sane(Missing) && Sane(AfterRound(Missing, r)) && Records(AfterRound(Missing, r)) == news
    ensures AfterRound(Missing, r).File?
  {
    hide FileRecords, Collected, Stricmp, Updated, Counted, Sorted;
    NoRounds("", Addr(0, 0, 0, 0));
    RoundWrites(Missing, r);
    RoundKeepsSane(Missing, r);
    RecountedSame(news, "");
  }

  lemma SecondRound(file: Stored, r: Round, news: seq<EchoStat>, olds: seq<EchoStat>, tag: string, a: Addr)
    requires Sane(file) && r.history != [] && Collected(r.history) == news && Records(file) == olds
    requires Storing(news, olds) && HasTag(news, tag) && Overwritten(ChainOf(news, tag), ChainOf(olds, tag), a)
    ensures var after := AfterRound(file, r);
            after.File? && FileRecords(after.body).Some? && Find(Records(after), tag, a) == None
  {
    hide FileRecords, MergedEchoes, AllStorable, Collected, Sorted, Counted, Storing, Overwritten, HasTag, ChainOf;
    RoundWrites(file, r);
    RecountedSame(MergedEchoes(news, olds), tag);
    MergeConserves(news, olds, tag, a);
  }
}
