/** The statistics of all echo areas as values: chains of links, in the order of the tags. */
module StatEchoes {
  import opened Text
  import opened Wrappers
  import opened StatLinks

  /** `links` is the 16-bit counter kept beside the chain. */
  datatype EchoStat = EchoStat(links: Int16, tag: seq<Byte>, chain: seq<LinkStat>)

  datatype Event = Event(tag: seq<Byte>, addr: Addr, kind: Kind, len: int)

  predicate SortedTags(es: seq<EchoStat>) {
    forall i, j :: 0 <= i < j < |es| ==> Stricmp(es[i].tag, es[j].tag) < 0
  }

  predicate Sorted(es: seq<EchoStat>) {
    SortedTags(es) && forall e :: e in es ==> SortedChain(e.chain)
  }

  /** In every area the links stand in the order of the numbers of their addresses. */
  predicate AllRising(es: seq<EchoStat>) {
    forall e :: e in es ==> Rising(e.chain)
  }

  lemma SortedAllRise(es: seq<EchoStat>)
    ensures Sorted(es) ==> AllRising(es)
  {
    hide SortedChain, Rising;
    forall e | e in es ensures SortedChain(e.chain) <==> Rising(e.chain) {
      SortedRises(e.chain);
    }
  }

  /** The counters of an address in the area of a tag, whatever its case. */
  function Find(es: seq<EchoStat>, tag: string, a: Addr): Option<Counters> {
    FindLink(ChainOf(es, tag), a)
  }

  /** The chain of the area of a tag, empty if there is none. */
  function ChainOf(es: seq<EchoStat>, tag: string): seq<LinkStat> {
    if es == [] then []
    else if Stricmp(tag, es[0].tag) == 0 then es[0].chain
    else ChainOf(es[1..], tag)
  }

  predicate TagsAfter(es: seq<EchoStat>, tag: string) {
    es != [] ==> Stricmp(tag, es[0].tag) < 0
  }

  lemma HeadTag(e: EchoStat, es: seq<EchoStat>)
    requires Sorted(es) && TagsAfter(es, e.tag) && SortedChain(e.chain)
    ensures Sorted([e] + es)
  {
    forall j | 0 <= j < |es| ensures Stricmp(e.tag, es[j].tag) < 0 {
      StricmpChains(e.tag, es[0].tag, es[j].tag);
    }
  }

  lemma {:induction false} TagAbsent(es: seq<EchoStat>, tag: string)
    requires SortedTags(es) && TagsAfter(es, tag)
    ensures ChainOf(es, tag) == []
  {
    if es == [] {
    } else {
      if |es| > 1 {
        StricmpChains(tag, es[0].tag, es[1].tag);
      }
      TagAbsent(es[1..], tag);
    }
  }

  lemma {:induction false} SameTagSameChain(es: seq<EchoStat>, tag: string, tag': string)
    requires Stricmp(tag, tag') == 0
    ensures ChainOf(es, tag) == ChainOf(es, tag')
  {
    if es == [] {
    } else {
      SameInOrder(tag, tag', es[0].tag);
      SameTagSameChain(es[1..], tag, tag');
    }
  }

  lemma SameInOrder(a: string, b: string, c: string)
    requires Stricmp(a, b) == 0
    ensures Stricmp(a, c) == Stricmp(b, c)
  {
    StricmpFlips(a, c);
    StricmpFlips(b, c);
    StricmpFlips(a, b);
    StricmpChains(c, b, a);
  }

  /* ---- One event ---- */

  /** The counter goes up by one when a link is inserted. */
  function PutInEcho(e: EchoStat, addr: Addr, kind: Kind, len: int): EchoStat {
    var chain := PutLink(e.chain, addr, kind, len);
    e.(chain := chain, links := Wrap16(e.links + |chain| - |e.chain|))
  }

  /** The list after one event: the walk to the place of the tag, an insertion if it is not there,
      and the event in that area. */
  function PutStat(es: seq<EchoStat>, ev: Event): seq<EchoStat> {
    if es == [] || Stricmp(ev.tag, es[0].tag) < 0 then
      [PutInEcho(EchoStat(0, ev.tag, []), ev.addr, ev.kind, ev.len)] + es
    else if Stricmp(ev.tag, es[0].tag) == 0 then
      [PutInEcho(es[0], ev.addr, ev.kind, ev.len)] + es[1..]
    else [es[0]] + PutStat(es[1..], ev)
  }

  lemma {:induction false} PutStatSorted(es: seq<EchoStat>, ev: Event)
    requires Sorted(es)
    ensures Sorted(PutStat(es, ev))
    ensures forall t :: TagsAfter(es, t) && Stricmp(t, ev.tag) < 0 ==> TagsAfter(PutStat(es, ev), t)
  {
    hide PutLink, Wrap16;
    if es == [] || Stricmp(ev.tag, es[0].tag) < 0 {
      PutLinkSorted([], ev.addr, ev.kind, ev.len);
      HeadTag(PutInEcho(EchoStat(0, ev.tag, []), ev.addr, ev.kind, ev.len), es);
    } else if Stricmp(ev.tag, es[0].tag) == 0 {
      PutLinkSorted(es[0].chain, ev.addr, ev.kind, ev.len);
      HeadTag(PutInEcho(es[0], ev.addr, ev.kind, ev.len), es[1..]);
    } else {
      PutStatSorted(es[1..], ev);
      StricmpFlips(ev.tag, es[0].tag);
      HeadTag(es[0], PutStat(es[1..], ev));
    }
  }

  /** An event changes only the chain of its own area. */
  lemma {:induction false} PutStatChain(es: seq<EchoStat>, ev: Event, tag: string)
    requires Sorted(es)
    ensures ChainOf(PutStat(es, ev), tag)
            == if Stricmp(tag, ev.tag) == 0 then PutLink(ChainOf(es, tag), ev.addr, ev.kind, ev.len)
               else ChainOf(es, tag)
  {
    hide PutLink, Wrap16, FindLink;
    if es == [] || Stricmp(ev.tag, es[0].tag) < 0 {
      if Stricmp(tag, ev.tag) == 0 {
        TagAbsent(es, ev.tag);
        SameTagSameChain(es, tag, ev.tag);
      }
    } else if Stricmp(ev.tag, es[0].tag) == 0 {
      StricmpChains(tag, ev.tag, es[0].tag);
    } else {
      PutStatChain(es[1..], ev, tag);
      if Stricmp(tag, ev.tag) == 0 {
        SameInOrder(tag, ev.tag, es[0].tag);
      }
    }
  }

  /** The counter of every area agrees with its chain, modulo 2^16. */
  predicate LinksCounted(es: seq<EchoStat>) {
    forall e :: e in es ==> e.links == Wrap16(|e.chain|)
  }

  lemma {:induction false} PutStatCounted(es: seq<EchoStat>, ev: Event)
    requires LinksCounted(es)
    ensures LinksCounted(PutStat(es, ev))
  {
    hide PutLink, Wrap16;
    if es == [] || Stricmp(ev.tag, es[0].tag) < 0 {
      Wrap16Adds(0, |PutLink([], ev.addr, ev.kind, ev.len)|);
      assert Wrap16(0) == 0 by { Wrap16Zero(); }
    } else if Stricmp(ev.tag, es[0].tag) == 0 {
      var chain := es[0].chain;
      Wrap16Adds(|chain|, |PutLink(chain, ev.addr, ev.kind, ev.len)| - |chain|);
    } else {
      PutStatCounted(es[1..], ev);
    }
  }

  lemma Wrap16Zero()
    ensures Wrap16(0) == 0
  {}

  /* ---- A history of events ---- */

  function Collected(history: seq<Event>): seq<EchoStat> {
    if history == [] then []
    else PutStat(Collected(history[..|history| - 1]), history[|history| - 1])
  }

  predicate Concerns(ev: Event, tag: string, a: Addr) {
    Stricmp(tag, ev.tag) == 0 && ev.addr == a
  }

  /** The number of events of one kind for an area and an address, and the sum of their lengths. */
  function Number(history: seq<Event>, tag: string, a: Addr, kind: Kind): nat {
    if history == [] then 0
    else
      var last := history[|history| - 1];
      Number(history[..|history| - 1], tag, a, kind)
      + if Concerns(last, tag, a) && last.kind == kind then 1 else 0
  }

  function Bytes(history: seq<Event>, tag: string, a: Addr, kind: Kind): int {
    if history == [] then 0
    else
      var last := history[|history| - 1];
      Bytes(history[..|history| - 1], tag, a, kind)
      + if Concerns(last, tag, a) && last.kind == kind then last.len else 0
  }

  function Tally(history: seq<Event>, tag: string, a: Addr): Counters {
    Counters(Wrap32(Number(history, tag, a, Norm)), Wrap32(Number(history, tag, a, Out)),
             Wrap32(Number(history, tag, a, Dupe)), Wrap32(Number(history, tag, a, Bad)),
             Wrap32(Bytes(history, tag, a, Norm)), Wrap32(Bytes(history, tag, a, Out)))
  }

  lemma TallyNext(history: seq<Event>, ev: Event, tag: string, a: Addr)
    ensures Tally(history + [ev], tag, a)
            == if Concerns(ev, tag, a) then Bump(Tally(history, tag, a), ev.kind, ev.len)
               else Tally(history, tag, a)
  {
    hide Wrap32, Stricmp;
    assert (history + [ev])[..|history|] == history;
    Wrap32Adds(Number(history, tag, a, ev.kind), 1);
    Wrap32Adds(Bytes(history, tag, a, ev.kind), ev.len);
  }

  /** After any history the list is strictly sorted and counted, and every counter is the number
      of matching events, or the sum of their lengths, in the width of its field. */
  lemma {:induction false} CollectedTallies(history: seq<Event>, tag: string, a: Addr)
    ensures Sorted(Collected(history)) && LinksCounted(Collected(history)) && AllRising(Collected(history))
    ensures Find(Collected(history), tag, a)
            == if exists ev :: ev in history && Concerns(ev, tag, a) then Some(Tally(history, tag, a)) else None
    ensures CountOf(Find(Collected(history), tag, a)) == Tally(history, tag, a)
  {
    hide Stricmp, PutStat, PutLink, Bump, Rising, AllRising;
    SortedAllRise(Collected(history));
    if history == [] {
      assert Wrap32(0) == 0;
    } else {
      var n := |history| - 1;
      var before, ev := history[..n], history[n];
      var es := Collected(before);
      assert history == before + [ev];
      CollectedTallies(before, tag, a);
      PutStatSorted(es, ev);
      PutStatCounted(es, ev);
      PutStatChain(es, ev, tag);
      TallyNext(before, ev, tag, a);
      if Stricmp(tag, ev.tag) == 0 {
        ChainSorted(es, tag);
        PutLinkFinds(ChainOf(es, tag), ev.addr, ev.kind, ev.len, a);
      }
    }
  }

  /** Which counter counts what: messages received, sent, duplicate and bad by their kinds, and the
      bytes of the first two. */
  lemma CountsExactly(history: seq<Event>, tag: string, a: Addr)
    ensures var c := CountOf(Find(Collected(history), tag, a));
            && c.received == Wrap32(Number(history, tag, a, Norm)) && c.sent == Wrap32(Number(history, tag, a, Out))
            && c.dupes == Wrap32(Number(history, tag, a, Dupe)) && c.bad == Wrap32(Number(history, tag, a, Bad))
            && c.receivedBytes == Wrap32(Bytes(history, tag, a, Norm))
            && c.sentBytes == Wrap32(Bytes(history, tag, a, Out))
  {
    hide Wrap32, Number, Bytes, Find, Collected;
    CollectedTallies(history, tag, a);
  }

  function TagSet(es: seq<EchoStat>): set<seq<Byte>> {
    set e | e in es :: e.tag
  }

  predicate HasTag(es: seq<EchoStat>, tag: string) {
    exists e :: e in es && Stricmp(tag, e.tag) == 0
  }

  lemma HasTagNext(es: seq<EchoStat>, tag: string)
    ensures HasTag(es, tag) <==> es != [] && (Stricmp(tag, es[0].tag) == 0 || HasTag(es[1..], tag))
    ensures es != [] ==> TagSet(es) == {es[0].tag} + TagSet(es[1..])
  {
    hide Stricmp;
    if es != [] {
      assert es == [es[0]] + es[1..];
    }
  }

  lemma {:induction false} NoTagBefore(es: seq<EchoStat>, tag: string)
    requires SortedTags(es) && TagsAfter(es, tag)
    ensures !HasTag(es, tag)
  {
    forall i | 0 <= i < |es| ensures Stricmp(tag, es[i].tag) < 0 {
      if i > 0 {
        StricmpChains(tag, es[0].tag, es[i].tag);
      }
    }
  }

  lemma {:induction false} PutStatTags(es: seq<EchoStat>, ev: Event)
    requires Sorted(es)
    ensures TagSet(PutStat(es, ev)) == TagSet(es) + if HasTag(es, ev.tag) then {} else {ev.tag}
  {
    hide Stricmp, PutLink, Wrap16, HasTag, TagSet, SortedChain;
    HasTagNext(es, ev.tag);
    HasTagNext(PutStat(es, ev), ev.tag);
    if es == [] || Stricmp(ev.tag, es[0].tag) < 0 {
      NoTagBefore(es, ev.tag);
      assert PutStat(es, ev)[1..] == es;
      NoTags(ev.tag);
    } else if Stricmp(ev.tag, es[0].tag) == 0 {
      assert PutStat(es, ev)[1..] == es[1..];
    } else {
      PutStatTags(es[1..], ev);
      assert PutStat(es, ev)[1..] == PutStat(es[1..], ev);
    }
  }

  lemma NoTags(tag: string)
    ensures TagSet([]) == {} && !HasTag([], tag)
  {}

  /** This is the first event of its area. */
  predicate OpensArea(history: seq<Event>, i: nat)
    requires i < |history|
  {
    forall j :: 0 <= j < i ==> Stricmp(history[i].tag, history[j].tag) != 0
  }

  /** The tags of the first events of all areas. */
  function FirstTags(history: seq<Event>): set<seq<Byte>> {
    set i | 0 <= i < |history| && OpensArea(history, i) :: history[i].tag
  }

  predicate AnyTag(history: seq<Event>, tag: string) {
    exists ev :: ev in history && Stricmp(tag, ev.tag) == 0
  }

  lemma AnyTagNext(before: seq<Event>, ev: Event, tag: string)
    ensures AnyTag(before + [ev], tag) <==> AnyTag(before, tag) || Stricmp(tag, ev.tag) == 0
  {
    hide Stricmp;
    if AnyTag(before, tag) {
      var e :| e in before && Stricmp(tag, e.tag) == 0;
      assert e in before + [ev];
    }
    assert ev in before + [ev];
  }

  lemma FirstTagsNext(before: seq<Event>, ev: Event)
    ensures FirstTags(before + [ev]) == FirstTags(before) + if AnyTag(before, ev.tag) then {} else {ev.tag}
  {
    hide Stricmp;
    var h, n := before + [ev], |before|;
    forall i | 0 <= i < n ensures OpensArea(h, i) == OpensArea(before, i) {
      assert forall j :: 0 <= j <= i ==> h[j] == before[j];
    }
    assert OpensArea(h, n) <==> !AnyTag(before, ev.tag) by {
      assert forall j :: 0 <= j < n ==> h[j] == before[j];
    }
    assert h[n] == ev;
  }

  /** The areas are those of the events, each under the tag of its first event. */
  lemma {:induction false} AreasOfEvents(history: seq<Event>, tag: string)
    ensures TagSet(Collected(history)) == FirstTags(history)
    ensures HasTag(Collected(history), tag) <==> AnyTag(history, tag)
  {
    hide PutStat, Stricmp, TagSet, HasTag, Sorted, AnyTag, FirstTags;
    if history == [] {
      NoEventsNoTags(tag);
    } else {
      var n := |history| - 1;
      var before, ev := history[..n], history[n];
      AreasOfEvents(before, tag);
      AreasOfEvents(before, ev.tag);
      CollectedTallies(before, tag, ev.addr);
      PutStatTags(Collected(before), ev);
      PutStatHasTag(Collected(before), ev, tag);
      AnyTagNext(before, ev, tag);
      FirstTagsNext(before, ev);
      assert history == before + [ev];
    }
  }

  lemma NoEventsNoTags(tag: string)
    ensures TagSet(Collected([])) == FirstTags([]) == {} && !HasTag(Collected([]), tag) && !AnyTag([], tag)
  {
    NoTags(tag);
  }

  lemma {:induction false} PutStatHasTag(es: seq<EchoStat>, ev: Event, tag: string)
    ensures HasTag(PutStat(es, ev), tag) <==> HasTag(es, tag) || Stricmp(tag, ev.tag) == 0
  {
    hide Stricmp, PutLink, Wrap16, HasTag, TagSet;
    HasTagNext(es, tag);
    HasTagNext(PutStat(es, ev), tag);
    if es == [] || Stricmp(ev.tag, es[0].tag) < 0 {
      assert PutStat(es, ev)[1..] == es;
    } else if Stricmp(ev.tag, es[0].tag) == 0 {
      assert PutStat(es, ev)[1..] == es[1..];
      StricmpChains(tag, ev.tag, es[0].tag);
    } else {
      PutStatHasTag(es[1..], ev, tag);
      assert PutStat(es, ev)[1..] == PutStat(es[1..], ev);
    }
  }

  lemma {:induction false} ChainSorted(es: seq<EchoStat>, tag: string)
    requires Sorted(es)
    ensures SortedChain(ChainOf(es, tag))
  {
    if es != [] && Stricmp(tag, es[0].tag) != 0 {
      ChainSorted(es[1..], tag);
    }
  }
}
