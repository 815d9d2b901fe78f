/** The list of all echo areas: events are put into it, and the file is updated from it. */
module StatBook {
  import opened Text
  import opened StatLinks
  import opened StatEchoes
  import opened StatList

  ghost predicate IsList(head: StatEcho?, echoes: seq<StatEcho>)
    reads echoes`next
  {
    && head == ItemAt(echoes, 0)
    && (forall i {:trigger echoes[i].next} :: 0 <= i < |echoes| ==> echoes[i].next == ItemAt(echoes, i + 1))
    && Distinct(echoes)
  }

  ghost function ItemAt(echoes: seq<StatEcho>, i: nat): StatEcho? {
    if i < |echoes| then echoes[i] else null
  }

  /** The chains of two areas have no node in common. */
  ghost predicate Apart(e: StatEcho, f: StatEcho)
    reads e`nodes, f`nodes
  {
    forall n :: n in e.nodes ==> n !in f.nodes
  }

  ghost predicate AllApart(echoes: seq<StatEcho>)
    reads echoes`nodes
  {
    forall i, j :: 0 <= i < |echoes| && 0 <= j < |echoes| && i != j ==> Apart(echoes[i], echoes[j])
  }

  ghost function NodesOf(echoes: seq<StatEcho>): set<ChainLink>
    reads echoes`nodes
  {
    set e, n | e in echoes && n in e.nodes :: n
  }

  ghost predicate ValidWithin(e: StatEcho, within: set<ChainLink>)
    reads e`chain, e`nodes, within`next
  {
    (forall n :: n in e.nodes ==> n in within) && e.Valid()
  }

  ghost predicate AllValid(echoes: seq<StatEcho>)
    reads echoes`chain, echoes`nodes, NodesOf(echoes)`next
  {
    forall e :: e in echoes ==> ValidWithin(e, NodesOf(echoes))
  }

  ghost function Values(echoes: seq<StatEcho>): (s: seq<EchoStat>)
    reads echoes`links, echoes`tag, echoes`nodes, NodesOf(echoes)`link
    ensures |s| == |echoes|
    ensures forall i :: 0 <= i < |s| ==> s[i] == echoes[i].Value()
  {
    if echoes == [] then []
    else
      assert forall n :: n in echoes[0].nodes ==> n in NodesOf(echoes);
      [echoes[0].Value()] + Values(echoes[1..])
  }

  /** An area none of whose objects changed is as it was. */
  twostate lemma KeepsEcho(e: StatEcho)
    requires unchanged(e) && forall i :: 0 <= i < |e.nodes| ==> unchanged(e.nodes[i])
    ensures e.Valid() == old(e.Valid()) && e.Value() == old(e.Value())
  {}

  lemma AllValidAt(echoes: seq<StatEcho>)
    requires AllValid(echoes)
    ensures forall k :: 0 <= k < |echoes| ==> echoes[k].Valid()
  {
    forall k | 0 <= k < |echoes| ensures echoes[k].Valid() {
      assert ValidWithin(echoes[k], NodesOf(echoes));
    }
  }

  lemma InNodesOf(echoes: seq<StatEcho>, i: nat)
    requires i < |echoes|
    ensures forall n :: n in echoes[i].nodes ==> n in NodesOf(echoes)
  {
    assert echoes[i] in echoes;
  }

  lemma NodesApart(echoes: seq<StatEcho>, i: nat)
    requires i < |echoes| && AllApart(echoes)
    ensures forall k, m :: 0 <= k < |echoes| && k != i && 0 <= m < |echoes[k].nodes| ==>
              echoes[k].nodes[m] !in echoes[i].nodes
  {
    forall k, m | 0 <= k < |echoes| && k != i && 0 <= m < |echoes[k].nodes|
      ensures echoes[k].nodes[m] !in echoes[i].nodes
    {
      assert Apart(echoes[k], echoes[i]);
      assert echoes[k].nodes[m] in echoes[k].nodes;
    }
  }

  lemma PairsApart(echoes: seq<StatEcho>)
    ensures AllApart(echoes)
            <==> forall j, k :: 0 <= j < |echoes| && 0 <= k < |echoes| && j != k ==> Apart(echoes[j], echoes[k])
  {}

  /** The list when only one area changed. */
  lemma ReplacedEcho(echoes: seq<StatEcho>, i: nat, s: seq<EchoStat>)
    requires i < |echoes| == |s|
    requires forall k :: 0 <= k < |echoes| ==> echoes[k].Valid()
    requires forall k :: 0 <= k < |echoes| && k != i ==> echoes[k].Value() == s[k]
    ensures AllValid(echoes) && Values(echoes) == s[i := echoes[i].Value()]
  {
    hide LinksOf, IsChain, Values;
    forall e | e in echoes ensures ValidWithin(e, NodesOf(echoes)) {
    }
    assert forall k :: 0 <= k < |echoes| ==> Values(echoes)[k] == s[i := echoes[i].Value()][k];
  }

  class Book {
    var statecho: StatEcho?
    var doStat: bool
    ghost var echoes: seq<StatEcho>

    ghost predicate Valid()
      reads this`statecho, this`echoes, echoes`next, echoes`chain, echoes`nodes, NodesOf(echoes)`next
    {
      IsList(statecho, echoes) && AllValid(echoes) && AllApart(echoes)
    }

    constructor ()
      ensures Valid() && doStat && echoes == [] && Values(echoes) == []
    {
      statecho, doStat, echoes := null, true, [];
    }

    /** The walk to the first area whose tag is not smaller. */
    method FindPlace(ghost ev: Event, tag: seq<Byte>) returns (prev: StatEcho?, cur: StatEcho?, ghost i: nat)
      requires Valid() && ev.tag == tag
      ensures Valid() && Values(echoes) == old(Values(echoes))
      ensures i <= |echoes| && cur == ItemAt(echoes, i)
      ensures prev == if i == 0 then null else echoes[i - 1]
      ensures cur != null ==> Stricmp(tag, cur.tag) <= 0
      ensures var s := Values(echoes); PutStat(s, ev) == s[..i] + PutStat(s[i..], ev)
    {
      hide Stricmp, PutInEcho, PutStat, Values, AllApart;
      prev, cur, i := null, statecho, 0;
      ghost var s := Values(echoes);
      assert s[..0] == [] && s[0..] == s;
      while cur != null && Stricmp(tag, cur.tag) > 0
        invariant i <= |echoes| && cur == ItemAt(echoes, i)
        invariant prev == if i == 0 then null else echoes[i - 1]
        invariant Values(echoes) == s
        invariant PutStat(s, ev) == s[..i] + PutStat(s[i..], ev)
        decreases |echoes| - i
      {
        PutStatWalks(s, i, ev);
        prev := cur;
        cur := cur.next;
        i := i + 1;
      }
    }

    /** Puts an area behind the first `i` areas. */
    method LinkEcho(me: StatEcho, prev: StatEcho?, ghost i: nat)
      requires Valid() && i <= |echoes| && me !in echoes && me.next == ItemAt(echoes, i)
      requires prev == if i == 0 then null else echoes[i - 1]
      requires me.Valid() && me.nodes == []
      modifies this`statecho, this`echoes, (if prev == null then {} else {prev})`next
      ensures Valid() && echoes == Spliced(old(echoes), i, i, me)
      ensures Values(echoes) == Spliced(old(Values(echoes)), i, i, old(me.Value()))
    {
      hide Values, Apart, AllApart, AllValid, NodesOf, IsChain, Spliced, LinksOf;
      assert forall k :: 0 <= k < |echoes| && k != i - 1 ==> echoes[k] != prev;
      hide Distinct;
      ghost var before, after := echoes, Spliced(echoes, i, i, me);
      SplicedBook(before, i, me);
      ghost var values := Values(after);
      echoes := after;
      if prev != null {
        prev.next := me;
      } else {
        statecho := me;
      }
      SplicedList(before, i, me);
      assert Values(after) == values;
    }

    /** A new area without links, behind the first `i` areas. */
    method InsertEcho(tag: seq<Byte>, prev: StatEcho?, cur: StatEcho?, ghost i: nat) returns (me: StatEcho)
      requires Valid() && i <= |echoes| && cur == ItemAt(echoes, i)
      requires prev == if i == 0 then null else echoes[i - 1]
      modifies this`statecho, this`echoes, (if prev == null then {} else {prev})`next
      ensures Valid() && fresh(me) && me.nodes == []
      ensures i < |echoes| && echoes[i] == me
      ensures forall e :: e in echoes ==> e == me || e in old(echoes)
      ensures Values(echoes) == Spliced(old(Values(echoes)), i, i, EchoStat(0, tag, []))
    {
      hide Values, Distinct, Spliced, LinksOf;
      ghost var before, s := echoes, Values(echoes);
      me := new StatEcho(tag, cur);
      assert Values(before) == s;
      LinkEcho(me, prev, i);
      SplicedAt(before, i, i, me);
      SplicedElements(before, i, me);
    }

    /** Counts an event in the area at position `i`. */
    method PutAt(cur: StatEcho, addr: Addr, kind: Kind, len: int, ghost i: nat)
      requires Valid() && i < |echoes| && cur == echoes[i]
      modifies cur`chain, cur`nodes, cur`links, cur.nodes
      ensures Valid() && forall n :: n in cur.nodes ==> n in old(cur.nodes) || fresh(n)
      ensures Values(echoes) == old(Values(echoes))[i := PutInEcho(old(Values(echoes))[i], addr, kind, len)]
    {
      hide PutLink, Wrap16, LinksOf, IsChain, NodesOf, Values, AllValid, AllApart, Distinct, PutInEcho;
      ghost var s := Values(echoes);
      PairsApart(echoes);
      PutIn(cur, addr, kind, len, i);
      ReplacedEcho(echoes, i, s);
      forall j, k | 0 <= j < |echoes| && 0 <= k < |echoes| && j != k ensures Apart(echoes[j], echoes[k]) {
        assert old(Apart(echoes[j], echoes[k]));
      }
      PairsApart(echoes);
    }

    /** The other areas stay as they are. */
    method PutIn(cur: StatEcho, addr: Addr, kind: Kind, len: int, ghost i: nat)
      requires Valid() && i < |echoes| && cur == echoes[i]
      modifies cur`chain, cur`nodes, cur`links, cur.nodes
      ensures cur.Valid() && cur.Value() == PutInEcho(old(cur.Value()), addr, kind, len)
      ensures forall n :: n in cur.nodes ==> n in old(cur.nodes) || fresh(n)
      ensures forall k :: 0 <= k < |echoes| && k != i ==>
                && echoes[k].Valid() && echoes[k].Value() == old(echoes[k].Value())
                && echoes[k].nodes == old(echoes[k].nodes)
    {
      hide PutLink, Wrap16, LinksOf, IsChain, NodesOf, Values, AllValid, AllApart;
      AllValidAt(echoes);
      NodesApart(echoes, i);
      assert forall k :: 0 <= k < |echoes| && k != i ==> echoes[k] != cur;
      hide Distinct;
      cur.Put(addr, kind, len);
      forall k | 0 <= k < |echoes| && k != i
        ensures echoes[k].Valid() && echoes[k].Value() == old(echoes[k].Value())
                && echoes[k].nodes == old(echoes[k].nodes)
      {
        KeepsEcho(echoes[k]);
      }
    }

    /** Counts one event, unless the statistics are switched off. */
    method PutStatistics(tag: seq<Byte>, addr: Addr, kind: Kind, len: int)
      requires Valid()
      modifies this`statecho, this`echoes, echoes, NodesOf(echoes)
      ensures Valid() && doStat == old(doStat)
      ensures forall e :: e in echoes ==> e in old(echoes) || fresh(e)
      ensures forall e, n :: e in echoes && n in e.nodes ==> n in old(NodesOf(echoes)) || fresh(n)
      ensures Values(echoes) == if doStat then PutStat(old(Values(echoes)), Event(tag, addr, kind, len))
                                else old(Values(echoes))
    {
      if doStat {
        PutEvent(tag, addr, kind, len);
      }
    }

    method PutEvent(tag: seq<Byte>, addr: Addr, kind: Kind, len: int)
      requires Valid()
      modifies this`statecho, this`echoes, echoes, NodesOf(echoes)
      ensures Valid()
      ensures forall e :: e in echoes ==> e in old(echoes) || fresh(e)
      ensures forall e, n :: e in echoes && n in e.nodes ==> n in old(NodesOf(echoes)) || fresh(n)
      ensures Values(echoes) == PutStat(old(Values(echoes)), Event(tag, addr, kind, len))
    {
      hide PutStat, PutInEcho, Values, IsList, AllValid, AllApart, Stricmp;
      ghost var ev := Event(tag, addr, kind, len);
      var cur;
      ghost var i;
      ghost var before := echoes;
      cur, i := FindOrInsert(ev, tag);
      assert cur in before ==> cur.nodes == old(cur.nodes);
      assert forall n :: n in cur.nodes ==> n in old(NodesOf(echoes));
      PutAt(cur, addr, kind, len, i);
    }

    /** The area of a tag; a new one without links where there was none. */
    method FindOrInsert(ghost ev: Event, tag: seq<Byte>) returns (cur: StatEcho, ghost i: nat)
      requires Valid() && ev.tag == tag
      modifies this`statecho, this`echoes, echoes`next
      ensures Valid() && i < |echoes| && cur == echoes[i]
      ensures forall e :: e in echoes ==> e in old(echoes) || (fresh(e) && e.nodes == [])
      ensures var t := Values(echoes);
              t[i := PutInEcho(t[i], ev.addr, ev.kind, ev.len)] == PutStat(old(Values(echoes)), ev)
    {
      hide PutStat, PutInEcho, Values, IsList, AllValid, AllApart, Stricmp, Spliced, Distinct, Apart;
      ghost var s := Values(echoes);
      var prev, next;
      prev, next, i := FindPlace(ev, tag);
      if next == null || Stricmp(tag, next.tag) < 0 {
        PutStatInserts(s, i, ev);
        cur := InsertEcho(tag, prev, next, i);
      } else {
        PutStatUpdates(s, i, ev);
        cur := next;
      }
    }
  }

  lemma SplicedElements(echoes: seq<StatEcho>, i: nat, me: StatEcho)
    requires i <= |echoes|
    ensures forall e :: e in Spliced(echoes, i, i, me) ==> e == me || e in echoes
  {}

  /** An area without links can go in anywhere. */
  lemma SplicedBook(echoes: seq<StatEcho>, i: nat, me: StatEcho)
    requires i <= |echoes| && AllValid(echoes) && AllApart(echoes) && Distinct(echoes)
    requires me.Valid() && me.nodes == [] && me !in echoes
    ensures var t := Spliced(echoes, i, i, me);
            && AllValid(t) && AllApart(t) && Distinct(t)
            && Values(t) == Spliced(Values(echoes), i, i, me.Value())
            && |t| == |echoes| + 1 && t[i] == me && (i > 0 ==> t[i - 1] == echoes[i - 1])
            && t[0] == (if i == 0 then me else echoes[0])
  {
    hide Values, AllValid, AllApart, Distinct;
    SplicedValid(echoes, i, me);
    SplicedApart(echoes, i, me);
    SplicedDistinct(echoes, i, i, me);
    SplicedValues(echoes, i, me);
    SplicedAt(echoes, i, i, me);
  }

  lemma SplicedValid(echoes: seq<StatEcho>, i: nat, me: StatEcho)
    requires i <= |echoes| && AllValid(echoes) && me.Valid()
    ensures AllValid(Spliced(echoes, i, i, me))
  {
    hide IsChain;
  }

  lemma SplicedApart(echoes: seq<StatEcho>, i: nat, me: StatEcho)
    requires i <= |echoes| && AllApart(echoes) && me.nodes == []
    ensures AllApart(Spliced(echoes, i, i, me))
  {}

  lemma SplicedList(echoes: seq<StatEcho>, i: nat, me: StatEcho)
    requires i <= |echoes|
    requires forall k {:trigger echoes[k].next} :: 0 <= k < |echoes| && k != i - 1 ==>
               echoes[k].next == ItemAt(echoes, k + 1)
    requires i > 0 ==> echoes[i - 1].next == me
    requires me.next == ItemAt(echoes, i)
    ensures var t := Spliced(echoes, i, i, me);
            forall k {:trigger t[k].next} :: 0 <= k < |t| ==> t[k].next == ItemAt(t, k + 1)
  {
    var t := Spliced(echoes, i, i, me);
    forall k {:trigger t[k].next} | 0 <= k < |t| ensures t[k].next == ItemAt(t, k + 1) {
      if k > i {
        assert echoes[k - 1].next == ItemAt(echoes, k);
      } else if k < i - 1 {
        assert echoes[k].next == ItemAt(echoes, k + 1);
      }
    }
  }

  lemma SplicedValues(echoes: seq<StatEcho>, i: nat, me: StatEcho)
    requires i <= |echoes|
    ensures Values(Spliced(echoes, i, i, me)) == Spliced(Values(echoes), i, i, me.Value())
  {
    hide Values, LinksOf, Spliced;
    var t, r := Spliced(echoes, i, i, me), Spliced(Values(echoes), i, i, me.Value());
    SplicedAt(echoes, i, i, me);
    SplicedAt(Values(echoes), i, i, me.Value());
    assert forall k :: 0 <= k < |t| ==> Values(t)[k] == r[k];
  }

  lemma PutStatInserts(s: seq<EchoStat>, i: nat, ev: Event)
    requires i <= |s| && (i < |s| ==> Stricmp(ev.tag, s[i].tag) < 0)
    requires PutStat(s, ev) == s[..i] + PutStat(s[i..], ev)
    ensures var t := Spliced(s, i, i, EchoStat(0, ev.tag, []));
            i < |t| && PutStat(s, ev) == t[i := PutInEcho(t[i], ev.addr, ev.kind, ev.len)]
  {
    hide Stricmp, PutInEcho;
  }

  lemma PutStatUpdates(s: seq<EchoStat>, i: nat, ev: Event)
    requires i < |s| && Stricmp(ev.tag, s[i].tag) == 0
    requires PutStat(s, ev) == s[..i] + PutStat(s[i..], ev)
    ensures PutStat(s, ev) == s[i := PutInEcho(s[i], ev.addr, ev.kind, ev.len)]
  {
    hide Stricmp, PutInEcho;
    var tail := s[i..];
    assert PutStat(tail, ev) == [PutInEcho(tail[0], ev.addr, ev.kind, ev.len)] + tail[1..];
    hide PutStat;
    assert tail[1..] == s[i + 1..];
  }

  lemma PutStatWalks(s: seq<EchoStat>, i: nat, ev: Event)
    requires i < |s| && Stricmp(ev.tag, s[i].tag) > 0
    ensures s[..i] + PutStat(s[i..], ev) == s[..i + 1] + PutStat(s[i + 1..], ev)
  {
    hide Stricmp, PutInEcho;
    assert s[i..][1..] == s[i + 1..];
    Regroup(s[..i], s[i], PutStat(s[i + 1..], ev));
    assert s[..i + 1] == s[..i] + [s[i]];
  }
}
