/** The linked lists of the statistics, updated and merged in place. */
module StatList {
  import opened StatLinks
  import opened StatEchoes

  class ChainLink {
    var link: LinkStat
    var next: ChainLink?

    constructor (link: LinkStat, next: ChainLink?)
      ensures this.link == link && this.next == next
    {
      this.link, this.next := link, next;
    }
  }

  /** These nodes, in this order, are the list that starts at `head`. */
  ghost predicate IsChain(head: ChainLink?, nodes: seq<ChainLink>)
    reads nodes`next
  {
    && head == NodeAt(nodes, 0)
    && (forall i {:trigger nodes[i].next} :: 0 <= i < |nodes| ==> nodes[i].next == NodeAt(nodes, i + 1))
    && Distinct(nodes)
  }

  ghost predicate Distinct<T>(s: seq<T>) {
    forall i, j :: 0 <= i < j < |s| ==> s[i] != s[j]
  }

  ghost function NodeAt(nodes: seq<ChainLink>, i: nat): ChainLink? {
    if i < |nodes| then nodes[i] else null
  }

  /** The sequence with one element in the place of those from `p` up to `q`. */
  ghost function Spliced<T>(s: seq<T>, p: nat, q: nat, x: T): (r: seq<T>)
    requires p <= q <= |s|
    ensures |r| == |s| + 1 - (q - p)
    ensures forall k :: 0 <= k < |r| ==> r[k] == if k < p then s[k] else if k == p then x else s[k - 1 + (q - p)]
    ensures forall y :: y in r ==> y in s || y == x
  {
    s[..p] + [x] + s[q..]
  }

  lemma SplicedAt<T>(s: seq<T>, p: nat, q: nat, x: T)
    requires p <= q <= |s|
    ensures var t := Spliced(s, p, q, x);
            && |t| == |s| + 1 - (q - p)
            && forall k {:trigger t[k]} :: 0 <= k < |t| ==>
                 t[k] == if k < p then s[k] else if k == p then x else s[k - 1 + (q - p)]
  {}

  lemma SplicedDistinct<T>(s: seq<T>, p: nat, q: nat, x: T)
    requires p <= q <= |s| && Distinct(s) && x !in s
    ensures Distinct(Spliced(s, p, q, x))
  {}

  ghost function LinksOf(nodes: seq<ChainLink>): (s: seq<LinkStat>)
    reads nodes`link
    ensures |s| == |nodes|
    ensures forall i :: 0 <= i < |s| ==> s[i] == nodes[i].link
  {
    if nodes == [] then [] else [nodes[0].link] + LinksOf(nodes[1..])
  }

  lemma SplicedLinks(nodes: seq<ChainLink>, p: nat, q: nat, me: ChainLink)
    requires p <= q <= |nodes|
    ensures LinksOf(Spliced(nodes, p, q, me)) == Spliced(LinksOf(nodes), p, q, me.link)
  {
    hide LinksOf, Spliced;
    var t, r := Spliced(nodes, p, q, me), Spliced(LinksOf(nodes), p, q, me.link);
    SplicedAt(nodes, p, q, me);
    SplicedAt(LinksOf(nodes), p, q, me.link);
    assert forall k :: 0 <= k < |t| ==> LinksOf(t)[k] == r[k];
  }

  /** The successors are right again once the node before the gap points to the new one. */
  lemma SplicedChain(nodes: seq<ChainLink>, p: nat, q: nat, me: ChainLink)
    requires p <= q <= |nodes|
    requires forall k {:trigger nodes[k].next} :: 0 <= k < |nodes| && k != p - 1 ==>
               nodes[k].next == NodeAt(nodes, k + 1)
    requires p > 0 ==> nodes[p - 1].next == me
    requires me.next == NodeAt(nodes, q)
    ensures var t := Spliced(nodes, p, q, me);
            forall k {:trigger t[k].next} :: 0 <= k < |t| ==> t[k].next == NodeAt(t, k + 1)
  {
    var t := Spliced(nodes, p, q, me);
    forall k {:trigger t[k].next} | 0 <= k < |t| ensures t[k].next == NodeAt(t, k + 1) {
      if k > p {
        var i := k - 1 + (q - p);
        assert nodes[i].next == NodeAt(nodes, i + 1);
      } else if k < p - 1 {
        assert nodes[k].next == NodeAt(nodes, k + 1);
      }
    }
  }

  class StatEcho {
    var next: StatEcho?
    var links: Int16
    var tag: seq<Byte>
    var chain: ChainLink?
    ghost var nodes: seq<ChainLink>

    ghost predicate Valid()
      reads this`chain, this`nodes, nodes`next
    {
      IsChain(chain, nodes)
    }

    ghost function Value(): EchoStat
      reads this`links, this`tag, this`nodes, nodes`link
    {
      EchoStat(links, tag, LinksOf(nodes))
    }

    constructor (tag: seq<Byte>, next: StatEcho?)
      ensures Valid() && Value() == EchoStat(0, tag, []) && nodes == []
      ensures this.next == next
    {
      this.tag, this.next := tag, next;
      links, chain, nodes := 0, null, [];
    }

    /** Makes a node the successor of the one before position `p`. Its own successor is the node at
        position `q`, so what lay between falls out of the list. */
    method Link(me: ChainLink, prevl: ChainLink?, ghost p: nat, ghost q: nat)
      requires Valid() && p <= q <= |nodes| && me !in nodes
      requires prevl == if p == 0 then null else nodes[p - 1]
      requires me.next == NodeAt(nodes, q)
      modifies this`chain, this`nodes, (if prevl == null then {} else {prevl})`next
      ensures Valid() && |nodes| == |old(nodes)| + 1 - (q - p) && nodes[p] == me
      ensures p > 0 ==> nodes[p - 1] == prevl
      ensures forall n :: n in nodes ==> n in old(nodes) || n == me
      ensures LinksOf(nodes) == Spliced(old(LinksOf(nodes)), p, q, me.link)
    {
      hide LinksOf;
      ghost var before, s := nodes, LinksOf(nodes);
      SplicedDistinct(nodes, p, q, me);
      assert forall k :: 0 <= k < |nodes| && k != p - 1 ==> nodes[k] != prevl;
      hide Distinct;
      if prevl != null {
        prevl.next := me;
      } else {
        chain := me;
      }
      SplicedChain(before, p, q, me);
      assert LinksOf(before) == s;
      SplicedLinks(before, p, q, me);
      nodes := Spliced(nodes, p, q, me);
    }

    method Insert(me: ChainLink, prevl: ChainLink?, ghost p: nat, ghost q: nat)
      requires Valid() && p <= q <= |nodes| && me !in nodes
      requires prevl == if p == 0 then null else nodes[p - 1]
      requires me.next == NodeAt(nodes, q)
      modifies this`chain, this`nodes, this`links, (if prevl == null then {} else {prevl})`next
      ensures Valid() && |nodes| == |old(nodes)| + 1 - (q - p) && nodes[p] == me
      ensures p > 0 ==> nodes[p - 1] == prevl
      ensures forall n :: n in nodes ==> n in old(nodes) || n == me
      ensures LinksOf(nodes) == Spliced(old(LinksOf(nodes)), p, q, me.link)
      ensures links == Wrap16(old(links) + 1)
    {
      hide Wrap16, LinksOf, Spliced, IsChain;
      Link(me, prevl, p, q);
      links := Wrap16(links + 1);
    }

    /** A new node without counts, behind the first `i` nodes. */
    method InsertNew(addr: Addr, prevl: ChainLink?, curl: ChainLink?, ghost i: nat) returns (me: ChainLink)
      requires Valid() && i <= |nodes| && curl == NodeAt(nodes, i)
      requires prevl == if i == 0 then null else nodes[i - 1]
      modifies this`chain, this`nodes, this`links, (if prevl == null then {} else {prevl})`next
      ensures Valid() && fresh(me) && |nodes| == |old(nodes)| + 1 && nodes[i] == me
      ensures me.link == LinkStat(addr, ZERO) && links == Wrap16(old(links) + 1)
      ensures forall n :: n in nodes ==> n in old(nodes) || n == me
      ensures LinksOf(nodes) == Spliced(old(LinksOf(nodes)), i, i, me.link)
    {
      hide Wrap16, LinksOf, Spliced, Distinct;
      ghost var before, s := nodes, LinksOf(nodes);
      me := new ChainLink(LinkStat(addr, ZERO), curl);
      assert LinksOf(before) == s;
      Insert(me, prevl, i, i);
    }

    /** Overwrites the counters in the node at position `i`. */
    method SetCount(curl: ChainLink, count: Counters, ghost i: nat)
      requires Valid() && i < |nodes| && curl == nodes[i]
      modifies curl`link
      ensures Valid()
      ensures LinksOf(nodes) == old(LinksOf(nodes))[i := old(curl.link).(count := count)]
    {
      curl.link := curl.link.(count := count);
    }

    /** The walk to the first node whose address is not smaller. */
    method FindPlace(addr: Addr, kind: Kind, len: int) returns (prevl: ChainLink?, curl: ChainLink?, ghost i: nat)
      requires Valid()
      ensures i <= |nodes| && curl == NodeAt(nodes, i)
      ensures prevl == if i == 0 then null else nodes[i - 1]
      ensures curl != null ==> Acmp(addr, curl.link.addr) <= 0
      ensures var s := LinksOf(nodes);
              PutLink(s, addr, kind, len) == s[..i] + PutLink(s[i..], addr, kind, len)
    {
      hide Bump, Acmp;
      prevl, curl, i := null, chain, 0;
      ghost var s := LinksOf(nodes);
      assert s[..0] + PutLink(s[0..], addr, kind, len) == PutLink(s, addr, kind, len);
      while curl != null && Acmp(addr, curl.link.addr) > 0
        invariant i <= |nodes| && curl == NodeAt(nodes, i)
        invariant prevl == if i == 0 then null else nodes[i - 1]
        invariant PutLink(s, addr, kind, len) == s[..i] + PutLink(s[i..], addr, kind, len)
        decreases |nodes| - i
      {
        PutLinkWalks(s, i, addr, kind, len);
        prevl := curl;
        curl := curl.next;
        i := i + 1;
      }
    }

    /** The walk to the place of an address, the insertion and the update. */
    method Put(addr: Addr, kind: Kind, len: int)
      requires Valid()
      modifies this`chain, this`nodes, this`links, nodes
      ensures Valid()
      ensures LinksOf(nodes) == PutLink(old(LinksOf(nodes)), addr, kind, len)
      ensures links == Wrap16(old(links) + |nodes| - |old(nodes)|)
      ensures forall n :: n in nodes ==> n in old(nodes) || fresh(n)
    {
      hide Bump, Acmp, PutLink, Wrap16, LinksOf, Spliced, IsChain;
      ghost var s := LinksOf(nodes);
      Wrap16Fits(links);
      var prevl, curl;
      ghost var i;
      prevl, curl, i := FindPlace(addr, kind, len);
      if curl == null || Acmp(addr, curl.link.addr) < 0 {
        PutLinkInserts(s, i, addr, kind, len);
        curl := InsertNew(addr, prevl, curl, i);
      } else {
        PutLinkUpdates(s, i, addr, kind, len);
      }
      SetCount(curl, Bump(curl.link.count, kind, len), i);
    }

    /** The invariant of the merge loop. The old chain is read up to position `j`; `newl` is the
        node at position `q`; `prevl` is the last node before it that came from the new chain. */
    ghost predicate Merging(old_: StatEcho, news: seq<LinkStat>, olds: seq<LinkStat>, total: int,
                            prevl: ChainLink?, newl: ChainLink?, oldl: ChainLink?, p: nat, q: nat, j: nat)
      reads this, nodes, old_, old_.nodes
    {
      && Valid() && old_ != this && old_.Valid() && LinksOf(old_.nodes) == olds
      && (forall n :: n in old_.nodes ==> n !in nodes)
      && p <= q <= p + 1 && q <= |nodes| && j <= |olds|
      && prevl == (if p == 0 then null else nodes[p - 1])
      && newl == NodeAt(nodes, q)
      && oldl == NodeAt(old_.nodes, j)
      && MergedAsWritten(news, olds) == MergeState(LinksOf(nodes), p, q, olds[j..])
      && Wrap16(total) == Wrap16(links + |Merged(LinksOf(nodes)[q..], olds[j..])| - |nodes[q..]|)
    }

    /** An old link that goes before `newl` becomes the successor of `prevl`. */
    method InsertOld(old_: StatEcho, ghost news: seq<LinkStat>, ghost olds: seq<LinkStat>, ghost total: int,
                     prevl: ChainLink?, newl: ChainLink?, oldl: ChainLink, ghost p: nat, ghost q: nat, ghost j: nat)
      requires Merging(old_, news, olds, total, prevl, newl, oldl, p, q, j)
      requires newl == null || Acmp(oldl.link.addr, newl.link.addr) < 0
      modifies this`chain, this`nodes, this`links, (if prevl == null then {} else {prevl})`next
      ensures Merging(old_, news, olds, total, prevl, newl, oldl.next, p, p + 1, j + 1)
      ensures forall n :: n in nodes ==> n in old(nodes) || fresh(n)
      ensures |nodes| - (p + 1) == |old(nodes)| - q
    {
      hide MergedAsWritten, Merged, MergeState, Acmp, Wrap16, LinksOf, Spliced, Distinct;
      ghost var s := LinksOf(nodes);
      StateInserts(s, p, q, olds, j);
      Wrap16Adds(links + 1, |Merged(s[q..], olds[j..])| - 1 - |nodes[q..]|);
      assert prevl != null ==> prevl in nodes && prevl !in old_.nodes;
      var me := new ChainLink(oldl.link, newl);
      Insert(me, prevl, p, q);
    }

    /** An old link with the address of `newl` is added to it. */
    method CombineOld(old_: StatEcho, ghost news: seq<LinkStat>, ghost olds: seq<LinkStat>, ghost total: int,
                      prevl: ChainLink?, newl: ChainLink, oldl: ChainLink, ghost p: nat, ghost q: nat, ghost j: nat)
      requires Merging(old_, news, olds, total, prevl, newl, oldl, p, q, j)
      requires Acmp(oldl.link.addr, newl.link.addr) == 0
      modifies newl`link
      ensures Merging(old_, news, olds, total, newl, newl.next, oldl.next, q + 1, q + 1, j + 1)
    {
      hide MergedAsWritten, Merged, MergeState, Acmp, Plus, Wrap16, LinksOf, Distinct;
      StateCombines(LinksOf(nodes), p, q, olds, j);
      assert newl in nodes && newl !in old_.nodes;
      SetCount(newl, Plus(newl.link.count, oldl.link.count), q);
    }

    lemma Advances(old_: StatEcho, news: seq<LinkStat>, olds: seq<LinkStat>, total: int,
                   prevl: ChainLink?, newl: ChainLink, oldl: ChainLink, p: nat, q: nat, j: nat)
      requires Merging(old_, news, olds, total, prevl, newl, oldl, p, q, j)
      requires Acmp(oldl.link.addr, newl.link.addr) > 0
      ensures Merging(old_, news, olds, total, newl, newl.next, oldl, q + 1, q + 1, j)
    {
      hide MergedAsWritten, Merged, MergeState, Acmp, Wrap16, LinksOf, Distinct;
      StateAdvances(LinksOf(nodes), p, q, olds, j);
    }

    /** The merge of the chain of an old record, as the program does it: the predecessor moves on
        only past nodes of the new chain, not past nodes just inserted. */
    method Merge(old_: StatEcho)
      requires Valid() && old_.Valid() && old_ != this
      requires forall n :: n in old_.nodes ==> n !in nodes
      modifies this`chain, this`nodes, this`links, nodes
      ensures Valid()
      ensures LinksOf(nodes) == MergedAsWritten(old(LinksOf(nodes)), old(LinksOf(old_.nodes)))
      ensures links == Wrap16(old(links) + |Merged(old(LinksOf(nodes)), old(LinksOf(old_.nodes)))| - |old(nodes)|)
      ensures forall n :: n in nodes ==> n in old(nodes) || fresh(n)
    {
      hide MergedAsWritten, Merged, Acmp, Wrap16, LinksOf, Merging, IsChain;
      ghost var news, olds := LinksOf(nodes), LinksOf(old_.nodes);
      ghost var total := links + |Merged(news, olds)| - |nodes|;
      var prevl: ChainLink? := null;
      var newl, oldl := chain, old_.chain;
      ghost var p, q, j := 0, 0, 0;
      MergingStarts(old_);
      while oldl != null
        invariant Merging(old_, news, olds, total, prevl, newl, oldl, p, q, j)
        invariant forall n :: n in nodes ==> n in old(nodes) || fresh(n)
        decreases |olds| - j + |nodes| - q
      {
        MergingNodes(old_, news, olds, total, prevl, newl, oldl, p, q, j);
        var res := if newl != null then Acmp(oldl.link.addr, newl.link.addr) else -1;
        if res < 0 {
          InsertOld(old_, news, olds, total, prevl, newl, oldl, p, q, j);
          q := p + 1;
          oldl, j := oldl.next, j + 1;
        } else if res == 0 {
          CombineOld(old_, news, olds, total, prevl, newl, oldl, p, q, j);
          oldl, j := oldl.next, j + 1;
          prevl, newl := newl, newl.next;
          p, q := q + 1, q + 1;
        } else {
          Advances(old_, news, olds, total, prevl, newl, oldl, p, q, j);
          prevl, newl := newl, newl.next;
          p, q := q + 1, q + 1;
        }
      }
      MergingEnds(old_, news, olds, total, prevl, newl, p, q, j);
    }

    lemma MergingStarts(old_: StatEcho)
      requires Valid() && old_.Valid() && old_ != this
      requires forall n :: n in old_.nodes ==> n !in nodes
      ensures var news, olds := LinksOf(nodes), LinksOf(old_.nodes);
              Merging(old_, news, olds, links + |Merged(news, olds)| - |nodes|, null, chain, old_.chain, 0, 0, 0)
    {
      hide MergedAsWritten, Merged, MergeState, Wrap16, LinksOf, Distinct;
      StateStarts(LinksOf(nodes), LinksOf(old_.nodes));
    }

    lemma MergingNodes(old_: StatEcho, news: seq<LinkStat>, olds: seq<LinkStat>, total: int,
                       prevl: ChainLink?, newl: ChainLink?, oldl: ChainLink?, p: nat, q: nat, j: nat)
      requires Merging(old_, news, olds, total, prevl, newl, oldl, p, q, j)
      ensures prevl != null ==> prevl in nodes
      ensures newl != null ==> newl in nodes && q < |nodes|
      ensures oldl != null ==> j < |olds|
      ensures q <= |nodes| && j <= |olds|
    {
      hide MergedAsWritten, Merged, MergeState, Wrap16, LinksOf, Distinct;
    }

    lemma MergingEnds(old_: StatEcho, news: seq<LinkStat>, olds: seq<LinkStat>, total: int,
                      prevl: ChainLink?, newl: ChainLink?, p: nat, q: nat, j: nat)
      requires Merging(old_, news, olds, total, prevl, newl, null, p, q, j)
      ensures Valid() && LinksOf(nodes) == MergedAsWritten(news, olds) && links == Wrap16(total)
    {
      hide MergedAsWritten, Merged, MergeState, Wrap16, LinksOf, Distinct;
      assert olds[j..] == [];
      StateEnds(LinksOf(nodes), p, q);
      Wrap16Fits(links);
    }
  }

  /** What the loop will have made of the list once the remaining old links are merged, when a node
      inserted at position `p` is still to be overwritten (`q == p + 1`) or not (`q == p`). */
  ghost function MergeState(s: seq<LinkStat>, p: nat, q: nat, olds: seq<LinkStat>): seq<LinkStat>
    requires p <= q <= |s|
  {
    if p < q && olds != [] && Precedes(olds[0], s[q..]) then s[..p] + MergedAsWritten(s[q..], olds)
    else s[..q] + MergedAsWritten(s[q..], olds)
  }

  lemma PutLinkWalks(s: seq<LinkStat>, i: nat, addr: Addr, kind: Kind, len: int)
    requires i < |s| && Acmp(addr, s[i].addr) > 0
    ensures s[..i] + PutLink(s[i..], addr, kind, len) == s[..i + 1] + PutLink(s[i + 1..], addr, kind, len)
  {
    hide Bump, Acmp;
    assert s[i..][1..] == s[i + 1..];
  }

  lemma PutLinkInserts(s: seq<LinkStat>, i: nat, addr: Addr, kind: Kind, len: int)
    requires i <= |s| && (i < |s| ==> Acmp(addr, s[i].addr) < 0)
    requires PutLink(s, addr, kind, len) == s[..i] + PutLink(s[i..], addr, kind, len)
    ensures PutLink(s, addr, kind, len)
            == Spliced(s, i, i, LinkStat(addr, ZERO))[i := LinkStat(addr, Bump(ZERO, kind, len))]
  {
    hide Bump, Acmp;
  }

  lemma PutLinkUpdates(s: seq<LinkStat>, i: nat, addr: Addr, kind: Kind, len: int)
    requires i < |s| && Acmp(addr, s[i].addr) == 0
    requires PutLink(s, addr, kind, len) == s[..i] + PutLink(s[i..], addr, kind, len)
    ensures PutLink(s, addr, kind, len) == s[i := s[i].(count := Bump(s[i].count, kind, len))]
  {
    hide Bump, Acmp;
    assert s[i..][1..] == s[i + 1..];
  }

  lemma StateStarts(news: seq<LinkStat>, olds: seq<LinkStat>)
    ensures MergeState(news, 0, 0, olds[0..]) == MergedAsWritten(news, olds)
  {
    hide MergedAsWritten;
    assert news[0..] == news && olds[0..] == olds;
  }

  lemma StateEnds(s: seq<LinkStat>, p: nat, q: nat)
    requires p <= q <= |s|
    ensures MergeState(s, p, q, []) == s && Merged(s[q..], []) == s[q..]
  {}

  lemma StateInserts(s: seq<LinkStat>, p: nat, q: nat, olds: seq<LinkStat>, j: nat)
    requires p <= q <= |s| && j < |olds| && Precedes(olds[j], s[q..])
    ensures MergeState(s, p, q, olds[j..]) == MergeState(Spliced(s, p, q, olds[j]), p, p + 1, olds[j + 1..])
    ensures |Merged(s[q..], olds[j..])| == 1 + |Merged(Spliced(s, p, q, olds[j])[p + 1..], olds[j + 1..])|
  {
    MergesInsert(s[q..], olds[j..]);
    assert olds[j..][1..] == olds[j + 1..];
    hide Acmp, MergedAsWritten, Merged;
    SplicedParts(s, p, q, olds[j]);
    Regroup(s[..p], olds[j], MergedAsWritten(s[q..], olds[j + 1..]));
  }

  lemma MergesInsert(news: seq<LinkStat>, olds: seq<LinkStat>)
    requires olds != [] && Precedes(olds[0], news)
    ensures MergedAsWritten(news, olds)
            == if |olds| > 1 && Precedes(olds[1], news) then MergedAsWritten(news, olds[1..])
               else [olds[0]] + MergedAsWritten(news, olds[1..])
    ensures Merged(news, olds) == [olds[0]] + Merged(news, olds[1..])
  {}

  lemma SplicedParts<T>(s: seq<T>, p: nat, q: nat, x: T)
    requires p <= q <= |s|
    ensures var t := Spliced(s, p, q, x);
            t[p + 1..] == s[q..] && t[..p] == s[..p] && t[..p + 1] == s[..p] + [x]
  {}

  lemma Regroup<T>(a: seq<T>, x: T, b: seq<T>)
    ensures a + ([x] + b) == a + [x] + b
  {}

  lemma StateCombines(s: seq<LinkStat>, p: nat, q: nat, olds: seq<LinkStat>, j: nat)
    requires p <= q < |s| && j < |olds| && Acmp(olds[j].addr, s[q].addr) == 0
    ensures var t := s[q := Combined(s[q], olds[j])];
            && MergeState(s, p, q, olds[j..]) == MergeState(t, q + 1, q + 1, olds[j + 1..])
            && |Merged(s[q..], olds[j..])| == 1 + |Merged(t[q + 1..], olds[j + 1..])|
  {
    MergesCombine(s[q..], olds[j..]);
    assert olds[j..][1..] == olds[j + 1..] && s[q..][1..] == s[q + 1..];
    hide Acmp, Plus, MergedAsWritten, Merged;
    var t := s[q := Combined(s[q], olds[j])];
    assert t[q + 1..] == s[q + 1..] && t[..q + 1] == s[..q] + [t[q]];
    Regroup(s[..q], t[q], MergedAsWritten(s[q + 1..], olds[j + 1..]));
  }

  lemma MergesCombine(news: seq<LinkStat>, olds: seq<LinkStat>)
    requires olds != [] && news != [] && Acmp(olds[0].addr, news[0].addr) == 0
    ensures MergedAsWritten(news, olds) == [Combined(news[0], olds[0])] + MergedAsWritten(news[1..], olds[1..])
    ensures Merged(news, olds) == [Combined(news[0], olds[0])] + Merged(news[1..], olds[1..])
  {}

  lemma StateAdvances(s: seq<LinkStat>, p: nat, q: nat, olds: seq<LinkStat>, j: nat)
    requires p <= q < |s| && j < |olds| && Acmp(olds[j].addr, s[q].addr) > 0
    ensures MergeState(s, p, q, olds[j..]) == MergeState(s, q + 1, q + 1, olds[j..])
    ensures |Merged(s[q..], olds[j..])| == 1 + |Merged(s[q + 1..], olds[j..])|
  {
    MergesAdvance(s[q..], olds[j..]);
    assert s[q..][1..] == s[q + 1..];
    hide Acmp, MergedAsWritten, Merged;
    assert s[..q + 1] == s[..q] + [s[q]];
    Regroup(s[..q], s[q], MergedAsWritten(s[q + 1..], olds[j..]));
  }

  lemma MergesAdvance(news: seq<LinkStat>, olds: seq<LinkStat>)
    requires olds != [] && news != [] && Acmp(olds[0].addr, news[0].addr) > 0
    ensures MergedAsWritten(news, olds) == [news[0]] + MergedAsWritten(news[1..], olds)
    ensures Merged(news, olds) == [news[0]] + Merged(news[1..], olds)
  {}
}
