/** The statistics of one echo area as values: counters of links in a chain sorted by address. */
module StatLinks {
  import opened Wrappers

  type Byte = c: char | c as int < 256 witness 'a'
  type Int16 = x: int | -0x8000 <= x < 0x8000
  type Int32 = x: int | -0x8000_0000 <= x < 0x8000_0000

  /** Two's complement wrap-around of the record fields. */
  function Wrap16(x: int): Int16 {
    (x + 0x8000) % 0x1_0000 - 0x8000
  }

  function Wrap32(x: int): Int32 {
    (x + 0x8000_0000) % 0x1_0000_0000 - 0x8000_0000
  }

  lemma Wrap16Fits(x: int)
    requires -0x8000 <= x < 0x8000
    ensures Wrap16(x) == x
  {}

  lemma Wrap32Fits(x: Int32)
    ensures Wrap32(x) == x
  {}

  lemma Wrap16Adds(x: int, d: int)
    ensures Wrap16(Wrap16(x) + d) == Wrap16(x + d)
  {}

  lemma Wrap32Adds(x: int, y: int)
    ensures Wrap32(Wrap32(x) + y) == Wrap32(x + y)
  {}

  datatype Addr = Addr(zone: Int16, net: Int16, node: Int16, point: Int16)

  function Acmp(a: Addr, b: Addr): int {
    if a.zone != b.zone then (if a.zone < b.zone then -1 else 1)
    else if a.net != b.net then (if a.net < b.net then -1 else 1)
    else if a.node != b.node then (if a.node < b.node then -1 else 1)
    else if a.point != b.point then (if a.point < b.point then -1 else 1)
    else 0
  }

  datatype Counters = Counters(received: Int32, sent: Int32, dupes: Int32, bad: Int32,
                               receivedBytes: Int32, sentBytes: Int32)

  /** An address as one number, its zone in the highest digit to base 2^16. */
  function Key(a: Addr): int {
    ((a.zone * 0x1_0000 + a.net) * 0x1_0000 + a.node) * 0x1_0000 + a.point
  }

  /** Addresses are compared as these numbers are. */
  lemma AcmpExactly(a: Addr, b: Addr)
    ensures Acmp(a, b) < 0 <==> Key(a) < Key(b)
    ensures Acmp(a, b) == 0 <==> a == b
    ensures a == b <==> Key(a) == Key(b)
  {}

  const ZERO := Counters(0, 0, 0, 0, 0, 0)

  datatype LinkStat = LinkStat(addr: Addr, count: Counters)

  datatype Kind = Norm | Bad | Dupe | Out

  function Bump(c: Counters, kind: Kind, len: int): Counters {
    match kind
    case Norm => c.(received := Wrap32(c.received + 1), receivedBytes := Wrap32(c.receivedBytes + len))
    case Bad => c.(bad := Wrap32(c.bad + 1))
    case Dupe => c.(dupes := Wrap32(c.dupes + 1))
    case Out => c.(sent := Wrap32(c.sent + 1), sentBytes := Wrap32(c.sentBytes + len))
  }

  function Plus(c: Counters, d: Counters): Counters {
    Counters(Wrap32(c.received + d.received), Wrap32(c.sent + d.sent), Wrap32(c.dupes + d.dupes),
             Wrap32(c.bad + d.bad), Wrap32(c.receivedBytes + d.receivedBytes),
             Wrap32(c.sentBytes + d.sentBytes))
  }

  /* ---- Chains of links ---- */

  predicate SortedChain(s: seq<LinkStat>) {
    forall i, j :: 0 <= i < j < |s| ==> Acmp(s[i].addr, s[j].addr) < 0
  }

  predicate Rising(s: seq<LinkStat>) {
    forall i, j :: 0 <= i < j < |s| ==> Key(s[i].addr) < Key(s[j].addr)
  }

  lemma SortedRises(s: seq<LinkStat>)
    ensures SortedChain(s) <==> Rising(s)
  {
    hide Acmp, Key;
    forall i, j | 0 <= i < j < |s| ensures Acmp(s[i].addr, s[j].addr) < 0 <==> Key(s[i].addr) < Key(s[j].addr) {
      AcmpExactly(s[i].addr, s[j].addr);
    }
  }

  predicate StartsAfter(s: seq<LinkStat>, addr: Addr) {
    s != [] ==> Acmp(addr, s[0].addr) < 0
  }

  lemma HeadSorted(l: LinkStat, s: seq<LinkStat>)
    requires SortedChain(s) && StartsAfter(s, l.addr)
    ensures SortedChain([l] + s)
  {}

  function FindLink(s: seq<LinkStat>, addr: Addr): Option<Counters> {
    if s == [] then None
    else if s[0].addr == addr then Some(s[0].count)
    else FindLink(s[1..], addr)
  }

  function CountOf(found: Option<Counters>): Counters {
    match found case Some(c) => c case None => ZERO
  }

  /** The chain after one event: the walk to the place of the address, an insertion if it is not
      there, and the update. */
  function PutLink(s: seq<LinkStat>, addr: Addr, kind: Kind, len: int): seq<LinkStat> {
    if s == [] || Acmp(addr, s[0].addr) < 0 then [LinkStat(addr, Bump(ZERO, kind, len))] + s
    else if Acmp(addr, s[0].addr) == 0 then [s[0].(count := Bump(s[0].count, kind, len))] + s[1..]
    else [s[0]] + PutLink(s[1..], addr, kind, len)
  }

  lemma {:induction false} PutLinkSorted(s: seq<LinkStat>, addr: Addr, kind: Kind, len: int)
    requires SortedChain(s)
    ensures SortedChain(PutLink(s, addr, kind, len))
    ensures forall b :: StartsAfter(s, b) && Acmp(b, addr) < 0 ==> StartsAfter(PutLink(s, addr, kind, len), b)
  {
    if s == [] || Acmp(addr, s[0].addr) < 0 {
      HeadSorted(LinkStat(addr, Bump(ZERO, kind, len)), s);
    } else if Acmp(addr, s[0].addr) > 0 {
      PutLinkSorted(s[1..], addr, kind, len);
      HeadSorted(s[0], PutLink(s[1..], addr, kind, len));
    }
  }

  /** One event adds to the counters of its own address and to no others. */
  lemma {:induction false} PutLinkFinds(s: seq<LinkStat>, addr: Addr, kind: Kind, len: int, a: Addr)
    requires SortedChain(s)
    ensures FindLink(PutLink(s, addr, kind, len), a)
            == if a == addr then Some(Bump(CountOf(FindLink(s, addr)), kind, len)) else FindLink(s, a)
  {
    if s == [] || Acmp(addr, s[0].addr) < 0 {
      AbsentBefore(s, addr);
    } else if Acmp(addr, s[0].addr) > 0 {
      PutLinkFinds(s[1..], addr, kind, len, a);
    }
  }

  lemma {:induction false} AbsentBefore(s: seq<LinkStat>, addr: Addr)
    requires SortedChain(s)
    requires s != [] ==> Acmp(addr, s[0].addr) < 0
    ensures FindLink(s, addr) == None
  {
    if s == [] {
    } else {
      AbsentBefore(s[1..], addr);
    }
  }

  /** Sorted chains with the same counters for every address are the same chain. */
  lemma {:induction false} SameCountsSameChain(s: seq<LinkStat>, t: seq<LinkStat>)
    requires SortedChain(s) && SortedChain(t)
    requires forall a :: FindLink(s, a) == FindLink(t, a)
    ensures s == t
  {
    if s != [] {
      var c, d := FindLink(s, s[0].addr), FindLink(t, s[0].addr);
    }
    if t != [] {
      var c, d := FindLink(s, t[0].addr), FindLink(t, t[0].addr);
    }
    if s != [] && t != [] {
      if Acmp(s[0].addr, t[0].addr) < 0 {
        AbsentBefore(t, s[0].addr);
      } else if Acmp(t[0].addr, s[0].addr) < 0 {
        AbsentBefore(s, t[0].addr);
      }
      forall a ensures FindLink(s[1..], a) == FindLink(t[1..], a) {
        var c, d := FindLink(s, a), FindLink(t, a);
        if a == s[0].addr {
          AbsentBefore(s[1..], a);
          AbsentBefore(t[1..], a);
        }
      }
      SameCountsSameChain(s[1..], t[1..]);
      assert s == [s[0]] + s[1..] && t == [t[0]] + t[1..];
    }
  }

  /* ---- Merging the chain of an old record into a new one ---- */

  function Combined(new_: LinkStat, old_: LinkStat): LinkStat {
    new_.(count := Plus(new_.count, old_.count))
  }

  /** An old link belongs before the first of these new links. */
  predicate Precedes(old_: LinkStat, news: seq<LinkStat>) {
    news == [] || Acmp(old_.addr, news[0].addr) < 0
  }

  /** What the merge is meant to produce, and does produce when every inserted link becomes the
      predecessor of the next one. */
  function Merged(news: seq<LinkStat>, olds: seq<LinkStat>): seq<LinkStat>
    decreases |news| + |olds|
  {
    if olds == [] then news
    else if Precedes(olds[0], news) then [olds[0]] + Merged(news, olds[1..])
    else if Acmp(olds[0].addr, news[0].addr) == 0 then
      [Combined(news[0], olds[0])] + Merged(news[1..], olds[1..])
    else [news[0]] + Merged(news[1..], olds)
  }

  /** What the loop as written produces: the predecessor stays where it is after an insertion, so
      a second old link inserted at the same place overwrites the first. */
  function MergedAsWritten(news: seq<LinkStat>, olds: seq<LinkStat>): seq<LinkStat>
    decreases |news| + |olds|
  {
    if olds == [] then news
    else if Precedes(olds[0], news) then
      if |olds| > 1 && Precedes(olds[1], news) then MergedAsWritten(news, olds[1..])
      else [olds[0]] + MergedAsWritten(news, olds[1..])
    else if Acmp(olds[0].addr, news[0].addr) == 0 then
      [Combined(news[0], olds[0])] + MergedAsWritten(news[1..], olds[1..])
    else [news[0]] + MergedAsWritten(news[1..], olds)
  }

  function Added(new_: Option<Counters>, old_: Option<Counters>): Option<Counters> {
    match (new_, old_)
    case (Some(c), Some(d)) => Some(Plus(c, d))
    case (Some(c), None) => Some(c)
    case (None, _) => old_
  }

  /** The intended theorem: order is kept, and every address has the sum of its counters. */
  lemma {:induction false} MergedConserves(news: seq<LinkStat>, olds: seq<LinkStat>, a: Addr)
    requires SortedChain(news) && SortedChain(olds)
    ensures FindLink(Merged(news, olds), a) == Added(FindLink(news, a), FindLink(olds, a))
    decreases |news| + |olds|
  {
    if olds == [] {
    } else if Precedes(olds[0], news) {
      MergedConserves(news, olds[1..], a);
      AbsentBefore(news, olds[0].addr);
    } else if Acmp(olds[0].addr, news[0].addr) == 0 {
      MergedConserves(news[1..], olds[1..], a);
    } else {
      MergedConserves(news[1..], olds, a);
      AbsentBefore(olds, news[0].addr);
    }
  }

  lemma {:induction false} MergedSorted(news: seq<LinkStat>, olds: seq<LinkStat>)
    requires SortedChain(news) && SortedChain(olds)
    ensures SortedChain(Merged(news, olds))
    ensures forall b :: StartsAfter(news, b) && StartsAfter(olds, b) ==> StartsAfter(Merged(news, olds), b)
    decreases |news| + |olds|
  {
    if olds == [] {
    } else if Precedes(olds[0], news) {
      MergedSorted(news, olds[1..]);
      HeadSorted(olds[0], Merged(news, olds[1..]));
    } else if Acmp(olds[0].addr, news[0].addr) == 0 {
      MergedSorted(news[1..], olds[1..]);
      HeadSorted(Combined(news[0], olds[0]), Merged(news[1..], olds[1..]));
    } else {
      MergedSorted(news[1..], olds);
      HeadSorted(news[0], Merged(news[1..], olds));
    }
  }

  /** Some new address lies between these two, bounds included. */
  predicate NewBetween(news: seq<LinkStat>, lo: Addr, hi: Addr) {
    exists n :: n in news && Acmp(lo, n.addr) <= 0 && Acmp(n.addr, hi) <= 0
  }

  /** The old link of this address is overwritten: the next old link follows it into the same gap
      between new addresses. */
  predicate Overwritten(news: seq<LinkStat>, olds: seq<LinkStat>, a: Addr) {
    exists i :: 0 <= i < |olds| - 1 && olds[i].addr == a && !NewBetween(news, a, olds[i + 1].addr)
  }

  lemma OverwrittenTail(news: seq<LinkStat>, olds: seq<LinkStat>, a: Addr)
    requires olds != [] && olds[0].addr != a
    ensures Overwritten(news, olds, a) <==> Overwritten(news, olds[1..], a)
  {
    if Overwritten(news, olds, a) {
      var i :| 0 <= i < |olds| - 1 && olds[i].addr == a && !NewBetween(news, a, olds[i + 1].addr);
      assert olds[1..][i - 1].addr == a && olds[1..][i] == olds[i + 1];
    }
    if Overwritten(news, olds[1..], a) {
      var i :| 0 <= i < |olds| - 2 && olds[1..][i].addr == a && !NewBetween(news, a, olds[1..][i + 1].addr);
      assert olds[i + 1].addr == a && olds[i + 2] == olds[1..][i + 1];
    }
  }

  /** A new address before every old one decides nothing. */
  lemma OverwrittenLaterNews(news: seq<LinkStat>, olds: seq<LinkStat>, a: Addr)
    requires SortedChain(olds) && news != []
    requires olds != [] ==> Acmp(news[0].addr, olds[0].addr) < 0
    ensures Overwritten(news, olds, a) <==> Overwritten(news[1..], olds, a)
  {
    assert news == [news[0]] + news[1..];
    forall i | 0 <= i < |olds| - 1
      ensures NewBetween(news, olds[i].addr, olds[i + 1].addr)
              == NewBetween(news[1..], olds[i].addr, olds[i + 1].addr)
    {
      assert Acmp(news[0].addr, olds[i].addr) < 0;
    }
  }

  lemma AbsentNotOverwritten(news: seq<LinkStat>, olds: seq<LinkStat>, a: Addr)
    requires SortedChain(olds) && StartsAfter(olds, a)
    ensures !Overwritten(news, olds, a)
  {}

  /** Exactly what survives the loop as written: every address keeps the sum of its counters,
      except those whose old link was overwritten, which are gone. */
  lemma {:induction false} AsWrittenConserves(news: seq<LinkStat>, olds: seq<LinkStat>, a: Addr)
    requires SortedChain(news) && SortedChain(olds)
    ensures FindLink(MergedAsWritten(news, olds), a)
            == if Overwritten(news, olds, a) then None else Added(FindLink(news, a), FindLink(olds, a))
    decreases |news| + |olds|
  {
    hide Plus, Overwritten;
    if olds == [] {
      AbsentNotOverwritten(news, olds, a);
    } else if Precedes(olds[0], news) {
      AsWrittenConserves(news, olds[1..], a);
      if a == olds[0].addr {
        AbsentBefore(news, a);
        AbsentBefore(olds[1..], a);
        AbsentNotOverwritten(news, olds[1..], a);
        OverwrittenHead(news, olds);
      } else {
        OverwrittenTail(news, olds, a);
      }
    } else if Acmp(olds[0].addr, news[0].addr) == 0 {
      AsWrittenConserves(news[1..], olds[1..], a);
      if a == olds[0].addr {
        CombinedNotOverwritten(news, olds);
        AbsentNotOverwritten(news, olds[1..], a);
        AbsentNotOverwritten(news[1..], olds[1..], a);
      } else {
        OverwrittenTail(news, olds, a);
        OverwrittenLaterNews(news, olds[1..], a);
      }
    } else {
      AsWrittenConserves(news[1..], olds, a);
      OverwrittenLaterNews(news, olds, a);
      if a == news[0].addr {
        AbsentBefore(olds, a);
        AbsentNotOverwritten(news, olds, a);
      }
    }
  }

  lemma CombinedNotOverwritten(news: seq<LinkStat>, olds: seq<LinkStat>)
    requires SortedChain(olds) && news != [] && olds != [] && news[0].addr == olds[0].addr
    ensures !Overwritten(news, olds, olds[0].addr)
  {
    assert |olds| > 1 ==> NewBetween(news, olds[0].addr, olds[1].addr) by {
      assert news[0] in news;
    }
  }

  /** The first old link, when it goes before all new ones. */
  lemma OverwrittenHead(news: seq<LinkStat>, olds: seq<LinkStat>)
    requires SortedChain(news) && SortedChain(olds) && olds != [] && Precedes(olds[0], news)
    ensures Overwritten(news, olds, olds[0].addr) <==> |olds| > 1 && Precedes(olds[1], news)
  {
    if |olds| > 1 && !Precedes(olds[1], news) {
      assert news[0] in news;
    }
  }

  lemma {:induction false} AsWrittenSorted(news: seq<LinkStat>, olds: seq<LinkStat>)
    requires SortedChain(news) && SortedChain(olds)
    ensures SortedChain(MergedAsWritten(news, olds))
    ensures forall b :: StartsAfter(news, b) && StartsAfter(olds, b) ==> StartsAfter(MergedAsWritten(news, olds), b)
    decreases |news| + |olds|
  {
    if olds == [] {
    } else if Precedes(olds[0], news) {
      AsWrittenSorted(news, olds[1..]);
      HeadSorted(olds[0], MergedAsWritten(news, olds[1..]));
    } else if Acmp(olds[0].addr, news[0].addr) == 0 {
      AsWrittenSorted(news[1..], olds[1..]);
      HeadSorted(Combined(news[0], olds[0]), MergedAsWritten(news[1..], olds[1..]));
    } else {
      AsWrittenSorted(news[1..], olds);
      HeadSorted(news[0], MergedAsWritten(news[1..], olds));
    }
  }

  /** Any two neighbouring old links are kept apart by a new address, counting their own. */
  predicate NoSharedGap(news: seq<LinkStat>, olds: seq<LinkStat>) {
    forall i :: 0 <= i < |olds| - 1 ==> NewBetween(news, olds[i].addr, olds[i + 1].addr)
  }

  /** The loop as written produces the intended chain exactly when no gap between new addresses
      receives two old links. */
  lemma AsWrittenExact(news: seq<LinkStat>, olds: seq<LinkStat>)
    requires SortedChain(news) && SortedChain(olds)
    ensures MergedAsWritten(news, olds) == Merged(news, olds) <==> NoSharedGap(news, olds)
  {
    MergedSorted(news, olds);
    AsWrittenSorted(news, olds);
    if NoSharedGap(news, olds) {
      forall a ensures FindLink(MergedAsWritten(news, olds), a) == FindLink(Merged(news, olds), a) {
        AsWrittenConserves(news, olds, a);
        MergedConserves(news, olds, a);
      }
      SameCountsSameChain(MergedAsWritten(news, olds), Merged(news, olds));
    } else {
      var i :| 0 <= i < |olds| - 1 && !NewBetween(news, olds[i].addr, olds[i + 1].addr);
      var a := olds[i].addr;
      AsWrittenConserves(news, olds, a);
      MergedConserves(news, olds, a);
      FindsMember(olds, i);
    }
  }

  lemma {:induction false} FindsMember(s: seq<LinkStat>, i: nat)
    requires i < |s|
    ensures FindLink(s, s[i].addr) != None
  {
    if s[0].addr != s[i].addr {
      FindsMember(s[1..], i - 1);
    }
  }
}
