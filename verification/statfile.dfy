/** The statistics file: its records as bytes, and the merge of the old file with new totals. */
module StatFile {
  import opened Text
  import opened Wrappers
  import opened StatLinks
  import opened StatEchoes

  /* ---- Little-endian fields ---- */

  function Word(u: int): (b: seq<Byte>)
    ensures |b| == 2
  {
    [(u % 0x100) as char, (u / 0x100 % 0x100) as char]
  }

  function WordAt(b: seq<Byte>): int
    requires |b| >= 2
  {
    b[0] as int + 0x100 * b[1] as int
  }

  function Short(x: Int16): seq<Byte> {
    Word(x)
  }

  function ShortAt(b: seq<Byte>): Int16
    requires |b| >= 2
  {
    Wrap16(WordAt(b))
  }

  function Long(x: Int32): seq<Byte> {
    Word(x) + Word(x / 0x1_0000)
  }

  function LongAt(b: seq<Byte>): Int32
    requires |b| >= 4
  {
    Wrap32(WordAt(b) + 0x1_0000 * WordAt(b[2..]))
  }

  lemma WordRoundTrip(u: int)
    ensures WordAt(Word(u)) == u % 0x1_0000
  {}

  lemma ShortRoundTrip(x: Int16, rest: seq<Byte>)
    ensures |Short(x)| == 2 && ShortAt(Short(x) + rest) == x
  {
    WordRoundTrip(x);
  }

  lemma LongRoundTrip(x: Int32, rest: seq<Byte>)
    ensures |Long(x)| == 4 && LongAt(Long(x) + rest) == x
  {
    hide Word;
    WordRoundTrip(x);
    WordRoundTrip(x / 0x1_0000);
    LongParts(x);
    assert (Long(x) + rest)[2..] == Word(x / 0x1_0000) + rest;
  }

  lemma LongParts(x: Int32)
    ensures Wrap32(x % 0x1_0000 + 0x1_0000 * (x / 0x1_0000 % 0x1_0000)) == x
  {}

  function Shorts(xs: seq<Int16>): (b: seq<Byte>)
    ensures |b| == 2 * |xs|
  {
    if xs == [] then [] else Short(xs[0]) + Shorts(xs[1..])
  }

  function ShortsAt(b: seq<Byte>, n: nat): (xs: seq<Int16>)
    requires |b| >= 2 * n
    ensures |xs| == n
  {
    if n == 0 then [] else [ShortAt(b)] + ShortsAt(b[2..], n - 1)
  }

  lemma {:induction false} ShortsRoundTrip(xs: seq<Int16>, rest: seq<Byte>)
    ensures ShortsAt(Shorts(xs) + rest, |xs|) == xs
  {
    if xs == [] {
    } else {
      var tail := Shorts(xs[1..]) + rest;
      assert Shorts(xs) + rest == Short(xs[0]) + tail;
      ShortRoundTrip(xs[0], tail);
      assert (Short(xs[0]) + tail)[2..] == tail;
      ShortsRoundTrip(xs[1..], rest);
    }
  }

  function Longs(xs: seq<Int32>): (b: seq<Byte>)
    ensures |b| == 4 * |xs|
  {
    if xs == [] then [] else Long(xs[0]) + Longs(xs[1..])
  }

  function LongsAt(b: seq<Byte>, n: nat): (xs: seq<Int32>)
    requires |b| >= 4 * n
    ensures |xs| == n
  {
    if n == 0 then [] else [LongAt(b)] + LongsAt(b[4..], n - 1)
  }

  lemma {:induction false} LongsRoundTrip(xs: seq<Int32>, rest: seq<Byte>)
    ensures LongsAt(Longs(xs) + rest, |xs|) == xs
  {
    if xs == [] {
    } else {
      var tail := Longs(xs[1..]) + rest;
      assert Longs(xs) + rest == Long(xs[0]) + tail;
      LongRoundTrip(xs[0], tail);
      assert (Long(xs[0]) + tail)[4..] == tail;
      LongsRoundTrip(xs[1..], rest);
    }
  }

  /* ---- Links and echoes ---- */

  const LINK_SIZE: nat := 32

  function LinkBytes(l: LinkStat): (b: seq<Byte>)
    ensures |b| == LINK_SIZE
  {
    var c := l.count;
    Shorts([l.addr.zone, l.addr.net, l.addr.node, l.addr.point])
    + Longs([c.received, c.sent, c.dupes, c.bad, c.receivedBytes, c.sentBytes])
  }

  function LinkAt(b: seq<Byte>): LinkStat
    requires |b| >= LINK_SIZE
  {
    var s := ShortsAt(b, 4);
    var c := LongsAt(b[8..], 6);
    LinkStat(Addr(s[0], s[1], s[2], s[3]), Counters(c[0], c[1], c[2], c[3], c[4], c[5]))
  }

  lemma LinkRoundTrip(l: LinkStat, rest: seq<Byte>)
    ensures LinkAt(LinkBytes(l) + rest) == l
  {
    hide Shorts, ShortsAt, Longs, LongsAt;
    var c := l.count;
    var s := [l.addr.zone, l.addr.net, l.addr.node, l.addr.point];
    var cs := [c.received, c.sent, c.dupes, c.bad, c.receivedBytes, c.sentBytes];
    LinkFields(s, cs, rest);
    assert LinkBytes(l) == Shorts(s) + Longs(cs);
  }

  lemma LinkFields(s: seq<Int16>, cs: seq<Int32>, rest: seq<Byte>)
    requires |s| == 4 && |cs| == 6
    ensures |Shorts(s)| == 8 && |Longs(cs)| == 24
    ensures ShortsAt(Shorts(s) + Longs(cs) + rest, 4) == s
    ensures LongsAt((Shorts(s) + Longs(cs) + rest)[8..], 6) == cs
  {
    ShortsRoundTrip(s, Longs(cs) + rest);
    LongsRoundTrip(cs, rest);
    assert Shorts(s) + Longs(cs) + rest == Shorts(s) + (Longs(cs) + rest);
    assert (Shorts(s) + (Longs(cs) + rest))[8..] == Longs(cs) + rest;
  }

  /** The `k`-th of the bytes that make up a number, the lowest first. */
  function ByteOf(x: int, k: nat): int
    decreases k
  {
    if k == 0 then x % 0x100 else ByteOf(x / 0x100, k - 1)
  }

  lemma {:induction false} ShortsLayout(xs: seq<Int16>, i: nat, k: nat)
    requires i < |xs| && k < 2
    ensures Shorts(xs)[2 * i + k] as int == ByteOf(xs[i], k)
  {
    if i == 0 {
      assert Shorts(xs)[k] == Short(xs[0])[k];
      assert ByteOf(xs[0], 1) == ByteOf(xs[0] / 0x100, 0);
    } else {
      ShortsLayout(xs[1..], i - 1, k);
      assert Shorts(xs)[2 * i + k] == Shorts(xs[1..])[2 * (i - 1) + k];
    }
  }

  lemma {:induction false} LongsLayout(xs: seq<Int32>, i: nat, k: nat)
    requires i < |xs| && k < 4
    ensures Longs(xs)[4 * i + k] as int == ByteOf(xs[i], k)
  {
    if i == 0 {
      assert Longs(xs)[k] == Long(xs[0])[k];
      LongLayout(xs[0], k);
    } else {
      LongsLayout(xs[1..], i - 1, k);
      assert Longs(xs)[4 * i + k] == Longs(xs[1..])[4 * (i - 1) + k];
    }
  }

  lemma LongLayout(x: Int32, k: nat)
    requires k < 4
    ensures Long(x)[k] as int == ByteOf(x, k)
  {
    hide Wrap32;
    var h := x / 0x100;
    assert ByteOf(x, 1) == ByteOf(h, 0) && ByteOf(x, 2) == ByteOf(h, 1) == ByteOf(h / 0x100, 0);
    assert ByteOf(x, 3) == ByteOf(h, 2) == ByteOf(h / 0x100, 1) == ByteOf(h / 0x100 / 0x100, 0);
    assert h / 0x100 == x / 0x1_0000;
  }

  /** Where every byte of a link lies: the four parts of its address, then the numbers of messages
      received, sent, duplicate and bad, then the bytes received and sent. */
  lemma LinkLayout(l: LinkStat, i: nat, k: nat)
    ensures i < 4 && k < 2 ==>
              LinkBytes(l)[2 * i + k] as int == ByteOf([l.addr.zone, l.addr.net, l.addr.node, l.addr.point][i], k)
    ensures i < 6 && k < 4 ==>
              LinkBytes(l)[8 + 4 * i + k] as int
              == ByteOf([l.count.received, l.count.sent, l.count.dupes, l.count.bad,
                         l.count.receivedBytes, l.count.sentBytes][i], k)
  {
    hide Shorts, Longs, ByteOf;
    var s, c := [l.addr.zone, l.addr.net, l.addr.node, l.addr.point], l.count;
    var cs := [c.received, c.sent, c.dupes, c.bad, c.receivedBytes, c.sentBytes];
    assert LinkBytes(l) == Shorts(s) + Longs(cs);
    if i < 4 && k < 2 {
      ShortsLayout(s, i, k);
    }
    if i < 6 && k < 4 {
      LongsLayout(cs, i, k);
    }
  }

  function ChainBytes(chain: seq<LinkStat>): (b: seq<Byte>)
    ensures |b| == LINK_SIZE * |chain|
  {
    if chain == [] then [] else LinkBytes(chain[0]) + ChainBytes(chain[1..])
  }

  function ChainAt(b: seq<Byte>, n: nat): (chain: seq<LinkStat>)
    requires |b| >= LINK_SIZE * n
    ensures |chain| == n
  {
    if n == 0 then [] else [LinkAt(b)] + ChainAt(b[LINK_SIZE..], n - 1)
  }

  lemma {:induction false} ChainRoundTrip(chain: seq<LinkStat>, rest: seq<Byte>)
    ensures ChainAt(ChainBytes(chain) + rest, |chain|) == chain
  {
    hide LinkBytes, LinkAt;
    if chain == [] {
    } else {
      var tail := ChainBytes(chain[1..]) + rest;
      assert ChainBytes(chain) + rest == LinkBytes(chain[0]) + tail;
      LinkRoundTrip(chain[0], tail);
      assert (LinkBytes(chain[0]) + tail)[LINK_SIZE..] == tail;
      ChainRoundTrip(chain[1..], rest);
    }
  }

  /** What is written for one area; nothing for an area whose link counter is zero. The write
      fails for a tag whose 16-bit length is not positive. */
  function EchoBytes(e: EchoStat): Option<seq<Byte>> {
    var tagLen := Wrap16(|e.tag|);
    if e.links == 0 then Some([])
    else if tagLen <= 0 then None
    else
      TagFits(|e.tag|);
      Some(Short(Wrap16(|e.chain|)) + Short(tagLen) + e.tag[..tagLen] + ChainBytes(e.chain))
  }

  lemma TagFits(n: nat)
    ensures Wrap16(n) <= n
  {}

  datatype Decoded = Eof | Broken | Record(echo: EchoStat, rest: seq<Byte>)

  /** Reads one record. A file that ends within the two lengths just ends; one that ends later, or
      has a tag of no length, is broken. */
  function EchoAt(b: seq<Byte>): Decoded {
    if |b| < 4 then Eof
    else
      var links := ShortAt(b);
      var tagLen := ShortAt(b[2..]);
      var n: nat := if links > 0 then links else 0;
      if tagLen <= 0 || |b| < 4 + tagLen + LINK_SIZE * n then Broken
      else
        Record(EchoStat(links, b[4..4 + tagLen], ChainAt(b[4 + tagLen..], n)),
               b[4 + tagLen + LINK_SIZE * n..])
  }

  /** Where every part of a record lies: the number of links and the length of the tag in two bytes
      each, the tag, and 32 bytes for each link. */
  lemma EchoLayout(e: EchoStat, i: nat, k: nat)
    requires Storable(e)
    ensures EchoBytes(e).Some? && |EchoBytes(e).value| == 4 + |e.tag| + 32 * |e.chain|
    ensures var b := EchoBytes(e).value;
            && (k < 2 ==> b[k] as int == ByteOf(|e.chain|, k) && b[2 + k] as int == ByteOf(|e.tag|, k))
            && (i < |e.tag| ==> b[4 + i] == e.tag[i])
            && (i < |e.chain| && k < 32 ==> b[4 + |e.tag| + 32 * i + k] == LinkBytes(e.chain[i])[k])
  {
    hide LinkBytes, ChainBytes, Short;
    var n, t := |e.chain|, |e.tag|;
    var b := EchoBytes(e).value;
    Wrap16Fits(n);
    Wrap16Fits(t);
    ShortLayout(n, k);
    ShortLayout(t, k);
    assert b == Short(n) + (Short(t) + (e.tag + ChainBytes(e.chain)));
    if i < n && k < 32 {
      ChainLayout(e.chain, i, k);
    }
  }

  lemma ShortLayout(x: Int16, k: nat)
    ensures |Short(x)| == 2 && (k < 2 ==> Short(x)[k] as int == ByteOf(x, k))
  {
    ShortsLayout([x], 0, if k < 2 then k else 0);
    assert Shorts([x]) == Short(x) + Shorts([]);
  }

  lemma {:induction false} ChainLayout(chain: seq<LinkStat>, i: nat, k: nat)
    requires i < |chain| && k < 32
    ensures |ChainBytes(chain)| == 32 * |chain| && ChainBytes(chain)[32 * i + k] == LinkBytes(chain[i])[k]
  {
    hide LinkBytes;
    if i == 0 {
    } else {
      ChainLayout(chain[1..], i - 1, k);
      assert ChainBytes(chain)[32 * i + k] == ChainBytes(chain[1..])[32 * (i - 1) + k];
    }
  }

  /** The records that can be written and read back. */
  predicate Storable(e: EchoStat) {
    e.links != 0 && 1 <= |e.chain| <= 0x7fff && 1 <= |e.tag| <= 0x7fff
  }

  /** Writing counts the chain afresh and does not trust the counter. */
  function Recounted(e: EchoStat): EchoStat
    requires Storable(e)
  {
    e.(links := |e.chain|)
  }

  /** Reading undoes writing. */
  lemma EchoRoundTrip(e: EchoStat, rest: seq<Byte>)
    requires Storable(e)
    ensures EchoBytes(e).Some? && |EchoBytes(e).value| > 4
    ensures EchoAt(EchoBytes(e).value + rest) == Record(Recounted(e), rest)
  {
    hide Short, ShortAt, ChainBytes, ChainAt;
    var n, t := |e.chain|, |e.tag|;
    var tail := ChainBytes(e.chain) + rest;
    var b := EchoBytes(e).value + rest;
    ShortRoundTrip(n, Short(t) + e.tag + tail);
    ShortRoundTrip(t, e.tag + tail);
    ChainRoundTrip(e.chain, rest);
    assert e.tag[..t] == e.tag;
    assert b == Short(n) + (Short(t) + e.tag + tail);
    assert b[2..] == Short(t) + (e.tag + tail);
    assert b[4..4 + t] == e.tag;
    assert b[4 + t..] == tail;
    assert b[4 + t + LINK_SIZE * n..] == rest;
  }

  /** What is read from any bytes: fewer than four are the end of the file. Otherwise a tag length that
      is not positive, and a tag or links that are not all there, make a broken file; a number of links
      that is not positive means none. */
  lemma EchoReads(links: Int16, tagLen: Int16, b: seq<Byte>, head: seq<Byte>)
    requires |head| < 4
    ensures EchoAt(head) == Eof
    ensures var n: nat := if links < 0 then 0 else links;
            var e := EchoAt(Short(links) + Short(tagLen) + b);
            if tagLen <= 0 || |b| < tagLen + 32 * n then e == Broken
            else
              e.Record? && e.echo.links == links && e.echo.tag == b[..tagLen] && e.rest == b[tagLen + 32 * n..]
              && |e.echo.chain| == n
  {
    hide ChainAt, ShortAt, Short;
    var all := Short(links) + Short(tagLen) + b;
    ShortRoundTrip(links, Short(tagLen) + b);
    ShortRoundTrip(tagLen, b);
    assert all == Short(links) + (Short(tagLen) + b);
    assert all[2..] == Short(tagLen) + b && all[4..] == b;
    if tagLen > 0 && |b| >= tagLen {
      assert all[4..4 + tagLen] == b[..tagLen] && all[4 + tagLen..] == b[tagLen..];
    }
  }

  /** A record whose end is missing reads as a broken file, or as its end if not even the two lengths
      are there. */
  lemma CutRecord(e: EchoStat, n: nat)
    requires Storable(e) && EchoBytes(e).Some? && n < |EchoBytes(e).value|
    ensures EchoAt(EchoBytes(e).value[..n]) == if n < 4 then Eof else Broken
  {
    hide ChainBytes, Short, EchoAt;
    var b := EchoBytes(e).value;
    Wrap16Fits(|e.chain|);
    Wrap16Fits(|e.tag|);
    ShortLayout(|e.chain|, 0);
    var links, tagLen := Short(|e.chain|), Short(|e.tag|);
    ShortLayout(|e.tag|, 0);
    assert b == links + tagLen + (e.tag + ChainBytes(e.chain));
    if n < 4 {
      EchoReads(0, 0, [], b[..n]);
    } else {
      EchoReads(|e.chain|, |e.tag|, (e.tag + ChainBytes(e.chain))[..n - 4], []);
      assert b[..n] == links + tagLen + (e.tag + ChainBytes(e.chain))[..n - 4];
    }
  }

  function FileBytes(es: seq<EchoStat>): Option<seq<Byte>> {
    if es == [] then Some([])
    else match (EchoBytes(es[0]), FileBytes(es[1..]))
         case (Some(b), Some(c)) => Some(b + c)
         case _ => None
  }

  /** All records of a file, or nothing if it is broken. */
  function FileRecords(b: seq<Byte>): Option<seq<EchoStat>>
    decreases |b|
  {
    match EchoAt(b)
    case Eof => Some([])
    case Broken => None
    case Record(e, rest) =>
      if FileRecords(rest).Some? then Some([e] + FileRecords(rest).value) else None
  }

  predicate AllStorable(es: seq<EchoStat>) {
    forall e :: e in es ==> Storable(e)
  }

  function AllRecounted(es: seq<EchoStat>): seq<EchoStat>
    requires AllStorable(es)
  {
    if es == [] then [] else [Recounted(es[0])] + AllRecounted(es[1..])
  }

  /** Reading a written file to its end gives back the same records. */
  lemma {:induction false} FileRoundTrip(es: seq<EchoStat>)
    requires AllStorable(es)
    ensures FileBytes(es).Some? && FileRecords(FileBytes(es).value) == Some(AllRecounted(es))
  {
    hide EchoBytes, EchoAt;
    if es == [] {
      NothingLeft();
    } else {
      FileRoundTrip(es[1..]);
      EchoRoundTrip(es[0], FileBytes(es[1..]).value);
    }
  }

  /** Counting afresh changes neither order nor totals, and nothing at all where the counter was
      right. */
  lemma RecountedSame(es: seq<EchoStat>, tag: string)
    requires AllStorable(es)
    ensures ChainOf(AllRecounted(es), tag) == ChainOf(es, tag)
    ensures Sorted(es) ==> Sorted(AllRecounted(es))
    ensures |AllRecounted(es)| == |es| && AllStorable(AllRecounted(es)) && Counted(AllRecounted(es))
    ensures Counted(es) ==> AllRecounted(es) == es
  {
    hide Stricmp, SortedChain, AllRecounted, Recounted, Sorted, AllStorable, Counted;
    RecountedChain(es, tag);
    RecountedSorted(es);
    RecountedFields(es);
  }

  lemma RecountedSorted(es: seq<EchoStat>)
    requires AllStorable(es)
    ensures Sorted(es) ==> Sorted(AllRecounted(es))
  {
    hide Stricmp, SortedChain, AllRecounted;
    RecountedAt(es);
  }

  lemma RecountedFields(es: seq<EchoStat>)
    requires AllStorable(es)
    ensures |AllRecounted(es)| == |es| && AllStorable(AllRecounted(es)) && Counted(AllRecounted(es))
    ensures Counted(es) ==> AllRecounted(es) == es
  {
    hide AllRecounted;
    RecountedAt(es);
    forall i | 0 <= i < |es|
      ensures Storable(AllRecounted(es)[i]) && AllRecounted(es)[i].links == |AllRecounted(es)[i].chain|
      ensures Counted(es) ==> AllRecounted(es)[i] == es[i]
    {
      assert es[i] in es && Storable(es[i]);
    }
  }

  /** Every counter is the length of its chain. */
  predicate Counted(es: seq<EchoStat>) {
    forall e :: e in es ==> e.links == |e.chain|
  }

  lemma {:induction false} RecountedAt(es: seq<EchoStat>)
    requires AllStorable(es)
    ensures |AllRecounted(es)| == |es|
    ensures forall i :: 0 <= i < |es| ==> AllRecounted(es)[i] == Recounted(es[i])
  {
    if es == [] {
    } else {
      RecountedAt(es[1..]);
    }
  }

  lemma {:induction false} RecountedChain(es: seq<EchoStat>, tag: string)
    requires AllStorable(es)
    ensures ChainOf(AllRecounted(es), tag) == ChainOf(es, tag)
  {
    if es == [] {
    } else {
      RecountedChain(es[1..], tag);
    }
  }

  lemma NothingLeft()
    ensures EchoAt([]) == Eof
  {}

  /* ---- The merge of the old file with the new list ---- */

  /** A new area that the old file has too: the links as the merge loop leaves them. The counter
      rises with every insertion, also with those that are overwritten. */
  function MergedEcho(new_: EchoStat, old_: EchoStat): EchoStat {
    new_.(chain := MergedAsWritten(new_.chain, old_.chain),
          links := Wrap16(new_.links + |Merged(new_.chain, old_.chain)| - |new_.chain|))
  }

  /** The records in the order they are written. */
  function MergedEchoes(news: seq<EchoStat>, olds: seq<EchoStat>): seq<EchoStat>
    decreases |news| + |olds|
  {
    if olds == [] then news
    else if news != [] && Stricmp(news[0].tag, olds[0].tag) < 0 then
      [news[0]] + MergedEchoes(news[1..], olds)
    else if news != [] && Stricmp(news[0].tag, olds[0].tag) == 0 then
      [MergedEcho(news[0], olds[0])] + MergedEchoes(news[1..], olds[1..])
    else [olds[0]] + MergedEchoes(news, olds[1..])
  }

  lemma {:induction false} MergedEchoesSorted(news: seq<EchoStat>, olds: seq<EchoStat>)
    requires Sorted(news) && Sorted(olds)
    ensures Sorted(MergedEchoes(news, olds))
    ensures forall t :: TagsAfter(news, t) && TagsAfter(olds, t) ==> TagsAfter(MergedEchoes(news, olds), t)
    decreases |news| + |olds|
  {
    hide Merged, MergedAsWritten, Wrap16;
    if olds == [] {
    } else if news != [] && Stricmp(news[0].tag, olds[0].tag) < 0 {
      MergedEchoesSorted(news[1..], olds);
      HeadTag(news[0], MergedEchoes(news[1..], olds));
    } else if news != [] && Stricmp(news[0].tag, olds[0].tag) == 0 {
      var rest := MergedEchoes(news[1..], olds[1..]);
      MergedEchoesSorted(news[1..], olds[1..]);
      AsWrittenSorted(news[0].chain, olds[0].chain);
      if |olds| > 1 {
        StricmpChains(news[0].tag, olds[0].tag, olds[1].tag);
      }
      HeadTag(MergedEcho(news[0], olds[0]), rest);
    } else {
      MergedEchoesSorted(news, olds[1..]);
      if news != [] {
        StricmpFlips(news[0].tag, olds[0].tag);
      }
      HeadTag(olds[0], MergedEchoes(news, olds[1..]));
    }
  }

  /** Per area, the file holds the merged chain if there were events, else the old chain. */
  lemma {:induction false} MergedEchoesChain(news: seq<EchoStat>, olds: seq<EchoStat>, tag: string)
    requires Sorted(news) && Sorted(olds)
    ensures ChainOf(MergedEchoes(news, olds), tag)
            == if HasTag(news, tag) then MergedAsWritten(ChainOf(news, tag), ChainOf(olds, tag))
               else ChainOf(olds, tag)
    decreases |news| + |olds|
  {
    hide Merged, MergedAsWritten, Wrap16, Stricmp, HasTag, MergedEcho;
    HasTagNext(news, tag);
    if olds == [] {
      MergeWithNothing(ChainOf(news, tag));
      NoTagNoChain(news, tag);
    } else if news != [] && Stricmp(news[0].tag, olds[0].tag) < 0 {
      MergedEchoesChain(news[1..], olds, tag);
      if Stricmp(tag, news[0].tag) == 0 {
        SameInOrder(tag, news[0].tag, olds[0].tag);
        TagAbsent(olds, tag);
        MergeWithNothing(news[0].chain);
      }
    } else if news != [] && Stricmp(news[0].tag, olds[0].tag) == 0 {
      MergedEchoesChain(news[1..], olds[1..], tag);
      StricmpChains(tag, news[0].tag, olds[0].tag);
      EchoParts(news[0], olds[0]);
    } else {
      MergedEchoesChain(news, olds[1..], tag);
      if Stricmp(tag, olds[0].tag) == 0 {
        if news != [] {
          StricmpFlips(news[0].tag, olds[0].tag);
          SameInOrder(tag, olds[0].tag, news[0].tag);
        }
        NoTagBefore(news, tag);
        NoTagBeforeNext(olds, tag);
      }
    }
  }

  lemma EchoParts(new_: EchoStat, old_: EchoStat)
    ensures MergedEcho(new_, old_).tag == new_.tag
    ensures MergedEcho(new_, old_).chain == MergedAsWritten(new_.chain, old_.chain)
  {}

  lemma {:induction false} MergeWithNothing(s: seq<LinkStat>)
    ensures MergedAsWritten(s, []) == s
  {}

  lemma {:induction false} NoTagNoChain(es: seq<EchoStat>, tag: string)
    ensures !HasTag(es, tag) ==> ChainOf(es, tag) == []
  {
    if es == [] {
    } else {
      NoTagNoChain(es[1..], tag);
      assert es == [es[0]] + es[1..];
    }
  }

  lemma NoTagBeforeNext(es: seq<EchoStat>, tag: string)
    requires SortedTags(es) && es != [] && Stricmp(tag, es[0].tag) == 0
    ensures ChainOf(es[1..], tag) == []
  {
    if |es| > 1 {
      SameInOrder(tag, es[0].tag, es[1].tag);
    }
    TagAbsent(es[1..], tag);
  }

  /** The tags of the old areas that have no events. */
  function OldTags(news: seq<EchoStat>, olds: seq<EchoStat>): set<seq<Byte>> {
    set o | o in olds && !HasTag(news, o.tag) :: o.tag
  }

  lemma OldTagsNext(news: seq<EchoStat>, olds: seq<EchoStat>)
    requires olds != []
    ensures OldTags(news, olds)
            == (if HasTag(news, olds[0].tag) then {} else {olds[0].tag}) + OldTags(news, olds[1..])
  {
    hide HasTag;
    assert olds == [olds[0]] + olds[1..];
  }

  /** A new area before all old ones decides nothing. */
  lemma OldTagsLater(news: seq<EchoStat>, olds: seq<EchoStat>)
    requires Sorted(olds) && news != [] && TagsAfter(olds, news[0].tag)
    ensures OldTags(news, olds) == OldTags(news[1..], olds)
  {
    hide Stricmp, HasTag;
    forall o | o in olds ensures HasTag(news, o.tag) <==> HasTag(news[1..], o.tag) {
      var k :| 0 <= k < |olds| && olds[k] == o;
      if k > 0 {
        StricmpChains(news[0].tag, olds[0].tag, olds[k].tag);
      }
      StricmpFlips(news[0].tag, o.tag);
      HasTagNext(news, o.tag);
    }
  }

  /** The file names every area that has events as the events do, and all others as it did. */
  lemma {:induction false} MergedTags(news: seq<EchoStat>, olds: seq<EchoStat>)
    requires Sorted(news) && Sorted(olds)
    ensures TagSet(MergedEchoes(news, olds)) == TagSet(news) + OldTags(news, olds)
    decreases |news| + |olds|
  {
    hide Stricmp, HasTag, TagSet, OldTags, SortedChain, MergedEcho;
    var m := MergedEchoes(news, olds);
    HasTagNext(news, "");
    HasTagNext(m, "");
    if olds == [] {
      NoOldTags(news);
    } else if news != [] && Stricmp(news[0].tag, olds[0].tag) < 0 {
      MergedTags(news[1..], olds);
      OldTagsLater(news, olds);
      assert m[1..] == MergedEchoes(news[1..], olds);
    } else if news != [] && Stricmp(news[0].tag, olds[0].tag) == 0 {
      MergedTags(news[1..], olds[1..]);
      OldTagsNext(news, olds);
      if |olds| > 1 {
        StricmpChains(news[0].tag, olds[0].tag, olds[1].tag);
      }
      OldTagsLater(news, olds[1..]);
      StricmpFlips(news[0].tag, olds[0].tag);
      HasTagNext(news, olds[0].tag);
      EchoParts(news[0], olds[0]);
      assert m[1..] == MergedEchoes(news[1..], olds[1..]);
    } else {
      MergedTags(news, olds[1..]);
      OldTagsNext(news, olds);
      if news != [] {
        StricmpFlips(news[0].tag, olds[0].tag);
      }
      NoTagBefore(news, olds[0].tag);
      assert m[1..] == MergedEchoes(news, olds[1..]);
    }
  }

  lemma NoOldTags(news: seq<EchoStat>)
    ensures OldTags(news, []) == {}
  {}

  /** Conservation over the whole file: the sum of old and new counters for every area and address,
      except for old links that were overwritten. */
  lemma MergeConserves(news: seq<EchoStat>, olds: seq<EchoStat>, tag: string, a: Addr)
    requires Sorted(news) && Sorted(olds)
    ensures Find(MergedEchoes(news, olds), tag, a)
            == if HasTag(news, tag) && Overwritten(ChainOf(news, tag), ChainOf(olds, tag), a) then None
               else Added(Find(news, tag, a), Find(olds, tag, a))
  {
    hide MergedEchoes, MergedAsWritten, Overwritten, Plus;
    MergedEchoesChain(news, olds, tag);
    ChainSorted(news, tag);
    ChainSorted(olds, tag);
    if HasTag(news, tag) {
      AsWrittenConserves(ChainOf(news, tag), ChainOf(olds, tag), a);
    } else {
      NoTagNoChain(news, tag);
    }
  }

  /** Nothing is lost anywhere exactly when no gap of any area with events receives two old links. */
  lemma MergeConservesAll(news: seq<EchoStat>, olds: seq<EchoStat>)
    requires Sorted(news) && Sorted(olds)
    ensures (forall tag: string, a :: Find(MergedEchoes(news, olds), tag, a)
                                      == Added(Find(news, tag, a), Find(olds, tag, a)))
            <==> (forall tag: string :: HasTag(news, tag) ==> NoSharedGap(ChainOf(news, tag), ChainOf(olds, tag)))
  {
    hide MergedEchoes, Added, Stricmp, FindLink;
    forall tag: string, a
      ensures Find(MergedEchoes(news, olds), tag, a) == Added(Find(news, tag, a), Find(olds, tag, a))
              <==> !(HasTag(news, tag) && Overwritten(ChainOf(news, tag), ChainOf(olds, tag), a))
    {
      MergeConserves(news, olds, tag, a);
      OverwrittenFound(ChainOf(news, tag), ChainOf(olds, tag), a);
    }
    forall tag: string
      ensures NoSharedGap(ChainOf(news, tag), ChainOf(olds, tag))
              <==> forall a :: !Overwritten(ChainOf(news, tag), ChainOf(olds, tag), a)
    {
      GapsOverwrite(ChainOf(news, tag), ChainOf(olds, tag));
    }
  }

  lemma OverwrittenFound(news: seq<LinkStat>, olds: seq<LinkStat>, a: Addr)
    ensures Overwritten(news, olds, a) ==> Added(FindLink(news, a), FindLink(olds, a)) != None
  {
    if Overwritten(news, olds, a) {
      var i :| 0 <= i < |olds| - 1 && olds[i].addr == a && !NewBetween(news, a, olds[i + 1].addr);
      FindsMember(olds, i);
    }
  }

  lemma GapsOverwrite(news: seq<LinkStat>, olds: seq<LinkStat>)
    ensures NoSharedGap(news, olds) <==> forall a :: !Overwritten(news, olds, a)
  {
    if !NoSharedGap(news, olds) {
      var i :| 0 <= i < |olds| - 1 && !NewBetween(news, olds[i].addr, olds[i + 1].addr);
      assert Overwritten(news, olds, olds[i].addr);
    }
  }

  /* ---- The update of the file ---- */

  /** The stored file: absent, shorter than its header, or a revision, a start time and records. */
  datatype Stored = Missing | Truncated | File(rev: int, since: int, body: seq<Byte>)

  const REVISION := 1

  /** The file after an update, or nothing when it has to stay as it was. */
  function Updated(news: seq<EchoStat>, file: Stored, now: int): Option<Stored> {
    match file
    case File(rev, since, body) =>
      if rev != REVISION || FileRecords(body).None? then None
      else
        var out := FileBytes(MergedEchoes(news, FileRecords(body).value));
        if out.None? then None else Some(File(REVISION, since, out.value))
    case _ =>
      var out := FileBytes(news);
      if out.None? then None else Some(File(REVISION, now, out.value))
  }

  /** A record that cannot be written. */
  predicate Unwritable(e: EchoStat) {
    e.links != 0 && Wrap16(|e.tag|) <= 0
  }

  lemma {:induction false} BytesFail(es: seq<EchoStat>)
    ensures FileBytes(es) == None <==> exists e :: e in es && Unwritable(e)
  {
    hide Wrap16, ChainBytes, Short;
    if es == [] {
    } else {
      BytesFail(es[1..]);
      assert es == [es[0]] + es[1..];
      assert EchoBytes(es[0]) == None <==> Unwritable(es[0]);
      if e :| e in es && Unwritable(e) {
        assert e == es[0] || e in es[1..];
      }
    }
  }

  /** When the update leaves the file as it was: it has another revision, it is broken, or one of the
      records to be written cannot be. Without a file, or with one that ends in its header, a new one
      begins now and holds the new records. */
  lemma UpdateFails(news: seq<EchoStat>, file: Stored, now: int)
    ensures Updated(news, file, now) == None
            <==> if file.File? then
                   file.rev != 1 || FileRecords(file.body) == None
                   || exists e :: e in MergedEchoes(news, FileRecords(file.body).value) && Unwritable(e)
                 else exists e :: e in news && Unwritable(e)
    ensures !file.File? && AllStorable(news) ==>
              && Updated(news, file, now).Some? && Updated(news, file, now).value.File?
              && Updated(news, file, now).value.since == now
              && FileRecords(Updated(news, file, now).value.body) == Some(AllRecounted(news))
  {
    hide FileBytes, FileRecords, MergedEchoes, Unwritable, AllStorable;
    BytesFail(if file.File? && FileRecords(file.body).Some? then MergedEchoes(news, FileRecords(file.body).value)
              else news);
    if AllStorable(news) {
      FileRoundTrip(news);
    }
  }

  lemma {:induction false} MergedLengths(news: seq<LinkStat>, olds: seq<LinkStat>)
    ensures |news| <= |Merged(news, olds)| <= |news| + |olds|
    ensures |news| <= |MergedAsWritten(news, olds)| <= |Merged(news, olds)|
    decreases |news| + |olds|
  {
    if olds == [] {
    } else if Precedes(olds[0], news) {
      MergedLengths(news, olds[1..]);
    } else if Acmp(olds[0].addr, news[0].addr) == 0 {
      MergedLengths(news[1..], olds[1..]);
    } else {
      MergedLengths(news[1..], olds);
    }
  }

  /** New and old records whose merged chains are short enough for a 16-bit counter. */
  predicate Fit(news: seq<EchoStat>, olds: seq<EchoStat>) {
    && AllStorable(news) && AllStorable(olds)
    && (forall e :: e in news ==> e.links == |e.chain|)
    && forall e, o :: e in news && o in olds && Stricmp(e.tag, o.tag) == 0 ==> |Merged(e.chain, o.chain)| <= 0x7fff
  }

  lemma {:induction false} MergedStorable(news: seq<EchoStat>, olds: seq<EchoStat>)
    requires Fit(news, olds)
    ensures AllStorable(MergedEchoes(news, olds))
    decreases |news| + |olds|
  {
    hide Merged, MergedAsWritten, Wrap16, Stricmp;
    if olds == [] {
    } else if news != [] && Stricmp(news[0].tag, olds[0].tag) < 0 {
      MergedStorable(news[1..], olds);
    } else if news != [] && Stricmp(news[0].tag, olds[0].tag) == 0 {
      MergedStorable(news[1..], olds[1..]);
      var n, o := news[0].chain, olds[0].chain;
      MergedLengths(n, o);
      assert news[0] in news && olds[0] in olds;
      Wrap16Fits(news[0].links + |Merged(n, o)| - |n|);
      assert Storable(MergedEcho(news[0], olds[0]));
    } else {
      MergedStorable(news, olds[1..]);
    }
  }

  /** The update as a whole: the new file reads back as sorted records, in which every area and
      address has the sum of its old and new counters unless its old link was overwritten. */
  lemma UpdateConserves(news: seq<EchoStat>, olds: seq<EchoStat>, since: int, now: int, tag: string, a: Addr)
    requires Sorted(news) && Sorted(olds) && Fit(news, olds)
    ensures FileBytes(olds).Some?
    ensures var r := Updated(news, File(REVISION, since, FileBytes(olds).value), now);
            && r.Some? && r.value.File? && r.value.since == since
            && FileRecords(r.value.body).Some?
            && var records := FileRecords(r.value.body).value;
            && Sorted(records) && AllRising(records)
            && Find(records, tag, a)
               == if HasTag(news, tag) && Overwritten(ChainOf(news, tag), ChainOf(olds, tag), a) then None
                  else Added(Find(news, tag, a), Find(olds, tag, a))
  {
    hide FileRecords, FileBytes, MergedEchoes, Overwritten, AllStorable, Added, AllRising;
    FileRoundTrip(olds);
    RecountedSame(olds, tag);
    var olds' := AllRecounted(olds);
    RecountedFit(news, olds);
    MergedStorable(news, olds');
    MergedEchoesSorted(news, olds');
    FileRoundTrip(MergedEchoes(news, olds'));
    RecountedSame(MergedEchoes(news, olds'), tag);
    MergeConserves(news, olds', tag, a);
    SortedAllRise(AllRecounted(MergedEchoes(news, olds')));
  }

  lemma {:induction false} RecountedFit(news: seq<EchoStat>, olds: seq<EchoStat>)
    requires Fit(news, olds)
    ensures Fit(news, AllRecounted(olds))
  {
    if olds == [] {
    } else {
      RecountedFit(news, olds[1..]);
      assert olds[0] in olds && Storable(Recounted(olds[0]));
      assert AllRecounted(olds) == [Recounted(olds[0])] + AllRecounted(olds[1..]);
    }
  }
}
