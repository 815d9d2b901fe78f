/** The items of area lists as values: their order, and what is left without duplicates. */
module AreaItems {
  import opened Text
  import opened Wrappers

  datatype Item = Item(tag: string, desc: Option<string>, grp: string, active: bool, rescanable: bool,
                       readOnly: bool, writeOnly: bool, mandatory: bool)

  function CompareByTag(a: Item, b: Item): int {
    Stricmp(a.tag, b.tag)
  }

  /** Of items with one tag those with a description come first. */
  function CompareTagAndDesc(a: Item, b: Item): int {
    if CompareByTag(a, b) != 0 then CompareByTag(a, b)
    else (if b.desc != None then 1 else 0) - (if a.desc != None then 1 else 0)
  }

  predicate Ordered(s: seq<Item>) {
    forall i, j :: 0 <= i < j < |s| ==> CompareTagAndDesc(s[i], s[j]) <= 0
  }

  predicate StrictlyOrdered(s: seq<Item>) {
    forall i, j :: 0 <= i < j < |s| ==> CompareByTag(s[i], s[j]) < 0
  }

  /** The tags up to case. */
  function Tags(s: seq<Item>): set<string> {
    set x | x in s :: Fold(x.tag)
  }

  function AllTags(lists: seq<seq<Item>>): set<string> {
    if lists == [] then {} else AllTags(lists[..|lists| - 1]) + Tags(lists[|lists| - 1])
  }

  lemma CompareChains(a: Item, b: Item, c: Item)
    requires CompareTagAndDesc(a, b) <= 0 && CompareTagAndDesc(b, c) <= 0
    ensures CompareTagAndDesc(a, c) <= 0
  {
    StricmpChains(a.tag, b.tag, c.tag);
  }

  lemma CompareFlips(a: Item, b: Item)
    ensures CompareTagAndDesc(b, a) == -CompareTagAndDesc(a, b)
  {
    StricmpFlips(a.tag, b.tag);
  }

  /* ---- Sorting ---- */

  function Insert(x: Item, s: seq<Item>): (r: seq<Item>)
    requires Ordered(s)
    ensures multiset(r) == multiset(s) + multiset{x} && Ordered(r)
  {
    if s == [] then [x]
    else if CompareTagAndDesc(x, s[0]) <= 0 then
      InsertFirst(x, s);
      [x] + s
    else
      InsertLater(x, s, Insert(x, s[1..]));
      [s[0]] + Insert(x, s[1..])
  }

  lemma InsertFirst(x: Item, s: seq<Item>)
    requires Ordered(s) && s != [] && CompareTagAndDesc(x, s[0]) <= 0
    ensures Ordered([x] + s)
  {
    hide CompareTagAndDesc;
    forall j | 0 <= j < |s| ensures CompareTagAndDesc(x, s[j]) <= 0 {
      if j > 0 {
        CompareChains(x, s[0], s[j]);
      }
    }
  }

  lemma InsertLater(x: Item, s: seq<Item>, r: seq<Item>)
    requires Ordered(s) && s != [] && CompareTagAndDesc(x, s[0]) > 0
    requires Ordered(r) && multiset(r) == multiset(s[1..]) + multiset{x}
    ensures Ordered([s[0]] + r) && multiset([s[0]] + r) == multiset(s) + multiset{x}
  {
    hide CompareTagAndDesc;
    forall j | 0 <= j < |r| ensures CompareTagAndDesc(s[0], r[j]) <= 0 {
      CompareFlips(x, s[0]);
      assert r[j] in multiset(r);
      assert r[j] in s[1..] || r[j] == x;
    }
    assert s == [s[0]] + s[1..];
  }

  function SortedItems(s: seq<Item>): (r: seq<Item>)
    ensures multiset(r) == multiset(s) && Ordered(r)
  {
    if s == [] then []
    else
      assert s == [s[0]] + s[1..];
      Insert(s[0], SortedItems(s[1..]))
  }

  /* ---- Leaving out duplicates ---- */

  /** An ordered list without the items whose tag is taken or is that of the item before. */
  function Kept(s: seq<Item>, taken: set<string>): seq<Item> {
    if s == [] then []
    else
      var n := |s| - 1;
      Kept(s[..n], taken) + (if Keeps(s, n, taken) then [s[n]] else [])
  }

  predicate Keeps(s: seq<Item>, n: nat, taken: set<string>)
    requires n < |s|
  {
    Fold(s[n].tag) !in taken && (n == 0 || Fold(s[n - 1].tag) != Fold(s[n].tag))
  }

  /** What remains of a list: every tag that is not taken, once and in order, on an item that has a
      description if any item with that tag had one. */
  ghost predicate Deduped(before: seq<Item>, taken: set<string>, after: seq<Item>) {
    && StrictlyOrdered(after)
    && Tags(after) == Tags(before) - taken
    && forall x :: x in after ==>
         x in before && (x.desc == None ==> forall y :: y in before && Fold(y.tag) == Fold(x.tag) ==> y.desc == None)
  }

  /** The items kept are those at the head of their tag. */
  lemma {:induction false} KeptItem(s: seq<Item>, taken: set<string>, x: Item) returns (n: nat)
    requires x in Kept(s, taken)
    ensures n < |s| && s[n] == x && Keeps(s, n, taken)
  {
    n := |s| - 1;
    if !(Keeps(s, n, taken) && s[n] == x) {
      n := KeptItem(s[..n], taken, x);
    }
  }

  lemma {:induction false} KeepsItem(s: seq<Item>, taken: set<string>, n: nat)
    requires n < |s| && Keeps(s, n, taken)
    ensures s[n] in Kept(s, taken)
  {
    if n == |s| - 1 {
    } else {
      assert Keeps(s[..|s| - 1], n, taken);
      KeepsItem(s[..|s| - 1], taken, n);
    }
  }

  /** Where a tag begins in an ordered list. */
  lemma {:induction false} Head(s: seq<Item>, n: nat) returns (h: nat)
    requires n < |s|
    ensures h <= n && Fold(s[h].tag) == Fold(s[n].tag) && (h == 0 || Fold(s[h - 1].tag) != Fold(s[n].tag))
  {
    h := n;
    if n > 0 && Fold(s[n - 1].tag) == Fold(s[n].tag) {
      h := Head(s, n - 1);
    }
  }

  lemma {:induction false} KeptOrdered(s: seq<Item>, taken: set<string>)
    requires Ordered(s)
    ensures StrictlyOrdered(Kept(s, taken))
  {
    if s == [] {
    } else {
      var n := |s| - 1;
      KeptOrdered(s[..n], taken);
      if Keeps(s, n, taken) {
        forall k | 0 <= k < |Kept(s[..n], taken)|
          ensures CompareByTag(Kept(s[..n], taken)[k], s[n]) < 0
        {
          var m := KeptItem(s[..n], taken, Kept(s[..n], taken)[k]);
          Increases(s, m, n);
        }
      }
    }
  }

  /** Behind the head of a tag all earlier items have smaller tags. */
  lemma Increases(s: seq<Item>, m: nat, n: nat)
    requires Ordered(s) && m < n < |s| && Fold(s[n - 1].tag) != Fold(s[n].tag)
    ensures CompareByTag(s[m], s[n]) < 0
  {
    assert CompareTagAndDesc(s[n - 1], s[n]) <= 0;
    StricmpFold(s[n - 1].tag, s[n].tag);
    if m < n - 1 {
      assert CompareTagAndDesc(s[m], s[n - 1]) <= 0;
      StricmpChains(s[m].tag, s[n - 1].tag, s[n].tag);
    }
  }

  lemma KeptTags(s: seq<Item>, taken: set<string>)
    ensures Tags(Kept(s, taken)) == Tags(s) - taken
  {
    forall x | x in Kept(s, taken) ensures x in s && Fold(x.tag) !in taken {
      var n := KeptItem(s, taken, x);
    }
    forall x | x in s && Fold(x.tag) !in taken ensures Fold(x.tag) in Tags(Kept(s, taken)) {
      var n :| 0 <= n < |s| && s[n] == x;
      var h := Head(s, n);
      KeepsItem(s, taken, h);
    }
  }

  /** The head of a tag has a description if any item of that tag has. */
  lemma HeadHasDesc(s: seq<Item>, h: nat, n: nat)
    requires Ordered(s) && h < |s| && n < |s| && Fold(s[n].tag) == Fold(s[h].tag)
    requires h == 0 || Fold(s[h - 1].tag) != Fold(s[h].tag)
    ensures s[h].desc == None ==> s[n].desc == None
  {
    StricmpFold(s[h].tag, s[n].tag);
    StricmpFold(s[n].tag, s[h].tag);
    if n < h {
      Increases(s, n, h);
    } else if h < n {
      assert CompareTagAndDesc(s[h], s[n]) <= 0;
    }
  }

  lemma KeptDeduped(before: seq<Item>, s: seq<Item>, taken: set<string>)
    requires Ordered(s) && multiset(s) == multiset(before)
    ensures Deduped(before, taken, Kept(s, taken))
  {
    SameItems(before, s);
    KeptOrdered(s, taken);
    KeptTags(s, taken);
    forall x, y | x in Kept(s, taken) && y in before && Fold(y.tag) == Fold(x.tag)
      ensures x.desc == None ==> y.desc == None
    {
      var h := KeptItem(s, taken, x);
      var n :| 0 <= n < |s| && s[n] == y;
      HeadHasDesc(s, h, n);
    }
    forall x | x in Kept(s, taken) ensures x in before {
      var h := KeptItem(s, taken, x);
    }
  }

  lemma SameItems(a: seq<Item>, b: seq<Item>)
    requires multiset(a) == multiset(b)
    ensures (forall x :: x in a <==> x in b) && Tags(a) == Tags(b)
  {
    forall x ensures x in a <==> x in b {
      assert x in multiset(a) <==> x in multiset(b);
    }
  }
}
