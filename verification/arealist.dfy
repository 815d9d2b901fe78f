/** Area lists offered by several uplinks: each is sorted and freed of duplicates in place. */
module AreaLists {
  import opened Text
  import opened Wrappers
  import opened AreaItems

  class AreaList {
    var areas: array<Item>
    var count: nat
    var maxcount: nat

    ghost predicate Valid()
      reads this
    {
      count <= maxcount == areas.Length
    }

    ghost function Contents(): seq<Item>
      requires Valid()
      reads this, areas
    {
      areas[..count]
    }

    constructor (items: seq<Item>)
      ensures Valid() && Contents() == items && fresh(areas)
    {
      areas := new Item[|items|](i requires 0 <= i < |items| => items[i]);
      count, maxcount := |items|, |items|;
      new;
      assert areas[..] == items;
    }
  }

  /** The lists are different objects with storage of their own. */
  ghost predicate Apart(hal: seq<AreaList>)
    reads hal
  {
    && (forall k :: 0 <= k < |hal| ==> hal[k].Valid())
    && (forall j, k :: 0 <= j < k < |hal| ==> hal[j] != hal[k] && hal[j].areas != hal[k].areas)
  }

  /** What the lists hold, each in strict order of its tags. */
  ghost predicate Holds(hal: seq<AreaList>, lists: seq<seq<Item>>)
    reads hal, set k | 0 <= k < |hal| :: hal[k].areas
  {
    && |lists| == |hal|
    && forall k :: 0 <= k < |hal| ==> hal[k].Valid() && hal[k].Contents() == lists[k] && StrictlyOrdered(lists[k])
  }

  /** Sorts the first items of an array; nothing is promised about the order of equal ones. */
  method Qsort(a: array<Item>, n: nat)
    requires n <= a.Length
    modifies a
    ensures Ordered(a[..n]) && multiset(a[..n]) == multiset(old(a[..n])) && a[n..] == old(a[n..])
  {
    var s := SortedItems(a[..n]);
    assert |s| == |multiset(s)| == n;
    forall i | 0 <= i < n {
      a[i] := s[i];
    }
    assert a[..n] == s;
  }

  /** Looks a tag up in a list sorted by tags. */
  method Bsearch(key: Item, list: AreaList) returns (found: bool)
    requires list.Valid() && StrictlyOrdered(list.Contents())
    ensures found <==> Fold(key.tag) in Tags(list.Contents())
  {
    ghost var s := list.Contents();
    var lo, hi := 0, list.count;
    while lo < hi
      invariant lo <= hi <= list.count
      invariant forall i :: 0 <= i < lo ==> CompareByTag(s[i], key) < 0
      invariant forall i :: hi <= i < list.count ==> CompareByTag(s[i], key) > 0
    {
      var mid := (lo + hi) / 2;
      var r := CompareByTag(list.areas[mid], key);
      if r == 0 {
        StricmpFold(s[mid].tag, key.tag);
        return true;
      }
      SideOf(s, key, mid);
      if r < 0 {
        lo := mid + 1;
      } else {
        hi := mid;
      }
    }
    forall i | 0 <= i < |s| ensures Fold(s[i].tag) != Fold(key.tag) {
      StricmpFold(s[i].tag, key.tag);
    }
    found := false;
  }

  /** All items on one side of an item compare like it. */
  lemma SideOf(s: seq<Item>, key: Item, mid: nat)
    requires StrictlyOrdered(s) && mid < |s|
    ensures CompareByTag(s[mid], key) < 0 ==> forall i :: 0 <= i <= mid ==> CompareByTag(s[i], key) < 0
    ensures CompareByTag(s[mid], key) > 0 ==> forall i :: mid <= i < |s| ==> CompareByTag(s[i], key) > 0
  {
    forall i | 0 <= i < mid ensures CompareByTag(s[mid], key) < 0 ==> CompareByTag(s[i], key) < 0 {
      StricmpChains(s[i].tag, s[mid].tag, key.tag);
    }
    forall i | mid < i < |s| ensures CompareByTag(s[mid], key) > 0 ==> CompareByTag(s[i], key) > 0 {
      StricmpFlips(s[mid].tag, key.tag);
      StricmpFlips(s[i].tag, key.tag);
      StricmpChains(key.tag, s[mid].tag, s[i].tag);
    }
  }

  /** Looks a tag up in every list, one after the other. */
  method TakenBefore(key: Item, earlier: seq<AreaList>, ghost lists: seq<seq<Item>>) returns (found: bool)
    requires Holds(earlier, lists)
    ensures found <==> Fold(key.tag) in AllTags(lists)
  {
    hide StrictlyOrdered, Tags, AllTags;
    NoTags();
    for k := 0 to |earlier|
      invariant Fold(key.tag) !in AllTags(lists[..k])
    {
      found := Bsearch(key, earlier[k]);
      AllTagsNext(lists, k);
      if found {
        AllTagsPrefix(lists, k + 1);
        return;
      }
    }
    assert lists[..|earlier|] == lists;
    found := false;
  }

  lemma NoTags()
    ensures AllTags([]) == {}
  {}

  lemma AllTagsNext(lists: seq<seq<Item>>, k: nat)
    requires k < |lists|
    ensures AllTags(lists[..k + 1]) == AllTags(lists[..k]) + Tags(lists[k])
  {
    assert lists[..k + 1][..k] == lists[..k];
  }

  lemma {:induction false} AllTagsPrefix(lists: seq<seq<Item>>, k: nat)
    requires k <= |lists|
    ensures AllTags(lists[..k]) <= AllTags(lists)
  {
    if k < |lists| {
      AllTagsPrefix(lists[..|lists| - 1], k);
      assert lists[..|lists| - 1][..k] == lists[..k];
    } else {
      assert lists[..k] == lists;
    }
  }

  /** Sorts the last of the lists and takes out, in place, what it has twice and what the lists before
      it have. */
  method SortAreaListNoDupes(hal: seq<AreaList>, ghost lists: seq<seq<Item>>)
    requires hal != [] && Apart(hal) && Holds(hal[..|hal| - 1], lists)
    modifies hal[|hal| - 1], hal[|hal| - 1].areas
    ensures var al := hal[|hal| - 1];
            && al.Valid() && (al.areas == old(al.areas) || fresh(al.areas))
            && Deduped(old(al.Contents()), AllTags(lists), al.Contents())
  {
    hide Deduped, AllTags;
    var al := hal[|hal| - 1];
    if al.count == 0 {
      NothingDeduped(AllTags(lists));
      assert al.Contents() == [];
      return;
    }
    var j := SortAndCompact(al, hal[..|hal| - 1], lists);
    if j != al.maxcount {
      al.areas := Realloc(al.areas, j);
      al.maxcount := j;
      assert al.areas[..j] == al.areas[..];
    }
    al.count := j;
  }

  lemma NothingDeduped(taken: set<string>)
    ensures Deduped([], taken, [])
  {}

  method Realloc(a: array<Item>, n: nat) returns (b: array<Item>)
    requires n <= a.Length
    ensures fresh(b) && b.Length == n && b[..] == a[..n]
  {
    b := new Item[n](i requires 0 <= i < n reads a =>
      if i < a.Length then a[i] else Item("", None, "", false, false, false, false, false));
  }

  method SortAndCompact(al: AreaList, earlier: seq<AreaList>, ghost lists: seq<seq<Item>>) returns (j: nat)
    requires al.Valid() && Holds(earlier, lists)
    requires forall k :: 0 <= k < |earlier| ==> earlier[k].areas != al.areas
    modifies al.areas
    ensures j <= al.count && Deduped(old(al.Contents()), AllTags(lists), al.areas[..j])
  {
    hide Deduped, AllTags, Kept, Ordered, StrictlyOrdered;
    ghost var before := al.Contents();
    Qsort(al.areas, al.count);
    ghost var s := al.Contents();
    KeptDeduped(before, s, AllTags(lists));
    j := Compact(al, earlier, lists, s);
  }

  /** The pass over the sorted items: `i` reads, `j` writes. */
  method Compact(al: AreaList, earlier: seq<AreaList>, ghost lists: seq<seq<Item>>, ghost s: seq<Item>)
    returns (j: nat)
    requires al.Valid() && s == al.Contents() && Holds(earlier, lists)
    requires forall k :: 0 <= k < |earlier| ==> earlier[k].areas != al.areas
    modifies al.areas
    ensures j <= al.count && al.areas[..j] == Kept(s, AllTags(lists))
  {
    hide StrictlyOrdered, Stricmp, AllTags, Kept, Fold;
    ghost var taken := AllTags(lists);
    KeptNone(taken);
    var i := 0;
    j := 0;
    var prev: Option<string> := None;
    var areas := al.areas;
    while i < al.count
      invariant j <= i <= al.count && Holds(earlier, lists)
      invariant areas[..j] == Kept(s[..i], taken)
      invariant areas[i..al.count] == s[i..]
      invariant Previous(s, i, taken, prev)
    {
      var item := areas[i];
      assert item == s[i];
      KeptNext(s, i, taken, prev);
      if prev.Some? && Stricmp(prev.value, item.tag) == 0 {
        i := i + 1;
        continue;
      }
      prev := Some(item.tag);
      var found := TakenBefore(item, earlier, lists);
      if found {
        prev := None;
        i := i + 1;
        continue;
      }
      assert areas[i + 1..al.count] == areas[i..al.count][1..] && s[i + 1..] == s[i..][1..];
      KeepItem(areas, j, i, al.count);
      j := j + 1;
      i := i + 1;
    }
    assert s[..al.count] == s;
  }

  /** The item at position `i` goes to position `j`. */
  method KeepItem(areas: array<Item>, j: nat, i: nat, ghost count: nat)
    requires j <= i < count <= areas.Length
    modifies areas
    ensures areas[..j + 1] == old(areas[..j]) + [old(areas[i])]
    ensures areas[i + 1..count] == old(areas[i + 1..count])
  {
    if i != j {
      areas[j] := areas[i];
    }
  }

  lemma KeptNone(taken: set<string>)
    ensures Kept([], taken) == []
  {}

  /** What one item adds, and what is remembered of it. */
  lemma KeptNext(s: seq<Item>, i: nat, taken: set<string>, prev: Option<string>)
    requires i < |s| && Previous(s, i, taken, prev)
    ensures var again := prev.Some? && Stricmp(prev.value, s[i].tag) == 0;
            var found := Fold(s[i].tag) in taken;
            && Kept(s[..i + 1], taken) == Kept(s[..i], taken) + (if again || found then [] else [s[i]])
            && Previous(s, i + 1, taken, if again then prev else if found then None else Some(s[i].tag))
  {
    assert s[..i + 1][..i] == s[..i];
    if prev.Some? {
      StricmpFold(prev.value, s[i].tag);
    }
  }

  /** The tag looked at last, unless it is taken. */
  ghost predicate Previous(s: seq<Item>, i: nat, taken: set<string>, prev: Option<string>)
    requires i <= |s|
  {
    if i == 0 || Fold(s[i - 1].tag) in taken then prev == None
    else prev.Some? && Fold(prev.value) == Fold(s[i - 1].tag)
  }

  /** The lists of all uplinks, where each was left by a call of its own. */
  ghost predicate AllDeduped(before: seq<seq<Item>>, after: seq<seq<Item>>) {
    && |after| <= |before|
    && forall k :: 0 <= k < |after| ==> Deduped(before[k], AllTags(before[..k]), after[k])
  }

  /** Every tag is left once in all lists, in the first list that had it. */
  lemma {:induction false} OnlyEarliest(before: seq<seq<Item>>, after: seq<seq<Item>>)
    requires AllDeduped(before, after)
    ensures AllTags(after) == AllTags(before[..|after|])
    ensures forall j, k :: 0 <= j < k < |after| ==> Tags(after[j]) !! Tags(after[k])
  {
    hide Deduped, AllTags, Tags;
    if after == [] {
      assert before[..0] == [];
    } else {
      var n := |after| - 1;
      OnlyEarliest(before, after[..n]);
      assert after[..n + 1] == after;
      AllTagsNext(before, n);
      AllTagsNext(after, n);
      TagsLeft(before[n], AllTags(before[..n]), after[n]);
    }
    forall j, k | 0 <= j < k < |after| ensures Tags(after[j]) !! Tags(after[k]) {
      TagsLeft(before[j], AllTags(before[..j]), after[j]);
      TagsLeft(before[k], AllTags(before[..k]), after[k]);
      TagsWithin(before, j, k);
    }
  }

  lemma TagsLeft(before: seq<Item>, taken: set<string>, after: seq<Item>)
    requires Deduped(before, taken, after)
    ensures Tags(after) == Tags(before) - taken && StrictlyOrdered(after)
  {}

  lemma TagsWithin(lists: seq<seq<Item>>, j: nat, k: nat)
    requires j < k <= |lists|
    ensures Tags(lists[j]) <= AllTags(lists[..k])
  {
    hide Tags;
    AllTagsNext(lists, j);
    AllTagsPrefix(lists[..k], j + 1);
    assert lists[..k][..j + 1] == lists[..j + 1];
  }

  /** The first `n` lists are done, the others as they were. */
  ghost predicate SortedUpTo(hal: seq<AreaList>, n: nat, before: seq<seq<Item>>, after: seq<seq<Item>>)
    reads hal, set k | 0 <= k < |hal| :: hal[k].areas
  {
    && |after| == n <= |hal| == |before| && AllDeduped(before, after)
    && forall k :: 0 <= k < |hal| ==>
         && hal[k].Valid() && hal[k].Contents() == (if k < n then after[k] else before[k])
         && (k < n ==> StrictlyOrdered(after[k]))
  }

  method SortNext(hal: seq<AreaList>, n: nat, ghost before: seq<seq<Item>>, ghost after: seq<seq<Item>>)
    returns (ghost after': seq<seq<Item>>)
    requires n < |hal| && Apart(hal) && SortedUpTo(hal, n, before, after)
    modifies hal[n], hal[n].areas
    ensures Apart(hal) && SortedUpTo(hal, n + 1, before, after')
    ensures hal[n].areas == old(hal[n].areas) || fresh(hal[n].areas)
  {
    hide Deduped, AllTags, StrictlyOrdered;
    OnlyEarliest(before, after);
    assert hal[..n + 1][..n] == hal[..n];
    SortAreaListNoDupes(hal[..n + 1], after);
    after' := after + [hal[n].Contents()];
    TagsLeft(before[n], AllTags(after), hal[n].Contents());
  }

  /** One call for every uplink, in their order. */
  method SortUplinks(hal: seq<AreaList>, ghost before: seq<seq<Item>>) returns (ghost after: seq<seq<Item>>)
    requires Apart(hal) && |before| == |hal| && forall k :: 0 <= k < |hal| ==> hal[k].Contents() == before[k]
    modifies hal, set k | 0 <= k < |hal| :: hal[k].areas
    ensures Holds(hal, after) && AllDeduped(before, after)
  {
    after := [];
    for n := 0 to |hal|
      invariant Apart(hal) && SortedUpTo(hal, n, before, after)
      invariant forall k :: 0 <= k < |hal| ==> hal[k].areas == old(hal[k].areas) || fresh(hal[k].areas)
    {
      after := SortNext(hal, n, before, after);
    }
    assert hal[..|hal|] == hal;
  }
}
