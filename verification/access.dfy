/** The access a link gets when it joins an area, and joining and leaving. */
module LinkAccess {
  import opened Wrappers
  import opened StatLinks
  import opened Permissions

  method GrpInArray(group: Option<string>, groups: seq<Option<string>>) returns (found: bool)
    ensures found <==> group != None && group in groups
  {
    if group == None {
      return false;
    }
    for i := 0 to |groups|
      invariant group !in groups[..i]
    {
      if groups[i].Some? && group.value == groups[i].value {
        return true;
      }
    }
    assert groups[..|groups|] == groups;
    found := false;
  }

  predicate InGroups(group: Option<string>, groups: seq<Option<string>>) {
    group != None && group in groups
  }

  /** A link gets what its settings say, in all areas or only in those of its optional groups. */
  predicate Applies(a: AreaInfo, l: Link) {
    l.optGroups == [] || InGroups(a.group, l.optGroups)
  }

  /** An area without a group is open to all; one with a group is open where no groups are listed,
      neither the public ones nor those of the link, or where one of these lists names the group. */
  predicate GroupOpen(c: Config, a: AreaInfo, l: Link) {
    || a.group == None
    || (l.accessGroups == [] && c.publicGroups == [])
    || InGroups(a.group, l.accessGroups) || InGroups(a.group, c.publicGroups)
  }

  /** What a link may do in an area before the rules. */
  predicate MayImport(c: Config, a: AreaInfo, l: Link) {
    (Applies(a, l) ==> l.imports) && a.levelWrite <= l.level && GroupOpen(c, a, l)
  }

  predicate MayExport(c: Config, a: AreaInfo, l: Link) {
    && (Applies(a, l) ==> l.aexport) && a.levelRead <= l.level && GroupOpen(c, a, l)
    && (a.areaType in l.areaTypesPaused ==> a.noPause)
  }

  /** The setting of the link holds everywhere, or, where it lists groups for rescans, in their areas;
      in all other areas the opposite holds. */
  predicate MayRescan(a: AreaInfo, l: Link) {
    && !a.passthrough
    && (l.denyRescan <==> l.rescanGroups != [] && !InGroups(a.group, l.rescanGroups))
  }

  /** The groups of the area are listed and name it, or are not listed. */
  predicate Lists(groups: seq<Option<string>>, group: Option<string>) {
    exists i :: 0 <= i < |groups| && groups[i].Some? && group.Some? && groups[i].value == group.value
  }

  lemma InGroupsExactly(group: Option<string>, groups: seq<Option<string>>)
    ensures InGroups(group, groups) <==> Lists(groups, group)
  {
    if Lists(groups, group) {
      var i :| 0 <= i < |groups| && groups[i].Some? && group.Some? && groups[i].value == group.value;
      assert groups[i] == group;
    }
  }

  /** The link is kept out by its group: some groups are listed, and neither list names that of the area. */
  predicate Foreign(c: Config, a: AreaInfo, l: Link) {
    && a.group.Some? && |l.accessGroups| + |c.publicGroups| > 0
    && !Lists(l.accessGroups, a.group) && !Lists(c.publicGroups, a.group)
  }

  /** All reasons for which a link may not do something in an area, before the rules. */
  lemma AccessDenied(c: Config, a: AreaInfo, l: Link)
    ensures var own := |l.optGroups| == 0 || Lists(l.optGroups, a.group);
            && (Applies(a, l) <==> own)
            && (!MayImport(c, a, l) <==> (own && !l.imports) || a.levelWrite > l.level || Foreign(c, a, l))
            && (!MayExport(c, a, l) <==> || (own && !l.aexport) || a.levelRead > l.level || Foreign(c, a, l)
                                         || (a.areaType in l.areaTypesPaused && !a.noPause))
    ensures !MayRescan(a, l)
            <==> a.passthrough || if |l.rescanGroups| == 0 || Lists(l.rescanGroups, a.group) then l.denyRescan
                                  else !l.denyRescan
  {
    hide InGroups, Lists;
    InGroupsExactly(a.group, l.optGroups);
    InGroupsExactly(a.group, l.accessGroups);
    InGroupsExactly(a.group, c.publicGroups);
    InGroupsExactly(a.group, l.rescanGroups);
  }

  method GetLinkRescanAccess(a: AreaInfo, l: Link) returns (rescan: bool)
    ensures rescan == MayRescan(a, l)
  {
    rescan := false;
    if !a.passthrough {
      if l.rescanGroups != [] {
        rescan := l.denyRescan;
        var listed := GrpInArray(a.group, l.rescanGroups);
        if listed {
          rescan := !l.denyRescan;
        }
      } else {
        rescan := !l.denyRescan;
      }
    }
  }

  /** Sets the access of a link step by step, from the defaults to the restrictions. */
  method SetLinkAccess(c: Config, area: Area, arealink: AreaLink)
    modifies arealink
    ensures arealink.imports == MayImport(c, area.info, arealink.link)
    ensures arealink.aexport == MayExport(c, area.info, arealink.link)
    ensures arealink.mandatory
            <==> area.info.mandatory || (Applies(area.info, arealink.link) && arealink.link.mandatory)
    ensures arealink.manual <==> area.info.manual || (Applies(area.info, arealink.link) && arealink.link.manual)
    ensures arealink.rescan == MayRescan(area.info, arealink.link)
  {
    hide Applies, GroupOpen, MayRescan;
    var a, link := area.info, arealink.link;
    TakeSettings(a, arealink);
    arealink.rescan := GetLinkRescanAccess(a, link);
    if a.mandatory {
      arealink.mandatory := true;
    }
    if a.manual {
      arealink.manual := true;
    }
    Restrict(c, a, arealink);
  }

  method Restrict(c: Config, a: AreaInfo, arealink: AreaLink)
    modifies arealink`imports, arealink`aexport
    ensures var l := arealink.link;
            && arealink.imports == (old(arealink.imports) && a.levelWrite <= l.level && GroupOpen(c, a, l))
            && arealink.aexport == (old(arealink.aexport) && a.levelRead <= l.level && GroupOpen(c, a, l)
                                    && (a.areaType in l.areaTypesPaused ==> a.noPause))
  {
    hide GroupOpen;
    var link := arealink.link;
    if a.levelRead > link.level || (a.areaType in link.areaTypesPaused && !a.noPause) {
      arealink.aexport := false;
    }
    if a.levelWrite > link.level {
      arealink.imports := false;
    }
    var open := IsGroupOpen(c, a, link);
    if !open {
      arealink.aexport, arealink.imports := false, false;
    }
  }

  method TakeSettings(a: AreaInfo, arealink: AreaLink)
    modifies arealink
    ensures var l := arealink.link;
            && (arealink.aexport <==> (Applies(a, l) ==> l.aexport))
            && (arealink.imports <==> (Applies(a, l) ==> l.imports))
            && (arealink.mandatory <==> Applies(a, l) && l.mandatory)
            && (arealink.manual <==> Applies(a, l) && l.manual)
  {
    var link := arealink.link;
    var takes := true;
    if link.optGroups != [] {
      arealink.aexport, arealink.imports, arealink.mandatory, arealink.manual := true, true, false, false;
      takes := GrpInArray(a.group, link.optGroups);
    }
    if takes {
      arealink.aexport, arealink.imports := link.aexport, link.imports;
      arealink.mandatory, arealink.manual := link.mandatory, link.manual;
    }
  }

  method IsGroupOpen(c: Config, a: AreaInfo, l: Link) returns (open: bool)
    ensures open == GroupOpen(c, a, l)
  {
    open := true;
    if a.group != None {
      if l.accessGroups != [] {
        open := GrpInArray(a.group, l.accessGroups);
        if !open && c.publicGroups != [] {
          open := GrpInArray(a.group, c.publicGroups);
        }
      } else if c.publicGroups != [] {
        open := GrpInArray(a.group, c.publicGroups);
      }
    }
  }

  /* ---- Joining and leaving an area ---- */

  /** The permissions a link starts with. */
  function Granted(c: Config, a: AreaInfo, l: Link): Perm {
    Perm(l.aka, MayImport(c, a, l), MayExport(c, a, l))
  }

  /** The verdict of the rules about one link, rule after rule. */
  method JudgeImport(c: Config, area: Area, arealink: AreaLink)
    modifies arealink`imports
    ensures arealink.imports == Verdict(c.masks, c.readOnly, area.info.name, arealink.link.aka, old(arealink.imports))
  {
    hide Matches;
    var rules := c.readOnly;
    for i := 0 to |rules|
      invariant arealink.imports
                == Verdict(c.masks, rules[..i], area.info.name, arealink.link.aka, old(arealink.imports))
    {
      if Matches(c.masks, rules[i], area.info.name, arealink.link.aka) {
        arealink.imports := Exempts(rules[i]);
      }
      assert rules[..i + 1][..i] == rules[..i];
    }
    assert rules[..|rules|] == rules;
  }

  method JudgeExport(c: Config, area: Area, arealink: AreaLink)
    modifies arealink`aexport
    ensures arealink.aexport == Verdict(c.masks, c.writeOnly, area.info.name, arealink.link.aka, old(arealink.aexport))
  {
    hide Matches;
    var rules := c.writeOnly;
    for i := 0 to |rules|
      invariant arealink.aexport
                == Verdict(c.masks, rules[..i], area.info.name, arealink.link.aka, old(arealink.aexport))
    {
      if Matches(c.masks, rules[i], area.info.name, arealink.link.aka) {
        arealink.aexport := Exempts(rules[i]);
      }
      assert rules[..i + 1][..i] == rules[..i];
    }
    assert rules[..|rules|] == rules;
  }

  /** A link joins an area while the program runs. Only its own permissions are judged; the area is
      then as if the rules were applied again to all its links, exactly when they had been. */
  method AddLink(c: Config, link: Link, area: Area)
    modifies area
    ensures exists l :: fresh(l) && area.downlinks == old(area.downlinks) + [l] && l.link == link
    ensures Perms(area) == old(Perms(area)) + [Judged(c, area.info.name, Granted(c, area.info, link))]
    ensures old(Settled(c, area.info.name, Perms(area)))
            <==> Perms(area) == Batch(c, area.info.name, old(Perms(area)) + [Granted(c, area.info, link)])
    ensures old(Settled(c, area.info.name, Perms(area))) ==> Settled(c, area.info.name, Perms(area))
  {
    hide Verdict, MayImport, MayExport;
    var arealink := new AreaLink(link);
    area.downlinks := area.downlinks + [arealink];
    SetLinkAccess(c, area, arealink);
    JudgeImport(c, area, arealink);
    JudgeExport(c, area, arealink);
    JudgedAlone(c, area.info.name, old(Perms(area)), Granted(c, area.info, link));
  }

  /** The first link of an area with this address, or the number of links. */
  ghost function Place(downlinks: seq<AreaLink>, aka: Addr): (i: nat)
    ensures i <= |downlinks| && (i < |downlinks| ==> downlinks[i].link.aka == aka)
    ensures forall k :: 0 <= k < i ==> downlinks[k].link.aka != aka
  {
    if downlinks == [] || downlinks[0].link.aka == aka then 0 else 1 + Place(downlinks[1..], aka)
  }

  method IsAreaLink(aka: Addr, area: Area) returns (i: int)
    ensures i == var p := Place(area.downlinks, aka); if p < |area.downlinks| then p else -1
  {
    for k := 0 to |area.downlinks|
      invariant forall j :: 0 <= j < k ==> area.downlinks[j].link.aka != aka
    {
      if area.downlinks[k].link.aka == aka {
        return k;
      }
    }
    i := -1;
  }

  /** The links without the one at a place, which the last takes. */
  ghost function Left(downlinks: seq<AreaLink>, aka: Addr): seq<AreaLink> {
    var p, last := Place(downlinks, aka), |downlinks| - 1;
    if p > last then downlinks else downlinks[p := downlinks[last]][..last]
  }

  /** A link leaves an area: the last link takes its place. */
  method RemoveLink(link: Link, area: Area)
    modifies area
    ensures area.downlinks == Left(old(area.downlinks), link.aka)
  {
    var i := IsAreaLink(link.aka, area);
    if i != -1 {
      var last := |area.downlinks| - 1;
      area.downlinks := area.downlinks[i := area.downlinks[last]];
      area.downlinks := area.downlinks[..last];
    }
  }

  /** Leaving undoes joining exactly when no link had the address before. */
  lemma RemoveUndoesAdd(downlinks: seq<AreaLink>, l: AreaLink)
    requires l !in downlinks
    ensures Left(downlinks + [l], l.link.aka) == downlinks
            <==> forall k :: 0 <= k < |downlinks| ==> downlinks[k].link.aka != l.link.aka
  {
    var p := Place(downlinks + [l], l.link.aka);
    if p < |downlinks| {
      assert Left(downlinks + [l], l.link.aka)[p] == l;
      assert downlinks[p] in downlinks;
      assert (downlinks + [l])[p] == downlinks[p];
    } else {
      assert forall k :: 0 <= k < |downlinks| ==> (downlinks + [l])[k] == downlinks[k];
      assert (downlinks + [l])[|downlinks|] == l;
    }
  }

  /** Leaving takes away one link with the address and keeps all others. */
  lemma LeftKeepsOthers(downlinks: seq<AreaLink>, aka: Addr)
    ensures var p := Place(downlinks, aka);
            multiset(Left(downlinks, aka))
            == if p < |downlinks| then multiset(downlinks) - multiset{downlinks[p]} else multiset(downlinks)
    ensures var p, left := Place(downlinks, aka), Left(downlinks, aka);
            forall k :: 0 <= k < |left| ==> left[k] == if k == p then downlinks[|downlinks| - 1] else downlinks[k]
  {
    var p := Place(downlinks, aka);
    if p < |downlinks| {
      LastMoved(downlinks, p);
    }
  }

  lemma LastMoved<T>(s: seq<T>, p: nat)
    requires p < |s|
    ensures multiset(s[p := s[|s| - 1]][..|s| - 1]) == multiset(s) - multiset{s[p]}
  {
    var last := s[|s| - 1];
    var d := s[p := last];
    assert d == d[..|s| - 1] + [last];
    assert multiset(d) == multiset(d[..|s| - 1]) + multiset{last};
    assert multiset(d) == multiset(s) - multiset{s[p]} + multiset{last};
    Cancel(multiset(d[..|s| - 1]), multiset(s) - multiset{s[p]}, last);
  }

  lemma Cancel<T>(a: multiset<T>, b: multiset<T>, x: T)
    requires a + multiset{x} == b + multiset{x}
    ensures a == b
  {
    assert a == a + multiset{x} - multiset{x};
  }
}
