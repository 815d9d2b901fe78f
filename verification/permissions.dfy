/** Access of links to areas: what the link and the area allow, and the ordered rules that forbid
    import or export, applied to all areas at once or to one new link. */
module Permissions {
  import opened Wrappers
  import opened StatLinks

  /** A rule names areas and links by masks. A mask of areas that begins with an exclamation mark
      allows what other rules forbid. */
  datatype Rule = Rule(areaMask: string, addrMask: string)

  /** How the program matches an area name and the text of an address against a mask. */
  datatype Patterns = Patterns(area: (string, string) -> bool, addr: (Addr, string) -> bool)

  datatype Config = Config(readOnly: seq<Rule>, writeOnly: seq<Rule>, publicGroups: seq<Option<string>>,
                           masks: Patterns)

  /** What the configuration says about a link. */
  datatype Link = Link(aka: Addr, level: int, areaTypesPaused: set<AreaType>,
                       aexport: bool, imports: bool, mandatory: bool, manual: bool, denyRescan: bool,
                       optGroups: seq<Option<string>>, accessGroups: seq<Option<string>>,
                       rescanGroups: seq<Option<string>>)

  datatype AreaType = EchoArea | FileArea

  class AreaLink {
    const link: Link
    var aexport: bool
    var imports: bool
    var mandatory: bool
    var manual: bool
    var rescan: bool

    constructor (link: Link)
      ensures this.link == link
    {
      this.link := link;
    }
  }

  /** What the configuration says about an area. */
  datatype AreaInfo = AreaInfo(name: string, areaType: AreaType, group: Option<string>, passthrough: bool,
                               levelRead: int, levelWrite: int, mandatory: bool, manual: bool, noPause: bool)

  class Area {
    const info: AreaInfo
    var downlinks: seq<AreaLink>

    constructor (info: AreaInfo)
      ensures downlinks == [] && this.info == info
    {
      this.info, downlinks := info, [];
    }
  }

  /* ---- Rules ---- */

  predicate Exempts(r: Rule) {
    r.areaMask != "" && r.areaMask[0] == '!'
  }

  predicate Matches(m: Patterns, r: Rule, area: string, aka: Addr) {
    m.area(area, if Exempts(r) then r.areaMask[1..] else r.areaMask) && m.addr(aka, r.addrMask)
  }

  /** The permission after all rules, in their order. */
  function Verdict(m: Patterns, rules: seq<Rule>, area: string, aka: Addr, before: bool): bool {
    if rules == [] then before
    else
      var last := |rules| - 1;
      if Matches(m, rules[last], area, aka) then Exempts(rules[last])
      else Verdict(m, rules[..last], area, aka, before)
  }

  /** The last rule that matches decides; without any, the permission stays. */
  lemma {:induction false} VerdictIsLastMatch(m: Patterns, rules: seq<Rule>, area: string, aka: Addr, before: bool,
                                              k: nat)
    requires k < |rules| && Matches(m, rules[k], area, aka)
    requires forall j :: k < j < |rules| ==> !Matches(m, rules[j], area, aka)
    ensures Verdict(m, rules, area, aka, before) == Exempts(rules[k])
  {
    if k == |rules| - 1 {
    } else {
      VerdictIsLastMatch(m, rules[..|rules| - 1], area, aka, before, k);
    }
  }

  lemma {:induction false} VerdictNoMatch(m: Patterns, rules: seq<Rule>, area: string, aka: Addr, before: bool)
    requires forall j :: 0 <= j < |rules| ==> !Matches(m, rules[j], area, aka)
    ensures Verdict(m, rules, area, aka, before) == before
  {
    if rules == [] {
    } else {
      VerdictNoMatch(m, rules[..|rules| - 1], area, aka, before);
    }
  }

  /** Applying the rules again changes nothing. */
  lemma {:induction false} VerdictIdempotent(m: Patterns, rules: seq<Rule>, area: string, aka: Addr, before: bool)
    ensures var v := Verdict(m, rules, area, aka, before);
            Verdict(m, rules, area, aka, v) == v
  {
    if rules != [] && !Matches(m, rules[|rules| - 1], area, aka) {
      VerdictIdempotent(m, rules[..|rules| - 1], area, aka, before);
    }
  }

  /* ---- All areas at once ---- */

  /** The permissions of a link of an area, as a value. */
  datatype Perm = Perm(aka: Addr, imports: bool, exports: bool)

  ghost function Perms(area: Area): seq<Perm>
    reads area, area.downlinks
  {
    seq(|area.downlinks|, i requires 0 <= i < |area.downlinks| reads area, area.downlinks =>
      Perm(area.downlinks[i].link.aka, area.downlinks[i].imports, area.downlinks[i].aexport))
  }

  function Judged(c: Config, area: string, p: Perm): Perm {
    Perm(p.aka, Verdict(c.masks, c.readOnly, area, p.aka, p.imports),
         Verdict(c.masks, c.writeOnly, area, p.aka, p.exports))
  }

  predicate Hits(m: Patterns, mask: string, addrMask: string, area: string, aka: Addr) {
    m.area(area, mask) && m.addr(aka, addrMask)
  }

  /** What one more rule does, whatever the others are: behind an exclamation mark its mask allows
      exactly what it matches, and without one it forbids that. */
  lemma OneMoreRule(m: Patterns, rules: seq<Rule>, mask: string, addrMask: string, area: string, aka: Addr,
                    before: bool)
    ensures Verdict(m, [], area, aka, before) == before
    ensures Verdict(m, rules + [Rule("!" + mask, addrMask)], area, aka, before)
            == (Hits(m, mask, addrMask, area, aka) || Verdict(m, rules, area, aka, before))
    ensures !("!" <= mask) ==>
              Verdict(m, rules + [Rule(mask, addrMask)], area, aka, before)
              == (!Hits(m, mask, addrMask, area, aka) && Verdict(m, rules, area, aka, before))
  {
    var allow, forbid := Rule("!" + mask, addrMask), Rule(mask, addrMask);
    assert (rules + [allow])[..|rules|] == rules && (rules + [forbid])[..|rules|] == rules;
    assert ("!" + mask)[1..] == mask;
    assert mask != "" && mask[0] == '!' ==> mask[..1] == "!";
  }

  /** The rules of `readOnly` are about import and those of `writeOnly` about export. */
  lemma OneMoreJudges(c: Config, mask: string, addrMask: string, area: string, p: Perm)
    ensures var hit, q := Hits(c.masks, mask, addrMask, area, p.aka), Judged(c, area, p);
            !("!" <= mask) ==>
              && Judged(c.(readOnly := c.readOnly + [Rule(mask, addrMask)]), area, p)
                 == q.(imports := q.imports && !hit)
              && Judged(c.(writeOnly := c.writeOnly + [Rule(mask, addrMask)]), area, p)
                 == q.(exports := q.exports && !hit)
    ensures var hit, q := Hits(c.masks, mask, addrMask, area, p.aka), Judged(c, area, p);
            && Judged(c.(readOnly := c.readOnly + [Rule("!" + mask, addrMask)]), area, p)
               == q.(imports := q.imports || hit)
            && Judged(c.(writeOnly := c.writeOnly + [Rule("!" + mask, addrMask)]), area, p)
               == q.(exports := q.exports || hit)
            && Judged(c.(readOnly := [], writeOnly := []), area, p) == p
  {
    hide Verdict, Hits;
    OneMoreRule(c.masks, c.readOnly, mask, addrMask, area, p.aka, p.imports);
    OneMoreRule(c.masks, c.writeOnly, mask, addrMask, area, p.aka, p.exports);
  }

  function Batch(c: Config, area: string, perms: seq<Perm>): seq<Perm> {
    seq(|perms|, i requires 0 <= i < |perms| => Judged(c, area, perms[i]))
  }

  predicate Settled(c: Config, area: string, perms: seq<Perm>) {
    Batch(c, area, perms) == perms
  }

  lemma BatchSettles(c: Config, area: string, perms: seq<Perm>)
    ensures Settled(c, area, Batch(c, area, perms))
  {
    forall i | 0 <= i < |perms|
      ensures Judged(c, area, Judged(c, area, perms[i])) == Judged(c, area, perms[i])
    {
      var p := perms[i];
      VerdictIdempotent(c.masks, c.readOnly, area, p.aka, p.imports);
      VerdictIdempotent(c.masks, c.writeOnly, area, p.aka, p.exports);
    }
  }

  /** One more link judged alone gives what judging all gives, exactly when the others are settled. */
  lemma JudgedAlone(c: Config, area: string, perms: seq<Perm>, p: Perm)
    ensures Settled(c, area, perms) <==> Batch(c, area, perms + [p]) == perms + [Judged(c, area, p)]
    ensures Settled(c, area, perms) ==> Settled(c, area, perms + [Judged(c, area, p)])
  {
    var whole := Batch(c, area, perms + [p]);
    assert whole == Batch(c, area, perms) + [Judged(c, area, p)];
    assert whole[..|perms|] == Batch(c, area, perms);
    if Settled(c, area, perms) {
      BatchSettles(c, area, perms + [p]);
    } else {
      assert (perms + [Judged(c, area, p)])[..|perms|] == perms;
    }
  }

  /** Every area has links of its own. */
  ghost predicate Apart(areas: seq<Area>)
    reads areas
  {
    forall i, j, l :: 0 <= i < j < |areas| && l in areas[i].downlinks ==> l !in areas[j].downlinks
  }

  ghost function Links(areas: seq<Area>): set<AreaLink>
    reads areas
  {
    set a, l | a in areas && l in a.downlinks :: l
  }

  /** Sets the import permission of the links of an area that match a mask. */
  method SetImports(m: Patterns, area: Area, addrMask: string, value: bool)
    modifies area.downlinks`imports
    ensures forall l :: l in area.downlinks ==>
              l.imports == if m.addr(l.link.aka, addrMask) then value else old(l.imports)
  {
    for i := 0 to |area.downlinks|
      invariant forall l :: l in area.downlinks ==>
                  l.imports == if l in area.downlinks[..i] && m.addr(l.link.aka, addrMask) then value
                          else old(l.imports)
    {
      var dlink := area.downlinks[i];
      if m.addr(dlink.link.aka, addrMask) {
        dlink.imports := value;
      }
      assert area.downlinks[..i + 1] == area.downlinks[..i] + [dlink];
    }
    assert area.downlinks[..|area.downlinks|] == area.downlinks;
  }

  method SetExports(m: Patterns, area: Area, addrMask: string, value: bool)
    modifies area.downlinks`aexport
    ensures forall l :: l in area.downlinks ==>
              l.aexport == if m.addr(l.link.aka, addrMask) then value else old(l.aexport)
  {
    for i := 0 to |area.downlinks|
      invariant forall l :: l in area.downlinks ==>
                  l.aexport == if l in area.downlinks[..i] && m.addr(l.link.aka, addrMask) then value
                          else old(l.aexport)
    {
      var dlink := area.downlinks[i];
      if m.addr(dlink.link.aka, addrMask) {
        dlink.aexport := value;
      }
      assert area.downlinks[..i + 1] == area.downlinks[..i] + [dlink];
    }
    assert area.downlinks[..|area.downlinks|] == area.downlinks;
  }

  /** One rule for all areas. */
  method ForbidImport(m: Patterns, rule: Rule, areas: seq<Area>)
    requires Apart(areas)
    modifies Links(areas)`imports
    ensures forall a, l :: a in areas && l in a.downlinks ==>
              l.imports == if Matches(m, rule, a.info.name, l.link.aka) then Exempts(rule) else old(l.imports)
  {
    var mask := if Exempts(rule) then rule.areaMask[1..] else rule.areaMask;
    for n := 0 to |areas|
      invariant forall k, l :: 0 <= k < |areas| && l in areas[k].downlinks ==>
                  l.imports == if k < n && Matches(m, rule, areas[k].info.name, l.link.aka) then Exempts(rule)
                               else old(l.imports)
    {
      if m.area(areas[n].info.name, mask) {
        assert areas[n].downlinks == old(areas[n].downlinks);
        assert forall l :: l in areas[n].downlinks ==> l in old(Links(areas));
        SetImports(m, areas[n], rule.addrMask, Exempts(rule));
      }
    }
  }

  method ForbidExport(m: Patterns, rule: Rule, areas: seq<Area>)
    requires Apart(areas)
    modifies Links(areas)`aexport
    ensures forall a, l :: a in areas && l in a.downlinks ==>
              l.aexport == if Matches(m, rule, a.info.name, l.link.aka) then Exempts(rule) else old(l.aexport)
  {
    var mask := if Exempts(rule) then rule.areaMask[1..] else rule.areaMask;
    for n := 0 to |areas|
      invariant forall k, l :: 0 <= k < |areas| && l in areas[k].downlinks ==>
                  l.aexport == if k < n && Matches(m, rule, areas[k].info.name, l.link.aka) then Exempts(rule)
                               else old(l.aexport)
    {
      if m.area(areas[n].info.name, mask) {
        assert areas[n].downlinks == old(areas[n].downlinks);
        assert forall l :: l in areas[n].downlinks ==> l in old(Links(areas));
        SetExports(m, areas[n], rule.addrMask, Exempts(rule));
      }
    }
  }

  /** Rule after rule for all areas: every link of every area ends with the verdict of the rules
      about that area and that link. */
  method ProcessAreaPermissions(config: Config, areas: seq<Area>)
    requires Apart(areas)
    modifies Links(areas)`imports, Links(areas)`aexport
    ensures forall a :: a in areas ==> Perms(a) == Batch(config, a.info.name, old(Perms(a)))
  {
    hide Matches;
    var rules := config.readOnly;
    for i := 0 to |rules|
      invariant forall a, l :: a in areas && l in a.downlinks ==>
                  && l.aexport == old(l.aexport)
                  && l.imports == Verdict(config.masks, rules[..i], a.info.name, l.link.aka, old(l.imports))
    {
      ForbidImport(config.masks, rules[i], areas);
      assert rules[..i + 1][..i] == rules[..i];
    }
    assert rules[..|rules|] == rules;
    rules := config.writeOnly;
    for i := 0 to |rules|
      invariant forall a, l :: a in areas && l in a.downlinks ==>
                  && l.imports == Verdict(config.masks, config.readOnly, a.info.name, l.link.aka, old(l.imports))
                  && l.aexport == Verdict(config.masks, rules[..i], a.info.name, l.link.aka, old(l.aexport))
    {
      ForbidExport(config.masks, rules[i], areas);
      assert rules[..i + 1][..i] == rules[..i];
    }
    assert rules[..|rules|] == rules;
    forall a | a in areas ensures Perms(a) == Batch(config, a.info.name, old(Perms(a))) {
      forall i | 0 <= i < |a.downlinks| ensures Perms(a)[i] == Batch(config, a.info.name, old(Perms(a)))[i] {
        assert a.downlinks[i] in a.downlinks;
      }
    }
  }
}
