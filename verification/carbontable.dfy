/** The table of carbon records as the configuration parser builds it, with its walks back. */
module CarbonTable {
  import opened Wrappers
  import opened Carbons

  class Table {
    const strip: Strip
    var carbons: seq<Carbon>
    var carbonRule: Rule
    ghost var ends: seq<nat>

    ghost function State(): Carbons.State
      reads this
    {
      Carbons.State(carbons, carbonRule, ends)
    }

    ghost predicate Valid()
      reads this
    {
      Grouped(strip, State())
    }

    constructor (strip: Strip)
      ensures Valid() && State() == INITIAL && this.strip == strip
    {
      this.strip := strip;
      carbons, carbonRule, ends := [], AND, [];
    }

    method ParseCarbonRule(token: Option<string>) returns (failed: bool)
      requires Valid()
      modifies this
      ensures Valid() && failed == Refused(old(State()), RuleIs(token))
      ensures State() == Step(strip, old(State()), RuleIs(token))
    {
      RuleKeepsGroups(strip, State(), token);
      hide Grouped, IsWord;
      if token == None {
        return true;
      }
      var c := |carbons| - 1;
      if IsWord(token.value, "NOT") {
        carbonRule := AND_NOT;
        if c >= 0 && !HasAction(carbons[c]) {
          carbons := carbons[c := carbons[c].(rule := carbons[c].rule.(and := true))];
        }
      } else if IsWord(token.value, "OR") {
        carbonRule := OR;
        if c >= 0 {
          carbons := carbons[c := carbons[c].(rule := carbons[c].rule.(and := false))];
        }
      } else if IsWord(token.value, "AND") {
        carbonRule := AND;
        if c >= 0 && !HasAction(carbons[c]) {
          carbons := carbons[c := carbons[c].(rule := carbons[c].rule.(and := true))];
        }
      } else {
        return true;
      }
      failed := false;
    }

    method ParseCarbon(condition: Option<Condition>) returns (failed: bool)
      requires Valid()
      modifies this
      ensures Valid() && failed == Refused(old(State()), When(condition))
      ensures State() == Step(strip, old(State()), When(condition))
    {
      OthersKeepGroups(strip, State(), When(condition));
      hide Grouped;
      failed := condition == None;
      if !failed {
        carbons := carbons + [NewCarbon(condition.value, carbonRule)];
      }
    }

    /** Copy or move. */
    method ParseCarbonArea(token: Option<string>, moves: bool) returns (failed: bool)
      requires Valid()
      modifies this
      ensures Valid() && failed == Refused(old(State()), AreaIs(token, moves))
      ensures State() == Step(strip, old(State()), AreaIs(token, moves))
    {
      AreaKeepsGroups(strip, State(), token, moves);
      hide Grouped;
      var c := |carbons| - 1;
      if token == None || c < 0 || !HasCondition(carbons[c]) || carbons[c].move == Delete || carbons[c].extspawn
         || carbons[c].areaName != None {
        return true;
      }
      var move := if moves then MoveTo else CopyTo;
      ghost var cs := carbons;
      ends := NewEnds(State());
      carbonRule := AND;
      carbons := carbons[c := carbons[c].(areaName := Some(strip(token.value)), move := move,
                                          rule := carbons[c].rule.(and := false))];
      WalkArea(cs, token.value, move);
      failed := false;
    }

    /** The walk back to the previous action, behind the record that got the action. */
    method WalkArea(ghost cs: seq<Carbon>, ghost name: string, move: Move)
      requires cs != [] && |carbons| == |cs|
      requires var c := |cs| - 1;
               carbons == cs[c := cs[c].(areaName := Some(strip(name)), move := move,
                                        rule := Rule(false, cs[c].rule.not))]
      modifies this`carbons
      ensures carbons == CloseArea(strip, cs, name, move)
    {
      var c := |carbons| - 1;
      ghost var prev := PrevAction(cs, c);
      var areaName, reason := carbons[c].areaName.value, carbons[c].reason;
      var cb := c;
      while cb > 0
        invariant prev < cb <= c && |carbons| == |cs|
        invariant forall i :: 0 <= i < |cs| ==>
                    carbons[i] == if i >= cb then CloseArea(strip, cs, name, move)[i] else cs[i]
      {
        if HasAction(carbons[cb - 1]) {
          break;
        }
        cb := cb - 1;
        carbons := carbons[cb := carbons[cb].(areaName := Some(strip(areaName)), move := move)];
        if reason != None {
          carbons := carbons[cb := carbons[cb].(reason := Some(strip(reason.value)))];
        }
      }
      assert cb == prev + 1;
    }

    method ParseCarbonDelete(extra: bool) returns (failed: bool)
      requires Valid()
      modifies this
      ensures Valid() && failed == Refused(old(State()), DeleteIt(extra))
      ensures State() == Step(strip, old(State()), DeleteIt(extra))
    {
      DeleteKeepsGroups(strip, State(), extra);
      hide Grouped;
      var c := |carbons| - 1;
      if extra || c < 0 || !HasCondition(carbons[c]) || carbons[c].extspawn || carbons[c].areaName != None {
        return true;
      }
      ghost var cs := carbons;
      ends := NewEnds(State());
      carbonRule := AND;
      carbons := carbons[c := carbons[c].(move := Delete, rule := carbons[c].rule.(and := false))];
      var _ := WalkOr(cs, Deleted());
      failed := false;
    }

    /** The walk back for a deletion or an external program. It returns where it stopped. */
    method WalkOr(ghost cs: seq<Carbon>, act: Carbon -> Carbon) returns (cb: nat)
      requires cs != [] && |carbons| == |cs|
      requires var c := |cs| - 1;
               carbons == cs[c := act(cs[c]).(rule := Rule(false, cs[c].rule.not))]
      modifies this`carbons
      ensures carbons == CloseOr(cs, act) && cb == FlagPlace(cs)
    {
      var c := |carbons| - 1;
      ghost var prev := PrevAction(cs, c);
      cb := c;
      while cb > 0
        invariant prev < cb <= c && |carbons| == |cs|
        invariant forall i :: 0 <= i < |cs| ==> carbons[i] == if i >= cb then CloseOr(cs, act)[i] else cs[i]
      {
        cb := cb - 1;
        if HasAction(carbons[cb]) {
          assert cb == prev;
          return;
        }
        if carbons[cb].rule == OR {
          carbons := carbons[cb := act(carbons[cb])];
        }
      }
    }

    method ParseCarbonExtern(token: Option<string>, netMail: bool) returns (failed: bool)
      requires Valid()
      modifies this
      ensures Valid() && failed == Refused(old(State()), Extern(token, netMail))
      ensures State() == Step(strip, old(State()), Extern(token, netMail))
    {
      ExternKeepsGroups(strip, State(), token, netMail);
      hide Grouped;
      var c := |carbons| - 1;
      if token == None || c < 0 || !HasCondition(carbons[c]) || carbons[c].extspawn || carbons[c].areaName != None
         || carbons[c].move == Delete {
        return true;
      }
      ghost var cs := carbons;
      ends := NewEnds(State());
      carbonRule := AND;
      carbons := carbons[c := carbons[c].(areaName := Some(strip(token.value)), extspawn := true, move := CopyTo,
                                          rule := carbons[c].rule.(and := false))];
      var cb := WalkOr(cs, Spawned(strip(token.value)));
      carbons := carbons[cb := carbons[cb].(netMail := netMail)];
      failed := false;
    }

    method ParseCarbonReason(token: Option<string>) returns (failed: bool)
      requires Valid()
      modifies this
      ensures Valid() && failed == Refused(old(State()), Reason(token))
      ensures State() == Step(strip, old(State()), Reason(token))
    {
      OthersKeepGroups(strip, State(), Reason(token));
      hide Grouped;
      var c := |carbons| - 1;
      if token == None || c < 0 || !HasCondition(carbons[c]) {
        return true;
      }
      carbons := carbons[c := carbons[c].(reason := Some(strip(token.value)))];
      failed := false;
    }
  }
}
