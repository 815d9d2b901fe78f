/** Carbon rules: conditions joined by OR, AND and NOT into groups, and the action that closes a group. */
module Carbons {
  import opened Text
  import opened Wrappers
  import opened StatLinks

  /** How names and reasons are stored: the program takes characters off their ends. */
  type Strip = string -> string

  datatype Move = CopyTo | MoveTo | Delete

  /** The two bits of a rule; none of them means OR. */
  datatype Rule = Rule(and: bool, not: bool)

  const OR := Rule(false, false)
  const AND := Rule(true, false)
  const AND_NOT := Rule(true, true)

  datatype Carbon = Carbon(str: Option<string>, addr: Addr, reason: Option<string>, areaName: Option<string>,
                           netMail: bool, move: Move, extspawn: bool, rule: Rule)

  /** What a condition compares: a text or an address. */
  datatype Condition = OfText(text: string) | OfAddr(addr: Addr)

  datatype Statement =
    | RuleIs(word: Option<string>)
    | When(condition: Option<Condition>)
    | AreaIs(name: Option<string>, moves: bool)
    | DeleteIt(extra: bool)
    | Extern(name: Option<string>, netMail: bool)
    | Reason(text: Option<string>)

  /** The records, the rule for the next one, and for the record of what happened the places of the
      records that closed a group. */
  datatype State = State(carbons: seq<Carbon>, rule: Rule, ends: seq<nat>)

  const INITIAL := State([], AND, [])

  predicate HasAction(c: Carbon) {
    c.areaName != None || c.move == Delete
  }

  predicate HasCondition(c: Carbon) {
    c.str != None || c.addr.zone != 0
  }

  function Unquote(s: string): string {
    if s == "" || s[0] != '"' || s[|s| - 1] != '"' then s
    else if |s| == 1 then ""
    else s[1..|s| - 1]
  }

  /** The nearest record with an action before a place, or -1. */
  function PrevAction(cs: seq<Carbon>, c: nat): (r: int)
    requires c <= |cs|
    ensures -1 <= r < c && (r >= 0 ==> HasAction(cs[r]))
    ensures forall k :: r < k < c ==> !HasAction(cs[k])
  {
    if c == 0 || HasAction(cs[c - 1]) then c - 1 else PrevAction(cs, c - 1)
  }

  predicate IsWord(word: string, w: string) {
    Stricmp(word, w) == 0
  }

  /** Makes the last record go together with the next, unless it closes a group. */
  function Joined(cs: seq<Carbon>): seq<Carbon> {
    var c := |cs| - 1;
    if cs == [] || HasAction(cs[c]) then cs else cs[c := cs[c].(rule := Rule(true, cs[c].rule.not))]
  }

  function Parted(cs: seq<Carbon>): seq<Carbon> {
    var c := |cs| - 1;
    if cs == [] then cs else cs[c := cs[c].(rule := Rule(false, cs[c].rule.not))]
  }

  function NewCarbon(condition: Condition, rule: Rule): Carbon {
    var none := Addr(0, 0, 0, 0);
    match condition
    case OfText(text) => Carbon(Some(Unquote(text)), none, None, None, false, CopyTo, false, rule)
    case OfAddr(addr) => Carbon(None, addr, None, None, false, CopyTo, false, rule)
  }

  /** A copy or move: the last record gets the action, and so do all those before it back to the
      previous action. They get what is stored in the last record, which is stripped once more. */
  function CloseArea(strip: Strip, cs: seq<Carbon>, name: string, move: Move): seq<Carbon>
    requires cs != []
  {
    var c := |cs| - 1;
    var prev := PrevAction(cs, c);
    seq(|cs|, i requires 0 <= i < |cs| =>
      if i == c then cs[c].(areaName := Some(strip(name)), move := move, rule := Rule(false, cs[c].rule.not))
      else if i > prev then
        cs[i].(areaName := Some(strip(strip(name))), move := move,
               reason := if cs[c].reason == None then cs[i].reason else Some(strip(cs[c].reason.value)))
      else cs[i])
  }

  /** A deletion or an external program: of the records before the last only those with rule OR. */
  function CloseOr(cs: seq<Carbon>, act: Carbon -> Carbon): seq<Carbon>
    requires cs != []
  {
    var c := |cs| - 1;
    var prev := PrevAction(cs, c);
    seq(|cs|, i requires 0 <= i < |cs| =>
      if i == c then act(cs[c]).(rule := Rule(false, cs[c].rule.not))
      else if i > prev && cs[i].rule == OR then act(cs[i])
      else cs[i])
  }

  function Deleted(): Carbon -> Carbon {
    (c: Carbon) => c.(move := Delete)
  }

  function Spawned(name: string): Carbon -> Carbon {
    (c: Carbon) => c.(areaName := Some(name), extspawn := true, move := CopyTo)
  }

  /** The record whose netmail flag an external program sets: where the walk back stopped. */
  function FlagPlace(cs: seq<Carbon>): (p: nat)
    requires cs != []
    ensures p < |cs|
  {
    var prev := PrevAction(cs, |cs| - 1);
    if prev >= 0 then prev else 0
  }

  function CloseExtern(cs: seq<Carbon>, name: string, netMail: bool): seq<Carbon>
    requires cs != []
  {
    var cs', p := CloseOr(cs, Spawned(name)), FlagPlace(cs);
    cs'[p := cs'[p].(netMail := netMail)]
  }

  function NewEnds(s: State): seq<nat>
    requires s.carbons != []
  {
    var c := |s.carbons| - 1;
    if HasAction(s.carbons[c]) then s.ends else s.ends + [c]
  }

  /** The statements that are errors. A deletion may be repeated, no other action may follow one. */
  predicate Refused(s: State, st: Statement) {
    var cs, c := s.carbons, |s.carbons| - 1;
    match st
    case RuleIs(word) =>
      word == None || !(IsWord(word.value, "NOT") || IsWord(word.value, "OR") || IsWord(word.value, "AND"))
    case When(condition) => condition == None
    case AreaIs(name, moves) => name == None || cs == [] || !HasCondition(cs[c]) || HasAction(cs[c]) || cs[c].extspawn
    case DeleteIt(extra) => extra || cs == [] || !HasCondition(cs[c]) || cs[c].areaName != None || cs[c].extspawn
    case Extern(name, netMail) => name == None || cs == [] || !HasCondition(cs[c]) || HasAction(cs[c]) || cs[c].extspawn
    case Reason(text) => text == None || cs == [] || !HasCondition(cs[c])
  }

  /** One statement of the configuration. */
  function Step(strip: Strip, s: State, st: Statement): State {
    var cs := s.carbons;
    if Refused(s, st) then s else
    match st
    case RuleIs(word) =>
      if IsWord(word.value, "NOT") then s.(rule := AND_NOT, carbons := Joined(cs))
      else if IsWord(word.value, "OR") then s.(rule := OR, carbons := Parted(cs))
      else s.(rule := AND, carbons := Joined(cs))
    case When(condition) => s.(carbons := cs + [NewCarbon(condition.value, s.rule)])
    case AreaIs(name, moves) =>
      State(CloseArea(strip, cs, name.value, if moves then MoveTo else CopyTo), AND, NewEnds(s))
    case DeleteIt(extra) => State(CloseOr(cs, Deleted()), AND, NewEnds(s))
    case Extern(name, netMail) => State(CloseExtern(cs, strip(name.value), netMail), AND, NewEnds(s))
    case Reason(text) => s.(carbons := cs[|cs| - 1 := cs[|cs| - 1].(reason := Some(strip(text.value)))])
  }

  function Run(strip: Strip, statements: seq<Statement>): State {
    if statements == [] then INITIAL
    else Step(strip, Run(strip, statements[..|statements| - 1]), statements[|statements| - 1])
  }

  /* ---- Groups ---- */

  function LastEnd(s: State): int {
    if s.ends == [] then -1 else s.ends[|s.ends| - 1]
  }

  /** Where the group closed by the `k`-th action begins. */
  function Begin(s: State, k: nat): nat
    requires k < |s.ends|
  {
    if k == 0 then 0 else s.ends[k - 1] + 1
  }

  /** What a record before the end of a group has of the action of that end. */
  predicate Follows(strip: Strip, c: Carbon, end: Carbon) {
    if end.extspawn then
      if c.rule == OR then c.areaName == end.areaName && c.extspawn && c.move == CopyTo
      else !HasAction(c) && !c.extspawn
    else if end.move == Delete then
      !c.extspawn && c.areaName == None && (c.move == Delete <==> c.rule == OR)
    else
      && end.areaName != None && c.areaName == Some(strip(end.areaName.value))
      && c.move == end.move && !c.extspawn
  }

  predicate Closed(strip: Strip, s: State, k: nat)
    requires k < |s.ends| && s.ends[k] < |s.carbons|
  {
    var end := s.carbons[s.ends[k]];
    && HasAction(end) && !end.rule.and && (end.extspawn ==> end.areaName != None && end.move == CopyTo)
    && forall i :: Begin(s, k) <= i < s.ends[k] ==> Follows(strip, s.carbons[i], end)
  }

  /** The records fall into closed groups and one open group. The end of a closed group is never
      joined to what comes behind it; the open group has no action yet. */
  predicate Grouped(strip: Strip, s: State) {
    && (forall k :: 0 <= k < |s.ends| ==> s.ends[k] < |s.carbons|)
    && (forall j, k :: 0 <= j < k < |s.ends| ==> s.ends[j] < s.ends[k])
    && (forall k :: 0 <= k < |s.ends| ==> Closed(strip, s, k))
    && (forall i :: LastEnd(s) < i < |s.carbons| ==>
          !HasAction(s.carbons[i]) && !s.carbons[i].extspawn && !s.carbons[i].netMail)
  }

  lemma PrevIsLastEnd(strip: Strip, s: State)
    requires Grouped(strip, s) && s.carbons != [] && !HasAction(s.carbons[|s.carbons| - 1])
    ensures PrevAction(s.carbons, |s.carbons| - 1) == LastEnd(s) < |s.carbons| - 1
  {
    if s.ends != [] {
      assert Closed(strip, s, |s.ends| - 1);
    }
  }

  /** Up to the last end nothing but reasons and flags differs. */
  predicate SameClosed(s: State, t: State) {
    && |s.carbons| <= |t.carbons| && LastEnd(s) < |s.carbons|
    && forall i :: 0 <= i <= LastEnd(s) ==>
         t.carbons[i] == s.carbons[i].(reason := t.carbons[i].reason, netMail := t.carbons[i].netMail)
  }

  lemma ClosedStays(strip: Strip, s: State, t: State, k: nat)
    requires Grouped(strip, s) && SameClosed(s, t) && k < |s.ends| <= |t.ends| && t.ends[..|s.ends|] == s.ends
    ensures t.ends[k] == s.ends[k] && Closed(strip, t, k)
  {
    assert Closed(strip, s, k);
    assert t.ends[k] == t.ends[..|s.ends|][k] && s.ends[k] <= LastEnd(s);
    assert k > 0 ==> t.ends[k - 1] == t.ends[..|s.ends|][k - 1];
    forall i | Begin(t, k) <= i < t.ends[k] ensures Follows(strip, t.carbons[i], t.carbons[t.ends[k]]) {
      assert Follows(strip, s.carbons[i], s.carbons[s.ends[k]]);
    }
  }

  /** Records behind the last end may change their rules and reasons; the groups stay as they are. */
  lemma GroupsStay(strip: Strip, s: State, t: State)
    requires Grouped(strip, s) && t.ends == s.ends && SameClosed(s, t)
    requires forall i :: LastEnd(s) < i < |t.carbons| ==>
               !HasAction(t.carbons[i]) && !t.carbons[i].extspawn && !t.carbons[i].netMail
    ensures Grouped(strip, t)
  {
    hide Closed, SameClosed, HasAction;
    forall k | 0 <= k < |t.ends| ensures t.ends[k] < |t.carbons| && Closed(strip, t, k) {
      SameLength(s, t);
      ClosedStays(strip, s, t, k);
    }
  }

  /** Closing the open group. */
  lemma GroupCloses(strip: Strip, s: State, t: State)
    requires Grouped(strip, s) && s.carbons != [] && |t.carbons| == |s.carbons| && SameClosed(s, t)
    requires LastEnd(s) < |s.carbons| - 1 && t.ends == s.ends + [|s.carbons| - 1]
    requires Closed(strip, t, |s.ends|)
    ensures Grouped(strip, t)
  {
    hide Closed, SameClosed, HasAction;
    forall k | 0 <= k < |s.ends| ensures Closed(strip, t, k) {
      ClosedStays(strip, s, t, k);
    }
  }

  lemma SameLength(s: State, t: State)
    requires SameClosed(s, t)
    ensures |s.carbons| <= |t.carbons|
  {}

  lemma LastIsEndOrOpen(strip: Strip, s: State)
    requires Grouped(strip, s) && s.carbons != []
    ensures var c := |s.carbons| - 1;
            if HasAction(s.carbons[c]) then s.ends != [] && LastEnd(s) == c && !s.carbons[c].rule.and
            else LastEnd(s) < c
  {
    if s.ends != [] {
      assert Closed(strip, s, |s.ends| - 1);
    }
  }

  lemma RuleKeepsGroups(strip: Strip, s: State, word: Option<string>)
    requires Grouped(strip, s)
    ensures Grouped(strip, Step(strip, s, RuleIs(word)))
  {
    hide IsWord;
    if s.carbons != [] {
      LastIsEndOrOpen(strip, s);
      GroupsStay(strip, s, Step(strip, s, RuleIs(word)));
    }
  }

  lemma AreaKeepsGroups(strip: Strip, s: State, name: Option<string>, moves: bool)
    requires Grouped(strip, s)
    ensures Grouped(strip, Step(strip, s, AreaIs(name, moves)))
  {
    if !Refused(s, AreaIs(name, moves)) {
      var t := State(CloseArea(strip, s.carbons, name.value, if moves then MoveTo else CopyTo), AND, NewEnds(s));
      PrevIsLastEnd(strip, s);
      AreaCloses(strip, s, name.value, if moves then MoveTo else CopyTo);
      hide CloseArea, Closed, Grouped;
      GroupCloses(strip, s, t);
    }
  }

  lemma AreaCloses(strip: Strip, s: State, name: string, move: Move)
    requires s.carbons != [] && !HasAction(s.carbons[|s.carbons| - 1]) && move != Delete
    requires forall i :: LastEnd(s) < i < |s.carbons| ==> !s.carbons[i].extspawn
    requires PrevAction(s.carbons, |s.carbons| - 1) == LastEnd(s) < |s.carbons| - 1
    ensures var t := State(CloseArea(strip, s.carbons, name, move), AND, NewEnds(s));
            && t.ends == s.ends + [|s.carbons| - 1] && |t.carbons| == |s.carbons|
            && Closed(strip, t, |s.ends|) && SameClosed(s, t)
  {
    var c := |s.carbons| - 1;
    var t := State(CloseArea(strip, s.carbons, name, move), AND, NewEnds(s));
    forall i | Begin(t, |s.ends|) <= i < c ensures Follows(strip, t.carbons[i], t.carbons[c]) {
      assert i > LastEnd(s);
    }
  }

  lemma DeleteKeepsGroups(strip: Strip, s: State, extra: bool)
    requires Grouped(strip, s)
    ensures Grouped(strip, Step(strip, s, DeleteIt(extra)))
  {
    var t, c := Step(strip, s, DeleteIt(extra)), |s.carbons| - 1;
    if t != s {
      LastIsEndOrOpen(strip, s);
      if HasAction(s.carbons[c]) {
        DeletedTwice(strip, s);
        GroupsStay(strip, s, t);
      } else {
        PrevIsLastEnd(strip, s);
        assert Closed(strip, t, |s.ends|);
        GroupCloses(strip, s, t);
      }
    }
  }

  /** A second deletion finds its group marked already. */
  lemma DeletedTwice(strip: Strip, s: State)
    requires Grouped(strip, s) && s.carbons != [] && s.carbons[|s.carbons| - 1].move == Delete
    ensures CloseOr(s.carbons, Deleted()) == s.carbons
  {
    var c := |s.carbons| - 1;
    LastIsEndOrOpen(strip, s);
    var k := |s.ends| - 1;
    assert Closed(strip, s, k) && s.ends[k] == c;
    var prev := PrevAction(s.carbons, c);
    if k > 0 {
      assert Closed(strip, s, k - 1);
    }
    forall i | prev < i < c ensures s.carbons[i].rule != OR {
      assert Follows(strip, s.carbons[i], s.carbons[c]);
    }
  }

  lemma ExternKeepsGroups(strip: Strip, s: State, name: Option<string>, netMail: bool)
    requires Grouped(strip, s)
    ensures Grouped(strip, Step(strip, s, Extern(name, netMail)))
  {
    var t := Step(strip, s, Extern(name, netMail));
    if t != s {
      var closed := State(CloseOr(s.carbons, Spawned(strip(name.value))), AND, NewEnds(s));
      SpawnKeepsGroups(strip, s, strip(name.value));
      hide CloseOr, Closed;
      GroupsStay(strip, closed, t);
    }
  }

  lemma SpawnKeepsGroups(strip: Strip, s: State, name: string)
    requires Grouped(strip, s) && s.carbons != [] && !HasAction(s.carbons[|s.carbons| - 1])
    ensures Grouped(strip, State(CloseOr(s.carbons, Spawned(name)), AND, NewEnds(s)))
  {
    var t := State(CloseOr(s.carbons, Spawned(name)), AND, NewEnds(s));
    PrevIsLastEnd(strip, s);
    assert Closed(strip, t, |s.ends|);
    GroupCloses(strip, s, t);
  }

  lemma StepKeepsGroups(strip: Strip, s: State, st: Statement)
    requires Grouped(strip, s)
    ensures Grouped(strip, Step(strip, s, st))
  {
    hide Step;
    match st
    case RuleIs(word) => RuleKeepsGroups(strip, s, word);
    case AreaIs(name, moves) => AreaKeepsGroups(strip, s, name, moves);
    case DeleteIt(extra) => DeleteKeepsGroups(strip, s, extra);
    case Extern(name, netMail) => ExternKeepsGroups(strip, s, name, netMail);
    case When(condition) => OthersKeepGroups(strip, s, st);
    case Reason(text) => OthersKeepGroups(strip, s, st);
  }

  lemma OthersKeepGroups(strip: Strip, s: State, st: Statement)
    requires Grouped(strip, s) && (st.When? || st.Reason?)
    ensures Grouped(strip, Step(strip, s, st))
  {
    if s.carbons != [] {
      LastIsEndOrOpen(strip, s);
    }
    GroupsStay(strip, s, Step(strip, s, st));
  }

  /** Whatever the statements are, the records are grouped. */
  lemma {:induction false} RunKeepsGroups(strip: Strip, statements: seq<Statement>)
    ensures Grouped(strip, Run(strip, statements))
  {
    hide Grouped, Step;
    if statements == [] {
      NoGroups(strip);
    } else {
      RunKeepsGroups(strip, statements[..|statements| - 1]);
      StepKeepsGroups(strip, Run(strip, statements[..|statements| - 1]), statements[|statements| - 1]);
    }
  }

  lemma NoGroups(strip: Strip)
    ensures Grouped(strip, INITIAL)
  {}

  /** An action changes only records behind the previous action; the flag of an external program is
      the exception. */
  lemma ActionStaysInGroup(strip: Strip, s: State, st: Statement)
    requires Grouped(strip, s) && (st.AreaIs? || st.DeleteIt? || st.Extern?)
    ensures var t := Step(strip, s, st);
            && |t.carbons| == |s.carbons|
            && forall i :: 0 <= i <= LastEnd(s) ==>
                 t.carbons[i] == s.carbons[i].(netMail := t.carbons[i].netMail)
                 && (!st.Extern? ==> t.carbons[i] == s.carbons[i])
  {
    hide Grouped, Closed, PrevAction, HasCondition, Joined, Parted, NewCarbon, IsWord;
    var c := |s.carbons| - 1;
    if s.carbons != [] {
      LastIsEndOrOpen(strip, s);
      if HasAction(s.carbons[c]) {
        if s.carbons[c].move == Delete {
          DeletedTwice(strip, s);
        }
      } else {
        PrevIsLastEnd(strip, s);
      }
    }
  }

  /** All records of a copy or move group have the area of its end exactly when there is no other record
      or when stripping that name again leaves it as it is. */
  lemma SameAreaExactly(strip: Strip, s: State, k: nat)
    requires Grouped(strip, s) && k < |s.ends|
    requires !s.carbons[s.ends[k]].extspawn && s.carbons[s.ends[k]].move != Delete
    ensures var end := s.carbons[s.ends[k]];
            && end.areaName != None
            && ((forall i :: Begin(s, k) <= i <= s.ends[k] ==> s.carbons[i].areaName == end.areaName)
                <==> Begin(s, k) == s.ends[k] || strip(end.areaName.value) == end.areaName.value)
  {
    var end := s.carbons[s.ends[k]];
    assert Closed(strip, s, k);
    assert k > 0 ==> s.ends[k - 1] < s.ends[k];
    forall i | Begin(s, k) <= i < s.ends[k] ensures s.carbons[i].areaName == Some(strip(end.areaName.value)) {
      assert Follows(strip, s.carbons[i], end);
    }
    if Begin(s, k) < s.ends[k] {
      assert s.carbons[Begin(s, k)].areaName == Some(strip(end.areaName.value));
    }
  }

  /** A deletion or an external program reaches every record of its group that ends a conjunction,
      exactly when none of them before the last is negated: `NOT .. OR` is passed over, because the
      test is for a rule without any bit instead of one without the AND bit. */
  lemma ReachedUnlessNegated(strip: Strip, s: State, k: nat)
    requires Grouped(strip, s) && k < |s.ends|
    requires s.carbons[s.ends[k]].extspawn || s.carbons[s.ends[k]].move == Delete
    ensures (forall i :: Begin(s, k) <= i <= s.ends[k] && !s.carbons[i].rule.and ==> HasAction(s.carbons[i]))
            <==> (forall i :: Begin(s, k) <= i < s.ends[k] ==> s.carbons[i].rule != Rule(false, true))
  {
    assert Closed(strip, s, k);
    forall i | Begin(s, k) <= i < s.ends[k]
      ensures s.carbons[i].rule == OR <==> HasAction(s.carbons[i])
    {
      assert Follows(strip, s.carbons[i], s.carbons[s.ends[k]]);
    }
  }

  /** Such a group. */
  lemma NegatedIsPassedOver(strip: Strip, x: Condition, y: Condition)
    requires HasCondition(NewCarbon(y, OR))
    ensures var s := Run(strip, [RuleIs(Some("NOT")), When(Some(x)), RuleIs(Some("OR")), When(Some(y)),
                                 DeleteIt(false)]);
            && s.ends == [1] && |s.carbons| == 2 && s.carbons[1].move == Delete
            && s.carbons[0].rule == Rule(false, true) && !HasAction(s.carbons[0])
  {
    hide Run, Step;
    var n, u, o, v, d := RuleIs(Some("NOT")), When(Some(x)), RuleIs(Some("OR")), When(Some(y)), DeleteIt(false);
    RunNone(strip);
    RunNext(strip, [], n);
    RunNext(strip, [n], u);
    RunNext(strip, [n, u], o);
    RunNext(strip, [n, u, o], v);
    RunNext(strip, [n, u, o, v], d);
    assert [] + [n] == [n] && [n] + [u] == [n, u] && [n, u] + [o] == [n, u, o];
    assert [n, u, o] + [v] == [n, u, o, v] && [n, u, o, v] + [d] == [n, u, o, v, d];
    NegatedSteps(strip, x, y);
  }

  lemma NegatedSteps(strip: Strip, x: Condition, y: Condition)
    requires HasCondition(NewCarbon(y, OR))
    ensures var s0 := Step(strip, INITIAL, RuleIs(Some("NOT")));
            var s1 := Step(strip, s0, When(Some(x)));
            var s2 := Step(strip, s1, RuleIs(Some("OR")));
            var s3 := Step(strip, s2, When(Some(y)));
            Step(strip, s3, DeleteIt(false))
            == State([NewCarbon(x, Rule(false, true)), NewCarbon(y, OR).(move := Delete)], AND, [1])
  {
    StricmpReflexive("NOT");
    StricmpReflexive("OR");
    assert Stricmp("OR", "NOT") != 0;
    hide Stricmp;
    var a, b := NewCarbon(x, Rule(false, true)), NewCarbon(y, OR);
    var s0 := Step(strip, INITIAL, RuleIs(Some("NOT")));
    assert s0 == State([], AND_NOT, []);
    var s1 := Step(strip, s0, When(Some(x)));
    assert s1 == State([NewCarbon(x, AND_NOT)], AND_NOT, []);
    var s2 := Step(strip, s1, RuleIs(Some("OR")));
    assert s2 == State([a], OR, []);
    var s3 := Step(strip, s2, When(Some(y)));
    assert s3 == State([a, b], OR, []);
    assert CloseOr([a, b], Deleted()) == [a, b.(move := Delete)];
  }

  lemma RunNone(strip: Strip)
    ensures Run(strip, []) == INITIAL
  {}

  lemma RunNext(strip: Strip, statements: seq<Statement>, st: Statement)
    ensures Run(strip, statements + [st]) == Step(strip, Run(strip, statements), st)
  {
    assert (statements + [st])[..|statements|] == statements;
  }

  /** The flag of an external program reaches its own record exactly when that is the first of all;
      otherwise it goes to the record that closed the group before, or else to the first. */
  lemma FlagGoesBack(strip: Strip, s: State, name: string, netMail: bool)
    requires Grouped(strip, s) && !Refused(s, Extern(Some(name), netMail))
    ensures var t, c := Step(strip, s, Extern(Some(name), netMail)), |s.carbons| - 1;
            var p := if s.ends == [] then 0 else LastEnd(s);
            && t.carbons[c].areaName == Some(strip(name)) && t.carbons[c].extspawn
            && 0 <= p <= c && t.carbons[p].netMail == netMail
            && t.carbons[c].netMail == (netMail && c == 0)
  {
    PrevIsLastEnd(strip, s);
  }

  /** Such a run: the flag of the second group lands on the record that closed the first. */
  lemma FlagOnOtherGroup(strip: Strip, x: Condition, y: Condition, name: string)
    requires HasCondition(NewCarbon(x, AND)) && HasCondition(NewCarbon(y, AND))
    ensures var s := Run(strip, [When(Some(x)), DeleteIt(false), When(Some(y)), Extern(Some(name), true)]);
            && s.ends == [0, 1] && |s.carbons| == 2
            && s.carbons[1].extspawn && !s.carbons[1].netMail && s.carbons[0].netMail
  {
    hide Run, Step;
    var u, d, v, e := When(Some(x)), DeleteIt(false), When(Some(y)), Extern(Some(name), true);
    RunNone(strip);
    RunNext(strip, [], u);
    RunNext(strip, [u], d);
    RunNext(strip, [u, d], v);
    RunNext(strip, [u, d, v], e);
    assert [] + [u] == [u] && [u] + [d] == [u, d] && [u, d] + [v] == [u, d, v] && [u, d, v] + [e] == [u, d, v, e];
    FlagSteps(strip, x, y, name);
  }

  lemma FlagSteps(strip: Strip, x: Condition, y: Condition, name: string)
    requires HasCondition(NewCarbon(x, AND)) && HasCondition(NewCarbon(y, AND))
    ensures var s0 := Step(strip, INITIAL, When(Some(x)));
            var s1 := Step(strip, s0, DeleteIt(false));
            var s2 := Step(strip, s1, When(Some(y)));
            var s := Step(strip, s2, Extern(Some(name), true));
            && s.ends == [0, 1] && |s.carbons| == 2
            && s.carbons[1].extspawn && !s.carbons[1].netMail && s.carbons[0].netMail
  {
    var a, b := NewCarbon(x, AND).(move := Delete, rule := OR), NewCarbon(y, AND);
    var s0 := Step(strip, INITIAL, When(Some(x)));
    assert s0 == State([NewCarbon(x, AND)], AND, []);
    var s1 := Step(strip, s0, DeleteIt(false));
    assert CloseOr([NewCarbon(x, AND)], Deleted()) == [a];
    assert s1 == State([a], AND, [0]);
    var s2 := Step(strip, s1, When(Some(y)));
    assert s2 == State([a, b], AND, [0]);
    var b' := b.(areaName := Some(strip(name)), extspawn := true, move := CopyTo, rule := OR);
    assert CloseOr([a, b], Spawned(strip(name))) == [a, b'];
  }
}
