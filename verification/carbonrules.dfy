/** Which rule every carbon record has, told from the statements alone, and what each statement does. */
module CarbonRules {
  import opened Text
  import opened Wrappers
  import opened Carbons

  /* ---- The rules of records ---- */

  /** The rule a word stands for, in upper or lower case. */
  function WordOf(st: Statement): Option<Rule> {
    if !st.RuleIs? || st.word == None then None
    else if Fold(st.word.value) == "and" then Some(Rule(true, false))
    else if Fold(st.word.value) == "or" then Some(Rule(false, false))
    else if Fold(st.word.value) == "not" then Some(Rule(true, true))
    else None
  }

  predicate IsCondition(st: Statement) {
    st.When? && st.condition != None
  }

  predicate IsAction(st: Statement) {
    st.AreaIs? || st.DeleteIt? || st.Extern?
  }

  /** The last statement is an action, and no error. */
  predicate LastActs(strip: Strip, sts: seq<Statement>)
    requires sts != []
  {
    var n := |sts| - 1;
    IsAction(sts[n]) && !Refused(Run(strip, sts[..n]), sts[n])
  }

  function Conditions(sts: seq<Statement>): nat {
    if sts == [] then 0
    else Conditions(sts[..|sts| - 1]) + if IsCondition(sts[|sts| - 1]) then 1 else 0
  }

  /** The rule in force for the next condition: that of the last word, or AND behind an action and at
      the beginning. */
  function InForce(strip: Strip, sts: seq<Statement>): Rule {
    if sts == [] || LastActs(strip, sts) then Rule(true, false)
    else
      var n := |sts| - 1;
      if WordOf(sts[n]).Some? then WordOf(sts[n]).value else InForce(strip, sts[..n])
  }

  /** The rule that was in force when the last condition came. */
  function Given(strip: Strip, sts: seq<Statement>): Rule
    requires Conditions(sts) > 0
  {
    var n := |sts| - 1;
    if IsCondition(sts[n]) then InForce(strip, sts[..n]) else Given(strip, sts[..n])
  }

  /** The last word behind the last condition. */
  function Behind(sts: seq<Statement>): Option<Rule> {
    if sts == [] || IsCondition(sts[|sts| - 1]) then None
    else
      var n := |sts| - 1;
      if WordOf(sts[n]).Some? then WordOf(sts[n]) else Behind(sts[..n])
  }

  /** An action closed the group behind the last condition. */
  predicate Ended(strip: Strip, sts: seq<Statement>) {
    sts != [] && !IsCondition(sts[|sts| - 1]) && (LastActs(strip, sts) || Ended(strip, sts[..|sts| - 1]))
  }

  /** The rule of the last record: of the rule given to it, NOT stays, and AND is what the last word
      behind it says, if there is one; the end of a group has no AND. */
  function LastRule(strip: Strip, sts: seq<Statement>): Rule
    requires Conditions(sts) > 0
  {
    var given, behind := Given(strip, sts), Behind(sts);
    Rule(!Ended(strip, sts) && (if behind.Some? then behind.value.and else given.and), given.not)
  }

  lemma WordsAreWords(st: Statement, s: State)
    requires st.RuleIs?
    ensures WordOf(st) == None <==> Refused(s, st)
    ensures st.word.Some? ==>
              && (IsWord(st.word.value, "AND") <==> Fold(st.word.value) == "and")
              && (IsWord(st.word.value, "OR") <==> Fold(st.word.value) == "or")
              && (IsWord(st.word.value, "NOT") <==> Fold(st.word.value) == "not")
  {
    if st.word.Some? {
      StricmpFold(st.word.value, "AND");
      StricmpFold(st.word.value, "OR");
      StricmpFold(st.word.value, "NOT");
      FoldAt("AND");
      FoldAt("OR");
      FoldAt("NOT");
    }
  }

  /** What the last statement does to the rules: only the last record can change its own, and a
      condition appends one. */
  lemma StepRules(strip: Strip, s: State, st: Statement)
    ensures var t, c := Step(strip, s, st), |s.carbons| - 1;
            && |t.carbons| == |s.carbons| + (if IsCondition(st) then 1 else 0)
            && (forall i :: 0 <= i < c ==> t.carbons[i].rule == s.carbons[i].rule)
            && (IsCondition(st) ==>
                  && t.rule == s.rule && t.carbons[c + 1].rule == s.rule && !HasAction(t.carbons[c + 1])
                  && (c >= 0 ==> t.carbons[c] == s.carbons[c]))
            && (IsAction(st) && !Refused(s, st) ==>
                  && t.rule == Rule(true, false) && c >= 0 && HasAction(t.carbons[c])
                  && t.carbons[c].rule == Rule(false, s.carbons[c].rule.not))
  {
    hide IsWord, PrevAction, HasCondition, Unquote;
  }

  lemma StepWords(strip: Strip, s: State, st: Statement)
    ensures var t, c := Step(strip, s, st), |s.carbons| - 1;
            !IsCondition(st) && !(IsAction(st) && !Refused(s, st)) ==>
              && t.rule == (if WordOf(st).Some? then WordOf(st).value else s.rule)
              && (c >= 0 ==>
                    && HasAction(t.carbons[c]) == HasAction(s.carbons[c])
                    && t.carbons[c].rule.not == s.carbons[c].rule.not
                    && t.carbons[c].rule.and == if WordOf(st) == None then s.carbons[c].rule.and
                                                else if !WordOf(st).value.and then false
                                                else s.carbons[c].rule.and || !HasAction(s.carbons[c]))
  {
    hide IsWord, PrevAction, HasCondition, Unquote, Fold;
    if st.RuleIs? {
      WordsAreWords(st, s);
    }
  }

  /** After any statements the last record has exactly this rule. */
  lemma {:induction false} LastRuleExactly(strip: Strip, sts: seq<Statement>)
    ensures var s := Run(strip, sts);
            && |s.carbons| == Conditions(sts) && s.rule == InForce(strip, sts)
            && (s.carbons != [] ==>
                  var last := s.carbons[|s.carbons| - 1];
                  last.rule == LastRule(strip, sts) && (HasAction(last) <==> Ended(strip, sts)))
  {
    hide Step, Refused, HasAction, WordOf;
    if sts == [] {
    } else {
      var n := |sts| - 1;
      LastRuleExactly(strip, sts[..n]);
      StepRules(strip, Run(strip, sts[..n]), sts[n]);
      StepWords(strip, Run(strip, sts[..n]), sts[n]);
      ConditionIsNoWord(sts[n]);
    }
  }

  lemma ConditionIsNoWord(st: Statement)
    ensures WordOf(st).Some? ==> !IsCondition(st) && !IsAction(st)
  {}

  /** In every run, every record has the rule that the statements up to the next condition give it,
      and keeps it from there on. */
  lemma {:induction false} RulesExactly(strip: Strip, sts: seq<Statement>, q: nat)
    requires q <= |sts| && Conditions(sts[..q]) > 0 && (q == |sts| || IsCondition(sts[q]))
    ensures var s, i := Run(strip, sts), Conditions(sts[..q]) - 1;
            i < |s.carbons| && s.carbons[i].rule == LastRule(strip, sts[..q])
    decreases |sts|
  {
    hide Step;
    LastRuleExactly(strip, sts);
    if q == |sts| {
      assert sts[..q] == sts;
    } else {
      var n := |sts| - 1;
      assert sts[..n][..q] == sts[..q];
      LastRuleExactly(strip, sts[..n]);
      LastRuleExactly(strip, sts[..q]);
      StepRules(strip, Run(strip, sts[..n]), sts[n]);
      if q < n {
        RulesExactly(strip, sts[..n], q);
        ConditionsGrow(sts[..n], q);
      }
    }
  }

  /** There is a record behind that of an earlier condition. */
  lemma {:induction false} ConditionsGrow(sts: seq<Statement>, q: nat)
    requires q < |sts| && IsCondition(sts[q])
    ensures Conditions(sts) > Conditions(sts[..q])
  {
    var n := |sts| - 1;
    if q < n {
      ConditionsGrow(sts[..n], q);
      assert sts[..n][..q] == sts[..q];
    }
  }

  /* ---- What each statement does ---- */

  /** The record can carry an action: it has a text, or an address with a zone. */
  predicate HasTest(c: Carbon) {
    c.str.Some? || c.addr.zone != 0
  }

  /** Which statements are errors, where the records fall into groups: an action needs an open group with a
      condition at its end, except that a deletion may be repeated. */
  lemma RefusedExactly(strip: Strip, s: State, st: Statement)
    requires Grouped(strip, s)
    ensures var c := |s.carbons| - 1;
            match st
            case RuleIs(word) => Refused(s, st) <==> WordOf(st) == None
            case When(condition) => Refused(s, st) <==> condition == None
            case Reason(text) => Refused(s, st) <==> text == None || c < 0 || !HasTest(s.carbons[c])
            case AreaIs(name, _) => Refused(s, st) <==> name == None || LastEnd(s) == c || !HasTest(s.carbons[c])
            case Extern(name, _) => Refused(s, st) <==> name == None || LastEnd(s) == c || !HasTest(s.carbons[c])
            case DeleteIt(extra) =>
              Refused(s, st)
              <==> extra || c < 0 || !HasTest(s.carbons[c]) || (LastEnd(s) == c && s.carbons[c].areaName != None)
  {
    hide IsWord;
    if st.RuleIs? {
      WordsAreWords(st, s);
    } else if s.carbons != [] {
      LastIsEndOrOpen(strip, s);
      if s.ends != [] {
        assert Closed(strip, s, |s.ends| - 1);
      }
    }
  }

  /** The records before the open group are as they were. */
  predicate EarlierStay(s: State, t: State) {
    |t.carbons| == |s.carbons| && forall i :: 0 <= i <= LastEnd(s) && i < |s.carbons| ==> t.carbons[i] == s.carbons[i]
  }

  /** A copy or move that is no error: the whole new state. */
  lemma AreaExactly(strip: Strip, s: State, name: string, moves: bool)
    requires Grouped(strip, s) && !Refused(s, AreaIs(Some(name), moves))
    ensures var t, c := Step(strip, s, AreaIs(Some(name), moves)), |s.carbons| - 1;
            var end, m := s.carbons[c], if moves then MoveTo else CopyTo;
            && t.rule == Rule(true, false) && t.ends == s.ends + [c] && EarlierStay(s, t)
            && t.carbons[c] == end.(areaName := Some(strip(name)), move := m, rule := Rule(false, end.rule.not))
            && forall i :: LastEnd(s) < i < c ==>
                 t.carbons[i] == s.carbons[i].(areaName := Some(strip(strip(name))), move := m,
                                               reason := if end.reason == None then s.carbons[i].reason
                                                         else Some(strip(end.reason.value)))
  {
    hide Closed;
    PrevIsLastEnd(strip, s);
  }

  /** A deletion that closes a group: it reaches its end and the records without any bit. */
  lemma DeleteExactly(strip: Strip, s: State)
    requires Grouped(strip, s) && !Refused(s, DeleteIt(false)) && LastEnd(s) < |s.carbons| - 1
    ensures var t, c := Step(strip, s, DeleteIt(false)), |s.carbons| - 1;
            && t.rule == Rule(true, false) && t.ends == s.ends + [c] && EarlierStay(s, t)
            && t.carbons[c] == s.carbons[c].(move := Delete, rule := Rule(false, s.carbons[c].rule.not))
            && forall i :: LastEnd(s) < i < c ==>
                 t.carbons[i] == s.carbons[i].(move := if s.carbons[i].rule == Rule(false, false) then Delete
                                                       else s.carbons[i].move)
  {
    PrevIsLastEnd(strip, s);
  }

  /** An external program: the same records get its name, and one record the flag. */
  lemma ExternExactly(strip: Strip, s: State, name: string, netMail: bool)
    requires Grouped(strip, s) && !Refused(s, Extern(Some(name), netMail))
    ensures var t, c := Step(strip, s, Extern(Some(name), netMail)), |s.carbons| - 1;
            var p := if LastEnd(s) >= 0 then LastEnd(s) else 0;
            && t.rule == Rule(true, false) && t.ends == s.ends + [c] && |t.carbons| == |s.carbons|
            && forall i :: 0 <= i <= c ==>
                 var r := s.carbons[i];
                 var u := if i == c then r.(areaName := Some(strip(name)), extspawn := true, move := CopyTo,
                                            rule := Rule(false, r.rule.not))
                          else if i > LastEnd(s) && r.rule == Rule(false, false) then
                            r.(areaName := Some(strip(name)), extspawn := true, move := CopyTo)
                          else r;
                 t.carbons[i] == if i == p then u.(netMail := netMail) else u
  {
    hide Closed, CloseOr, HasCondition;
    PrevIsLastEnd(strip, s);
    SpawnExactly(s, strip(name));
  }

  lemma SpawnExactly(s: State, name: string)
    requires s.carbons != [] && PrevAction(s.carbons, |s.carbons| - 1) == LastEnd(s)
    ensures var cs, c := CloseOr(s.carbons, Spawned(name)), |s.carbons| - 1;
            && |cs| == |s.carbons|
            && forall i :: 0 <= i <= c ==>
                 var r := s.carbons[i];
                 cs[i] == if i == c then r.(areaName := Some(name), extspawn := true, move := CopyTo,
                                            rule := Rule(false, r.rule.not))
                          else if i > LastEnd(s) && r.rule == Rule(false, false) then
                            r.(areaName := Some(name), extspawn := true, move := CopyTo)
                          else r
  {
    hide HasAction;
  }

  /** A condition is appended with the rule in force and no action; a reason goes to the last record. */
  lemma OthersExactly(strip: Strip, s: State, condition: Condition, text: string)
    ensures var t := Step(strip, s, When(Some(condition)));
            && t.rule == s.rule && t.ends == s.ends && t.carbons[..|s.carbons|] == s.carbons
            && |t.carbons| == |s.carbons| + 1
            && var c := t.carbons[|s.carbons|];
            && c.rule == s.rule && c.reason == c.areaName == None && c.move == CopyTo && !c.extspawn && !c.netMail
            && match condition
               case OfAddr(addr) => c.addr == addr && c.str == None
               case OfText(text) => c.addr.zone == 0 && c.str.Some? && IsUnquoted(text, c.str.value)
    ensures var c := |s.carbons| - 1;
            !Refused(s, Reason(Some(text))) ==>
              Step(strip, s, Reason(Some(text)))
              == s.(carbons := s.carbons[..c] + [s.carbons[c].(reason := Some(strip(text)))])
  {}

  /** One quote at each end is taken off; a single quote is both. */
  predicate IsUnquoted(text: string, u: string) {
    if text == "\"" then u == ""
    else if "\"" <= text && text[|text| - 1] == '"' then text == "\"" + u + "\""
    else u == text
  }
}
