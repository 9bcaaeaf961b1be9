/** The simple reflex agents driven by dictionary rules
    (lab_01/simple_reflex_agent.py and simple_reflex_agent.py at the
    repository root). A percept is turned into the tuple key
    (label, status); `rules` maps keys to rule numbers and `RULE_ACTION`
    maps rule numbers to actions, some of them deliberately bogus. The
    actuators are `VacuumWorld.Effect` on two squares. */
module RuleAgents {
  import opened Wrappers
  import opened VacuumWorld

  /** Labels of squares 0 to 3. */
  const Labels: seq<string> := ["A", "B", "C", "D"]

  /** `tuple(percept)`: the dictionary key of a percept. */
  function Key(p: Percept): seq<string>
    requires p.loc < |Labels|
  {
    [Labels[p.loc], Name(p.status)]
  }

  /** `RULE_MATCH`: `rules.get(tuple(state))`. */
  function RuleMatch(rules: map<seq<string>, int>, state: seq<string>): (r: Option<int>)
    ensures r.Some? <==> state in rules
    ensures r.Some? ==> r.value == rules[state]
  {
    if state in rules then Some(rules[state]) else None
  }

  /** lab_01/simple_reflex_agent.py: the rule base, with two composite keys
      no percept produces. */
  const Lab01Rules: map<seq<string>, int> :=
    map[["A", "Dirty"] := 1, ["B", "Dirty"] := 1, ["A", "Clean"] := 2, ["B", "Clean"] := 3,
        ["A", "B", "Clean"] := 4, ["B", "B", "Clean"] := 5]

  /** lab_01/simple_reflex_agent.py: rule numbers to actions; rule 5 is
      spelled with a non-breaking hyphen. */
  const Lab01RuleAction: map<int, string> :=
    map[1 := "Suck", 2 := "Left", 3 := "Right", 4 := "Crash", 5 := "Self\U{2011}destruct"]

  /** SIMPLE_REFLEX_AGENT of lab_01: `RULE_ACTION.get(rule, 'NoOp')`, so a
      percept without a rule gives NoOp. */
  function Lab01Agent(percept: seq<string>): string {
    match RuleMatch(Lab01Rules, percept)
    case None => "NoOp"
    case Some(r) => if r in Lab01RuleAction then Lab01RuleAction[r] else "NoOp"
  }

  /** What the lab_01 agent does on the four percepts of the two-square
      world: Suck on Dirty, the bogus Left on a clean A and Right on a clean
      B; anything else has no rule and gives NoOp. */
  lemma {:induction false} Lab01Choice(p: Percept, other: seq<string>)
    requires p.loc < 2
    ensures Lab01Agent(Key(p)) ==
      (if p.status == Dirty then "Suck" else if p.loc == 0 then "Left" else "Right")
    ensures other !in Lab01Rules ==> Lab01Agent(other) == "NoOp"
  {
  }

  /** The actuators protect the world from the lab_01 agent: the actions of
      rules 4 and 5 are not valid, and in the two-square world a step of the
      agent never moves the robot; the only change it can make is cleaning
      the robot's square. */
  lemma {:induction false} Lab01Safe(squares: seq<Status>, current: nat)
    requires |squares| == 2 && current < 2
    ensures Lab01RuleAction[4] !in ValidActions && Lab01RuleAction[5] !in ValidActions
    ensures Effect(squares, current, Lab01Agent(Key(Percept(current, squares[current])))) ==
      (squares[current := Clean], current)
  {
    Lab01Choice(Percept(current, squares[current]), []);
    if squares[current] == Clean {
      assert squares[current := Clean] == squares;
    }
  }

  /** simple_reflex_agent.py at the root: the same rule base. */
  const RootRules: map<seq<string>, int> := Lab01Rules

  /** simple_reflex_agent.py at the root: rule 5 with an ordinary hyphen. */
  const RootRuleAction: map<int, string> :=
    map[1 := "Suck", 2 := "Left", 3 := "Right", 4 := "Crash", 5 := "Self-destruct"]

  /** SIMPLE_REFLEX_AGENT at the root indexes `RULE_ACTION[rule]`, which
      raises KeyError when no rule matched; the caller must pass a percept
      with a rule. */
  function RootAgent(percept: seq<string>): string
    requires RuleMatch(RootRules, percept).Some?
  {
    RootRuleAction[RuleMatch(RootRules, percept).value]
  }

  /** Every percept of the two-square world has a rule, so the root agent
      is defined on all of them: Suck on Dirty, Left on a clean A, Right on
      a clean B. */
  lemma {:induction false} RootChoice(p: Percept)
    requires p.loc < 2
    ensures RuleMatch(RootRules, Key(p)).Some?
    ensures RootAgent(Key(p)) ==
      (if p.status == Dirty then "Suck" else if p.loc == 0 then "Left" else "Right")
  {
  }

  /** The bogus Left on A and Right on B are refused by the actuators, so
      a step of the root agent never moves the robot; the actions of rules
      4 and 5 are ignored as well. */
  lemma {:induction false} RootSafe(squares: seq<Status>, current: nat)
    requires |squares| == 2 && current < 2
    ensures RootRuleAction[4] !in ValidActions && RootRuleAction[5] !in ValidActions
    ensures RuleMatch(RootRules, Key(Percept(current, squares[current]))).Some?
    ensures Effect(squares, current, RootAgent(Key(Percept(current, squares[current])))) ==
      (squares[current := Clean], current)
  {
    RootChoice(Percept(current, squares[current]));
    if squares[current] == Clean {
      assert squares[current := Clean] == squares;
    }
  }
}
