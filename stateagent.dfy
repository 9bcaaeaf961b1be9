/** The reflex agent with state of reflex_agent_with_state.py at the
    repository root, in the four-square world A-B-C-D. The agent records
    each percept in its `model` (initially unknown for every square); once
    the model holds all four squares Clean its state becomes the key
    (A, B, C, D, 'Clean'), otherwise the state is the percept itself. The
    state selects a rule and the rule an action. */
module StateAgent {
  import opened Wrappers
  import opened VacuumWorld
  import opened RuleAgents

  /** The state (A, B, C, D, 'Clean'). */
  const AllCleanState: seq<string> := ["A", "B", "C", "D", "Clean"]

  const Rules: map<seq<string>, int> :=
    map[["A", "Dirty"] := 1, ["B", "Dirty"] := 1, ["C", "Dirty"] := 1, ["D", "Dirty"] := 1,
        ["A", "Clean"] := 2, ["B", "Clean"] := 2, ["C", "Clean"] := 2, ["D", "Clean"] := 3,
        AllCleanState := 4]

  const RuleAction: map<int, string> := map[1 := "Suck", 2 := "Right", 3 := "Left", 4 := "NoOp"]

  /** The model holds all four squares Clean. */
  predicate KnownClean(model: seq<Option<Status>>) {
    |model| == 4 && forall i :: 0 <= i < 4 ==> model[i] == Some(Clean)
  }

  /** The state UPDATE_STATE returns, given the updated model. */
  function NewState(model: seq<Option<Status>>, p: Percept): (s: seq<string>)
    requires p.loc < 4
    ensures s == AllCleanState <==> KnownClean(model)
    ensures s in Rules
  {
    if KnownClean(model) then AllCleanState else Key(p)
  }

  /** `RULE_ACTION[RULE_MATCH(state, rules)]`: the lookups never fail,
      since every state UPDATE_STATE can return has a rule. */
  function Choose(model: seq<Option<Status>>, p: Percept): string
    requires p.loc < 4
  {
    RuleAction[RuleMatch(Rules, NewState(model, p)).value]
  }

  /** For a model that holds the percept: NoOp iff the model holds every
      square Clean; otherwise Suck on a Dirty square, Right on a clean A, B
      or C and Left on a clean D. */
  lemma {:induction false} ChooseMeaning(model: seq<Option<Status>>, p: Percept)
    requires p.loc < 4 && |model| == 4 && model[p.loc] == Some(p.status)
    ensures Choose(model, p) == "NoOp" <==> KnownClean(model)
    ensures !KnownClean(model) ==>
      Choose(model, p) == (if p.status == Dirty then "Suck" else if p.loc < 3 then "Right" else "Left")
    ensures p.status == Dirty ==> Choose(model, p) == "Suck"
  {
  }

  /** The agent's globals `state`, `action` and `model`. */
  class ReflexAgentWithState {
    var state: seq<string>
    var action: Option<string>
    var model: seq<Option<Status>>

    /** `state = {}`, `action = None`, every model entry None. */
    constructor ()
      ensures state == [] && action == None && model == [None, None, None, None]
    {
      state := [];
      action := None;
      model := [None, None, None, None];
    }

    /** UPDATE_STATE(state, action, percept): the model records the
        percept; the result is the all-clean state once the model holds
        every square Clean, else the percept. */
    method UpdateState(p: Percept) returns (s: seq<string>)
      requires p.loc < 4 && |model| == 4
      modifies this
      ensures model == old(model)[p.loc := Some(p.status)]
      ensures state == old(state) && action == old(action)
      ensures s == NewState(model, p)
    {
      model := model[p.loc := Some(p.status)];
      s := Key(p);
      if forall i :: 0 <= i < 4 ==> model[i] == Some(Clean) {
        s := AllCleanState;
      }
    }

    /** REFLEX_AGENT_WITH_STATE(percept): update the state, match a rule,
        remember and return its action. */
    method Act(p: Percept) returns (a: string)
      requires p.loc < 4 && |model| == 4
      modifies this
      ensures model == old(model)[p.loc := Some(p.status)]
      ensures state == NewState(model, p) && action == Some(a)
      ensures a == Choose(model, p)
    {
      state := UpdateState(p);
      var rule := RuleMatch(Rules, state);
      a := RuleAction[rule.value];
      action := Some(a);
    }
  }

  /** The world and the agent's model between two steps of the `run` loop. */
  datatype Config = Config(squares: seq<Status>, current: nat, model: seq<Option<Status>>)

  predicate Wf(c: Config) {
    |c.squares| == 4 && |c.model| == 4 && c.current < 4
  }

  /** One step of the `run` loop: sense, update the model and decide, act. */
  function Round(c: Config): (r: Config)
    requires Wf(c)
    ensures Wf(r)
  {
    var p := Percept(c.current, c.squares[c.current]);
    var m := c.model[c.current := Some(p.status)];
    var e := Effect(c.squares, c.current, Choose(m, p));
    Config(e.0, e.1, m)
  }

  /** The configuration after `k` steps of the `run` loop. */
  function RunFor(c: Config, k: nat): (r: Config)
    requires Wf(c)
    ensures Wf(r)
    decreases k
  {
    if k == 0 then c else RunFor(Round(c), k - 1)
  }

  /** As written, the only Left rule is the one for D, and C sends the
      robot Right again. Started anywhere but A, the robot never visits A:
      the model never learns A's status, so the agent never reaches NoOp,
      and a Dirty square A stays Dirty however long the loop runs. */
  lemma {:induction false} NeverReachesA(c: Config, k: nat)
    requires Wf(c) && 1 <= c.current && c.squares[0] == Dirty && c.model[0] == None
    ensures var r := RunFor(c, k); 1 <= r.current && r.squares[0] == Dirty && r.model[0] == None
    decreases k
  {
    if k > 0 {
      var p := Percept(c.current, c.squares[c.current]);
      var m := c.model[c.current := Some(p.status)];
      ChooseMeaning(m, p);
      NeverReachesA(Round(c), k - 1);
    }
  }
}
