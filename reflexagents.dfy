/** The simple reflex vacuum agents: each picks its action from the current
    percept alone. Three variants: the N-square agent of
    lab_01/reflex_vacuum_agent_homework.py, the two-square agent of
    lab_01/reflex_vacuum_agent.py with its BOGUS switch, and the four-square
    agent of reflex_vacuum_agent.py at the repository root. Their
    actuators are all `VacuumWorld.Effect`. */
module ReflexAgents {
  import opened VacuumWorld

  /** Square numbers of the labels A to D. */
  const A: nat := 0
  const B: nat := 1
  const C: nat := 2
  const D: nat := 3

  /** REFLEX_VACUUM_AGENT of the N-square homework: Suck on a Dirty
      square, otherwise Right unless on the last square, where it is Left. */
  function HomeworkAgent(n: nat, p: Percept): (a: string)
    requires p.loc < n
  {
    if p.status == Dirty then "Suck"
    else if p.loc < n - 1 then "Right"
    else "Left"
  }

  /** In a world of at least two squares (the homework asks for that), the
      actuators accept every action of the homework agent: it either cleans
      a Dirty square or moves the robot, towards the right unless at the
      end. */
  lemma {:induction false} HomeworkAccepted(squares: seq<Status>, current: nat)
    requires 2 <= |squares| && current < |squares|
    ensures var r := Effect(squares, current, HomeworkAgent(|squares|, Percept(current, squares[current])));
      if squares[current] == Dirty then r == (squares[current := Clean], current)
      else r.0 == squares && (if current + 1 < |squares| then r.1 == current + 1 else r.1 + 1 == current)
  {
  }

  /** REFLEX_VACUUM_AGENT of lab_01/reflex_vacuum_agent.py; `bogus` is the
      module switch BOGUS, which swaps the two moves. */
  function TwoSquareAgent(bogus: bool, p: Percept): (a: string)
  {
    if p.status == Dirty then "Suck"
    else if !bogus then (if p.loc == A then "Right" else "Left")
    else (if p.loc == A then "Left" else "Right")
  }

  /** The agent sucks exactly on Dirty squares and otherwise moves; only
      the BOGUS switch decides the direction. */
  lemma {:induction false} TwoSquareChoice(bogus: bool, p: Percept)
    requires p.loc < 2
    ensures TwoSquareAgent(bogus, p) == "Suck" <==> p.status == Dirty
    ensures p.status == Clean ==>
      (TwoSquareAgent(bogus, p) == "Right" <==> (p.loc == A) != bogus) &&
      (TwoSquareAgent(bogus, p) == "Left" <==> (p.loc == A) == bogus)
  {
  }

  /** With the correct rules, a clean square sends the robot to the other
      square. */
  lemma {:induction false} TwoSquareMoves(squares: seq<Status>, current: nat)
    requires |squares| == 2 && current < 2 && squares[current] == Clean
    ensures Effect(squares, current, TwoSquareAgent(false, Percept(current, squares[current]))) == (squares, 1 - current)
  {
  }

  /** With BOGUS set, the swapped moves point off the edge of the world and
      the actuators refuse them: the robot never leaves its square, and
      only its own square can change, by being cleaned. */
  lemma {:induction false} BogusMovesRefused(squares: seq<Status>, current: nat)
    requires |squares| == 2 && current < 2
    ensures Effect(squares, current, TwoSquareAgent(true, Percept(current, squares[current]))) ==
      (squares[current := Clean], current)
  {
    if squares[current] == Clean {
      assert squares[current := Clean] == squares;
    }
  }

  /** REFLEX_VACUUM_AGENT of the four-square world at the repository root:
      Suck on a Dirty square, Right from A, B and C, Left from D. */
  function FourSquareAgent(p: Percept): (a: string)
    requires p.loc < 4
  {
    if p.status == Dirty then "Suck"
    else if p.loc == A then "Right"
    else if p.loc == B then "Right"
    else if p.loc == C then "Right"
    else "Left"
  }

  /** Every action of the four-square agent is accepted by the actuators:
      a Dirty square is cleaned, and every move changes the location. */
  lemma {:induction false} FourSquareAccepted(squares: seq<Status>, current: nat)
    requires |squares| == 4 && current < 4
    ensures var r := Effect(squares, current, FourSquareAgent(Percept(current, squares[current])));
      (squares[current] == Dirty ==> r == (squares[current := Clean], current)) &&
      (squares[current] == Clean ==> r.0 == squares && r.1 != current)
  {
  }

  /** One step of the root `run` loop: sense, decide, act. */
  function FourSquareRound(squares: seq<Status>, current: nat): (r: (seq<Status>, nat))
    requires |squares| == 4 && current < 4
    ensures |r.0| == 4 && r.1 < 4
  {
    Effect(squares, current, FourSquareAgent(Percept(current, squares[current])))
  }

  /** The world after `k` steps of the root `run` loop. */
  function FourSquareRun(squares: seq<Status>, current: nat, k: nat): (r: (seq<Status>, nat))
    requires |squares| == 4 && current < 4
    ensures |r.0| == 4 && r.1 < 4
    decreases k
  {
    if k == 0 then (squares, current)
    else var n := FourSquareRound(squares, current); FourSquareRun(n.0, n.1, k - 1)
  }

  /** As written, the agent turns left only on D, and from C it goes Right
      again: started anywhere but A, the robot never reaches A, so a Dirty
      square A stays Dirty however long the loop runs. */
  lemma {:induction false} FourSquareNeverReachesA(squares: seq<Status>, current: nat, k: nat)
    requires |squares| == 4 && 1 <= current < 4 && squares[A] == Dirty
    ensures var r := FourSquareRun(squares, current, k); r.1 >= 1 && r.0[A] == Dirty
    decreases k
  {
    if k > 0 {
      var n := FourSquareRound(squares, current);
      FourSquareNeverReachesA(n.0, n.1, k - 1);
    }
  }
}
