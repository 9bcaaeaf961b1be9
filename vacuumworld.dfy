/** The linear vacuum world of the agent exercises (the five files of lab_01
    and the four agents at the repository root). The repository keeps it in
    a dictionary `Environment` mapping each square's label to "Clean" or
    "Dirty" and the key "Current" to the robot's label. Here the squares are
    numbered in label order (A = 0, B = 1, C = 2, D = 3, ...): `squares[i]`
    is the status of the i-th label and `current` is the robot's number.
    The two-square worlds are the case of two squares, the root files'
    four-square world the case of four. */
module VacuumWorld {

  datatype Status = Clean | Dirty

  /** The status as the source spells it. */
  function Name(s: Status): (r: string)
    ensures r == "Dirty" <==> s == Dirty
    ensures r == "Clean" <==> s == Clean
  {
    match s
    case Dirty => "Dirty"
    case Clean => "Clean"
  }

  /** What `Sensors()` returns: the robot's square and that square's status. */
  datatype Percept = Percept(loc: nat, status: Status)

  /** The actions the safety filter of `Actuators` lets through. ("NoOp",
      which some files list as well, changes nothing either way.) */
  const ValidActions: set<string> := {"Suck", "Left", "Right"}

  /** What `Actuators(action)` does to the world: Suck cleans the robot's
      square, Right and Left move one square unless the robot is already at
      the last or first one, and anything else is ignored. */
  function Effect(squares: seq<Status>, current: nat, action: string): (r: (seq<Status>, nat))
    requires current < |squares|
    ensures |r.0| == |squares| && r.1 < |squares|
    // only the robot's own square can change, and only by becoming Clean
    ensures forall i :: 0 <= i < |squares| && i != current ==> r.0[i] == squares[i]
    ensures r.0[current] == (if action == "Suck" then Clean else squares[current])
    // no action ever makes a square Dirty
    ensures forall i :: 0 <= i < |squares| && squares[i] == Clean ==> r.0[i] == Clean
    // a bogus action leaves the world as it was
    ensures action !in ValidActions ==> r == (squares, current)
    // the robot moves at most one square, in the direction it was told
    ensures r.1 == current || (action == "Right" && r.1 == current + 1) || (action == "Left" && r.1 + 1 == current)
    ensures action == "Right" && current + 1 < |squares| ==> r.1 == current + 1
    ensures action == "Left" && current > 0 ==> r.1 + 1 == current
  {
    if action == "Suck" then (squares[current := Clean], current)
    else if action == "Right" && current + 1 < |squares| then (squares, current + 1)
    else if action == "Left" && current > 0 then (squares, current - 1)
    else (squares, current)
  }

  /** Every square of the world is Clean. */
  predicate AllClean(squares: seq<Status>) {
    forall i :: 0 <= i < |squares| ==> squares[i] == Clean
  }

  /** The mutable `Environment` dictionary. */
  class World {
    var squares: seq<Status>
    var current: nat

    ghost predicate Valid()
      reads this
    {
      current < |squares|
    }

    /** `n` squares all with status `init` (DIRTY_INIT), robot on `start`. */
    constructor (n: nat, init: Status, start: nat)
      requires start < n
      ensures Valid()
      ensures squares == seq(n, _ => init) && current == start
    {
      squares := seq(n, _ => init);
      current := start;
    }

    /** `Sensors()`: the robot's square and its status. */
    method Sensors() returns (p: Percept)
      requires Valid()
      ensures p.loc == current && p.loc < |squares|
      ensures p.status == squares[current]
    {
      p := Percept(current, squares[current]);
    }

    /** `Actuators(action)`: the safety filter first drops anything that is
        not a valid action, then applies the action's effect. */
    method Actuators(action: string)
      requires Valid()
      modifies this
      ensures Valid()
      ensures (squares, current) == Effect(old(squares), old(current), action)
    {
      if action !in ValidActions {
        return;
      }
      if action == "Suck" {
        squares := squares[current := Clean];
      } else if action == "Right" && current < |squares| - 1 {
        current := current + 1;
      } else if action == "Left" && current > 0 {
        current := current - 1;
      }
    }
  }
}
