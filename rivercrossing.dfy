/** Farmer, wolf, goat and cabbage (lab_02/homework.py): four banks, one
    per traveller, each West or East; the farmer crosses alone or with one
    traveller from that bank, and a state is kept only when nothing gets
    eaten. Searched breadth-first with an explored set. */
module RiverCrossing {
  import opened Wrappers
  import opened SearchNodes
  import GraphSearch

  datatype Bank = W | E

  /** `(farmer, wolf, goat, cabbage)`. */
  datatype State = State(farmer: Bank, wolf: Bank, goat: Bank, cabbage: Bank)

  /** `opposite`: the other bank. */
  function Opposite(side: Bank): (r: Bank) {
    if side == W then E else W
  }

  /** Crossing twice brings you back, and a crossing always changes the
      bank. */
  lemma OppositeFlips(side: Bank)
    ensures Opposite(Opposite(side)) == side
    ensures Opposite(side) != side
  {
  }

  /** `is_valid`: false when the goat shares a bank with the wolf or with
      the cabbage and the farmer is not on the goat's bank. */
  predicate IsValid(s: State) {
    !(s.wolf == s.goat && s.farmer != s.goat) &&
    !(s.goat == s.cabbage && s.farmer != s.goat)
  }

  /** A state is valid exactly when the goat is watched by the farmer or
      has its bank to itself, away from both the wolf and the cabbage. */
  lemma IsValidSafe(s: State)
    ensures IsValid(s) <==> s.goat == s.farmer || (s.wolf == Opposite(s.goat) && s.cabbage == Opposite(s.goat))
  {
  }

  /** The four candidate moves of `successor_fn`: the farmer alone, then
      with the wolf, the goat or the cabbage when it stands on the farmer's bank;
      `None` where the source writes `None`. */
  function Moves(s: State): seq<Option<State>> {
    [Some(State(Opposite(s.farmer), s.wolf, s.goat, s.cabbage)),
     if s.farmer == s.wolf then Some(State(Opposite(s.farmer), Opposite(s.wolf), s.goat, s.cabbage)) else None,
     if s.farmer == s.goat then Some(State(Opposite(s.farmer), s.wolf, Opposite(s.goat), s.cabbage)) else None,
     if s.farmer == s.cabbage then Some(State(Opposite(s.farmer), s.wolf, s.goat, Opposite(s.cabbage))) else None]
  }

  /** `[s for s in moves if s and is_valid(s)]`: the present, valid
      candidates, in order. */
  function Kept(moves: seq<Option<State>>): (r: seq<State>)
    ensures |r| <= |moves|
    ensures forall t :: t in r <==> Some(t) in moves && IsValid(t)
  {
    if moves == [] then []
    else
      (if moves[0].Some? && IsValid(moves[0].value) then [moves[0].value] else []) + Kept(moves[1..])
  }

  /** `successor_fn`. */
  function Successors(s: State): (r: seq<State>)
    ensures |r| <= 4
  {
    Kept(Moves(s))
  }

  function Ind(b: bool): nat {
    if b then 1 else 0
  }

  /** A traveller who changes bank was on the farmer's bank and crosses to
      the other one. */
  predicate Carried(before: Bank, after: Bank, farmer: Bank) {
    after != before ==> before == farmer && after == Opposite(before)
  }

  /** One crossing of the boat: the farmer changes bank, taking along at
      most one traveller from the farmer's own bank. */
  predicate Crossing(s: State, t: State) {
    t.farmer == Opposite(s.farmer) &&
    Carried(s.wolf, t.wolf, s.farmer) && Carried(s.goat, t.goat, s.farmer) &&
    Carried(s.cabbage, t.cabbage, s.farmer) &&
    Ind(t.wolf != s.wolf) + Ind(t.goat != s.goat) + Ind(t.cabbage != s.cabbage) <= 1
  }

  /** Every candidate move is one crossing. */
  lemma MovesCross(s: State, i: nat)
    requires i < |Moves(s)| && Moves(s)[i].Some?
    ensures Crossing(s, Moves(s)[i].value)
  {
  }

  /** A crossing is one of the candidate moves: which one is told by the
      traveller who changes bank. */
  lemma CrossingIsMove(s: State, t: State)
    requires Crossing(s, t)
    ensures Some(t) in Moves(s)
  {
    var ms := Moves(s);
    if t.wolf != s.wolf {
      assert ms[1] == Some(t);
    } else if t.goat != s.goat {
      assert ms[2] == Some(t);
    } else if t.cabbage != s.cabbage {
      assert ms[3] == Some(t);
    } else {
      assert ms[0] == Some(t);
    }
  }

  /** The successors are exactly the valid states one crossing away. */
  lemma SuccessorsExact(s: State, t: State)
    ensures t in Successors(s) <==> IsValid(t) && Crossing(s, t)
  {
    if t in Successors(s) {
      var i :| 0 <= i < |Moves(s)| && Moves(s)[i] == Some(t);
      MovesCross(s, i);
    }
    if IsValid(t) && Crossing(s, t) {
      CrossingIsMove(s, t);
    }
  }

  const Initial := State(W, W, W, W)
  const Goal := State(E, E, E, E)

  const Banks: set<Bank> := {W, E}

  /** The sixteen states. */
  const Universe: set<State> :=
    set f, w, g, c | f in Banks && w in Banks && g in Banks && c in Banks :: State(f, w, g, c)

  lemma InBanks(b: Bank)
    ensures b in Banks
  {
    match b
    case W =>
    case E =>
  }

  lemma UniverseHolds(s: State)
    ensures s in Universe
  {
    InBanks(s.farmer);
    InBanks(s.wolf);
    InBanks(s.goat);
    InBanks(s.cabbage);
  }

  /** The classic plan of seven crossings: goat over, back, wolf over,
      goat back, cabbage over, back, goat over. */
  const Plan: seq<State> :=
    [Initial, State(E, W, E, W), State(W, W, E, W), State(E, E, E, W),
     State(W, E, W, W), State(E, E, W, E), State(W, E, W, E), Goal]

  /** Each step of the plan is one crossing to a valid state. */
  lemma PlanStep(i: nat)
    requires i < |Plan| - 1
    ensures Plan[i + 1] in Successors(Plan[i])
  {
    var s, t := Plan[i], Plan[i + 1];
    assert IsValid(t) && Crossing(s, t) by {
      if i == 0 {} else if i == 1 {} else if i == 2 {} else if i == 3 {}
      else if i == 4 {} else if i == 5 {} else {}
    }
    SuccessorsExact(s, t);
  }

  /** The plan is a walk from the initial state to the goal. */
  lemma SevenCrossings()
    ensures GraphSearch.GoalWalk(Plan, Initial, Goal, Successors) && |Plan| == 8
  {
    forall i | 0 <= i < |Plan| - 1
      ensures Plan[i + 1] in Successors(Plan[i])
    {
      PlanStep(i);
    }
  }

  /** `TREE_SEARCH`: it finds a path, a walk of valid states from all on
      the west bank to all on the east bank, each step one crossing, and no
      plan is shorter; it takes at most seven crossings. No state is
      expanded twice. */
  method Solve() returns (path: Option<seq<Node<State>>>, ghost expanded: seq<State>)
    ensures path.Some?
    ensures IsWalk(States(path.value), Initial, Successors)
    ensures States(path.value)[|path.value| - 1] == Goal
    ensures forall i :: 0 <= i < |path.value| ==> IsValid(path.value[i].state)
    ensures forall ss :: GraphSearch.GoalWalk(ss, Initial, Goal, Successors) ==> |path.value| <= |ss|
    ensures |path.value| <= 8
    ensures forall i, j :: 0 <= i < j < |expanded| ==> expanded[i] != expanded[j]
    ensures |expanded| <= |Universe|
  {
    forall s: State
      ensures s in Universe
    {
      UniverseHolds(s);
    }
    path, expanded := GraphSearch.Search(Initial, Goal, Successors, Universe);
    SevenCrossings();
    WalkValid(States(path.value));
  }

  /** Every state of a walk from the initial state is valid: the initial
      state is, and `successor_fn` keeps only valid states. */
  lemma WalkValid(ss: seq<State>)
    requires IsWalk(ss, Initial, Successors)
    ensures forall i :: 0 <= i < |ss| ==> IsValid(ss[i])
  {
    forall i | 0 <= i < |ss|
      ensures IsValid(ss[i])
    {
      if i > 0 {
        assert ss[i] in Successors(ss[i - 1]);
      }
    }
  }
}
