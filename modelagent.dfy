/** The model-based reflex vacuum agent of lab_01/reflex_agent_with_state.py
    on a row of N squares. The agent keeps its own `model` of every square's
    status, starting from DIRTY_INIT; each percept overwrites the model entry
    of the robot's square. It sucks on a Dirty square, otherwise moves one
    step towards the nearest square its model still holds Dirty, and idles
    (NoOp) when the model holds none. */
module ModelAgent {
  import opened Wrappers
  import opened VacuumWorld

  /** `abs(i - j)`. */
  function Dist(i: nat, j: nat): nat {
    if i <= j then j - i else i - j
  }

  /** `nearest_dirty` over the first `k` squares: scanning the indices in
      order, a Dirty index replaces the one kept so far only when strictly
      closer to `cur`, as Python's `min` keeps the first minimum of the
      index-ordered list. */
  function NearestBelow(model: seq<Status>, cur: nat, k: nat): (r: Option<nat>)
    requires k <= |model|
    ensures r.Some? ==> r.value < k
    decreases k
  {
    if k == 0 then None
    else
      var r := NearestBelow(model, cur, k - 1);
      if model[k - 1] == Clean then r
      else if r.None? || Dist(k - 1, cur) < Dist(r.value, cur) then Some(k - 1)
      else r
  }

  /** The scan finds nothing exactly when the first `k` squares are all
      Clean, and otherwise the Dirty index closest to `cur`, the lowest
      one among equally close ones. */
  lemma {:induction false} NearestBelowSpec(model: seq<Status>, cur: nat, k: nat)
    requires k <= |model|
    ensures var r := NearestBelow(model, cur, k);
      (r.None? <==> forall i :: 0 <= i < k ==> model[i] == Clean) &&
      (r.Some? ==> model[r.value] == Dirty) &&
      (r.Some? ==> forall i :: 0 <= i < k && model[i] == Dirty ==> Dist(r.value, cur) <= Dist(i, cur)) &&
      (r.Some? ==> forall i :: 0 <= i < r.value && model[i] == Dirty ==> Dist(r.value, cur) < Dist(i, cur))
    decreases k
  {
    if k > 0 {
      NearestBelowSpec(model, cur, k - 1);
    }
  }

  /** `nearest_dirty(cur_idx)`: None iff the model holds no Dirty square;
      otherwise the nearest Dirty square, the leftmost on ties. */
  function NearestDirty(model: seq<Status>, cur: nat): (r: Option<nat>)
    ensures r.None? <==> AllClean(model)
    ensures r.Some? ==> r.value < |model| && model[r.value] == Dirty
    ensures r.Some? ==> forall i :: 0 <= i < |model| && model[i] == Dirty ==> Dist(r.value, cur) <= Dist(i, cur)
    ensures r.Some? ==> forall i :: 0 <= i < r.value && model[i] == Dirty ==> Dist(r.value, cur) < Dist(i, cur)
  {
    NearestBelowSpec(model, cur, |model|);
    NearestBelow(model, cur, |model|)
  }

  /** The decision of MODEL_BASED_AGENT once the model holds the percept. */
  function Decide(model: seq<Status>, p: Percept): string
    requires p.loc < |model|
  {
    if p.status == Dirty then "Suck"
    else match NearestDirty(model, p.loc)
      case None => "NoOp"
      case Some(t) => if t > p.loc then "Right" else "Left"
  }

  /** What the decision means, for a model that agrees with the percept on
      the robot's square: Suck iff the square is Dirty, NoOp iff the model
      holds no Dirty square, otherwise a step towards the nearest one. */
  lemma {:induction false} DecideMeaning(model: seq<Status>, p: Percept)
    requires p.loc < |model| && model[p.loc] == p.status
    ensures Decide(model, p) == "Suck" <==> p.status == Dirty
    ensures Decide(model, p) == "NoOp" <==> p.status == Clean && AllClean(model)
    ensures Decide(model, p) == "Right" <==>
      p.status == Clean && NearestDirty(model, p.loc).Some? && NearestDirty(model, p.loc).value > p.loc
    ensures Decide(model, p) == "Left" <==>
      p.status == Clean && NearestDirty(model, p.loc).Some? && NearestDirty(model, p.loc).value < p.loc
  {
    if p.status == Clean && !AllClean(model) {
      assert NearestDirty(model, p.loc).value != p.loc;
    }
  }

  /** The agent with its internal model. */
  class ModelBasedAgent {
    var model: seq<Status>

    /** The model of `n` squares, every entry DIRTY_INIT. */
    constructor (n: nat, init: Status)
      ensures model == seq(n, _ => init)
    {
      model := seq(n, _ => init);
    }

    /** MODEL_BASED_AGENT(percept): record the percept in the model, then
        decide. */
    method Act(p: Percept) returns (action: string)
      requires p.loc < |model|
      modifies this
      ensures model == old(model)[p.loc := p.status]
      ensures action == Decide(model, p)
    {
      model := model[p.loc := p.status];
      if p.status == Dirty {
        return "Suck";
      }
      var target := NearestDirty(model, p.loc);
      if target.None? {
        return "NoOp";
      }
      action := if target.value > p.loc then "Right" else "Left";
    }
  }

  /** The world together with the agent's model, between two steps of the
      `run` loop. */
  datatype Config = Config(squares: seq<Status>, current: nat, model: seq<Status>)

  predicate Wf(c: Config) {
    |c.squares| == |c.model| && c.current < |c.squares|
  }

  /** The model never calls a Dirty square Clean: every square the model
      holds Clean is Clean in the world. */
  predicate Sound(c: Config) {
    Wf(c) && forall i :: 0 <= i < |c.model| && c.model[i] == Clean ==> c.squares[i] == Clean
  }

  /** One step of the `run` loop: sense, let the agent update its model
      and decide, act. */
  function Round(c: Config): (r: Config)
    requires Wf(c)
    ensures Wf(r)
  {
    var p := Percept(c.current, c.squares[c.current]);
    var m := c.model[c.current := p.status];
    var e := Effect(c.squares, c.current, Decide(m, p));
    Config(e.0, e.1, m)
  }

  /** The configuration after `k` steps of the `run` loop. */
  function RunFor(c: Config, k: nat): (r: Config)
    requires Wf(c)
    ensures Wf(r)
    decreases k
  {
    if k == 0 then c else RunFor(Round(c), k - 1)
  }

  /** Number of Dirty squares. */
  function DirtyCount(s: seq<Status>): (n: nat)
    ensures n <= |s|
    ensures n == 0 <==> AllClean(s)
    decreases |s|
  {
    if s == [] then 0
    else DirtyCount(s[..|s| - 1]) + (if s[|s| - 1] == Dirty then 1 else 0)
  }

  /** Cleaning a Dirty square removes one Dirty square. */
  lemma {:induction false} CleanOne(s: seq<Status>, i: nat)
    requires i < |s| && s[i] == Dirty
    ensures DirtyCount(s[i := Clean]) + 1 == DirtyCount(s)
    decreases |s|
  {
    var t := s[i := Clean];
    if i == |s| - 1 {
      assert t[..|t| - 1] == s[..|s| - 1];
    } else {
      assert t[..|t| - 1] == s[..|s| - 1][i := Clean];
      CleanOne(s[..|s| - 1], i);
    }
  }

  /** Distance from `cur` to the nearest square the model holds Dirty. */
  function NearestDist(model: seq<Status>, cur: nat): nat {
    match NearestDirty(model, cur)
    case None => 0
    case Some(t) => Dist(t, cur)
  }

  /** The lexicographic progress measure of the `run` loop decreases from
      `c` to `r`: fewer Dirty squares in the model, or as many and fewer
      Dirty squares in the world, or both as many and the robot closer to
      the nearest square the model holds Dirty. */
  predicate Progress(c: Config, r: Config) {
    DirtyCount(r.model) < DirtyCount(c.model) ||
    (DirtyCount(r.model) == DirtyCount(c.model) &&
     (DirtyCount(r.squares) < DirtyCount(c.squares) ||
      (DirtyCount(r.squares) == DirtyCount(c.squares) &&
       NearestDist(r.model, r.current) < NearestDist(c.model, c.current))))
  }

  /** On a Dirty square the agent sucks; its model already held the
      square Dirty. */
  lemma {:induction false} SuckStep(c: Config)
    requires Sound(c) && c.squares[c.current] == Dirty
    ensures Sound(Round(c)) && Progress(c, Round(c))
  {
    var s, cur, m := c.squares, c.current, c.model;
    var r := Round(c);
    assert m[cur] == Dirty;
    assert m[cur := s[cur]] == m;
    assert r.model == m;
    assert Decide(m, Percept(cur, s[cur])) == "Suck";
    assert r.squares == s[cur := Clean];
    CleanOne(s, cur);
  }

  /** On a clean square the model held Dirty, the model loses a Dirty
      square, whatever the agent then does. */
  lemma {:induction false} LearnStep(c: Config)
    requires Sound(c) && c.squares[c.current] == Clean && c.model[c.current] == Dirty
    ensures Sound(Round(c)) && Progress(c, Round(c))
  {
    var r := Round(c);
    assert r.model == c.model[c.current := Clean];
    CleanOne(c.model, c.current);
  }

  /** On a clean square the model already knew, the robot moves one step
      towards the nearest square the model holds Dirty. */
  lemma {:induction false} MoveStep(c: Config)
    requires Sound(c) && !AllClean(c.model)
    requires c.squares[c.current] == Clean && c.model[c.current] == Clean
    ensures Sound(Round(c)) && Progress(c, Round(c))
  {
    var s, cur, m := c.squares, c.current, c.model;
    var p := Percept(cur, s[cur]);
    var r := Round(c);
    assert m[cur := s[cur]] == m;
    assert r.model == m;
    var t := NearestDirty(m, cur).value;
    assert t != cur;
    DecideMeaning(m, p);
    assert r.squares == s;
    if t > cur {
      assert r.current == cur + 1;
    } else {
      assert r.current + 1 == cur;
    }
    assert Dist(t, r.current) < Dist(t, cur);
  }

  /** A step while the model still holds a Dirty square keeps the model
      sound and decreases the progress measure. */
  lemma {:induction false} RoundProgress(c: Config)
    requires Sound(c) && !AllClean(c.model)
    ensures Sound(Round(c)) && Progress(c, Round(c))
  {
    if c.squares[c.current] == Dirty {
      SuckStep(c);
    } else if c.model[c.current] == Dirty {
      LearnStep(c);
    } else {
      MoveStep(c);
    }
  }

  /** Once the model holds every square Clean, the world is clean and the
      agent idles: every further step is NoOp and changes nothing. */
  lemma {:induction false} Idle(c: Config)
    requires Sound(c) && AllClean(c.model)
    ensures AllClean(c.squares)
    ensures Round(c) == c
  {
    var p := Percept(c.current, c.squares[c.current]);
    assert c.model[c.current := p.status] == c.model;
  }

  /** From any sound configuration the agent reaches a clean world on which
      it idles. */
  lemma {:induction false} EventuallyIdle(c: Config)
    requires Sound(c)
    ensures exists k: nat :: AllClean(RunFor(c, k).squares) && Round(RunFor(c, k)) == RunFor(c, k)
    decreases DirtyCount(c.model), DirtyCount(c.squares), NearestDist(c.model, c.current)
  {
    if AllClean(c.model) {
      Idle(c);
      assert RunFor(c, 0) == c;
    } else {
      RoundProgress(c);
      EventuallyIdle(Round(c));
      var k: nat :| AllClean(RunFor(Round(c), k).squares) && Round(RunFor(Round(c), k)) == RunFor(Round(c), k);
      assert RunFor(c, k + 1) == RunFor(Round(c), k);
    }
  }

  /** Started on any square of any world, with the model all Dirty
      (DIRTY_INIT), the agent cleans every square and then idles. */
  lemma {:induction false} CleansFromAnyStart(squares: seq<Status>, start: nat)
    requires start < |squares|
    ensures var c := Config(squares, start, seq(|squares|, _ => Dirty));
      exists k: nat :: AllClean(RunFor(c, k).squares) && Round(RunFor(c, k)) == RunFor(c, k)
  {
    EventuallyIdle(Config(squares, start, seq(|squares|, _ => Dirty)));
  }
}
