/** The table-driven vacuum agents (lab_01/table_driven_agent.py and
    table_driven_agent.py at the repository root): the agent appends every
    percept to its history `percepts` and looks the whole history up in a
    fixed, incomplete table. Square A is 0 and B is 1. */
module TableAgents {
  import opened Wrappers
  import opened VacuumWorld

  type Table = map<seq<Percept>, string>

  const AClean := Percept(0, Clean)
  const ADirty := Percept(0, Dirty)
  const BClean := Percept(1, Clean)
  const BDirty := Percept(1, Dirty)

  /** The table of lab_01/table_driven_agent.py. */
  const Lab01Table: Table :=
    map[[AClean] := "Right", [ADirty] := "Suck", [BClean] := "Left", [BDirty] := "Suck",
        [AClean, ADirty] := "Suck",
        [AClean, ADirty, BClean] := "Left"]

  /** The table of table_driven_agent.py at the root. */
  const RootTable: Table :=
    map[[AClean] := "Right", [ADirty] := "Suck", [BClean] := "Left", [BDirty] := "Suck",
        [AClean, AClean] := "Right", [AClean, ADirty] := "Suck",
        [AClean, AClean, AClean] := "Right", [AClean, AClean, ADirty] := "Suck",
        [AClean, ADirty, BClean] := "Left"]

  /** LOOKUP(history, table): `table.get(tuple(history))`. */
  function Lookup(history: seq<Percept>, table: Table): (r: Option<string>)
    ensures r.Some? <==> history in table
    ensures r.Some? ==> r.value == table[history]
  {
    if history in table then Some(table[history]) else None
  }

  /** No key of the table is a history longer than three percepts. */
  predicate ShortKeys(table: Table) {
    forall h :: h in table ==> |h| <= 3
  }

  /** Both tables stop at histories of three percepts, so every lookup of a
      longer history misses. */
  lemma {:induction false} TablesShort(h: seq<Percept>)
    ensures ShortKeys(Lab01Table) && ShortKeys(RootTable)
    ensures |h| > 3 ==> Lookup(h, Lab01Table) == None && Lookup(h, RootTable) == None
  {
  }

  /** The agent: the table and the global history `percepts`. */
  class TableDrivenAgent {
    const table: Table
    var percepts: seq<Percept>

    constructor (t: Table)
      ensures table == t && percepts == []
    {
      table := t;
      percepts := [];
    }

    /** TABLE_DRIVEN_AGENT(percept): append the percept, then look the
        whole history up. The history only grows, by exactly this percept;
        from the fourth call on, a table with short keys has no answer. */
    method Act(p: Percept) returns (a: Option<string>)
      modifies this
      ensures percepts == old(percepts) + [p]
      ensures a == Lookup(percepts, table)
      ensures ShortKeys(table) && |old(percepts)| >= 3 ==> a == None
    {
      percepts := percepts + [p];
      a := Lookup(percepts, table);
    }
  }

  /** The percepts of the two-square world: two locations times two
      statuses. */
  const SinglePercepts: set<Percept> := {AClean, ADirty, BClean, BDirty}

  /** `min_entries_single_percept()`: a table indexed by the current
      percept alone needs one entry per possible percept. */
  function MinEntriesSinglePercept(): (r: nat)
    ensures r == |SinglePercepts|
  {
    2 * 2
  }

  /** Each history of `hs` extended by the percept `p`. */
  function Extended(hs: set<seq<Percept>>, p: Percept): set<seq<Percept>> {
    set h | h in hs :: h + [p]
  }

  /** Each history of `hs` extended by each percept of the world. */
  function ExtendedAll(hs: set<seq<Percept>>): set<seq<Percept>> {
    set h, p | h in hs && p in SinglePercepts :: h + [p]
  }

  /** The percept histories of length `t`. */
  function Histories(t: nat): set<seq<Percept>>
    decreases t
  {
    if t == 0 then {[]} else ExtendedAll(Histories(t - 1))
  }

  /** A history is an extension exactly when its last percept is one of
      the world's and the rest is in `hs`. */
  lemma ExtendedAllMembers(hs: set<seq<Percept>>, h: seq<Percept>)
    ensures h in ExtendedAll(hs) <==> h != [] && h[..|h| - 1] in hs && h[|h| - 1] in SinglePercepts
  {
    if h != [] && h[..|h| - 1] in hs && h[|h| - 1] in SinglePercepts {
      assert h == h[..|h| - 1] + [h[|h| - 1]];
    }
  }

  /** Every history of length `t` is a sequence of `t` percepts of the
      world. */
  lemma {:induction false} HistoriesSound(t: nat, h: seq<Percept>)
    requires h in Histories(t)
    ensures |h| == t && forall i :: 0 <= i < |h| ==> h[i] in SinglePercepts
    decreases t
  {
    if t > 0 {
      ExtendedAllMembers(Histories(t - 1), h);
      var g := h[..|h| - 1];
      HistoriesSound(t - 1, g);
      assert forall i :: 0 <= i < |g| ==> g[i] == h[i];
    }
  }

  /** Every sequence of `t` percepts of the world is a history of length
      `t`. */
  lemma {:induction false} HistoriesComplete(t: nat, h: seq<Percept>)
    requires |h| == t && forall i :: 0 <= i < |h| ==> h[i] in SinglePercepts
    ensures h in Histories(t)
    decreases t
  {
    if t > 0 {
      var g := h[..|h| - 1];
      HistoriesComplete(t - 1, g);
      ExtendedAllMembers(Histories(t - 1), h);
    }
  }

  /** The histories of length `t` are exactly the sequences of `t`
      percepts of the world. */
  lemma HistoriesExact(t: nat, h: seq<Percept>)
    ensures h in Histories(t) <==> |h| == t && forall i :: 0 <= i < |h| ==> h[i] in SinglePercepts
  {
    if h in Histories(t) {
      HistoriesSound(t, h);
    }
    if |h| == t && forall i :: 0 <= i < |h| ==> h[i] in SinglePercepts {
      HistoriesComplete(t, h);
    }
  }

  /** Extending by one percept loses no history. */
  lemma {:induction false} ExtendedCard(hs: set<seq<Percept>>, p: Percept)
    ensures |Extended(hs, p)| == |hs|
    decreases |hs|
  {
    if hs != {} {
      var h :| h in hs;
      var rest := hs - {h};
      ExtendedCard(rest, p);
      assert Extended(hs, p) == Extended(rest, p) + {h + [p]};
      forall g | g in rest
        ensures g + [p] != h + [p]
      {
        assert (g + [p])[..|g|] == g;
        assert (h + [p])[..|h|] == h;
      }
    }
  }

  /** Sets of histories with different last percepts do not meet. */
  lemma {:induction false} ExtendedDisjoint(hs: set<seq<Percept>>, p: Percept, q: Percept)
    requires p != q
    ensures Extended(hs, p) * Extended(hs, q) == {}
  {
    forall x | x in Extended(hs, p)
      ensures x !in Extended(hs, q)
    {
      assert x[|x| - 1] == p;
    }
  }

  /** `4 ** t`. */
  function Pow4(t: nat): nat {
    if t == 0 then 1 else 4 * Pow4(t - 1)
  }

  /** The size of a union of four pairwise disjoint sets. */
  lemma {:induction false} DisjointUnionCard<T>(a: set<T>, b: set<T>, c: set<T>, d: set<T>)
    requires a * b == {} && a * c == {} && a * d == {} && b * c == {} && b * d == {} && c * d == {}
    ensures |a + b + c + d| == |a| + |b| + |c| + |d|
  {
    assert |a + b| == |a| + |b|;
    assert (a + b) * c == {};
    assert |a + b + c| == |a + b| + |c|;
    assert (a + b + c) * d == {};
  }

  /** Extending a set of histories by each of the four percepts multiplies
      its size by four. */
  lemma {:induction false} ExtendedAllCard(hs: set<seq<Percept>>)
    ensures |ExtendedAll(hs)| == 4 * |hs|
  {
    ExtendedCard(hs, AClean);
    ExtendedCard(hs, ADirty);
    ExtendedCard(hs, BClean);
    ExtendedCard(hs, BDirty);
    ExtendedDisjoint(hs, AClean, ADirty);
    ExtendedDisjoint(hs, AClean, BClean);
    ExtendedDisjoint(hs, AClean, BDirty);
    ExtendedDisjoint(hs, ADirty, BClean);
    ExtendedDisjoint(hs, ADirty, BDirty);
    ExtendedDisjoint(hs, BClean, BDirty);
    DisjointUnionCard(Extended(hs, AClean), Extended(hs, ADirty), Extended(hs, BClean), Extended(hs, BDirty));
    assert ExtendedAll(hs) == Extended(hs, AClean) + Extended(hs, ADirty) + Extended(hs, BClean) + Extended(hs, BDirty);
  }

  /** One more step multiplies the number of histories by four. */
  lemma HistoriesStep(u: nat)
    ensures |Histories(u + 1)| == 4 * |Histories(u)|
  {
    ExtendedAllCard(Histories(u));
  }

  /** There are 4^t histories of length `t`. */
  lemma {:induction false} HistoriesCard(t: nat)
    ensures |Histories(t)| == Pow4(t)
    decreases t
  {
    if t > 0 {
      var u := t - 1;
      HistoriesCard(u);
      HistoriesStep(u);
    }
  }

  /** `entries_for_T_steps(T)`: a table indexed by whole histories over a
      lifetime of `t` steps needs one entry per history of length `t`,
      4^t of them. */
  function EntriesForTSteps(t: nat): (r: nat)
    ensures r == |Histories(t)|
  {
    HistoriesCard(t);
    Pow4(t)
  }
}
