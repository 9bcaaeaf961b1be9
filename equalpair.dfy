/** A two-variable instance on which the forward checking of
    lab_06/constraints_template.py loses a solution: `forward_check`
    deletes the assigned value from every neighbour without consulting the
    constraint, which is right for `adj_constraint` but wrong for a
    constraint that wants neighbours equal. */
module EqualPair {
  import opened Csp

  /** Neighbours must take the same value. */
  function SameValue(x: string, xv: int, y: string, yv: int): bool {
    xv == yv
  }

  const PairVars: seq<string> := ["X", "Y"]
  const PairNeighbours: map<string, seq<string>> := map["X" := ["Y"], "Y" := ["X"]]
  const PairDomains: Domains<string, int> := map["X" := [1], "Y" := [1]]
  const Both: Assignment<string, int> := map["X" := 1, "Y" := 1]

  /** The instance is a well-formed simple graph, and {X: 1, Y: 1} is a
      solution drawn from its domains. */
  lemma PairSolvable(csp: CSP<string, int>)
    requires csp.V == PairVars && csp.N == PairNeighbours && csp.cons == SameValue
    ensures csp.Shape() && csp.SimpleGraph()
    ensures csp.IsSolution(Both) && Within(Both, PairDomains, PairVars)
  {
    assert Both.Keys == Seqs.Elems(PairVars);
  }

  /** As written: whichever variable the search assigns first, forward
      checking its only value empties the other domain, so the value is
      abandoned (`CheckedDescend` returns None on a failed check) and the
      search ends without a solution although `PairSolvable` gives one. */
  lemma FcLosesSolution()
    ensures forall v, xv :: v in PairVars && xv in PairDomains[v] ==>
              !ForwardChecked(PairDomains, PairNeighbours[v], xv).ok
  {
    assert forall v :: v in PairVars ==> v == "X" || v == "Y";
    assert forall v, xv :: v in PairVars && xv in PairDomains[v] ==> xv == 1;
    assert ForwardChecked(PairDomains, ["Y"], 1).d["Y"] == [];
    assert ForwardChecked(PairDomains, ["X"], 1).d["X"] == [];
  }

  /** Corrected: forward checking that keeps the values the constraint
      allows keeps the solution, whichever variable comes first. */
  lemma CorrectedFcKeepsSolution(csp: CSP<string, int>)
    requires csp.V == PairVars && csp.N == PairNeighbours && csp.cons == SameValue
    ensures forall v :: v in PairVars ==> ConsistentPruned(SameValue, PairDomains, v, 1, PairNeighbours[v]).0
  {
    PairSolvable(csp);
    forall v | v in PairVars
      ensures ConsistentPruned(SameValue, PairDomains, v, 1, PairNeighbours[v]).0
    {
      csp.PrunedSpares(Both, PairDomains, v);
    }
  }
}
