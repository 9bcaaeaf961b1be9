/** The map-colouring instance of lab_06/constraints_template.py: the
    seven states and territories of Australia, three colours, and
    `adj_constraint` on every pair of bordering regions. */
module AustraliaMap {
  import opened Wrappers
  import opened Seqs
  import opened Csp

  const States: seq<string> := ["WA", "NT", "SA", "Q", "NSW", "V", "T"]
  const Colours: seq<string> := ["R", "G", "B"]
  const Borders: map<string, seq<string>> := map[
    "WA" := ["NT", "SA"],
    "NT" := ["WA", "SA", "Q"],
    "SA" := ["WA", "NT", "Q", "NSW", "V"],
    "Q" := ["NT", "SA", "NSW"],
    "NSW" := ["SA", "Q", "V"],
    "V" := ["SA", "NSW"],
    "T" := []]

  /** `{s: colours[:] for s in states}`. */
  function ColourDomains(): (d: Domains<string, string>)
    ensures forall s :: s in States ==> s in d && d[s] == Colours
  {
    map s | s in States :: Colours
  }

  /** The border relation is symmetric and no region borders itself, and
      every region listed has a neighbour list. */
  lemma BordersSymmetric()
    ensures forall v :: v in States <==> v in Borders
    ensures forall v, w :: v in Borders && w in Borders[v] ==> w in Borders && v in Borders[w] && v != w
  {
  }

  /** `create_australia_csp`: a well-formed problem whose domains are all
      three colours. */
  method CreateAustraliaCsp() returns (csp: CSP<string, string>)
    ensures fresh(csp)
    ensures csp.Valid() && csp.steps == 0
    ensures csp.V == States && csp.N == Borders && csp.cons == AdjConstraint
    ensures forall s :: s in States ==> csp.D[s] == Colours
  {
    ProblemShape();
    csp := new CSP(States, ColourDomains(), Borders, AdjConstraint);
  }

  /** The facts `Valid` asks of the instance, about the constants alone. */
  lemma ProblemShape()
    ensures NoDup(States)
    ensures forall v :: v in States ==> v in Borders
    ensures forall v, w :: v in States && v in Borders && w in Borders[v] ==> w in States
    ensures forall v :: v in States ==> v in ColourDomains() && NoDup(ColourDomains()[v])
  {
    DistinctNames();
    BordersSymmetric();
  }

  /** Length and first letter tell the names apart. */
  function Initial(s: string): (int, char)
    requires s != []
  {
    (|s|, s[0])
  }

  /** No state and no colour is listed twice. */
  lemma DistinctNames()
    ensures NoDup(States) && NoDup(Colours)
  {
    NamesApart(States);
    NamesApart(Colours);
  }

  /** Names told apart by their initials are listed once each. */
  lemma NamesApart(names: seq<string>)
    requires forall i :: 0 <= i < |names| ==> names[i] != []
    requires forall i, j :: 0 <= i < j < |names| ==> Initial(names[i]) != Initial(names[j])
    ensures NoDup(names)
  {
    NoDupIndex(names);
  }

  /** A complete assignment whose every border was checked with
      `adj_constraint` colours bordering regions differently. */
  lemma ColouringProper(a: Assignment<string, string>)
    requires a.Keys == Elems(States) && EdgesChecked(Borders, AdjConstraint, a)
    ensures forall v, w :: v in Borders && w in Borders[v] ==> a[v] != a[w]
  {
    BordersSymmetric();
    forall v, w | v in Borders && w in Borders[v]
      ensures a[v] != a[w]
    {
      AdjacentDiffer(Borders, a, v, w);
    }
  }

  /** A proper three-colouring of the map. */
  const Colouring: map<string, string> :=
    map["WA" := "R", "NT" := "G", "SA" := "B", "Q" := "R", "NSW" := "G", "V" := "R", "T" := "R"]

  /** The instance is solvable: `Colouring` is a solution drawn from the
      colour domains. */
  lemma ColouringSolves(csp: CSP<string, string>)
    requires csp.V == States && csp.N == Borders && csp.cons == AdjConstraint
    ensures csp.IsSolution(Colouring) && Within(Colouring, ColourDomains(), States)
    ensures csp.Solvable(map[], ColourDomains())
  {
    assert Colouring.Keys == Elems(States);
    assert Extends(Colouring, map[]);
  }

  /** The borders form a simple graph and `adj_constraint` forbids equal
      colours, so both forward checking and AC-3 keep every solution. */
  lemma SearchComplete(csp: CSP<string, string>)
    requires csp.V == States && csp.N == Borders && csp.cons == AdjConstraint
    ensures csp.SimpleGraph() && csp.FcComplete()
  {
    BordersSymmetric();
  }

  /** Solving the instance with forward checking and AC-3 and then
      checking every border, as lab_06/verify_csp.py does for its map:
      whatever the switches, a solution is found, and it colours every
      pair of bordering regions differently. */
  method SolveAndCheck(forwardCheck: bool, useAc3: bool) returns (solution: Option<Assignment<string, string>>)
    ensures solution.Some?
    ensures solution.Some? ==> forall v, w :: v in Borders && w in Borders[v] ==>
              v in solution.value && w in solution.value && solution.value[v] != solution.value[w]
  {
    var csp := CreateAustraliaCsp();
    ColouringSolves(csp);
    SearchComplete(csp);
    assert csp.IsSolution(Colouring) && Extends(Colouring, map[]) && Within(Colouring, csp.D, csp.V);
    solution := csp.BacktrackingSearch(forwardCheck, useAc3);
    if solution.Some? {
      BordersSymmetric();
      ColouringProper(solution.value);
    }
  }
}
