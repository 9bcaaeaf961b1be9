/** The generic backtracking constraint-satisfaction solver of
    lab_06/constraints_template.py: MRV variable selection with a degree
    tie-break, LCV value ordering, optional forward checking and an
    optional AC-3 pre-pass, over binary constraints. */
module Csp {
  import opened Wrappers
  import opened Seqs

  /** Variables and values are any types with equality (the source uses
      strings). */
  type Domains<Var, Val> = map<Var, seq<Val>>
  type Assignment<Var, Val> = map<Var, Val>
  /** A directed arc (Xi, Xj) of the AC-3 queue. */
  type Arc<Var> = (Var, Var)
  /** A (variable, value) pair taken out of a domain by forward checking. */
  type Removal<Var, Val> = (Var, Val)

  /** The domains after `list.remove` of every logged pair, in log order. */
  function Prune<Var(==), Val(==)>(d: Domains<Var, Val>, log: seq<Removal<Var, Val>>): (r: Domains<Var, Val>)
    requires forall e :: e in log ==> e.0 in d
    ensures r.Keys == d.Keys
  {
    if log == [] then d
    else
      var e := log[0];
      Prune(d[e.0 := RemoveFirst(d[e.0], e.1)], log[1..])
  }

  /** The domains after `append` of every logged pair, in log order. */
  function Restored<Var(==), Val(==)>(d: Domains<Var, Val>, log: seq<Removal<Var, Val>>): (r: Domains<Var, Val>)
    requires forall e :: e in log ==> e.0 in d
    ensures r.Keys == d.Keys
  {
    if log == [] then d
    else
      var e := log[0];
      Restored(d[e.0 := d[e.0] + [e.1]], log[1..])
  }

  /** The values the log records for variable `v`. */
  function Logged<Var(==), Val(==)>(log: seq<Removal<Var, Val>>, v: Var): multiset<Val> {
    if log == [] then multiset{}
    else (if log[0].0 == v then multiset{log[0].1} else multiset{}) + Logged(log[1..], v)
  }

  /** Every domain holds the same values, positions aside. */
  ghost predicate SameMembers<Var, Val>(d1: Domains<Var, Val>, d0: Domains<Var, Val>) {
    d1.Keys == d0.Keys && forall v :: v in d1 ==> multiset(d1[v]) == multiset(d0[v])
  }

  /** No domain gained a value. */
  ghost predicate Shrunk<Var, Val>(d1: Domains<Var, Val>, d0: Domains<Var, Val>) {
    d1.Keys == d0.Keys && forall v :: v in d1 ==> multiset(d1[v]) <= multiset(d0[v])
  }

  /** Restoring a log appends exactly the logged values to each domain. */
  lemma {:induction false} RestoredAdds<Var, Val>(d: Domains<Var, Val>, log: seq<Removal<Var, Val>>, v: Var)
    requires forall e :: e in log ==> e.0 in d
    requires v in d
    ensures multiset(Restored(d, log)[v]) == multiset(d[v]) + Logged(log, v)
  {
    if log != [] {
      var e := log[0];
      RestoredAdds(d[e.0 := d[e.0] + [e.1]], log[1..], v);
    }
  }

  /** `restore` brings back the values but not their positions: a domain
      pruned and restored can come back reordered. */
  lemma RestoreReorders()
    ensures var d: Domains<string, string> := map["WA" := ["R", "G"]];
            var log := [("WA", "R")];
            Restored(Prune(d, log), log) != d
            && SameMembers(Restored(Prune(d, log), log), d)
  {
    var d: Domains<string, string> := map["WA" := ["R", "G"]];
    var log := [("WA", "R")];
    assert log[1..] == [];
    assert RemoveFirst(["R", "G"], "R") == ["G"];
    var p := Prune(d, log);
    assert p == Prune(map["WA" := ["G"]], []);
    var r := Restored(p, log);
    assert ["G"] + ["R"] == ["G", "R"];
    assert r == Restored(map["WA" := ["G", "R"]], []);
    assert r["WA"][0] != d["WA"][0];
  }

  /** What the loop of `revise` keeps true after visiting `k` values of
      the snapshot: the kept values are drawn from the visited ones, they
      are the supported ones when the supporting domain is another
      variable's (`filtered`), and `revised` records a deletion. */
  ghost predicate ReviseInv<Val>(snapshot: seq<Val>, kept: seq<Val>, k: nat, p: Val -> bool,
                                 filtered: bool, revised: bool, removed: nat)
  {
    k <= |snapshot|
    && multiset(kept) <= multiset(snapshot[..k])
    && (filtered ==> kept == Filter(snapshot[..k], p))
    && |kept| + removed == k
    && (revised <==> removed > 0)
  }

  lemma UpdateTwice<K, V>(m: map<K, V>, k: K, a: V, b: V)
    ensures m[k := a][k := b] == m[k := b]
  {
  }

  lemma FilterSnoc<Val>(s: seq<Val>, k: nat, p: Val -> bool)
    requires k < |s|
    ensures Filter(s[..k + 1], p) == Filter(s[..k], p) + (if p(s[k]) then [s[k]] else [])
  {
    assert s[..k + 1] == s[..k] + [s[k]];
    FilterAppend(s[..k], [s[k]], p);
  }

  /** A deletion step of `revise`: as the kept values come from the
      visited ones and the snapshot has no duplicates, `list.remove` of
      the current value deletes exactly its position. */
  lemma ReviseDrop<Val>(snapshot: seq<Val>, kept: seq<Val>, k: nat, p: Val -> bool,
                        filtered: bool, revised: bool, removed: nat)
    requires NoDup(snapshot) && k < |snapshot|
    requires ReviseInv(snapshot, kept, k, p, filtered, revised, removed)
    requires filtered ==> !p(snapshot[k])
    ensures ReviseInv(snapshot, kept, k + 1, p, filtered, true, removed + 1)
    ensures RemoveFirst(kept + snapshot[k..], snapshot[k]) == kept + snapshot[k + 1..]
  {
    var x := snapshot[k];
    FilterSnoc(snapshot, k, p);
    assert snapshot[..k + 1] == snapshot[..k] + [x];
    NoDupIndex(snapshot);
    assert x !in snapshot[..k];
    assert multiset(snapshot[..k])[x] == 0;
    assert x !in kept;
    RemoveFirstAfterPrefix(kept, snapshot[k..], x);
    assert snapshot[k..] == [x] + snapshot[k + 1..];
  }

  /** A keeping step of `revise`. */
  lemma ReviseKeep<Val>(snapshot: seq<Val>, kept: seq<Val>, k: nat, p: Val -> bool,
                        filtered: bool, revised: bool, removed: nat)
    requires k < |snapshot|
    requires ReviseInv(snapshot, kept, k, p, filtered, revised, removed)
    requires filtered ==> p(snapshot[k])
    ensures ReviseInv(snapshot, kept + [snapshot[k]], k + 1, p, filtered, revised, removed)
    ensures (kept + [snapshot[k]]) + snapshot[k + 1..] == kept + snapshot[k..]
  {
    FilterSnoc(snapshot, k, p);
    assert snapshot[k..] == [snapshot[k]] + snapshot[k + 1..];
    assert snapshot[..k + 1] == snapshot[..k] + [snapshot[k]];
  }

  /** After the whole snapshot: the kept values are a duplicate-free
      sub-multiset, and a deletion happened exactly when fewer remain. */
  lemma ReviseDone<Val>(snapshot: seq<Val>, kept: seq<Val>, p: Val -> bool,
                        filtered: bool, revised: bool, removed: nat)
    requires NoDup(snapshot)
    requires ReviseInv(snapshot, kept, |snapshot|, p, filtered, revised, removed)
    ensures multiset(kept) <= multiset(snapshot) && NoDup(kept)
    ensures filtered ==> kept == Filter(snapshot, p)
    ensures revised <==> |kept| < |snapshot|
  {
    assert snapshot[..|snapshot|] == snapshot;
    NoDupSub(kept, snapshot);
  }

  /** The outcome of `forward_check`: whether no neighbour domain was
      emptied, the pruned domains, and the removals in the order the
      source appends them. */
  datatype Checked<Var, Val> = Checked(ok: bool, d: Domains<Var, Val>, log: seq<Removal<Var, Val>>)

  /** `forward_check` on values: walk the neighbours `nbs` in order,
      `list.remove` the value `xv` from each domain holding it, log the
      removal, and stop at the first domain that becomes empty. */
  function ForwardChecked<Var(==), Val(==)>(d: Domains<Var, Val>, nbs: seq<Var>, xv: Val): (r: Checked<Var, Val>)
    requires forall w :: w in nbs ==> w in d
    ensures r.d.Keys == d.Keys
  {
    if nbs == [] then Checked(true, d, [])
    else
      var w := nbs[0];
      if xv !in d[w] then ForwardChecked(d, nbs[1..], xv)
      else
        var d' := d[w := RemoveFirst(d[w], xv)];
        if d'[w] == [] then Checked(false, d', [(w, xv)])
        else
          var r := ForwardChecked(d', nbs[1..], xv);
          Checked(r.ok, r.d, [(w, xv)] + r.log)
  }

  /** An outcome with `pre` logged ahead of its own removals. */
  function AfterLog<Var, Val>(pre: seq<Removal<Var, Val>>, r: Checked<Var, Val>): Checked<Var, Val> {
    Checked(r.ok, r.d, pre + r.log)
  }

  /** The log names neighbours and the assigned value only, and replaying
      it with `list.remove` gives the pruned domains. */
  lemma {:induction false} FcReplays<Var, Val>(d: Domains<Var, Val>, nbs: seq<Var>, xv: Val)
    requires forall w :: w in nbs ==> w in d
    ensures var r := ForwardChecked(d, nbs, xv);
            (forall e :: e in r.log ==> e.0 in nbs && e.1 == xv)
            && r.d == Prune(d, r.log)
  {
    if nbs != [] {
      var w := nbs[0];
      if xv !in d[w] {
        FcReplays(d, nbs[1..], xv);
      } else {
        var d' := d[w := RemoveFirst(d[w], xv)];
        if d'[w] != [] {
          FcReplays(d', nbs[1..], xv);
          var r := ForwardChecked(d', nbs[1..], xv);
          assert ([(w, xv)] + r.log)[1..] == r.log;
        }
      }
    }
  }

  /** Each domain lost exactly the values the log names for it. */
  lemma {:induction false} FcRemovesLogged<Var, Val>(d: Domains<Var, Val>, nbs: seq<Var>, xv: Val, v: Var)
    requires forall w :: w in nbs ==> w in d
    requires v in d
    ensures var r := ForwardChecked(d, nbs, xv);
            multiset(r.d[v]) + Logged(r.log, v) == multiset(d[v])
  {
    if nbs != [] {
      var w := nbs[0];
      if xv !in d[w] {
        FcRemovesLogged(d, nbs[1..], xv, v);
      } else {
        var d' := d[w := RemoveFirst(d[w], xv)];
        assert multiset(d'[w]) + multiset{xv} == multiset(d[w]);
        if d'[w] != [] {
          FcRemovesLogged(d', nbs[1..], xv, v);
          var r := ForwardChecked(d', nbs[1..], xv);
          assert ([(w, xv)] + r.log)[1..] == r.log;
        } else {
          assert [(w, xv)][1..] == [];
        }
      }
    }
  }

  /** Forward checking only removes values. */
  lemma FcShrinks<Var, Val>(d: Domains<Var, Val>, nbs: seq<Var>, xv: Val)
    requires forall w :: w in nbs ==> w in d
    ensures Shrunk(ForwardChecked(d, nbs, xv).d, d)
  {
    var r := ForwardChecked(d, nbs, xv);
    forall v | v in r.d
      ensures multiset(r.d[v]) <= multiset(d[v])
    {
      FcRemovesLogged(d, nbs, xv, v);
    }
  }

  /** When forward checking succeeds on duplicate-free domains, no
      neighbour can still take the assigned value, and every neighbour
      that could is in the log. */
  lemma {:induction false} FcClears<Var, Val>(d: Domains<Var, Val>, nbs: seq<Var>, xv: Val)
    requires forall w :: w in nbs ==> w in d && NoDup(d[w])
    ensures var r := ForwardChecked(d, nbs, xv);
            r.ok ==> forall w :: w in nbs ==> xv !in r.d[w]
    ensures var r := ForwardChecked(d, nbs, xv);
            r.ok ==> forall w :: w in nbs && xv in d[w] ==> (w, xv) in r.log
  {
    if nbs != [] {
      var w := nbs[0];
      if xv !in d[w] {
        FcClears(d, nbs[1..], xv);
        FcShrinks(d, nbs[1..], xv);
        var r := ForwardChecked(d, nbs[1..], xv);
        assert xv !in multiset(r.d[w]);
      } else {
        var d' := d[w := RemoveFirst(d[w], xv)];
        if d'[w] != [] {
          RemoveFirstNoDup(d[w], xv);
          NoDupSub(d'[w], d[w]);
          FcClears(d', nbs[1..], xv);
          FcShrinks(d', nbs[1..], xv);
          var r := ForwardChecked(d', nbs[1..], xv);
          assert xv !in multiset(r.d[w]);
        }
      }
    }
  }

  /** A failed forward check stops at the domain it emptied, the last one
      logged; a successful one empties no domain. */
  lemma {:induction false} FcOutcome<Var, Val>(d: Domains<Var, Val>, nbs: seq<Var>, xv: Val)
    requires forall w :: w in nbs ==> w in d
    ensures var r := ForwardChecked(d, nbs, xv);
            !r.ok ==> r.log != [] && r.log[|r.log| - 1].0 in r.d && r.d[r.log[|r.log| - 1].0] == []
    ensures var r := ForwardChecked(d, nbs, xv);
            r.ok ==> forall v :: v in d && d[v] != [] ==> r.d[v] != []
  {
    if nbs != [] {
      var w := nbs[0];
      if xv !in d[w] {
        FcOutcome(d, nbs[1..], xv);
      } else {
        var d' := d[w := RemoveFirst(d[w], xv)];
        if d'[w] != [] {
          FcOutcome(d', nbs[1..], xv);
        }
      }
    }
  }

  /** The round trip of forward checking and `restore`: when the deeper
      search left the members of the pruned domains unchanged, restoring
      the log gives back the members of every domain. */
  lemma RestoreUndoesForwardCheck<Var, Val>(d0: Domains<Var, Val>, nbs: seq<Var>, xv: Val, d2: Domains<Var, Val>)
    requires forall w :: w in nbs ==> w in d0
    requires SameMembers(d2, ForwardChecked(d0, nbs, xv).d)
    ensures forall e :: e in ForwardChecked(d0, nbs, xv).log ==> e.0 in d2
    ensures SameMembers(Restored(d2, ForwardChecked(d0, nbs, xv).log), d0)
  {
    var log := ForwardChecked(d0, nbs, xv).log;
    FcReplays(d0, nbs, xv);
    forall v | v in d0
      ensures multiset(Restored(d2, log)[v]) == multiset(d0[v])
    {
      RestoredAdds(d2, log, v);
      FcRemovesLogged(d0, nbs, xv, v);
    }
  }

  /** Domains that only lose values stay duplicate-free. */
  lemma ShrunkKeepsNoDup<Var, Val>(d0: Domains<Var, Val>, d: Domains<Var, Val>, vs: seq<Var>)
    requires Shrunk(d, d0)
    requires forall v :: v in vs ==> v in d0 && NoDup(d0[v])
    ensures forall v :: v in vs ==> v in d && NoDup(d[v])
  {
    forall v | v in vs
      ensures v in d && NoDup(d[v])
    {
      NoDupSub(d[v], d0[v]);
    }
  }

  /** The sum of the domain sizes of `vs`; AC-3 terminates because each
      successful revision lowers it. */
  function TotalSize<Var(==), Val(==)>(d: Domains<Var, Val>, vs: seq<Var>): nat
    requires forall v :: v in vs ==> v in d
  {
    if vs == [] then 0 else |d[vs[0]]| + TotalSize(d, vs[1..])
  }

  lemma {:induction false} TotalSizeUpdate<Var, Val>(d: Domains<Var, Val>, vs: seq<Var>, x: Var, s: seq<Val>)
    requires forall v :: v in vs ==> v in d
    requires x in d && |s| <= |d[x]|
    ensures TotalSize(d[x := s], vs) <= TotalSize(d, vs)
    ensures |s| == |d[x]| ==> TotalSize(d[x := s], vs) == TotalSize(d, vs)
    ensures x in vs && |s| < |d[x]| ==> TotalSize(d[x := s], vs) < TotalSize(d, vs)
  {
    if vs != [] {
      TotalSizeUpdate(d, vs[1..], x, s);
    }
  }

  /** A revision inside AC-3 keeps the domains shrinking from the entry
      domains `d0`. */
  lemma Ac3Shrinks<Var, Val>(d0: Domains<Var, Val>, before: Domains<Var, Val>, d: Domains<Var, Val>, xi: Var)
    requires Shrunk(before, d0) && xi in before
    requires xi in d && d == before[xi := d[xi]] && multiset(d[xi]) <= multiset(before[xi])
    ensures Shrunk(d, d0)
  {
    forall v | v in d
      ensures multiset(d[v]) <= multiset(d0[v])
    {
      if v == xi {
        assert multiset(before[v]) <= multiset(d0[v]);
      }
    }
  }

  /** A revision lowers the total domain size exactly when it deleted
      something. */
  lemma Ac3Size<Var, Val>(before: Domains<Var, Val>, d: Domains<Var, Val>, vs: seq<Var>, xi: Var, revised: bool)
    requires xi in vs && (forall v :: v in vs ==> v in before)
    requires xi in before && xi in d && d == before[xi := d[xi]] && multiset(d[xi]) <= multiset(before[xi])
    requires revised <==> |d[xi]| < |before[xi]|
    ensures revised ==> TotalSize(d, vs) < TotalSize(before, vs)
    ensures !revised ==> TotalSize(d, vs) == TotalSize(before, vs)
  {
    MultisetSubCard(d[xi], before[xi]);
    TotalSizeUpdate(before, vs, xi, d[xi]);
  }

  /** A revision that empties a domain empties one that was not empty on
      entry; one that leaves `xi` non-empty keeps every emptied domain an
      originally empty one. */
  lemma Ac3Empties<Var, Val>(d0: Domains<Var, Val>, before: Domains<Var, Val>, d: Domains<Var, Val>,
                             vs: seq<Var>, xi: Var, revised: bool)
    requires xi in d0 && Shrunk(before, d0) && (forall v :: v in vs ==> v in d0)
    requires xi in d && d == before[xi := d[xi]]
    requires revised <==> |d[xi]| < |before[xi]|
    requires forall v :: v in vs && before[v] == [] ==> d0[v] == []
    ensures revised && d[xi] == [] ==> d0[xi] != []
    ensures d[xi] != [] ==> forall v :: v in vs && d[v] == [] ==> d0[v] == []
  {
    if revised {
      assert |before[xi]| > 0;
      assert multiset(before[xi]) <= multiset(d0[xi]);
      MultisetSubCard(before[xi], d0[xi]);
    }
  }

  /** One revision inside AC-3: the three facts above together. */
  lemma Ac3Step<Var, Val>(d0: Domains<Var, Val>, before: Domains<Var, Val>, d: Domains<Var, Val>,
                          vs: seq<Var>, xi: Var, revised: bool)
    requires Shrunk(before, d0) && xi in vs && (forall v :: v in vs ==> v in d0)
    requires xi in d && d == before[xi := d[xi]] && multiset(d[xi]) <= multiset(before[xi])
    requires revised <==> |d[xi]| < |before[xi]|
    requires forall v :: v in vs && before[v] == [] ==> d0[v] == []
    ensures Shrunk(d, d0)
    ensures revised ==> TotalSize(d, vs) < TotalSize(before, vs)
    ensures !revised ==> TotalSize(d, vs) == TotalSize(before, vs)
    ensures revised && d[xi] == [] ==> d0[xi] != []
    ensures d[xi] != [] ==> forall v :: v in vs && d[v] == [] ==> d0[v] == []
  {
    Ac3Shrinks(d0, before, d, xi);
    Ac3Size(before, d, vs, xi, revised);
    Ac3Empties(d0, before, d, vs, xi, revised);
  }

  /** On a graph closed under neighbourhood, every initial arc joins two
      variables. */
  lemma ArcsClosed<Var>(vs: seq<Var>, n: map<Var, seq<Var>>)
    requires forall v :: v in vs ==> v in n
    requires forall v, w :: v in vs && v in n && w in n[v] ==> w in vs
    ensures ArcsWithin(Arcs(vs, n), vs)
  {
    forall e | e in Arcs(vs, n)
      ensures e.0 in vs && e.1 in vs
    {
      ArcEnds(vs, n, e);
    }
  }

  lemma ArcEnds<Var>(vs: seq<Var>, n: map<Var, seq<Var>>, e: Arc<Var>)
    requires forall v :: v in vs ==> v in n
    requires e in Arcs(vs, n)
    ensures e.0 in vs && e.1 in n[e.0]
  {
    ArcsMembers(vs, n);
  }

  /** Chaining one AC-3 round onto the rounds before it. */
  lemma Ac3Chain<Var, Val>(d0: Domains<Var, Val>, before: Domains<Var, Val>, d: Domains<Var, Val>,
                           vs: seq<Var>, emptied: bool)
    requires Shrunk(before, d0) && Shrunk(d, before) && (forall v :: v in vs ==> v in d0)
    requires forall v :: v in vs && before[v] == [] ==> d0[v] == []
    requires emptied ==> exists v :: v in vs && d[v] == [] && before[v] != []
    requires !emptied ==> forall v :: v in vs && d[v] == [] ==> before[v] == []
    ensures Shrunk(d, d0)
    ensures emptied ==> exists v :: v in vs && d[v] == [] && d0[v] != []
    ensures !emptied ==> forall v :: v in vs && d[v] == [] ==> d0[v] == []
  {
    forall v | v in d
      ensures multiset(d[v]) <= multiset(d0[v])
    {
      assert multiset(d[v]) <= multiset(before[v]) <= multiset(d0[v]);
    }
    if emptied {
      var v :| v in vs && d[v] == [] && before[v] != [];
      MultisetSubCard(before[v], d0[v]);
    }
  }

  /** Assigning `xv` to `x` after checking it against every assigned
      neighbour keeps every edge between assigned variables checked. */
  lemma EdgesExtend<Var, Val>(n: map<Var, seq<Var>>, cons: (Var, Val, Var, Val) -> bool,
                              a: Assignment<Var, Val>, x: Var, xv: Val)
    requires EdgesChecked(n, cons, a) && x in n
    requires forall w :: w in n[x] && w in a ==> cons(x, xv, w, a[w])
    ensures EdgesChecked(n, cons, a[x := xv])
  {
    var a' := a[x := xv];
    forall y, i | y in a' && y in n && 0 <= i < |n[y]| && n[y][i] in a' && n[y][i] in n && y in n[n[y][i]]
                  && n[y][i] != y
      ensures cons(y, a'[y], n[y][i], a'[n[y][i]]) || cons(n[y][i], a'[n[y][i]], y, a'[y])
    {
      var w := n[y][i];
      if y == x {
        assert w in n[x];
      } else if w == x {
        assert y in n[x];
      }
    }
  }

  lemma SameMembersRefl<Var, Val>(d: Domains<Var, Val>)
    ensures SameMembers(d, d)
  {
  }

  lemma SameMembersTrans<Var, Val>(d2: Domains<Var, Val>, d1: Domains<Var, Val>, d0: Domains<Var, Val>)
    requires SameMembers(d2, d1) && SameMembers(d1, d0)
    ensures SameMembers(d2, d0)
  {
  }

  lemma SameMembersShrunk<Var, Val>(d1: Domains<Var, Val>, d0: Domains<Var, Val>)
    requires SameMembers(d1, d0)
    ensures Shrunk(d1, d0)
  {
  }

  lemma ShrunkTrans<Var, Val>(d2: Domains<Var, Val>, d1: Domains<Var, Val>, d0: Domains<Var, Val>)
    requires Shrunk(d2, d1) && Shrunk(d1, d0)
    ensures Shrunk(d2, d0)
  {
    forall v | v in d2
      ensures multiset(d2[v]) <= multiset(d0[v])
    {
      assert multiset(d2[v]) <= multiset(d1[v]) <= multiset(d0[v]);
    }
  }

  /** A value drawn from a domain that only lost values since `d0` was
      drawn from `d0`. */
  lemma ShrunkValue<Var, Val>(d1: Domains<Var, Val>, d0: Domains<Var, Val>, v: Var, val: Val)
    requires Shrunk(d1, d0) && v in d1 && val in d1[v]
    ensures val in d0[v]
  {
    assert val in multiset(d1[v]);
  }

  /** The values a deeper search chose were drawn from the domains as they
      were before this level assigned `x` and forward checked. */
  lemma ExtendValues<Var, Val>(d0: Domains<Var, Val>, d1: Domains<Var, Val>,
                               a: Assignment<Var, Val>, x: Var, xv: Val, r: Assignment<Var, Val>)
    requires Shrunk(d1, d0) && x in d0 && xv in d0[x]
    requires x in r && r[x] == xv && x !in a && a.Keys <= r.Keys
    requires forall v :: v in a[x := xv] ==> r[v] == a[x := xv][v]
    requires forall v :: v in r && v !in a[x := xv] ==> v in d1 && r[v] in d1[v]
    ensures forall v :: v in a ==> r[v] == a[v]
    ensures forall v :: v in r && v !in a ==> v in d0 && r[v] in d0[v]
  {
    forall v | v in a
      ensures r[v] == a[v]
    {
      assert v in a[x := xv] && v != x;
    }
    forall v | v in r && v !in a
      ensures v in d0 && r[v] in d0[v]
    {
      if v != x {
        ShrunkValue(d1, d0, v, r[v]);
      }
    }
  }

  /** Both ends of every queued arc are variables of the problem. */
  ghost predicate ArcsWithin<Var>(queue: seq<Arc<Var>>, vs: seq<Var>) {
    forall e :: e in queue ==> e.0 in vs && e.1 in vs
  }

  /** Some value in `ys` supports `x` for the arc (xi, xj). */
  function AnySupport<Var(==), Val(==)>(cons: (Var, Val, Var, Val) -> bool, xi: Var, x: Val, xj: Var, ys: seq<Val>): (r: bool)
    ensures r <==> exists k :: 0 <= k < |ys| && cons(xi, x, xj, ys[k])
  {
    if ys == [] then false
    else cons(xi, x, xj, ys[0]) || AnySupport(cons, xi, x, xj, ys[1..])
  }

  /** `[(Xi, Xj) for Xi in vs for Xj in n[Xi]]`. */
  function Arcs<Var(==)>(vs: seq<Var>, n: map<Var, seq<Var>>): seq<Arc<Var>>
    requires forall v :: v in vs ==> v in n
  {
    if vs == [] then []
    else
      var ws := n[vs[0]];
      seq(|ws|, k requires 0 <= k < |ws| => (vs[0], ws[k])) + Arcs(vs[1..], n)
  }

  /** The initial AC-3 queue holds exactly the arcs of the graph. */
  lemma {:induction false} ArcsMembers<Var>(vs: seq<Var>, n: map<Var, seq<Var>>)
    requires forall v :: v in vs ==> v in n
    ensures forall e :: e in Arcs(vs, n) <==> e.0 in vs && e.1 in n[e.0]
  {
    if vs != [] {
      ArcsMembers(vs[1..], n);
      var ws := n[vs[0]];
      var head := seq(|ws|, k requires 0 <= k < |ws| => (vs[0], ws[k]));
      assert Arcs(vs, n) == head + Arcs(vs[1..], n);
      assert forall v :: v in vs <==> v == vs[0] || v in vs[1..];
      forall e
        ensures e in head <==> e.0 == vs[0] && e.1 in ws
      {
        if e.0 == vs[0] && e.1 in ws {
          var k :| 0 <= k < |ws| && ws[k] == e.1;
          assert head[k] == e;
        }
      }
    }
  }

  /** Every pair of distinct mutual neighbours in `a` was checked in one
      direction (a variable listed as its own neighbour is never checked):
      `_backtrack` tests a new value against the neighbours of the variable
      it assigns that are already assigned. */
  ghost predicate EdgesChecked<Var, Val>(n: map<Var, seq<Var>>, cons: (Var, Val, Var, Val) -> bool, a: Assignment<Var, Val>) {
    forall x, i :: x in a && x in n && 0 <= i < |n[x]| && n[x][i] in a && n[x][i] in n && x in n[n[x][i]]
                   && n[x][i] != x ==>
      cons(x, a[x], n[x][i], a[n[x][i]]) || cons(n[x][i], a[n[x][i]], x, a[x])
  }

  /** The predicate of Python's `any(cons(Xi, x, Xj, y) for y in ys)`. */
  function SupportedBy<Var(==), Val(==)>(cons: (Var, Val, Var, Val) -> bool, xi: Var, xj: Var, ys: seq<Val>): Val -> bool {
    x => AnySupport(cons, xi, x, xj, ys)
  }

  /** The LCV score of `xv` for `x`: the (neighbour, neighbour value)
      pairs over the neighbours `nbs` that the constraint rejects. */
  function LcvScore<Var(==), Val(==)>(cons: (Var, Val, Var, Val) -> bool, d: Domains<Var, Val>, x: Var, xv: Val, nbs: seq<Var>): nat
    requires forall w :: w in nbs ==> w in d
  {
    if nbs == [] then 0
    else
      var w := nbs[0];
      Count(d[w], (wv: Val) => !cons(x, xv, w, wv)) + LcvScore(cons, d, x, xv, nbs[1..])
  }

  /** `lcv_score` as a sort key. */
  function LcvKey<Var(==), Val(==)>(cons: (Var, Val, Var, Val) -> bool, d: Domains<Var, Val>, x: Var, nbs: seq<Var>): Val -> int {
    xv => if forall w :: w in nbs ==> w in d then LcvScore(cons, d, x, xv, nbs) else 0
  }

  /** Python's `adj_constraint`: neighbours differ. */
  function AdjConstraint<Var, Val(==)>(x: Var, xv: Val, y: Var, yv: Val): bool {
    xv != yv
  }

  /** For map colouring, a checked edge between two distinct mutual
      neighbours means their colours differ. */
  lemma AdjacentDiffer<Var, Val>(n: map<Var, seq<Var>>, a: Assignment<Var, Val>, x: Var, y: Var)
    requires EdgesChecked(n, AdjConstraint, a)
    requires x in a && y in a && x in n && y in n && y in n[x] && x in n[y] && x != y
    ensures a[x] != a[y]
  {
    var i :| 0 <= i < |n[x]| && n[x][i] == y;
  }

  /** The values `s` gives the variables `vs` lie in their domains. */
  ghost predicate Within<Var, Val>(s: Assignment<Var, Val>, d: Domains<Var, Val>, vs: seq<Var>) {
    forall v :: v in vs ==> v in s && v in d && s[v] in d[v]
  }

  /** `s` keeps every value of the partial assignment `a`. */
  ghost predicate Extends<Var, Val>(s: Assignment<Var, Val>, a: Assignment<Var, Val>) {
    forall v :: v in a ==> v in s && s[v] == a[v]
  }

  /** Domains with the same members hold the same assignments. */
  lemma WithinSameMembers<Var, Val>(s: Assignment<Var, Val>, d1: Domains<Var, Val>, d0: Domains<Var, Val>, vs: seq<Var>)
    requires SameMembers(d1, d0) && Within(s, d0, vs)
    ensures Within(s, d1, vs)
  {
    forall v | v in vs
      ensures s[v] in d1[v]
    {
      assert s[v] in multiset(d0[v]);
    }
  }

  /** `revise` keeps a value of Xi that some value of Xj supports. */
  lemma SupportedKept<Var, Val>(cons: (Var, Val, Var, Val) -> bool, xi: Var, xj: Var,
                                xs: seq<Val>, ys: seq<Val>, x: Val, y: Val)
    requires x in xs && y in ys && cons(xi, x, xj, y)
    ensures x in Filter(xs, SupportedBy(cons, xi, xj, ys))
  {
    FilterMembers(xs, SupportedBy(cons, xi, xj, ys));
    var k :| 0 <= k < |ys| && ys[k] == y;
  }

  /** Forward checking never takes from a neighbour a value different
      from the assigned one, so when a solution gives every neighbour such
      a value, no domain empties and the solution stays within the pruned
      domains. */
  lemma {:induction false} FcKeeps<Var, Val>(d: Domains<Var, Val>, nbs: seq<Var>, xv: Val,
                                             s: Assignment<Var, Val>, vs: seq<Var>)
    requires forall w :: w in nbs ==> w in vs
    requires Within(s, d, vs)
    requires forall w :: w in nbs ==> s[w] != xv
    ensures ForwardChecked(d, nbs, xv).ok
    ensures Within(s, ForwardChecked(d, nbs, xv).d, vs)
  {
    if nbs != [] {
      var w := nbs[0];
      if xv in d[w] {
        var d' := d[w := RemoveFirst(d[w], xv)];
        RemoveFirstKeeps(d[w], xv, s[w]);
        assert Within(s, d', vs);
        FcKeeps(d', nbs[1..], xv, s, vs);
      } else {
        FcKeeps(d, nbs[1..], xv, s, vs);
      }
    }
  }

  /** Forward checking as it is evidently meant: every listed neighbour
      keeps only the values the constraint allows next to `xv`, and the
      check fails when that empties a domain that was not empty. Returns
      the success flag and the pruned domains. */
  function ConsistentPruned<Var(==), Val(==)>(cons: (Var, Val, Var, Val) -> bool, d: Domains<Var, Val>,
                                              x: Var, xv: Val, nbs: seq<Var>): (r: (bool, Domains<Var, Val>))
    requires forall w :: w in nbs ==> w in d
    ensures r.1.Keys == d.Keys
  {
    if nbs == [] then (true, d)
    else
      var w := nbs[0];
      var kept := Filter(d[w], (wv: Val) => cons(x, xv, w, wv));
      if kept == [] && d[w] != [] then (false, d[w := kept])
      else ConsistentPruned(cons, d[w := kept], x, xv, nbs[1..])
  }

  /** The corrected forward check loses no solution: a value the
      constraint allows next to `xv` is never pruned, so no domain that
      holds one empties. */
  lemma {:induction false} ConsistentPrunedKeeps<Var, Val>(cons: (Var, Val, Var, Val) -> bool, d: Domains<Var, Val>,
                                                           x: Var, xv: Val, nbs: seq<Var>,
                                                           s: Assignment<Var, Val>, vs: seq<Var>)
    requires forall w :: w in nbs ==> w in vs
    requires Within(s, d, vs)
    requires forall w :: w in nbs ==> cons(x, xv, w, s[w])
    ensures ConsistentPruned(cons, d, x, xv, nbs).0
    ensures Within(s, ConsistentPruned(cons, d, x, xv, nbs).1, vs)
  {
    if nbs != [] {
      var w := nbs[0];
      var p := (wv: Val) => cons(x, xv, w, wv);
      FilterMembers(d[w], p);
      var d' := d[w := Filter(d[w], p)];
      assert Within(s, d', vs);
      ConsistentPrunedKeeps(cons, d', x, xv, nbs[1..], s, vs);
    }
  }

  class CSP<Var(==, !new), Val(==, !new)> {
    const V: seq<Var>
    var D: Domains<Var, Val>
    const N: map<Var, seq<Var>>
    const cons: (Var, Val, Var, Val) -> bool
    /** Nodes explored by `_backtrack`. */
    var steps: nat

    constructor (variables: seq<Var>, domains: Domains<Var, Val>, neighbours: map<Var, seq<Var>>,
                 constraint: (Var, Val, Var, Val) -> bool)
      ensures V == variables && D == domains && N == neighbours && cons == constraint
      ensures steps == 0
    {
      V := variables;
      D := domains;
      N := neighbours;
      cons := constraint;
      steps := 0;
    }

    /** The shape of the problem: variables listed once, each with a
        neighbour list, neighbours among the variables. */
    ghost predicate Shape() {
      NoDup(V)
      && (forall v :: v in V ==> v in N)
      && (forall v, w :: v in V && v in N && w in N[v] ==> w in V)
    }

    /** What the search relies on: the shape, and a domain for each
        variable. */
    ghost predicate Covered()
      reads this
    {
      Shape() && forall v :: v in V ==> v in D
    }

    /** What AC-3 relies on besides: every domain is duplicate-free, as
        the domains of a constraint problem are sets of values. */
    ghost predicate Valid()
      reads this
    {
      Covered() && forall v :: v in V ==> NoDup(D[v])
    }

    /** A full solution: every variable assigned, and the constraint holds
        from every variable to each of its neighbours other than itself. */
    ghost predicate IsSolution(s: Assignment<Var, Val>) {
      s.Keys == Elems(V)
      && forall x, i :: x in s && x in N && 0 <= i < |N[x]| && N[x][i] in s && N[x][i] != x ==>
           cons(x, s[x], N[x][i], s[N[x][i]])
    }

    /** Some solution extends `a` and takes every value from `d`. */
    ghost predicate Solvable(a: Assignment<Var, Val>, d: Domains<Var, Val>) {
      exists s :: IsSolution(s) && Extends(s, a) && Within(s, d, V)
    }

    /** No variable is its own neighbour. */
    ghost predicate Loopless() {
      forall v :: v in V && v in N ==> v !in N[v]
    }

    /** The constraint graph is undirected and loopless, as the neighbour
        tables of map colouring are. */
    ghost predicate SimpleGraph() {
      Loopless() && forall v, w :: v in V && v in N && w in N[v] ==> w in N && v in N[w]
    }

    /** The constraint rejects equal values, as `adj_constraint` does. */
    ghost predicate ForbidsEqual() {
      forall x, xv, y, yv :: cons(x, xv, y, yv) ==> xv != yv
    }

    /** What forward checking needs to lose no solution: it deletes the
        assigned value from every neighbour without consulting the
        constraint, which is harmless only when the constraint forbids
        equal values between distinct variables. */
    ghost predicate FcComplete() {
      Loopless() && ForbidsEqual()
    }

    /** Every queued arc (Xi, Xj) has Xj among the neighbours of Xi. */
    ghost predicate ArcsAlong(queue: seq<Arc<Var>>) {
      forall e :: e in queue ==> e.0 in N && e.1 in N[e.0]
    }

    /** Every solution within `d0` is still within `d`. */
    ghost predicate KeepsSolutions(d0: Domains<Var, Val>, d: Domains<Var, Val>) {
      forall s :: IsSolution(s) && Within(s, d0, V) ==> Within(s, d, V)
    }

    lemma ArcsAlongFront(queue: seq<Arc<Var>>)
      requires queue != [] && ArcsAlong(queue)
      ensures queue[0].1 in N[queue[0].0] && ArcsAlong(queue[1..])
    {
      assert queue[0] in queue;
    }

    /** A solution satisfies the constraint along every edge. */
    lemma SolutionEdge(s: Assignment<Var, Val>, x: Var, y: Var)
      requires Shape() && IsSolution(s) && x in V && y in N[x] && x != y
      ensures x in s && y in s && cons(x, s[x], y, s[y])
    {
      var i :| 0 <= i < |N[x]| && N[x][i] == y;
      assert x in Elems(V) && y in Elems(V);
    }

    /** Forward checking that consults the constraint keeps every
        solution, whatever the constraint: it empties no domain and the
        solution stays within the pruned domains. */
    lemma PrunedSpares(s: Assignment<Var, Val>, d: Domains<Var, Val>, x: Var)
      requires Shape() && Loopless() && IsSolution(s) && x in V && Within(s, d, V)
      ensures ConsistentPruned(cons, d, x, s[x], N[x]).0
      ensures Within(s, ConsistentPruned(cons, d, x, s[x], N[x]).1, V)
    {
      assert x in s by { assert x in Elems(V); }
      forall w | w in N[x]
        ensures cons(x, s[x], w, s[w])
      {
        SolutionEdge(s, x, w);
      }
      ConsistentPrunedKeeps(cons, d, x, s[x], N[x], s, V);
    }

    /** Solvability only depends on the members of the domains. */
    lemma SolvableSameMembers(a: Assignment<Var, Val>, d1: Domains<Var, Val>, d0: Domains<Var, Val>)
      requires SameMembers(d1, d0)
      ensures Solvable(a, d0) ==> Solvable(a, d1)
    {
      if Solvable(a, d0) {
        var s :| IsSolution(s) && Extends(s, a) && Within(s, d0, V);
        WithinSameMembers(s, d1, d0, V);
      }
    }

    /** When the constraint forbids equal values, forward checking the
        value a solution gives `x` empties no domain and keeps the
        solution within the pruned domains. */
    lemma FcSpares(s: Assignment<Var, Val>, d: Domains<Var, Val>, x: Var)
      requires Shape() && FcComplete() && IsSolution(s) && x in V && Within(s, d, V)
      ensures ForwardChecked(d, N[x], s[x]).ok
      ensures Within(s, ForwardChecked(d, N[x], s[x]).d, V)
    {
      assert x in s by { assert x in Elems(V); }
      forall w | w in N[x]
        ensures s[w] != s[x]
      {
        SolutionEdge(s, x, w);
      }
      FcKeeps(d, N[x], s[x], s, V);
    }

    /** `len(A) == len(V)`. */
    function IsComplete(a: Assignment<Var, Val>): bool {
      |a| == |V|
    }

    /** For an assignment over the variables, the length test means that
        every variable is assigned. */
    lemma IsCompleteMeans(a: Assignment<Var, Val>)
      requires NoDup(V) && a.Keys <= Elems(V)
      ensures IsComplete(a) <==> forall v :: v in V ==> v in a
    {
      NoDupElemsCard(V);
      assert |a.Keys| == |a|;
      if forall v :: v in V ==> v in a {
        assert a.Keys == Elems(V);
      } else {
        assert a.Keys < Elems(V);
        ProperSubsetCard(a.Keys, Elems(V));
      }
    }

    function ConsistentWith(x: Var, xv: Val, nbs: seq<Var>, a: Assignment<Var, Val>): (r: bool)
      ensures r <==> forall w :: w in nbs && w in a ==> cons(x, xv, w, a[w])
    {
      if nbs == [] then true
      else (nbs[0] !in a || cons(x, xv, nbs[0], a[nbs[0]])) && ConsistentWith(x, xv, nbs[1..], a)
    }

    /** The value agrees with every assigned neighbour. */
    function IsConsistent(x: Var, xv: Val, a: Assignment<Var, Val>): (r: bool)
      requires x in N
      ensures r <==> forall w :: w in N[x] && w in a ==> cons(x, xv, w, a[w])
    {
      ConsistentWith(x, xv, N[x], a)
    }

    function MinDomainSize(us: seq<Var>): (m: nat)
      reads this
      requires us != [] && forall u :: u in us ==> u in D
      ensures forall u :: u in us ==> m <= |D[u]|
      ensures exists k :: 0 <= k < |us| && |D[us[k]]| == m
    {
      if |us| == 1 then |D[us[0]]|
      else
        var rest := MinDomainSize(us[1..]);
        assert forall u :: u in us ==> u == us[0] || u in us[1..];
        if |D[us[0]]| <= rest then |D[us[0]]| else rest
    }

    /** Python's `max(cands, key=len(N[v]))`: the first candidate of
        maximal degree. */
    function FirstMaxDegree(cands: seq<Var>): (k: nat)
      reads this
      requires cands != [] && forall u :: u in cands ==> u in N
      ensures k < |cands|
      ensures forall i :: 0 <= i < |cands| ==> |N[cands[i]]| <= |N[cands[k]]|
      ensures forall i :: 0 <= i < k ==> |N[cands[i]]| < |N[cands[k]]|
    {
      if |cands| == 1 then 0
      else
        var rest := FirstMaxDegree(cands[1..]) + 1;
        if |N[cands[rest]]| > |N[cands[0]]| then rest else 0
    }

    /** MRV with the degree tie-break: an unassigned variable of smallest
        domain and, among those, of most neighbours. */
    /** `[v for v in V if v not in A]`. */
    function Unassigned(a: Assignment<Var, Val>): (us: seq<Var>)
      ensures forall v :: v in us <==> v in V && v !in a
    {
      var p := (v: Var) => v !in a;
      FilterMembers(V, p);
      Filter(V, p)
    }

    /** `[v for v in us if len(D[v]) == m]`. */
    function Densest(us: seq<Var>, m: nat): (ds: seq<Var>)
      reads this
      ensures forall v :: v in ds <==> v in us && v in D && |D[v]| == m
    {
      var d := D;
      var p := (v: Var) => v in d && |d[v]| == m;
      FilterMembers(us, p);
      Filter(us, p)
    }

    function SelectUnassignedVar(a: Assignment<Var, Val>): (r: Var)
      reads this
      requires Covered()
      requires exists v :: v in V && v !in a
      ensures r in V && r !in a
      ensures forall v :: v in V && v !in a ==> |D[r]| <= |D[v]|
      ensures forall v :: v in V && v !in a && |D[v]| == |D[r]| ==> |N[v]| <= |N[r]|
    {
      var unassigned := Unassigned(a);
      assert unassigned != [] by {
        var v :| v in V && v !in a;
        assert v in unassigned;
      }
      var minSize := MinDomainSize(unassigned);
      var densest := Densest(unassigned, minSize);
      assert densest != [] by {
        var k :| 0 <= k < |unassigned| && |D[unassigned[k]]| == minSize;
        assert unassigned[k] in densest;
      }
      densest[FirstMaxDegree(densest)]
    }

    /** Python's `max` and `min` return the first extreme element, so the
        selected variable is the first in `V` order among the unassigned
        variables of smallest domain and most neighbours. */
    lemma SelectUnassignedVarFirst(a: Assignment<Var, Val>, i: nat, j: nat)
      requires Covered()
      requires exists v :: v in V && v !in a
      requires i < j < |V| && V[j] == SelectUnassignedVar(a)
      requires V[i] !in a && |D[V[i]]| == |D[V[j]]|
      ensures |N[V[i]]| < |N[V[j]]|
    {
      var d := D;
      var p1 := (v: Var) => v !in a;
      var unassigned := Unassigned(a);
      assert unassigned == Filter(V, p1);
      var minSize := MinDomainSize(unassigned);
      var p2 := (v: Var) => v in d && |d[v]| == minSize;
      var densest := Densest(unassigned, minSize);
      assert densest == Filter(unassigned, p2);
      var k := FirstMaxDegree(densest);
      assert densest[k] == V[j];
      FilterSub(V, p1);
      NoDupSub(unassigned, V);
      var b :| 0 <= b < |unassigned| && unassigned[b] == V[j];
      FilterKeepsOrder(V, p1, i, j, b);
      var c :| 0 <= c < b && unassigned[c] == V[i];
      FilterKeepsOrder(unassigned, p2, c, b, k);
      var e :| 0 <= e < k && densest[e] == V[i];
    }

    /** `sorted(D[x], key=lcv_score)`: the domain of `x`, least
        constraining values first, ties in domain order. */
    function OrderDomainVals(x: Var): (r: seq<Val>)
      reads this
      requires Covered() && x in V
      ensures multiset(r) == multiset(D[x])
      ensures forall i, j :: 0 <= i < j < |r| ==>
        LcvScore(cons, D, x, r[i], N[x]) <= LcvScore(cons, D, x, r[j], N[x])
      ensures forall k :: KeyClass(r, LcvKey(cons, D, x, N[x]), k) == KeyClass(D[x], LcvKey(cons, D, x, N[x]), k)
    {
      SortByKey(D[x], LcvKey(cons, D, x, N[x]))
    }

    /** Removes `xv` from every neighbour domain holding it, in neighbour
        order, and stops at the first domain it empties. The removals are
        returned: the source appends them to a list its caller always
        passes in empty. */
    method ForwardCheck(x: Var, xv: Val) returns (ok: bool, removals: seq<Removal<Var, Val>>)
      requires Covered() && x in V
      modifies this`D
      ensures Covered()
      ensures Checked(ok, D, removals) == ForwardChecked(old(D), N[x], xv)
    {
      var nbs := N[x];
      removals := [];
      for i := 0 to |nbs|
        invariant D.Keys == old(D).Keys
        invariant ForwardChecked(old(D), nbs, xv) == AfterLog(removals, ForwardChecked(D, nbs[i..], xv))
      {
        var w := nbs[i];
        assert nbs[i..][1..] == nbs[i + 1..];
        if xv in D[w] {
          D := D[w := RemoveFirst(D[w], xv)];
          removals := removals + [(w, xv)];
          if D[w] == [] {
            return false, removals;
          }
        }
      }
      return true, removals;
    }

    /** Appends every logged value back to its domain, in log order. */
    method Restore(removals: seq<Removal<Var, Val>>)
      requires forall e :: e in removals ==> e.0 in D
      modifies this`D
      ensures D == Restored(old(D), removals)
    {
      for i := 0 to |removals|
        invariant D.Keys == old(D).Keys
        invariant Restored(D, removals[i..]) == Restored(old(D), removals)
      {
        var (v, val) := removals[i];
        assert removals[i..][1..] == removals[i + 1..];
        D := D[v := D[v] + [val]];
      }
    }

    /** Deletes from the domain of `xi` every value with no support in the
        domain of `xj`; reports whether anything was deleted. */
    method Revise(xi: Var, xj: Var) returns (revised: bool)
      requires xi in D && xj in D && NoDup(D[xi])
      modifies this`D
      ensures xi in D && D == old(D)[xi := D[xi]]
      ensures multiset(D[xi]) <= multiset(old(D)[xi])
      ensures xi != xj ==> D[xi] == Filter(old(D)[xi], SupportedBy(cons, xi, xj, old(D)[xj]))
      ensures |D[xi]| <= |old(D)[xi]|
      ensures revised <==> |D[xi]| < |old(D)[xi]|
      ensures Shape() && SimpleGraph() && xi in V && xj in N[xi] ==> KeepsSolutions(old(D), D)
    {
      var snapshot := D[xi];
      ghost var p := SupportedBy(cons, xi, xj, D[xj]);
      revised := false;
      ghost var kept: seq<Val> := [];
      ghost var removed := 0;
      assert kept + snapshot[0..] == snapshot;
      assert D == old(D)[xi := snapshot];
      for k := 0 to |snapshot|
        invariant D == old(D)[xi := kept + snapshot[k..]]
        invariant ReviseInv(snapshot, kept, k, p, xi != xj, revised, removed)
      {
        var x := snapshot[k];
        var dropped := ReviseValue(xi, xj, x);
        if dropped {
          ReviseDrop(snapshot, kept, k, p, xi != xj, revised, removed);
          UpdateTwice(old(D), xi, kept + snapshot[k..], kept + snapshot[k + 1..]);
          revised := true;
          removed := removed + 1;
        } else {
          ReviseKeep(snapshot, kept, k, p, xi != xj, revised, removed);
          kept := kept + [x];
        }
      }
      ReviseDone(snapshot, kept, p, xi != xj, revised, removed);
      if Shape() && SimpleGraph() && xi in V && xj in N[xi] {
        ReviseSpares(old(D), xi, xj);
      }
    }

    /** One turn of the loop of `revise`: `list.remove` the value `x` from
        the domain of `xi` when no value in the domain of `xj` supports it. */
    method ReviseValue(xi: Var, xj: Var, x: Val) returns (dropped: bool)
      requires xi in D && xj in D
      modifies this`D
      ensures dropped <==> !AnySupport(cons, xi, x, xj, old(D)[xj])
      ensures D == if dropped then old(D)[xi := RemoveFirst(old(D)[xi], x)] else old(D)
    {
      dropped := !AnySupport(cons, xi, x, xj, D[xj]);
      if dropped {
        D := D[xi := RemoveFirst(D[xi], x)];
      }
    }

    /** After `xi` lost values, every arc (Xk, Xi) with Xk a neighbour of
        `xi` other than `xj` goes to the back of the queue, in neighbour
        order. */
    method Requeue(queue: seq<Arc<Var>>, xi: Var, xj: Var) returns (q: seq<Arc<Var>>)
      requires xi in N
      ensures |queue| <= |q| && q[..|queue|] == queue
      ensures forall e :: e in q[|queue|..] <==> e.1 == xi && e.0 in N[xi] && e.0 != xj
      ensures Shape() && xi in V && ArcsWithin(queue, V) ==> ArcsWithin(q, V)
      ensures SimpleGraph() && Shape() && xi in V && ArcsAlong(queue) ==> ArcsAlong(q)
    {
      var nbs := N[xi];
      q := queue;
      for t := 0 to |nbs|
        invariant |queue| <= |q| && q[..|queue|] == queue
        invariant forall e :: e in q[|queue|..] <==> e.1 == xi && e.0 in nbs[..t] && e.0 != xj
      {
        assert nbs[..t + 1] == nbs[..t] + [nbs[t]];
        if nbs[t] != xj {
          assert (q + [(nbs[t], xi)])[|queue|..] == q[|queue|..] + [(nbs[t], xi)];
          q := q + [(nbs[t], xi)];
        }
      }
      assert nbs[..|nbs|] == nbs;
      assert q == q[..|queue|] + q[|queue|..];
      if Shape() && xi in V && ArcsWithin(queue, V) {
        forall e | e in q
          ensures e.0 in V && e.1 in V
        {
        }
      }
    }

    /** One round of the AC-3 loop: pop the front arc, revise it, and on
        a deletion either stop (the domain of `xi` emptied) or requeue the
        arcs pointing at `xi`. */
    method Ac3Visit(queue: seq<Arc<Var>>) returns (rest: seq<Arc<Var>>, emptied: bool)
      requires Shape() && queue != [] && ArcsWithin(queue, V)
      requires forall v :: v in V ==> v in D && NoDup(D[v])
      modifies this`D
      ensures ArcsWithin(rest, V)
      ensures Shrunk(D, old(D))
      ensures TotalSize(D, V) < TotalSize(old(D), V)
           || (TotalSize(D, V) == TotalSize(old(D), V) && |rest| < |queue|)
      ensures emptied ==> exists v :: v in V && D[v] == [] && old(D)[v] != []
      ensures !emptied ==> forall v :: v in V && D[v] == [] ==> old(D)[v] == []
      ensures SimpleGraph() && ArcsAlong(queue) ==> ArcsAlong(rest)
      ensures SimpleGraph() && ArcsAlong(queue) ==>
                KeepsSolutions(old(D), D)
    {
      var (xi, xj) := queue[0];
      rest := queue[1..];
      if SimpleGraph() && ArcsAlong(queue) {
        ArcsAlongFront(queue);
      }
      var revised := Revise(xi, xj);
      Ac3Step(old(D), old(D), D, V, xi, revised);
      if revised {
        if D[xi] == [] {
          return rest, true;
        }
        rest := Requeue(rest, xi, xj);
      }
      emptied := false;
    }

    /** AC-3 over every arc of the graph; fails as soon as a revision
        empties a domain. */
    method Ac3() returns (ok: bool)
      requires Valid()
      modifies this`D
      ensures Valid()
      ensures Shrunk(D, old(D))
      ensures ok <==> forall v :: v in V && D[v] == [] ==> old(D)[v] == []
      ensures SimpleGraph() ==> KeepsSolutions(old(D), D)
      ensures SimpleGraph() && !ok ==> !Solvable(map[], old(D))
    {
      var queue := Arcs(V, N);
      ArcsClosed(V, N);
      ArcsMembers(V, N);
      while queue != []
        invariant Shrunk(D, old(D))
        invariant ArcsWithin(queue, V)
        invariant forall v :: v in V && D[v] == [] ==> old(D)[v] == []
        invariant SimpleGraph() ==> ArcsAlong(queue)
        invariant SimpleGraph() ==> KeepsSolutions(old(D), D)
        decreases TotalSize(D, V), |queue|
      {
        ShrunkKeepsNoDup(old(D), D, V);
        ghost var before := D;
        var emptied;
        queue, emptied := Ac3Visit(queue);
        Ac3Chain(old(D), before, D, V, emptied);
        if emptied {
          ShrunkKeepsNoDup(old(D), D, V);
          if SimpleGraph() {
            EmptiedUnsolvable(old(D), D);
          }
          return false;
        }
      }
      ShrunkKeepsNoDup(old(D), D, V);
      return true;
    }

    /** Recursive backtracking over the assignment `a`; on failure the
        domains hold the same values as on entry. */
    method Backtrack(a: Assignment<Var, Val>, fc: bool) returns (res: Option<Assignment<Var, Val>>)
      requires Covered()
      requires a.Keys <= Elems(V)
      requires EdgesChecked(N, cons, a)
      modifies this`D, this`steps
      ensures res.Some? ==> res.value.Keys == Elems(V) && EdgesChecked(N, cons, res.value)
      ensures res.Some? ==> forall v :: v in a ==> res.value[v] == a[v]
      ensures res.Some? ==> forall v :: v in res.value && v !in a ==> res.value[v] in old(D)[v]
      ensures res.None? ==> SameMembers(D, old(D))
      ensures res.None? && (!fc || FcComplete()) ==> !Solvable(a, old(D))
      ensures !fc ==> D == old(D)
      decreases |Elems(V) - a.Keys|, 3
    {
      IsCompleteMeans(a);
      if IsComplete(a) {
        assert a.Keys == Elems(V);
        return Some(a);
      }
      steps := steps + 1;
      var x := SelectUnassignedVar(a);
      var vals := OrderDomainVals(x);
      ghost var complete := !fc || FcComplete();
      for i := 0 to |vals|
        invariant Covered()
        invariant SameMembers(D, old(D))
        invariant !fc ==> D == old(D)
        invariant complete ==> NoneSolvable(a, x, vals[..i], old(D))
      {
        assert vals[i] in multiset(D[x]) by {
          assert vals[i] in multiset(vals);
        }
        ghost var d := D;
        res := TryValue(a, x, vals[i], fc);
        if res.Some? {
          SameMembersShrunk(d, old(D));
          forall v | v in res.value && v !in a
            ensures res.value[v] in old(D)[v]
          {
            ShrunkValue(d, old(D), v, res.value[v]);
          }
          return;
        }
        SameMembersTrans(D, d, old(D));
        if complete {
          SolvableSameMembers(a[x := vals[i]], d, old(D));
          NoneSolvableSnoc(a, x, vals, i, old(D));
        }
      }
      if complete {
        assert vals[..|vals|] == vals;
        ValuesCover(a, x, vals, old(D));
      }
      return None;
    }

    /** No value of `vals` for `x` leads to a solution through `a`. */
    ghost predicate NoneSolvable(a: Assignment<Var, Val>, x: Var, vals: seq<Val>, d: Domains<Var, Val>) {
      forall j :: 0 <= j < |vals| ==> !Solvable(a[x := vals[j]], d)
    }

    lemma NoneSolvableSnoc(a: Assignment<Var, Val>, x: Var, vals: seq<Val>, i: nat, d: Domains<Var, Val>)
      requires i < |vals| && NoneSolvable(a, x, vals[..i], d) && !Solvable(a[x := vals[i]], d)
      ensures NoneSolvable(a, x, vals[..i + 1], d)
    {
      assert forall j :: 0 <= j < i ==> vals[..i + 1][j] == vals[..i][j];
    }

    /** A value that clashes with an assigned neighbour is in no solution
        through the assignment. */
    lemma InconsistentUnsolvable(a: Assignment<Var, Val>, x: Var, xv: Val, d: Domains<Var, Val>)
      requires Shape() && x in V && x !in a && !IsConsistent(x, xv, a)
      ensures !Solvable(a[x := xv], d)
    {
    }

    /** When no value of the domain of `x` leads to a solution, no
        solution extends the assignment: every solution gives `x` one of
        those values. */
    lemma ValuesCover(a: Assignment<Var, Val>, x: Var, vals: seq<Val>, d: Domains<Var, Val>)
      requires x in V && x in d && multiset(vals) == multiset(d[x])
      requires NoneSolvable(a, x, vals, d)
      ensures !Solvable(a, d)
    {
      if Solvable(a, d) {
        var s :| IsSolution(s) && Extends(s, a) && Within(s, d, V);
        var j := ListedValue(s, x, vals, d);
        assert false;
      }
    }

    /** The value a solution within `d` gives `x` is listed in any
        permutation of the domain of `x`. */
    lemma ListedValue(s: Assignment<Var, Val>, x: Var, vals: seq<Val>, d: Domains<Var, Val>) returns (j: nat)
      requires x in V && x in d && multiset(vals) == multiset(d[x]) && Within(s, d, V)
      ensures x in s && j < |vals| && vals[j] == s[x]
    {
      assert s[x] in multiset(vals);
      j :| 0 <= j < |vals| && vals[j] == s[x];
    }

    /** One turn of the loop of `_backtrack`: try `xv` for `x` when it
        agrees with the assigned neighbours, and search deeper with it. */
    method TryValue(a: Assignment<Var, Val>, x: Var, xv: Val, fc: bool) returns (res: Option<Assignment<Var, Val>>)
      requires Covered()
      requires a.Keys <= Elems(V) && x in V && x !in a && xv in D[x]
      requires EdgesChecked(N, cons, a)
      modifies this`D, this`steps
      ensures res.Some? ==> res.value.Keys == Elems(V) && EdgesChecked(N, cons, res.value)
      ensures res.Some? ==> forall v :: v in a ==> res.value[v] == a[v]
      ensures res.Some? ==> forall v :: v in res.value && v !in a ==> res.value[v] in old(D)[v]
      ensures res.None? ==> SameMembers(D, old(D))
      ensures res.None? && (!fc || FcComplete()) ==> !Solvable(a[x := xv], old(D))
      ensures !fc ==> D == old(D)
      decreases |Elems(V) - a.Keys|, 2
    {
      if !IsConsistent(x, xv, a) {
        SameMembersRefl(D);
        InconsistentUnsolvable(a, x, xv, D);
        return None;
      }
      EdgesExtend(N, cons, a, x, xv);
      if fc {
        res := CheckedDescend(a, x, xv);
        return;
      }
      Smaller(a, x, xv);
      res := Backtrack(a[x := xv], fc);
      if res.Some? {
        SameMembersRefl(D);
        SameMembersShrunk(D, D);
        ExtendValues(D, D, a, x, xv, res.value);
      }
    }

    /** The forward-checking branch of that turn: prune the neighbour
        domains, search deeper unless a domain emptied, and on failure
        restore the pruned values. */
    method CheckedDescend(a: Assignment<Var, Val>, x: Var, xv: Val) returns (res: Option<Assignment<Var, Val>>)
      requires Covered()
      requires a.Keys <= Elems(V) && x in V && x !in a && xv in D[x]
      requires EdgesChecked(N, cons, a[x := xv])
      modifies this`D, this`steps
      ensures res.Some? ==> res.value.Keys == Elems(V) && EdgesChecked(N, cons, res.value)
      ensures res.Some? ==> forall v :: v in a ==> res.value[v] == a[v]
      ensures res.Some? ==> forall v :: v in res.value && v !in a ==> res.value[v] in old(D)[v]
      ensures res.None? ==> SameMembers(D, old(D))
      ensures res.None? && FcComplete() ==> !Solvable(a[x := xv], old(D))
      ensures !ForwardChecked(old(D), N[x], xv).ok ==> res.None?
      decreases |Elems(V) - a.Keys|, 1
    {
      var domainOk, removals := ForwardCheck(x, xv);
      if domainOk {
        res := PrunedDescend(old(D), a, x, xv, removals);
      } else {
        res := None;
        if FcComplete() && Solvable(a[x := xv], old(D)) {
          var s :| IsSolution(s) && Extends(s, a[x := xv]) && Within(s, old(D), V);
          FcSpares(s, old(D), x);
          assert false;
        }
        SameMembersRefl(D);
        Undo(old(D), x, xv, removals);
      }
    }

    /** The deeper search once forward checking pruned the domains `d0`
        without emptying one; on failure the pruned values are restored. */
    method PrunedDescend(ghost d0: Domains<Var, Val>, a: Assignment<Var, Val>, x: Var, xv: Val,
                         removals: seq<Removal<Var, Val>>) returns (res: Option<Assignment<Var, Val>>)
      requires Covered()
      requires a.Keys <= Elems(V) && x in V && x !in a && x in d0 && xv in d0[x]
      requires forall w :: w in N[x] ==> w in d0
      requires ForwardChecked(d0, N[x], xv) == Checked(true, D, removals)
      requires EdgesChecked(N, cons, a[x := xv])
      modifies this`D, this`steps
      ensures res.Some? ==> res.value.Keys == Elems(V) && EdgesChecked(N, cons, res.value)
      ensures res.Some? ==> forall v :: v in a ==> res.value[v] == a[v]
      ensures res.Some? ==> forall v :: v in res.value && v !in a ==> res.value[v] in d0[v]
      ensures res.None? ==> SameMembers(D, d0)
      ensures res.None? && FcComplete() ==> !Solvable(a[x := xv], d0)
      decreases |Elems(V) - a.Keys|, 0
    {
      Smaller(a, x, xv);
      FcShrinks(d0, N[x], xv);
      ghost var d1 := D;
      res := Backtrack(a[x := xv], true);
      if res.Some? {
        ExtendValues(d0, d1, a, x, xv, res.value);
        return;
      }
      if FcComplete() && Solvable(a[x := xv], d0) {
        var s :| IsSolution(s) && Extends(s, a[x := xv]) && Within(s, d0, V);
        FcSpares(s, d0, x);
        assert false;
      }
      Undo(d0, x, xv, removals);
    }

    /** The `restore` that ends a failed forward-checked turn: the deeper
        search left the pruned domains with the same members, so every
        domain gets back the members it had before the forward check. */
    method Undo(ghost d0: Domains<Var, Val>, x: Var, xv: Val, removals: seq<Removal<Var, Val>>)
      requires x in N && forall w :: w in N[x] ==> w in d0
      requires removals == ForwardChecked(d0, N[x], xv).log
      requires SameMembers(D, ForwardChecked(d0, N[x], xv).d)
      modifies this`D
      ensures SameMembers(D, d0)
    {
      RestoreUndoesForwardCheck(d0, N[x], xv, D);
      Restore(removals);
    }

    /** Assigning an unassigned variable shrinks the set still to assign. */
    lemma Smaller(a: Assignment<Var, Val>, x: Var, xv: Val)
      requires x in V && x !in a
      ensures |Elems(V) - a[x := xv].Keys| < |Elems(V) - a.Keys|
    {
      assert Elems(V) - a[x := xv].Keys < Elems(V) - a.Keys by {
        assert x in Elems(V) - a.Keys;
      }
      ProperSubsetCard(Elems(V) - a[x := xv].Keys, Elems(V) - a.Keys);
    }

    /** On a simple graph, a revision of an arc keeps the values every
        solution within the domains gives. */
    lemma ReviseSpares(d0: Domains<Var, Val>, xi: Var, xj: Var)
      requires Shape() && SimpleGraph() && xi in V && xj in N[xi]
      requires xi in D && xi in d0 && xj in d0 && D == d0[xi := D[xi]]
      requires D[xi] == Filter(d0[xi], SupportedBy(cons, xi, xj, d0[xj]))
      ensures KeepsSolutions(d0, D)
    {
      forall s | IsSolution(s) && Within(s, d0, V)
        ensures Within(s, D, V)
      {
        SolutionEdge(s, xi, xj);
        SupportedKept(cons, xi, xj, d0[xi], d0[xj], s[xi], s[xj]);
      }
    }

    /** When every solution within `d0` stays within `d` and `d` has an
        empty domain, there is no solution within `d0`. */
    lemma EmptiedUnsolvable(d0: Domains<Var, Val>, d: Domains<Var, Val>)
      requires KeepsSolutions(d0, d)
      requires exists v :: v in V && v in d && d[v] == []
      ensures !Solvable(map[], d0)
    {
    }

    /** Domains that keep every solution within `d0` keep solvability. */
    lemma SolvableKept(d0: Domains<Var, Val>, d: Domains<Var, Val>)
      requires KeepsSolutions(d0, d)
      ensures Solvable(map[], d0) ==> Solvable(map[], d)
    {
    }

    /** The solver's entry point. The domains are put back afterwards,
        except when AC-3 fails: then the pruned domains stay. */
    method BacktrackingSearch(forwardCheck: bool, useAc3: bool) returns (solution: Option<Assignment<Var, Val>>)
      requires Valid()
      modifies this`D, this`steps
      ensures Valid()
      ensures solution.Some? ==> solution.value.Keys == Elems(V) && EdgesChecked(N, cons, solution.value)
      ensures solution.Some? ==> forall v :: v in V ==> solution.value[v] in old(D)[v]
      ensures D == old(D) || (useAc3 && solution.None? && exists v :: v in V && D[v] == [] && old(D)[v] != [])
      ensures solution.None? && (!forwardCheck || FcComplete()) && (!useAc3 || SimpleGraph()) ==>
                !Solvable(map[], old(D))
    {
      var backup := D;
      if useAc3 {
        var ok := Ac3();
        if !ok {
          return None;
        }
      } else {
        SameMembersRefl(D);
        SameMembersShrunk(D, D);
      }
      ghost var d1 := D;
      solution := Backtrack(map[], forwardCheck);
      if solution.None? && (!forwardCheck || FcComplete()) && (!useAc3 || SimpleGraph()) {
        SolvableKept(old(D), d1);
      }
      if solution.Some? {
        forall v | v in V
          ensures solution.value[v] in old(D)[v]
        {
          ShrunkValue(d1, old(D), v, solution.value[v]);
        }
      }
      D := backup;
    }
  }
}
