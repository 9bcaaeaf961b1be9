/** The permutation operators of the N-queens genetic algorithm in
    lab_04/ga_queens.py. A chromosome holds the row of the queen in each of
    the N columns, and is a permutation of 0 .. N-1. Order-1 crossover
    copies a segment of the father and fills the other columns with the
    mother's remaining genes in the order they have there; swap mutation exchanges two
    columns. The random draws (the segment ends, the swapped columns) are
    parameters. */
module GaQueens {
  import opened Wrappers

  /** `list(range(n))`. */
  function Iota(n: nat): (r: seq<int>)
    ensures |r| == n
  {
    seq(n, i => i)
  }

  /** A chromosome of `n` queens: every row 0 .. n-1 exactly once. */
  predicate IsPerm(s: seq<int>, n: nat) {
    multiset(s) == multiset(Iota(n))
  }

  lemma {:induction false} IotaCount(n: nat, x: int)
    ensures multiset(Iota(n))[x] == if 0 <= x < n then 1 else 0
    decreases n
  {
    if n > 0 {
      IotaCount(n - 1, x);
      assert Iota(n) == Iota(n - 1) + [n - 1];
    }
  }

  /** A permutation of 0 .. n-1 has length n and holds each row once and
      nothing else. */
  lemma PermCount(s: seq<int>, n: nat)
    requires IsPerm(s, n)
    ensures |s| == n
    ensures forall x :: multiset(s)[x] == if 0 <= x < n then 1 else 0
  {
    assert |multiset(s)| == |multiset(Iota(n))|;
    forall x
      ensures multiset(s)[x] == if 0 <= x < n then 1 else 0
    {
      IotaCount(n, x);
    }
  }

  /** MAX_FITNESS: `N * (N - 1) // 2`. */
  function MaxFitness(n: nat): (r: nat)
    ensures r == |Pairs(n)|
  {
    PairsCard(n);
    n * (n - 1) / 2
  }

  /** The unordered pairs of columns `(i, j)`, `i < j`, of `n` queens: the
      pairs that can attack each other. */
  function Pairs(n: nat): set<(nat, nat)> {
    set i: nat, j: nat | i < j < n :: (i, j)
  }

  /** The pairs whose right column is `j`. */
  function PairsEndingAt(j: nat, m: nat): set<(nat, nat)>
    requires m <= j
  {
    set i: nat | i < m :: (i, j)
  }

  lemma {:induction false} PairsEndingAtCard(j: nat, m: nat)
    requires m <= j
    ensures |PairsEndingAt(j, m)| == m
    decreases m
  {
    if m > 0 {
      PairsEndingAtCard(j, m - 1);
      assert PairsEndingAt(j, m) == PairsEndingAt(j, m - 1) + {(m - 1, j)};
    }
  }

  /** The pairs of `m + 1` columns: those of `m` columns and, apart from
      them, those ending at column `m`. */
  lemma PairsSplit(m: nat)
    ensures Pairs(m + 1) == Pairs(m) + PairsEndingAt(m, m)
    ensures Pairs(m) * PairsEndingAt(m, m) == {}
  {
    forall p | p in Pairs(m + 1)
      ensures p in Pairs(m) || p in PairsEndingAt(m, m)
    {
      if p.1 == m {
        assert p in PairsEndingAt(m, m);
      }
    }
  }

  lemma {:induction false} PairsCard(n: nat)
    ensures 2 * |Pairs(n)| == n * (n - 1)
    decreases n
  {
    if n > 0 {
      var m := n - 1;
      PairsCard(m);
      PairsSplit(m);
      PairsEndingAtCard(m, m);
      assert |Pairs(n)| == |Pairs(m)| + m;
      assert n * m == m * (m - 1) + 2 * m;
    }
  }

  /** The marker of a column still to be filled. */
  const Empty: int := -1

  /** `child = [-1] * n; child[a:b+1] = dad[a:b+1]`. */
  function Seeded(dad: seq<int>, n: nat, a: nat, b: nat): (child: seq<int>)
    requires a <= b < n && |dad| == n
    ensures |child| == n
  {
    seq(a, _ => Empty) + dad[a..b + 1] + seq(n - b - 1, _ => Empty)
  }

  /** The seeded child holds the father's gene in the columns `a .. b`
      and Empty elsewhere. */
  lemma SeededAt(dad: seq<int>, n: nat, a: nat, b: nat, i: nat)
    requires a <= b < n && |dad| == n && i < n
    ensures Seeded(dad, n, a, b)[i] == if a <= i <= b then dad[i] else Empty
  {
  }

  /** `[gene for gene in mom if gene not in child]`. */
  function FillGenes(mom: seq<int>, child: seq<int>): (fill: seq<int>)
    ensures |fill| <= |mom|
    decreases |mom|
  {
    if mom == [] then []
    else (if mom[0] !in child then [mom[0]] else []) + FillGenes(mom[1..], child)
  }

  /** Sequence `p` in front of the filled rest, if the filling succeeded. */
  function Prepend(p: seq<int>, o: Option<seq<int>>): Option<seq<int>> {
    match o
    case None => None
    case Some(r) => Some(p + r)
  }

  lemma PrependPrepend(p: seq<int>, q: seq<int>, o: Option<seq<int>>)
    ensures Prepend(p, Prepend(q, o)) == Prepend(p + q, o)
    ensures Prepend([], o) == o
  {
    if o.Some? {
      assert p + (q + o.value) == (p + q) + o.value;
      assert [] + o.value == o.value;
    }
  }

  /** The filling loop, left to right: each Empty column takes the next
      gene of `fill`; None when `fill` runs out first (the IndexError of
      `fill[idx]`). */
  function FillSlots(child: seq<int>, fill: seq<int>): (r: Option<seq<int>>)
    ensures r.Some? ==> |r.value| == |child|
    decreases |child|
  {
    if child == [] then Some([])
    else if child[0] == Empty then
      if fill == [] then None else Prepend([fill[0]], FillSlots(child[1..], fill[1..]))
    else Prepend([child[0]], FillSlots(child[1..], fill))
  }

  /** One column of the filling loop: an Empty column takes the next gene
      of `fill`, or fails when there is none; another column is kept. */
  lemma FillStep(pre: seq<int>, rest: seq<int>, fill: seq<int>)
    requires rest != []
    ensures rest[0] == Empty && fill == [] ==> Prepend(pre, FillSlots(rest, fill)) == None
    ensures rest[0] == Empty && fill != [] ==>
      Prepend(pre, FillSlots(rest, fill)) == Prepend(pre + [fill[0]], FillSlots(rest[1..], fill[1..]))
    ensures rest[0] != Empty ==>
      Prepend(pre, FillSlots(rest, fill)) == Prepend(pre + [rest[0]], FillSlots(rest[1..], fill))
  {
    if rest[0] == Empty && fill != [] {
      PrependPrepend(pre, [fill[0]], FillSlots(rest[1..], fill[1..]));
    } else if rest[0] != Empty {
      PrependPrepend(pre, [rest[0]], FillSlots(rest[1..], fill));
    }
  }

  lemma SlicePush(c: seq<int>, i: nat, v: int)
    requires i < |c|
    ensures c[i := v][..i + 1] == c[..i] + [v]
    ensures c[..i + 1] == c[..i] + [c[i]]
  {
  }

  /** `order_one_xover(mom, dad)` with the sorted segment ends `a <= b` as
      parameters: the loop over the columns fills each Empty one with the
      next gene of `fill`. */
  method OrderOneXover(mom: seq<int>, dad: seq<int>, n: nat, a: nat, b: nat) returns (child: Option<seq<int>>)
    requires |mom| == n && |dad| == n && a <= b < n
    ensures child == FillSlots(Seeded(dad, n, a, b), FillGenes(mom, Seeded(dad, n, a, b)))
  {
    var c0 := Seeded(dad, n, a, b);
    var c := c0;
    var fill := FillGenes(mom, c);
    var idx := 0;
    var i := 0;
    assert c[..0] == [] && c0[0..] == c0 && fill[0..] == fill;
    PrependPrepend([], [], FillSlots(c0, fill));
    while i < n
      invariant 0 <= i <= n && |c| == n && idx <= |fill|
      invariant c[i..] == c0[i..]
      invariant FillSlots(c0, fill) == Prepend(c[..i], FillSlots(c0[i..], fill[idx..]))
    {
      ghost var pre := c[..i];
      assert c0[i..][0] == c[i] && c0[i..][1..] == c0[i + 1..];
      FillStep(pre, c0[i..], fill[idx..]);
      if c[i] == Empty {
        if idx >= |fill| {
          assert fill[idx..] == [];
          return None;
        }
        assert fill[idx..][0] == fill[idx] && fill[idx..][1..] == fill[idx + 1..];
        SlicePush(c, i, fill[idx]);
        c := c[i := fill[idx]];
        idx := idx + 1;
      } else {
        SlicePush(c, i, c[i]);
      }
      i := i + 1;
    }
    assert c[..n] == c && c0[n..] == [];
    assert c + [] == c;
    child := Some(c);
  }

  /** How often the fill holds a gene: as often as the mother, unless the
      child already holds it. */
  lemma {:induction false} FillGenesCount(mom: seq<int>, child: seq<int>, x: int)
    ensures multiset(FillGenes(mom, child))[x] == if x !in child then multiset(mom)[x] else 0
    decreases |mom|
  {
    if mom != [] {
      assert mom == [mom[0]] + mom[1..];
      FillGenesCount(mom[1..], child, x);
    }
  }

  lemma {:induction false} FillGenesAppend(s: seq<int>, t: seq<int>, child: seq<int>)
    ensures FillGenes(s + t, child) == FillGenes(s, child) + FillGenes(t, child)
    decreases |s|
  {
    if s == [] {
      assert s + t == t;
    } else {
      assert (s + t)[0] == s[0] && (s + t)[1..] == s[1..] + t;
      FillGenesAppend(s[1..], t, child);
    }
  }

  lemma FillGenesAppend3(p: seq<int>, s: seq<int>, q: seq<int>, child: seq<int>)
    ensures FillGenes(p + s + q, child) == FillGenes(p, child) + FillGenes(s, child) + FillGenes(q, child)
  {
    FillGenesAppend(p, s, child);
    FillGenesAppend(p + s, q, child);
  }

  /** Genes the child lacks all pass into the fill, in order. */
  lemma {:induction false} FillGenesAll(s: seq<int>, child: seq<int>)
    requires forall i :: 0 <= i < |s| ==> s[i] !in child
    ensures FillGenes(s, child) == s
    decreases |s|
  {
    if s != [] {
      FillGenesAll(s[1..], child);
    }
  }

  /** Genes the child holds never pass into the fill. */
  lemma {:induction false} FillGenesNone(s: seq<int>, child: seq<int>)
    requires forall i :: 0 <= i < |s| ==> s[i] in child
    ensures FillGenes(s, child) == []
    decreases |s|
  {
    if s != [] {
      FillGenesNone(s[1..], child);
    }
  }

  /** A run of `k` Empty columns takes the next `k` genes of the fill. */
  lemma {:induction false} FillEmpties(k: nat, rest: seq<int>, fill: seq<int>)
    requires k <= |fill|
    ensures FillSlots(seq(k, _ => Empty) + rest, fill) == Prepend(fill[..k], FillSlots(rest, fill[k..]))
    decreases k
  {
    var c := seq(k, _ => Empty) + rest;
    if k == 0 {
      assert c == rest && fill[k..] == fill;
      PrependPrepend([], [], FillSlots(rest, fill));
    } else {
      assert c[1..] == seq(k - 1, _ => Empty) + rest;
      FillEmpties(k - 1, rest, fill[1..]);
      assert fill[1..][..k - 1] == fill[1..k] && fill[1..][k - 1..] == fill[k..];
      PrependPrepend([fill[0]], fill[1..k], FillSlots(rest, fill[k..]));
      assert [fill[0]] + fill[1..k] == fill[..k];
    }
  }

  /** Columns that are not Empty are kept as they are. */
  lemma {:induction false} FillKept(s: seq<int>, rest: seq<int>, fill: seq<int>)
    requires Empty !in s
    ensures FillSlots(s + rest, fill) == Prepend(s, FillSlots(rest, fill))
    decreases |s|
  {
    if s == [] {
      assert s + rest == rest;
      PrependPrepend([], [], FillSlots(rest, fill));
    } else {
      assert (s + rest)[1..] == s[1..] + rest;
      assert s[0] in s;
      FillKept(s[1..], rest, fill);
      PrependPrepend([s[0]], s[1..], FillSlots(rest, fill));
      assert [s[0]] + s[1..] == s;
    }
  }

  /** The fill holds only genes of the mother the child lacks. */
  lemma {:induction false} FillGenesMembers(mom: seq<int>, child: seq<int>)
    ensures forall i :: 0 <= i < |FillGenes(mom, child)| ==> FillGenes(mom, child)[i] !in child
    decreases |mom|
  {
    if mom != [] {
      FillGenesMembers(mom[1..], child);
    }
  }

  /** The segment is part of the father. */
  lemma SegmentCount(dad: seq<int>, a: nat, b: nat, x: int)
    requires a <= b < |dad|
    ensures multiset(dad[a..b + 1])[x] <= multiset(dad)[x]
  {
    assert dad == dad[..a] + dad[a..b + 1] + dad[b + 1..];
  }

  /** The seeded child holds the segment's genes and otherwise only Empty. */
  lemma SeededMembers(dad: seq<int>, n: nat, a: nat, b: nat, x: int)
    requires a <= b < n && |dad| == n
    ensures x in dad[a..b + 1] ==> x in Seeded(dad, n, a, b)
    ensures x in Seeded(dad, n, a, b) && x != Empty ==> x in dad[a..b + 1]
  {
    var c0 := Seeded(dad, n, a, b);
    if x in dad[a..b + 1] {
      var i :| 0 <= i < b + 1 - a && dad[a..b + 1][i] == x;
      SeededAt(dad, n, a, b, a + i);
      assert c0[a + i] == x;
    }
    if x in c0 && x != Empty {
      var i :| 0 <= i < n && c0[i] == x;
      SeededAt(dad, n, a, b, i);
      assert dad[a..b + 1][i - a] == x;
    }
  }

  lemma FillCountAt(mom: seq<int>, dad: seq<int>, n: nat, a: nat, b: nat, x: int)
    requires |mom| == n && |dad| == n && IsPerm(mom, n) && IsPerm(dad, n) && a <= b < n
    ensures multiset(FillGenes(mom, Seeded(dad, n, a, b)))[x] + multiset(dad[a..b + 1])[x] == multiset(mom)[x]
  {
    var c0 := Seeded(dad, n, a, b);
    var seg := dad[a..b + 1];
    PermCount(mom, n);
    PermCount(dad, n);
    FillGenesCount(mom, c0, x);
    SegmentCount(dad, a, b, x);
    SeededMembers(dad, n, a, b, x);
  }

  lemma MultisetSum(f: multiset<int>, g: multiset<int>, m: multiset<int>)
    requires forall x :: f[x] + g[x] == m[x]
    ensures f + g == m
  {
    forall x
      ensures (f + g)[x] == m[x]
    {
    }
  }

  /** When both parents are permutations, the fill holds exactly the
      mother's genes the father's segment lacks. */
  lemma FillCount(mom: seq<int>, dad: seq<int>, n: nat, a: nat, b: nat)
    requires |mom| == n && |dad| == n && IsPerm(mom, n) && IsPerm(dad, n) && a <= b < n
    ensures multiset(FillGenes(mom, Seeded(dad, n, a, b))) + multiset(dad[a..b + 1]) == multiset(mom)
  {
    var f, g := multiset(FillGenes(mom, Seeded(dad, n, a, b))), multiset(dad[a..b + 1]);
    forall x
      ensures f[x] + g[x] == multiset(mom)[x]
    {
      FillCountAt(mom, dad, n, a, b, x);
    }
    MultisetSum(f, g, multiset(mom));
  }

  /** Order-1 crossover of two permutations never runs out of genes: the
      child is the first `a` genes of the fill, the father's segment
      `a .. b`, then the rest of the fill. */
  lemma OrderOneXoverShape(mom: seq<int>, dad: seq<int>, n: nat, a: nat, b: nat)
    requires |mom| == n && |dad| == n && IsPerm(mom, n) && IsPerm(dad, n) && a <= b < n
    ensures var c0 := Seeded(dad, n, a, b); var fill := FillGenes(mom, c0);
      |fill| == a + (n - 1 - b) &&
      FillSlots(c0, fill) == Some(fill[..a] + dad[a..b + 1] + fill[a..])
  {
    var seg := dad[a..b + 1];
    var fill := FillGenes(mom, Seeded(dad, n, a, b));
    FillCount(mom, dad, n, a, b);
    assert |multiset(fill)| + |multiset(seg)| == |multiset(mom)|;
    PermCount(dad, n);
    SegmentCount(dad, a, b, Empty);
    FillShape(a, seg, n - b - 1, fill);
  }

  /** Filling `pre` Empty columns, a segment without Empty, and `post`
      Empty columns with exactly `pre + post` genes. */
  lemma FillShape(pre: nat, seg: seq<int>, post: nat, fill: seq<int>)
    requires Empty !in seg && |fill| == pre + post
    ensures FillSlots(seq(pre, _ => Empty) + seg + seq(post, _ => Empty), fill) ==
      Some(fill[..pre] + seg + fill[pre..])
  {
    var tail := seq(post, _ => Empty);
    assert seq(pre, _ => Empty) + seg + tail == seq(pre, _ => Empty) + (seg + tail);
    FillEmpties(pre, seg + tail, fill);
    FillKept(seg, tail, fill[pre..]);
    assert tail == seq(post, _ => Empty) + [];
    FillEmpties(post, [], fill[pre..]);
    assert fill[pre..][..post] == fill[pre..] && fill[pre..][post..] == [];
    PrependPrepend(seg, fill[pre..], Some([]));
    PrependPrepend(fill[..pre], seg + fill[pre..], Some([]));
    assert fill[..pre] + (seg + fill[pre..]) + [] == fill[..pre] + seg + fill[pre..];
  }

  /** Dropping the genes of the father's segment from the child leaves
      the fill. */
  lemma FillOfChild(fill: seq<int>, seg: seq<int>, c0: seq<int>, a: nat)
    requires a <= |fill|
    requires forall i :: 0 <= i < |fill| ==> fill[i] !in c0
    requires forall i :: 0 <= i < |seg| ==> seg[i] in c0
    ensures FillGenes(fill[..a] + seg + fill[a..], c0) == fill
  {
    var p, q := fill[..a], fill[a..];
    assert forall i :: 0 <= i < |p| ==> p[i] == fill[i];
    assert forall i :: 0 <= i < |q| ==> q[i] == fill[a + i];
    FillGenesAll(p, c0);
    FillGenesAll(q, c0);
    FillGenesNone(seg, c0);
    FillGenesAppend3(p, seg, q, c0);
    SplitJoin(fill, a);
  }

  /** The father's segment sits in the seeded child. */
  lemma SegmentSeeded(dad: seq<int>, n: nat, a: nat, b: nat, seg: seq<int>)
    requires a <= b < n && |dad| == n && seg == dad[a..b + 1]
    ensures forall i :: 0 <= i < |seg| ==> seg[i] in Seeded(dad, n, a, b)
  {
    var c0 := Seeded(dad, n, a, b);
    forall i | 0 <= i < |seg|
      ensures seg[i] in c0
    {
      SeededAt(dad, n, a, b, a + i);
      assert c0[a + i] == seg[i];
    }
  }

  lemma SplitJoin(s: seq<int>, a: nat)
    requires a <= |s|
    ensures s[..a] + [] + s[a..] == s
  {
    assert s[..a] + [] == s[..a];
  }

  /** A segment spliced into a sequence at `a`. */
  lemma Splice(fill: seq<int>, seg: seq<int>, a: nat)
    requires a <= |fill|
    ensures multiset(fill[..a] + seg + fill[a..]) == multiset(fill) + multiset(seg)
    ensures (fill[..a] + seg + fill[a..])[a..a + |seg|] == seg
  {
    assert fill == fill[..a] + fill[a..];
  }

  /** Order-1 crossover of two permutations: the child is a permutation,
      it carries the father's segment `a .. b` in place, and its other
      columns, read left to right, are the mother's remaining genes in the
      mother's order. */
  lemma OrderOneXoverPerm(mom: seq<int>, dad: seq<int>, n: nat, a: nat, b: nat)
    requires |mom| == n && |dad| == n && IsPerm(mom, n) && IsPerm(dad, n) && a <= b < n
    ensures var c0 := Seeded(dad, n, a, b); var r := FillSlots(c0, FillGenes(mom, c0));
      r.Some? && IsPerm(r.value, n) && r.value[a..b + 1] == dad[a..b + 1] &&
      FillGenes(r.value, c0) == FillGenes(mom, c0)
  {
    var c0 := Seeded(dad, n, a, b);
    var seg := dad[a..b + 1];
    var fill := FillGenes(mom, c0);
    OrderOneXoverShape(mom, dad, n, a, b);
    FillCount(mom, dad, n, a, b);
    Splice(fill, seg, a);
    SegmentSeeded(dad, n, a, b, seg);
    FillGenesMembers(mom, c0);
    FillOfChild(fill, seg, c0, a);
  }

  /** `swap_mutate(chrom)` with the drawn columns `i` and `j` as parameters:
      a copy of the chromosome with the two columns exchanged, so the rows
      it holds are unchanged and a permutation stays one. */
  method SwapMutate(chrom: seq<int>, i: nat, j: nat) returns (r: seq<int>)
    requires i < |chrom| && j < |chrom|
    ensures |r| == |chrom| && r[i] == chrom[j] && r[j] == chrom[i]
    ensures forall k :: 0 <= k < |chrom| && k != i && k != j ==> r[k] == chrom[k]
    ensures multiset(r) == multiset(chrom)
    ensures forall n: nat :: IsPerm(chrom, n) ==> IsPerm(r, n)
  {
    var lst := chrom;
    var x, y := lst[j], lst[i];
    lst := lst[i := x];
    lst := lst[j := y];
    r := lst;
  }
}
