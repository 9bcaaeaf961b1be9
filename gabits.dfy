/** The bit-string genetic algorithm of lab_04/ga_template.py: individuals
    are tuples of bits, the fitness is the value of the tuple read as a
    binary number, single-point crossover joins a prefix of the mother to a
    suffix of the father, and mutation flips one bit. The random draws (the
    cut point and the flipped position) are parameters. */
module GaBits {
  type Bit = b: int | 0 <= b <= 1

  /** N_BITS, the chromosome length. */
  const NBits: nat := 3
  /** TARGET_FITNESS, the 3-bit maximum. */
  const TargetFitness: nat := 7

  function Pow2(k: nat): (r: nat)
    ensures r >= 1
  {
    if k == 0 then 1 else 2 * Pow2(k - 1)
  }

  /** The terms of the generator `bit * 2**idx for idx, bit in
      enumerate(reversed(ind))` from `idx` on: position `idx` of the reversed
      tuple is `ind[|ind| - 1 - idx]`. */
  function SumFrom(ind: seq<Bit>, idx: nat): nat
    requires idx <= |ind|
    decreases |ind| - idx
  {
    if idx == |ind| then 0 else ind[|ind| - 1 - idx] * Pow2(idx) + SumFrom(ind, idx + 1)
  }

  /** `fitness_function(ind)`. */
  function Fitness(ind: seq<Bit>): nat {
    SumFrom(ind, 0)
  }

  /** The reference reading of a bit string as a binary number, most
      significant bit first (Horner's rule). */
  function Value(ind: seq<Bit>): nat
    decreases |ind|
  {
    if ind == [] then 0 else 2 * Value(ind[..|ind| - 1]) + ind[|ind| - 1]
  }

  /** Shifting the terms of the generator by one position doubles them. */
  lemma {:induction false} SumFromAppend(ind: seq<Bit>, b: Bit, idx: nat)
    requires idx <= |ind|
    ensures SumFrom(ind + [b], idx + 1) == 2 * SumFrom(ind, idx)
    decreases |ind| - idx
  {
    var t := ind + [b];
    if idx < |ind| {
      SumFromAppend(ind, b, idx + 1);
      assert t[|t| - 1 - (idx + 1)] == ind[|ind| - 1 - idx];
      var x := ind[|ind| - 1 - idx];
      assert x * Pow2(idx + 1) == 2 * (x * Pow2(idx)) by {
        if x == 0 {
        } else {
          assert x == 1;
        }
      }
    }
  }

  /** The fitness is the binary value of the individual, least significant
      bit last. */
  lemma {:induction false} FitnessIsValue(ind: seq<Bit>)
    ensures Fitness(ind) == Value(ind)
    decreases |ind|
  {
    if ind != [] {
      var init, b := ind[..|ind| - 1], ind[|ind| - 1];
      assert ind == init + [b];
      FitnessIsValue(init);
      SumFromAppend(init, b, 0);
      assert Fitness(ind) == b * Pow2(0) + SumFrom(init + [b], 1);
    }
  }

  /** An individual of `k` bits has fitness below 2^k. */
  lemma {:induction false} ValueBound(ind: seq<Bit>)
    ensures Value(ind) < Pow2(|ind|)
    decreases |ind|
  {
    if ind != [] {
      ValueBound(ind[..|ind| - 1]);
    }
  }

  /** The `k`-bit binary representation of `n` modulo 2^k, most significant
      bit first: the individual whose fitness is `n`. */
  function Bits(n: nat, k: nat): (r: seq<Bit>)
    ensures |r| == k
    decreases k
  {
    if k == 0 then [] else Bits(n / 2, k - 1) + [n % 2]
  }

  /** Decoding an encoded number gives the number back. */
  lemma {:induction false} ValueBits(n: nat, k: nat)
    requires n < Pow2(k)
    ensures Value(Bits(n, k)) == n
    decreases k
  {
    if k > 0 {
      var r := Bits(n, k);
      assert r[..|r| - 1] == Bits(n / 2, k - 1);
      ValueBits(n / 2, k - 1);
    }
  }

  /** Encoding the fitness of an individual gives the individual back: no
      two individuals of the same length share a fitness. */
  lemma {:induction false} BitsValue(ind: seq<Bit>)
    ensures Bits(Value(ind), |ind|) == ind
    decreases |ind|
  {
    if ind != [] {
      var init, b := ind[..|ind| - 1], ind[|ind| - 1];
      BitsValue(init);
      var v := Value(ind);
      assert v == 2 * Value(init) + b;
      assert v / 2 == Value(init) && v % 2 == b;
      assert ind == init + [b];
    }
  }

  /** The fitness is a bijection between the individuals of `k` bits and
      the numbers below 2^k. */
  lemma {:induction false} FitnessRoundTrip(ind: seq<Bit>, n: nat, k: nat)
    requires n < Pow2(k)
    ensures Fitness(ind) < Pow2(|ind|)
    ensures Bits(Fitness(ind), |ind|) == ind
    ensures Fitness(Bits(n, k)) == n
  {
    FitnessIsValue(ind);
    ValueBound(ind);
    BitsValue(ind);
    FitnessIsValue(Bits(n, k));
    ValueBits(n, k);
  }

  /** TARGET_FITNESS is the largest fitness of an N_BITS individual, and
      the all-ones individual is the only one that reaches it. */
  lemma {:induction false} TargetIsMaximum(ind: seq<Bit>)
    requires |ind| == NBits
    ensures Fitness(ind) <= TargetFitness
    ensures Fitness(ind) == TargetFitness <==> ind == [1, 1, 1]
  {
    FitnessRoundTrip(ind, 7, 3);
    assert Bits(7, 3) == [1, 1, 1];
  }

  /** `reproduce(mother, father)` with the cut point `cp` as a parameter
      (drawn from 1 .. N_BITS - 1): `mother[:cp] + father[cp:]`, with
      Python's slices clamped to the tuple lengths. */
  function Reproduce(mother: seq<Bit>, father: seq<Bit>, cp: nat): (child: seq<Bit>)
    ensures cp <= |mother| && cp <= |father| ==>
      |child| == |father| &&
      (forall i :: 0 <= i < cp ==> child[i] == mother[i]) &&
      (forall i :: cp <= i < |father| ==> child[i] == father[i])
  {
    var m := if cp <= |mother| then cp else |mother|;
    var f := if cp <= |father| then cp else |father|;
    mother[..m] + father[f..]
  }

  /** Crossover only redistributes genes: the children of the two parent
      orders hold at every position exactly the two parents' bits. */
  lemma {:induction false} CrossoverConserves(mother: seq<Bit>, father: seq<Bit>, cp: nat)
    requires |mother| == |father| && cp <= |mother|
    ensures var c1, c2 := Reproduce(mother, father, cp), Reproduce(father, mother, cp);
      |c1| == |c2| == |mother| &&
      forall i :: 0 <= i < |mother| ==> multiset{c1[i], c2[i]} == multiset{mother[i], father[i]}
  {
  }

  /** A crossover of an individual with itself reproduces it. */
  lemma {:induction false} CrossoverSelf(ind: seq<Bit>, cp: nat)
    ensures Reproduce(ind, ind, cp) == ind
  {
    if cp > |ind| {
    } else {
      assert ind[..cp] + ind[cp..] == ind;
    }
  }

  /** `mutate(ind)` with the drawn locus `idx` as a parameter: toggles that
      one bit. */
  function Mutate(ind: seq<Bit>, idx: nat): (r: seq<Bit>)
    requires idx < |ind|
    ensures |r| == |ind| && r[idx] != ind[idx]
    ensures forall i :: 0 <= i < |ind| && i != idx ==> r[i] == ind[i]
  {
    ind[idx := 1 - ind[idx]]
  }

  /** Mutating the same locus twice restores the individual. */
  lemma {:induction false} MutateTwice(ind: seq<Bit>, idx: nat)
    requires idx < |ind|
    ensures Mutate(Mutate(ind, idx), idx) == ind
  {
  }

  /** A mutation changes the fitness by exactly the weight of the flipped
      bit: up when a 0 becomes 1, down when a 1 becomes 0. */
  lemma {:induction false} MutateValue(ind: seq<Bit>, idx: nat)
    requires idx < |ind|
    ensures ind[idx] == 0 ==> Value(Mutate(ind, idx)) == Value(ind) + Pow2(|ind| - 1 - idx)
    ensures ind[idx] == 1 ==> Value(Mutate(ind, idx)) + Pow2(|ind| - 1 - idx) == Value(ind)
    decreases |ind|
  {
    var m := Mutate(ind, idx);
    var n := |ind|;
    if idx == n - 1 {
      assert m[..n - 1] == ind[..n - 1];
    } else {
      assert m[..n - 1] == Mutate(ind[..n - 1], idx);
      MutateValue(ind[..n - 1], idx);
      assert Pow2(n - 1 - idx) == 2 * Pow2(n - 2 - idx);
    }
  }

  /** The fitness form of MutateValue. */
  lemma {:induction false} MutateFitness(ind: seq<Bit>, idx: nat)
    requires idx < |ind|
    ensures ind[idx] == 0 ==> Fitness(Mutate(ind, idx)) == Fitness(ind) + Pow2(|ind| - 1 - idx)
    ensures ind[idx] == 1 ==> Fitness(Mutate(ind, idx)) + Pow2(|ind| - 1 - idx) == Fitness(ind)
  {
    FitnessIsValue(ind);
    FitnessIsValue(Mutate(ind, idx));
    MutateValue(ind, idx);
  }
}
