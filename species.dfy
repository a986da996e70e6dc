/**
 * An individual of the population: a genome ("wisdom") of uint64_t genes and a
 * lazily computed score, with the recombination rule that builds a child genome.
 */
module Genome {
  import opened Numeric
  import opened RandomTape

  // ---------------------------------------------------------------------------
  // Scoring

  /**
   * std::accumulate(first, last, 0): the initial value is an int, so every step
   * adds the next gene in uint64_t arithmetic and stores the sum back into an int.
   */
  function Accumulate(genes: seq<U64>, acc: Int32): Int32
    decreases |genes|
  {
    if genes == [] then acc
    else Accumulate(genes[1..], U64ToInt(AddU64(IntToU64(acc), genes[0])))
  }

  /**
   * The score of a genome: the int-accumulated sum, converted to uint64_t on return.
   * Because the accumulator is an int, a score is either below 2^31 or the
   * sign extension of a negative int; no score lies in between.
   */
  function ScoreOf(genes: seq<U64>): (r: U64)
    ensures r < TwoTo31 || TwoTo64 - TwoTo31 <= r
  {
    IntToU64(Accumulate(genes, 0))
  }

  /** The exact mathematical sum of the genes. */
  function Sum(genes: seq<U64>): nat
  {
    if genes == [] then 0 else genes[0] + Sum(genes[1..])
  }

  /** While no partial sum leaves the int range, the accumulator is exact. */
  lemma {:induction false} AccumulateExact(genes: seq<U64>, acc: Int32)
    requires 0 <= acc && acc + Sum(genes) < TwoTo31
    ensures Accumulate(genes, acc) == acc + Sum(genes)
  {
    if genes != [] {
      var next := acc + genes[0];
      assert AddU64(IntToU64(acc), genes[0]) == next;
      assert U64ToInt(next) == next;
      AccumulateExact(genes[1..], next);
    }
  }

  /** A genome whose sum fits in an int scores exactly that sum. */
  lemma ScoreExactWhenSmall(genes: seq<U64>)
    requires Sum(genes) < TwoTo31
    ensures ScoreOf(genes) == Sum(genes)
  {
    AccumulateExact(genes, 0);
  }

  /** The int accumulator wraps: one gene of 2^31 scores 2^64 - 2^31, not 2^31. */
  lemma ScoreOverflowsIntAccumulator()
    ensures ScoreOf([TwoTo31]) == TwoTo64 - TwoTo31
    ensures Sum([TwoTo31]) == TwoTo31
  {
    assert Accumulate([TwoTo31], 0) == Accumulate([], U64ToInt(TwoTo31));
  }

  /**
   * A score above the halting threshold is never a large sum: it is the sign
   * extension of a small negative int accumulator.
   */
  lemma HaltingScoreIsNegativeInt(genes: seq<U64>)
    requires ScoreOf(genes) > HaltThreshold
    ensures TwoTo64 - HaltThreshold > -Accumulate(genes, 0) > 0
  {
  }

  /** The absolute difference of two scores, as a larger-minus-smaller subtraction. */
  function Difference(a: U64, b: U64): (d: U64)
    ensures a <= b ==> a + d == b
    ensures b <= a ==> b + d == a
  {
    if a > b then a - b else b - a
  }

  /** score_diff is symmetric and never exceeds the larger score. */
  lemma DifferenceSymmetric(a: U64, b: U64)
    ensures Difference(a, b) == Difference(b, a)
    ensures Difference(a, b) <= a || Difference(a, b) <= b
  {
  }

  // ---------------------------------------------------------------------------
  // Recombination

  /** One gene of a child, from this parent's gene `mine`, the partner's gene `theirs` and the selector `r`. */
  function CrossGene(mine: U64, theirs: U64, r: nat): U64
  {
    if r > 8 then AddU64(mine, theirs)
    else if r > 5 then mine
    else theirs
  }

  /**
   * The genome cross() builds from this parent's genes `mine`, the partner's
   * genes `theirs` and the values `draws` returned by get(), one per gene.
   */
  function CrossGenes(mine: seq<U64>, theirs: seq<U64>, draws: seq<U64>): (child: seq<U64>)
    requires |mine| <= |theirs| && |mine| <= |draws|
    ensures |child| == |mine|
    ensures forall i | 0 <= i < |child| :: child[i] == CrossGene(mine[i], theirs[i], draws[i] % 10)
  {
    seq(|mine|, i requires 0 <= i < |mine| => CrossGene(mine[i], theirs[i], draws[i] % 10))
  }

  /** The per-gene rule of cross(), case by case. */
  lemma CrossGeneRule(mine: seq<U64>, theirs: seq<U64>, draws: seq<U64>, i: nat)
    requires |mine| <= |theirs| && |mine| <= |draws| && i < |mine|
    ensures draws[i] % 10 == 9 ==> CrossGenes(mine, theirs, draws)[i] == AddU64(mine[i], theirs[i])
    ensures 6 <= draws[i] % 10 <= 8 ==> CrossGenes(mine, theirs, draws)[i] == mine[i]
    ensures draws[i] % 10 <= 5 ==> CrossGenes(mine, theirs, draws)[i] == theirs[i]
  {
  }

  /** Selectors all in 6..8 reproduce this parent; selectors all in 0..5 copy the partner's prefix. */
  lemma CrossInherits(mine: seq<U64>, theirs: seq<U64>, draws: seq<U64>)
    requires |mine| <= |theirs| && |mine| <= |draws|
    ensures (forall i | 0 <= i < |mine| :: 6 <= draws[i] % 10 <= 8) ==> CrossGenes(mine, theirs, draws) == mine
    ensures (forall i | 0 <= i < |mine| :: draws[i] % 10 <= 5) ==> CrossGenes(mine, theirs, draws) == theirs[..|mine|]
  {
  }

  // ---------------------------------------------------------------------------
  // The individual

  /**
   * A Species: its genes ("wisdom") and the cached score, 0 meaning "not
   * computed yet". The program keeps individuals by value in its vectors, so
   * a Species is a value; a member that changes it returns the changed value.
   */
  datatype Species = Species(wisdom: seq<U64>, cachedScore: U64) {
    /** The cache is either unset or holds the score of the genes. */
    ghost predicate Valid() {
      cachedScore == 0 || cachedScore == ScoreOf(wisdom)
    }

    /** The score that score() returns on a valid individual. */
    function Fitness(): U64 {
      ScoreOf(wisdom)
    }

    /** add_wisdom(w): appends one gene; the cache is left as it is. */
    function AddWisdom(w: U64): (s: Species)
      ensures s.wisdom == wisdom + [w] && s.cachedScore == cachedScore
      ensures cachedScore == 0 ==> s.Valid()
    {
      Species(wisdom + [w], cachedScore)
    }

    /**
     * score(): the value returned, and the individual with its cache filled.
     * The sum is computed only when the cache holds 0; otherwise the cached
     * value is returned and nothing changes.
     */
    function Score(): (r: (U64, Species))
      ensures r.1.wisdom == wisdom
      ensures cachedScore != 0 ==> r.0 == cachedScore && r.1 == this
      ensures cachedScore == 0 ==> r.0 == ScoreOf(wisdom) && r.1.cachedScore == r.0
      ensures Valid() ==> r.0 == Fitness() && r.1.Valid()
    {
      if cachedScore == 0 then (ScoreOf(wisdom), Species(wisdom, ScoreOf(wisdom)))
      else (cachedScore, this)
    }

    /**
     * score_diff(s2): the absolute difference of the two scores, and this
     * individual with its cache filled. s2 is passed by value, so only its
     * copy caches a score and the caller's s2 stays as it was.
     */
    function ScoreDiff(s2: Species): (r: (U64, Species))
      ensures r.1 == Score().1
      ensures Valid() && s2.Valid() ==> r.0 == Difference(Fitness(), s2.Fitness()) && r.1.Valid()
    {
      var (mine, scored) := Score();
      var theirs := s2.Score().0;
      (if mine > theirs then mine - theirs else theirs - mine, scored)
    }

    /**
     * init(): appends MaxNumWisdom genes drawn with get_uniform(). Returns
     * None when the tape runs out first.
     */
    method Init(rng: Random) returns (r: Option<Species>)
      modifies rng
      ensures r.Some? <==> MaxNumWisdom <= |old(rng.uniforms)|
      ensures r.Some? ==>
        && r.value.wisdom == wisdom + old(rng.uniforms)[..MaxNumWisdom]
        && r.value.cachedScore == cachedScore
        && rng.uniforms == old(rng.uniforms)[MaxNumWisdom..]
      ensures rng.normals == old(rng.normals)
    {
      var s := this;
      var i := 0;
      while i < MaxNumWisdom
        invariant 0 <= i <= MaxNumWisdom
        invariant i <= |old(rng.uniforms)|
        invariant s.wisdom == wisdom + old(rng.uniforms)[..i]
        invariant rng.uniforms == old(rng.uniforms)[i..]
        invariant s.cachedScore == cachedScore
        invariant rng.normals == old(rng.normals)
      {
        var d := rng.GetUniform();
        if d.None? {
          return None;
        }
        s := s.AddWisdom(d.value);
        i := i + 1;
      }
      r := Some(s);
    }

    /**
     * cross(partner): a child with one gene per gene of this parent, each chosen
     * by a fresh selector get() % 10. The partner is indexed without a bounds
     * check, so its genome must be at least as long. Returns None when the tape
     * of normal samples runs out first.
     */
    method Cross(partner: Species, rng: Random) returns (child: Option<Species>)
      requires |wisdom| <= |partner.wisdom|
      modifies rng
      ensures child.Some? <==> |wisdom| <= |old(rng.normals)|
      ensures child.Some? ==>
        && child.value.cachedScore == 0
        && child.value.wisdom == CrossGenes(wisdom, partner.wisdom, old(rng.normals))
        && rng.normals == old(rng.normals)[|wisdom|..]
      ensures rng.uniforms == old(rng.uniforms)
    {
      var c := Species([], 0);
      var idx := 0;
      while idx < |wisdom|
        invariant 0 <= idx <= |wisdom| && idx <= |old(rng.normals)|
        invariant rng.normals == old(rng.normals)[idx..]
        invariant rng.uniforms == old(rng.uniforms)
        invariant c.cachedScore == 0
        invariant |c.wisdom| == idx
        invariant forall i | 0 <= i < idx ::
          c.wisdom[i] == CrossGene(wisdom[i], partner.wisdom[i], old(rng.normals)[i] % 10)
      {
        var v := rng.Get();
        if v.None? {
          return None;
        }
        var r := v.value % 10;
        if r > 8 {
          c := c.AddWisdom(AddU64(wisdom[idx], partner.wisdom[idx]));
        } else if r > 5 {
          c := c.AddWisdom(wisdom[idx]);
        } else {
          c := c.AddWisdom(partner.wisdom[idx]);
        }
        idx := idx + 1;
      }
      child := Some(c);
    }
  }

  /** Species(): no genes, no cached score. */
  const Newborn: Species := Species([], 0)

  /** A second call of score() returns the same value; a non-zero score is not recomputed. */
  lemma ScoreCached(s: Species)
    ensures s.Score().1.Score().0 == s.Score().0
    ensures s.Score().0 != 0 ==> s.Score().1.Score().1 == s.Score().1
  {
  }

  /** The zero sentinel: an individual whose score is 0 never keeps a cached value. */
  lemma ZeroScoreNeverCached(s: Species)
    requires s.Valid() && s.Fitness() == 0
    ensures s.Score().1.cachedScore == 0
  {
  }
}
