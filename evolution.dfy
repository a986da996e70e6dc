/**
 * The evolution engine: the population, the initial population built by
 * init(), and one step of the generational loop, generation().
 */
module Evolution {
  import opened Numeric
  import opened RandomTape
  import opened Genome
  import opened Sampling
  import opened Ranking

  /** What one call of generation() comes to. */
  datatype Outcome =
    | Continued   // generation() returned true
    | Halted      // generation() returned false: the best score exceeded HaltThreshold
    | OutOfDraws  // a tape ran out where the program would go on drawing

  /** vector::erase at position i. */
  function Erase<T>(s: seq<T>, i: nat): (r: seq<T>)
    requires i < |s|
    ensures |r| == |s| - 1
    ensures forall j | 0 <= j < i :: r[j] == s[j]
    ensures forall j | i <= j < |r| :: r[j] == s[j + 1]
  {
    assert s == s[..i] + [s[i]] + s[i + 1..];
    s[..i] + s[i + 1..]
  }

  /** Each erasure in `culled` indexes the sequence as it is after the earlier erasures. */
  ghost predicate ValidErasures(n: nat, culled: seq<nat>)
  {
    forall k | 0 <= k < |culled| :: culled[k] + k < n
  }

  /** The erasures of `culled`, one after the other. */
  function EraseAll<T>(s: seq<T>, culled: seq<nat>): (r: seq<T>)
    requires ValidErasures(|s|, culled)
    ensures |r| == |s| - |culled|
    decreases |culled|
  {
    if culled == [] then s
    else Erase(EraseAll(s, culled[..|culled| - 1]), culled[|culled| - 1])
  }

  /** Survivors of culling were members of the population culled. */
  lemma {:induction false} EraseAllMembers<T>(s: seq<T>, culled: seq<nat>, x: T)
    requires ValidErasures(|s|, culled)
    requires x in EraseAll(s, culled)
    ensures x in s
    decreases |culled|
  {
    if culled != [] {
      var init := culled[..|culled| - 1];
      assert ValidErasures(|s|, init);
      var t := EraseAll(s, init);
      var j :| 0 <= j < |t| - 1 && Erase(t, culled[|culled| - 1])[j] == x;
      assert x == t[j] || x == t[j + 1];
      EraseAllMembers(s, init, x);
    }
  }

  /** One more erasure, at a position valid for what is left. */
  lemma EraseAllSnoc<T>(s: seq<T>, culled: seq<nat>, i: nat)
    requires ValidErasures(|s|, culled) && i < |EraseAll(s, culled)|
    ensures ValidErasures(|s|, culled + [i])
    ensures EraseAll(s, culled + [i]) == EraseAll(s, culled)[..i] + EraseAll(s, culled)[i + 1..]
    ensures forall x | x in EraseAll(s, culled + [i]) :: x in s
  {
    assert (culled + [i])[..|culled|] == culled;
    forall x | x in EraseAll(s, culled + [i]) ensures x in s {
      EraseAllMembers(s, culled + [i], x);
    }
  }

  /** The blocks of normal samples consumed by successive children, in order. */
  function Concat(blocks: seq<seq<U64>>): seq<U64>
    decreases |blocks|
  {
    if blocks == [] then [] else Concat(blocks[..|blocks| - 1]) + blocks[|blocks| - 1]
  }

  /** Moving the next block of draws from the tape onto the consumed blocks. */
  lemma ConcatSnoc(all: seq<U64>, blocks: seq<seq<U64>>, tape: seq<U64>, n: nat)
    requires all == Concat(blocks) + tape && n <= |tape|
    ensures all == Concat(blocks + [tape[..n]]) + tape[n..]
  {
    assert (blocks + [tape[..n]])[..|blocks|] == blocks;
    assert tape == tape[..n] + tape[n..];
  }

  /** The genomes of a population, position by position. */
  function Genomes(pop: seq<Species>): (r: seq<seq<U64>>)
    ensures |r| == |pop|
    ensures forall i | 0 <= i < |pop| :: r[i] == pop[i].wisdom
  {
    seq(|pop|, i requires 0 <= i < |pop| => pop[i].wisdom)
  }

  /** Individuals with the same genomes have the same scores, whatever their caches hold. */
  lemma SameGenomesSameScores(a: seq<Species>, b: seq<Species>)
    requires Genomes(a) == Genomes(b)
    ensures Fitnesses(a) == Fitnesses(b)
    ensures |a| > 0 ==> MaxScore(a) == MaxScore(b)
  {
    assert |a| == |Genomes(a)|;
    forall i | 0 <= i < |a| ensures Fitnesses(a)[i] == Fitnesses(b)[i] {
      assert a[i].wisdom == Genomes(a)[i];
    }
    if |a| > 0 {
      var i, j := MaxElement(a), MaxElement(b);
      assert Fitnesses(a)[i] == a[i].Fitness() && Fitnesses(a)[j] == b[j].Fitness();
    }
  }

  /** Erasing positions and taking genomes commute. */
  lemma {:induction false} GenomesOfErasures(pop: seq<Species>, culled: seq<nat>)
    requires ValidErasures(|pop|, culled)
    ensures Genomes(EraseAll(pop, culled)) == EraseAll(Genomes(pop), culled)
    decreases |culled|
  {
    if culled != [] {
      var init := culled[..|culled| - 1];
      assert ValidErasures(|pop|, init);
      GenomesOfErasures(pop, init);
    }
  }

  /** Replacing an individual by one with the same genome (its cache filled) keeps the genomes. */
  lemma GenomesOfUpdate(pop: seq<Species>, i: nat, s: Species)
    requires i < |pop| && s.wisdom == pop[i].wisdom
    ensures Genomes(pop[i := s]) == Genomes(pop)
  {
  }

  /** Replacing an individual by one with a consistent cache keeps every cache consistent. */
  lemma AllValidUpdate(pop: seq<Species>, i: nat, s: Species)
    requires i < |pop| && AllValid(pop) && s.Valid()
    ensures AllValid(pop[i := s])
  {
  }

  /** Every individual of `pop` has `len` genes. */
  ghost predicate GenomesOfLength(pop: seq<Species>, len: nat)
  {
    forall s | s in pop :: |s.wisdom| == len
  }

  /** Genome lengths depend only on the genomes. */
  lemma GenomesOfLengthSame(a: seq<Species>, b: seq<Species>, len: nat)
    requires Genomes(a) == Genomes(b) && GenomesOfLength(b, len)
    ensures GenomesOfLength(a, len)
  {
    forall s | s in a ensures |s.wisdom| == len {
      var i :| 0 <= i < |a| && a[i] == s;
      assert s.wisdom == Genomes(b)[i] && b[i] in b;
    }
  }

  /** Every individual of `pop` has a consistent score cache. */
  ghost predicate AllValid(pop: seq<Species>)
  {
    forall s | s in pop :: s.Valid()
  }

  /**
   * The record of the children bred so far: child k was crossed from the
   * accepted pair pairs[k] of parents (whose genomes, all of length `len`, are
   * `parents`), using the block blocks[k] of `len` normal samples, and has no
   * cached score yet.
   */
  ghost predicate Bred(scores: seq<U64>, half: U64, parents: seq<seq<U64>>, len: nat,
                       pairs: seq<(Uniform, Uniform)>, blocks: seq<seq<U64>>, children: seq<Species>)
  {
    && |scores| == |parents|
    && (forall i | 0 <= i < |parents| :: |parents[i]| == len)
    && |pairs| == |blocks| == |children|
    && (forall k | 0 <= k < |pairs| :: Accepted(scores, half, pairs[k].0, pairs[k].1) && |blocks[k]| == len)
    && (forall k | 0 <= k < |pairs| ::
          children[k] == Species(CrossGenes(parents[pairs[k].0], parents[pairs[k].1], blocks[k]), 0))
  }

  /** Bred children have the genome length of their parents and consistent caches. */
  lemma BredChildren(scores: seq<U64>, half: U64, parents: seq<seq<U64>>, len: nat,
                     pairs: seq<(Uniform, Uniform)>, blocks: seq<seq<U64>>, children: seq<Species>)
    requires Bred(scores, half, parents, len, pairs, blocks, children)
    ensures GenomesOfLength(children, len) && AllValid(children)
  {
    forall s | s in children ensures |s.wisdom| == len && s.Valid() {
      var k :| 0 <= k < |children| && children[k] == s;
    }
  }

  /** One more bred child extends the record. */
  lemma BredSnoc(scores: seq<U64>, half: U64, parents: seq<seq<U64>>, len: nat,
                 pairs: seq<(Uniform, Uniform)>, blocks: seq<seq<U64>>, children: seq<Species>,
                 pair: (Uniform, Uniform), block: seq<U64>, child: Species)
    requires Bred(scores, half, parents, len, pairs, blocks, children)
    requires Accepted(scores, half, pair.0, pair.1) && |block| == len
    requires child == Species(CrossGenes(parents[pair.0], parents[pair.1], block), 0)
    ensures Bred(scores, half, parents, len, pairs + [pair], blocks + [block], children + [child])
  {
  }

  /** Children plus survivors, in any order, all have genome length `len`. */
  lemma GenerationKeepsLengths(children: seq<Species>, pop: seq<Species>, culled: seq<nat>, len: nat)
    requires ValidErasures(|pop|, culled)
    requires GenomesOfLength(children, len) && GenomesOfLength(pop, len)
    ensures GenomesOfLength(SortByScore(children + EraseAll(pop, culled)), len)
  {
    forall s | s in SortByScore(children + EraseAll(pop, culled)) ensures |s.wisdom| == len {
      if s !in children {
        EraseAllMembers(pop, culled, s);
      }
    }
  }

  /** A sum of `n` genes, each below `bound`, stays at or below n * (bound - 1). */
  lemma {:induction false} SumBound(genes: seq<U64>, bound: nat)
    requires 0 < bound
    requires forall i | 0 <= i < |genes| :: genes[i] < bound
    ensures Sum(genes) <= |genes| * (bound - 1)
  {
    if genes != [] {
      SumBound(genes[1..], bound);
      assert |genes| * (bound - 1) == (bound - 1) + (|genes| - 1) * (bound - 1);
    }
  }

  /**
   * A genome built by Species::init (MaxNumWisdom uniform draws) scores
   * exactly the sum of its genes; that sum is at most 49990, far from the
   * halting threshold.
   */
  lemma InitialGenomeScore(genes: seq<U64>)
    requires |genes| == MaxNumWisdom
    requires forall i | 0 <= i < |genes| :: genes[i] < MaxSpecies
    ensures ScoreOf(genes) == Sum(genes) <= MaxNumWisdom * (MaxSpecies - 1)
    ensures ScoreOf(genes) <= HaltThreshold
  {
    SumBound(genes, MaxSpecies);
    ScoreExactWhenSmall(genes);
  }

  /** The first generation after init() never halts. */
  lemma InitialPopulationDoesNotHalt(pop: seq<Species>)
    requires |pop| > 0
    requires forall s | s in pop :: |s.wisdom| == MaxNumWisdom
    requires forall s, i | s in pop && 0 <= i < |s.wisdom| :: s.wisdom[i] < MaxSpecies
    ensures MaxScore(pop) <= HaltThreshold
  {
    var best := pop[MaxElement(pop)];
    assert best in pop;
    InitialGenomeScore(best.wisdom);
  }

  /**
   * What init() promises: MaxSpecies individuals with no cached score, each
   * of MaxNumWisdom genes below MaxSpecies.
   */
  ghost predicate InitialPopulation(pop: seq<Species>)
  {
    && |pop| == MaxSpecies
    && (forall s | s in pop :: s.cachedScore == 0 && |s.wisdom| == MaxNumWisdom)
    && (forall s, i | s in pop && 0 <= i < |s.wisdom| :: s.wisdom[i] < MaxSpecies)
  }

  /** Individuals built from consecutive blocks of MaxNumWisdom uniform draws form an initial population. */
  lemma InitialBlocks(pop: seq<Species>, draws: seq<Uniform>)
    requires |pop| <= MaxSpecies && MaxNumWisdom * |pop| <= |draws|
    requires forall k | 0 <= k < |pop| ::
      pop[k] == Species(draws[MaxNumWisdom * k .. MaxNumWisdom * k + MaxNumWisdom], 0)
    ensures AllValid(pop)
    ensures |pop| == MaxSpecies ==> InitialPopulation(pop)
  {
    forall s | s in pop ensures s.cachedScore == 0 && |s.wisdom| == MaxNumWisdom {
      var k :| 0 <= k < |pop| && pop[k] == s;
    }
  }

  /**
   * An initial population satisfies what generation() requires, and its
   * first generation does not halt.
   */
  lemma InitialPopulationIsReady(pop: seq<Species>)
    requires InitialPopulation(pop)
    ensures MaxSpecies <= |pop| && AllValid(pop)
    ensures GenomesOfLength(pop, |pop[0].wisdom|)
    ensures MaxScore(pop) <= HaltThreshold
  {
    assert pop[0] in pop;
    InitialPopulationDoesNotHalt(pop);
  }

  /**
   * `s2 = get_uniform(); while (s1 == s2) s2 = get_uniform();`: consumes
   * uniform draws exactly as FirstOtherThan describes.
   */
  method DrawOtherThan(rng: Random, s1: Uniform) returns (s2: Option<Uniform>)
    modifies rng
    ensures rng.normals == old(rng.normals)
    ensures
      var f := FirstOtherThan(s1, old(rng.uniforms));
      && (f.None? <==> s2.None?)
      && (f.Some? ==> s2 == Some(f.value.0) && rng.uniforms == f.value.1)
  {
    var d := rng.GetUniform();
    if d.None? {
      return None;
    }
    var v := d.value;
    assert old(rng.uniforms) == [v] + rng.uniforms;
    while v == s1
      invariant FirstOtherThan(s1, old(rng.uniforms))
                == if v == s1 then FirstOtherThan(s1, rng.uniforms) else Some((v, rng.uniforms))
      invariant rng.normals == old(rng.normals)
      decreases |rng.uniforms|
    {
      ghost var before := rng.uniforms;
      d := rng.GetUniform();
      if d.None? {
        return None;
      }
      v := d.value;
      assert before == [v] + rng.uniforms;
    }
    s2 := Some(v);
  }

  /**
   * `s1 = get_uniform(); while (s1 >= bound) s1 = get_uniform();`, the
   * culling draw against the current population size: consumes uniform draws
   * exactly as FirstBelow describes.
   */
  method DrawBelow(rng: Random, bound: nat) returns (d: Option<Uniform>)
    modifies rng
    ensures rng.normals == old(rng.normals)
    ensures
      var f := FirstBelow(bound, old(rng.uniforms));
      && (f.None? <==> d.None?)
      && (f.Some? ==> d == Some(f.value.0) && rng.uniforms == f.value.1)
  {
    var d1 := rng.GetUniform();
    if d1.None? {
      return None;
    }
    var v := d1.value;
    assert old(rng.uniforms) == [v] + rng.uniforms;
    while v >= bound
      invariant FirstBelow(bound, old(rng.uniforms))
                == if v < bound then Some((v, rng.uniforms)) else FirstBelow(bound, rng.uniforms)
      invariant rng.normals == old(rng.normals)
      decreases |rng.uniforms|
    {
      ghost var before := rng.uniforms;
      d1 := rng.GetUniform();
      if d1.None? {
        return None;
      }
      v := d1.value;
      assert before == [v] + rng.uniforms;
    }
    d := Some(v);
  }

  /**
   * The do-while loop of generation() that picks two parents from `pop`: it
   * consumes uniform draws exactly as PickPair describes, with the scores of
   * `pop` and half the best score as the acceptance bound. score_diff fills
   * the cache of the first individual of each attempt, so the population is
   * returned with those caches filled and its genomes unchanged.
   */
  method SamplePair(pop: seq<Species>, rng: Random, maxScore: U64)
    returns (pair: Option<(Uniform, Uniform)>, scored: seq<Species>)
    requires AllValid(pop) && MaxSpecies <= |pop|
    modifies rng
    ensures AllValid(scored) && Genomes(scored) == Genomes(pop)
    ensures rng.normals == old(rng.normals)
    ensures
      var picked := PickPair(Fitnesses(pop), maxScore / 2, old(rng.uniforms));
      && (picked.None? <==> pair.None?)
      && (picked.Some? ==> pair == Some((picked.value.0, picked.value.1)) && rng.uniforms == picked.value.2)
  {
    ghost var scores := Fitnesses(pop);
    ghost var half := maxScore / 2;
    scored := pop;
    while true
      invariant AllValid(scored) && Genomes(scored) == Genomes(pop)
      invariant rng.normals == old(rng.normals)
      invariant PickPair(scores, half, rng.uniforms) == PickPair(scores, half, old(rng.uniforms))
      decreases |rng.uniforms|
    {
      ghost var attempt := rng.uniforms;
      var d1 := rng.GetUniform();
      if d1.None? {
        return None, scored;
      }
      var s1 := d1.value;
      var d2 := DrawOtherThan(rng, s1);
      if d2.None? {
        return None, scored;
      }
      var s2 := d2.value;
      SameGenomesSameScores(scored, pop);
      assert scored[s1] in scored && scored[s2] in scored;
      var (diff, first) := scored[s1].ScoreDiff(scored[s2]);
      PickPairStep(scores, half, attempt, s1, s2, rng.uniforms);
      GenomesOfUpdate(scored, s1, first);
      AllValidUpdate(scored, s1, first);
      scored := scored[s1 := first];
      if diff <= maxScore / 2 {
        return Some((s1, s2)), scored;
      }
    }
  }

  /**
   * One round of the "new child" loop of generation(): pick a pair of
   * parents from `pop` with SamplePair and cross them. The child consumes
   * `len` normal samples, one per gene. Returns None when a tape runs out
   * first.
   */
  method BreedOne(pop: seq<Species>, rng: Random, maxScore: U64, ghost len: nat)
    returns (child: Option<Species>, scored: seq<Species>, ghost pair: (Uniform, Uniform))
    requires AllValid(pop) && MaxSpecies <= |pop|
    requires GenomesOfLength(pop, len)
    modifies rng
    ensures AllValid(scored) && Genomes(scored) == Genomes(pop)
    ensures Fitnesses(scored) == Fitnesses(pop) && GenomesOfLength(scored, len)
    ensures child.Some? ==>
      && Accepted(Fitnesses(pop), maxScore / 2, pair.0, pair.1)
      && len <= |old(rng.normals)|
      && child.value == Species(CrossGenes(Genomes(pop)[pair.0], Genomes(pop)[pair.1], old(rng.normals)[..len]), 0)
      && rng.normals == old(rng.normals)[len..]
  {
    pair := (0, 0);
    var p;
    p, scored := SamplePair(pop, rng, maxScore);
    if p.None? {
      SameGenomesSameScores(scored, pop);
      GenomesOfLengthSame(scored, pop, len);
      return None, scored, pair;
    }
    pair := p.value;
    var s1, s2 := p.value.0, p.value.1;
    assert scored[s1].wisdom == Genomes(pop)[s1] && scored[s2].wisdom == Genomes(pop)[s2];
    assert pop[s1] in pop && pop[s2] in pop;
    ghost var normals := rng.normals;
    child := scored[s1].Cross(scored[s2], rng);
    if child.Some? {
      assert CrossGenes(scored[s1].wisdom, scored[s2].wisdom, normals)
          == CrossGenes(scored[s1].wisdom, scored[s2].wisdom, normals[..len]);
    }
    SameGenomesSameScores(scored, pop);
    GenomesOfLengthSame(scored, pop, len);
  }

  class Engine {
    /** The population, sorted by descending score after every generation. */
    var population: seq<Species>
    /** Children and survivors of the current generation. */
    var newPopulation: seq<Species>

    constructor ()
      ensures population == [] && newPopulation == []
      ensures Valid()
    {
      population := [];
      newPopulation := [];
    }

    /** Every individual held has a consistent score cache. */
    ghost predicate Valid()
      reads this
    {
      AllValid(population) && AllValid(newPopulation)
    }

    /**
     * init(): clears the population and appends MaxSpecies new individuals,
     * each initialised with MaxNumWisdom uniform draws, in order. Returns
     * false when the tape runs out first. The result is a population that
     * generation() accepts and that does not halt at once.
     */
    method Init(rng: Random) returns (ok: bool)
      requires Valid()
      modifies this, rng
      ensures Valid()
      ensures ok <==> MaxSpecies * MaxNumWisdom <= |old(rng.uniforms)|
      ensures ok ==> |population| == MaxSpecies
      ensures ok ==> forall k | 0 <= k < MaxSpecies ::
        population[k] == Species(old(rng.uniforms)[MaxNumWisdom * k .. MaxNumWisdom * k + MaxNumWisdom], 0)
      ensures ok ==> InitialPopulation(population)
      ensures ok ==> rng.uniforms == old(rng.uniforms)[MaxSpecies * MaxNumWisdom..]
      ensures newPopulation == old(newPopulation)
      ensures rng.normals == old(rng.normals)
    {
      var pop := [];
      ok := true;
      var x := 0;
      while x < MaxSpecies
        invariant 0 <= x <= MaxSpecies
        invariant |pop| == x
        invariant MaxNumWisdom * x <= |old(rng.uniforms)|
        invariant rng.uniforms == old(rng.uniforms)[MaxNumWisdom * x..]
        invariant forall k | 0 <= k < x ::
          pop[k] == Species(old(rng.uniforms)[MaxNumWisdom * k .. MaxNumWisdom * k + MaxNumWisdom], 0)
        invariant rng.normals == old(rng.normals)
        modifies rng
      {
        var s := Newborn.Init(rng);
        if s.None? {
          ok := false;
          break;
        }
        assert old(rng.uniforms)[MaxNumWisdom * x..][..MaxNumWisdom]
            == old(rng.uniforms)[MaxNumWisdom * x .. MaxNumWisdom * x + MaxNumWisdom];
        pop := pop + [s.value];
        x := x + 1;
      }
      InitialBlocks(pop, old(rng.uniforms));
      population := pop;
    }

    /**
     * The "new child" loop of generation(): MaxSpeciesCross times, breed a
     * child from the population (BreedOne) and append it to newPopulation.
     * Returns false when a tape runs out first.
     */
    method Breed(rng: Random, maxScore: U64, ghost len: nat)
      returns (ok: bool, ghost pairs: seq<(Uniform, Uniform)>, ghost blocks: seq<seq<U64>>)
      requires Valid() && MaxSpecies <= |population|
      requires GenomesOfLength(population, len)
      requires newPopulation == []
      modifies this, rng
      ensures Valid()
      ensures Genomes(population) == old(Genomes(population))
      ensures ok ==>
        && |newPopulation| == MaxSpeciesCross
        && Bred(old(Fitnesses(population)), maxScore / 2, old(Genomes(population)), len, pairs, blocks, newPopulation)
        && old(rng.normals) == Concat(blocks) + rng.normals
    {
      pairs, blocks := [], [];
      var pop, children := population, newPopulation;
      ghost var scores := Fitnesses(pop);
      ghost var parents := Genomes(pop);
      assert forall i | 0 <= i < |parents| :: pop[i] in pop;
      ok := true;
      var x := 0;
      while x < MaxSpeciesCross
        invariant 0 <= x <= MaxSpeciesCross
        invariant AllValid(pop) && Genomes(pop) == parents
        invariant Fitnesses(pop) == scores && GenomesOfLength(pop, len)
        invariant |children| == x
        invariant Bred(scores, maxScore / 2, parents, len, pairs, blocks, children)
        invariant old(rng.normals) == Concat(blocks) + rng.normals
        modifies rng
      {
        ghost var normals := rng.normals;
        var child; ghost var pair;
        child, pop, pair := BreedOne(pop, rng, maxScore, len);
        if child.None? {
          ok := false;
          break;
        }
        BredSnoc(scores, maxScore / 2, parents, len, pairs, blocks, children, pair, normals[..len], child.value);
        ConcatSnoc(old(rng.normals), blocks, normals, len);
        children := children + [child.value];
        pairs := pairs + [pair];
        blocks := blocks + [normals[..len]];
        x := x + 1;
      }
      BredChildren(scores, maxScore / 2, parents, len, pairs, blocks, children);
      population, newPopulation := pop, children;
    }

    /**
     * The "kill some" loop of generation(): MaxSpeciesCross times, draw an
     * index valid for the current population (DrawBelow) and erase it.
     * Returns false when the tape runs out first.
     */
    method Cull(rng: Random) returns (ok: bool, ghost culled: seq<nat>)
      requires Valid()
      modifies this, rng
      ensures Valid()
      ensures newPopulation == old(newPopulation)
      ensures rng.normals == old(rng.normals)
      ensures forall s | s in population :: s in old(population)
      ensures ok ==>
        && |culled| == MaxSpeciesCross
        && ValidErasures(|old(population)|, culled)
        && population == EraseAll(old(population), culled)
    {
      culled := [];
      var pop := population;
      ok := true;
      var x := 0;
      while x < MaxSpeciesCross
        invariant 0 <= x <= MaxSpeciesCross
        invariant |culled| == x && ValidErasures(|population|, culled)
        invariant pop == EraseAll(population, culled)
        invariant forall s | s in pop :: s in population
        invariant rng.normals == old(rng.normals)
        modifies rng
      {
        var d := DrawBelow(rng, |pop|);
        if d.None? {
          ok := false;
          break;
        }
        var s1 := d.value;
        EraseAllSnoc(population, culled, s1);
        pop := pop[..s1] + pop[s1 + 1..];
        culled := culled + [s1];
        x := x + 1;
      }
      population := pop;
    }

    /**
     * The two copy loops at the end of generation(): the survivors are
     * appended after the children in newPopulation, and the population is
     * replaced by a copy of newPopulation.
     */
    method Merge()
      requires Valid()
      modifies this
      ensures Valid()
      ensures newPopulation == old(newPopulation) + old(population)
      ensures population == newPopulation
    {
      var i := 0;
      while i < |population|
        invariant population == old(population)
        invariant 0 <= i <= |population|
        invariant newPopulation == old(newPopulation) + population[..i]
        invariant Valid()
      {
        newPopulation := newPopulation + [population[i]];
        i := i + 1;
      }

      population := [];
      i := 0;
      while i < |newPopulation|
        invariant newPopulation == old(newPopulation) + old(population)
        invariant 0 <= i <= |newPopulation|
        invariant population == newPopulation[..i]
        invariant Valid()
      {
        population := population + [newPopulation[i]];
        i := i + 1;
      }
    }

    /**
     * The score of the best individual, found with std::max_element and
     * compare_score; score() fills that individual's cache.
     */
    method BestScore() returns (m: U64)
      requires Valid() && |population| > 0
      modifies this
      ensures Valid()
      ensures m == old(MaxScore(population))
      ensures population == old(population[MaxElement(population) := population[MaxElement(population)].Score().1])
      ensures Genomes(population) == old(Genomes(population))
      ensures newPopulation == old(newPopulation)
    {
      var best := MaxElement(population);
      assert population[best] in population;
      var r := population[best].Score();
      m := r.0;
      population := population[best := r.1];
      assert Genomes(population) == old(Genomes(population));
    }

    /**
     * The second half of generation(): culling (Cull), then the survivors
     * appended after the children and copied back (Merge), then the sort by
     * descending score.
     */
    method Survive(rng: Random) returns (ok: bool, ghost culled: seq<nat>)
      requires Valid()
      modifies this, rng
      ensures Valid()
      ensures rng.normals == old(rng.normals)
      ensures ok ==>
        && |culled| == MaxSpeciesCross
        && ValidErasures(|old(population)|, culled)
        && newPopulation == old(newPopulation) + EraseAll(old(population), culled)
        && population == SortByScore(newPopulation)
    {
      ok, culled := Cull(rng);
      if !ok {
        return;
      }
      Merge();
      population := SortByScore(population);
    }

    /**
     * generation(): one step of the evolution.
     *  - Halted exactly when the best score exceeds HaltThreshold; the
     *    genomes are left as they are and no draw is consumed.
     *  - Continued: MaxSpeciesCross accepted pairs were crossed, in order,
     *    into children that consumed the normal samples block by block;
     *    MaxSpeciesCross individuals were erased at valid indices;
     *    newPopulation holds the children followed by the survivors, and the
     *    population is newPopulation sorted by descending score (SortByScore:
     *    a permutation, in non-increasing order), of the original size.
     *  - OutOfDraws: a tape ran out; only the object invariant is promised.
     */
    method Generation(rng: Random)
      returns (outcome: Outcome, ghost pairs: seq<(Uniform, Uniform)>, ghost blocks: seq<seq<U64>>, ghost culled: seq<nat>)
      requires Valid()
      requires MaxSpecies <= |population|
      requires GenomesOfLength(population, |population[0].wisdom|)
      modifies this, rng
      ensures Valid()
      ensures outcome == Halted <==> old(MaxScore(population)) > HaltThreshold
      ensures outcome == Halted ==>
        && Genomes(population) == old(Genomes(population))
        && newPopulation == []
        && rng.uniforms == old(rng.uniforms)
        && rng.normals == old(rng.normals)
      ensures outcome == Continued ==>
        var len := old(|population[0].wisdom|);
        && |newPopulation| == |old(population)|
        && Bred(old(Fitnesses(population)), old(MaxScore(population)) / 2, old(Genomes(population)), len,
                pairs, blocks, newPopulation[..MaxSpeciesCross])
        && old(rng.normals) == Concat(blocks) + rng.normals
        && |culled| == MaxSpeciesCross
        && ValidErasures(|old(population)|, culled)
        && Genomes(newPopulation[MaxSpeciesCross..]) == EraseAll(old(Genomes(population)), culled)
        && population == SortByScore(newPopulation)
        && multiset(population) == multiset(newPopulation)
        && SortedDescending(population)
        && |population| == |old(population)|
        && GenomesOfLength(population, len)
    {
      pairs, blocks, culled := [], [], [];
      ghost var len := |population[0].wisdom|;
      ghost var scores := Fitnesses(population);
      ghost var parents := Genomes(population);
      newPopulation := [];

      var maxScore := BestScore();
      if maxScore > HaltThreshold {
        return Halted, pairs, blocks, culled;
      }

      GenomesOfLengthSame(population, old(population), len);
      SameGenomesSameScores(population, old(population));
      var bred;
      bred, pairs, blocks := Breed(rng, maxScore, len);
      if !bred {
        return OutOfDraws, pairs, blocks, culled;
      }
      ghost var children := newPopulation;
      ghost var bredPopulation := population;
      BredChildren(scores, maxScore / 2, parents, len, pairs, blocks, children);

      var kept;
      kept, culled := Survive(rng);
      if !kept {
        return OutOfDraws, pairs, blocks, culled;
      }
      assert newPopulation[..MaxSpeciesCross] == children;
      GenomesOfErasures(bredPopulation, culled);
      GenerationKeepsLengths(children, bredPopulation, culled, len);
      outcome := Continued;
    }
  }
}
