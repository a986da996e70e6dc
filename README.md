# parents: a Dafny model of the evolution engine

The program evolves a population of `Species`. Each individual has a genome
("wisdom") of `uint64_t` genes and a lazily cached score. `init()` creates
5000 individuals with 10 uniformly drawn genes each. After that, each call
of `generation()` does the following, in order:

1. finds the best score and stops if it exceeds 18446744071749127043;
2. breeds 20 children, each from a pair of parents whose scores differ by at
   most half the best score, found by rejection sampling;
3. culls 20 individuals at random valid positions;
4. puts the children in front of the survivors;
5. sorts the population by descending score.

The model is split into these modules:

- `Numeric` (numeric.dfy): the program's constants and its fixed-width
  arithmetic. This covers wrapping `uint64_t` addition, the `int` to
  `uint64_t` sign extension, and the narrowing of a `uint64_t` into an
  `int`.
- `RandomTape` (random_tape.dfy): the random source, replaced by a class
  holding two tapes of pre-drawn values. `uniforms` holds the results of
  `get_uniform()`, each in `[0, 4999]`. `normals` holds the results of
  `get()`, already converted to `uint64_t`. A call on an empty tape returns
  `None`. That stands for the point where the program would keep drawing.
- `Genome` (species.dfy): the score, computed through an `int` accumulator,
  exactly as `std::accumulate(..., 0)` does. It also holds the recombination
  rule of `cross()` and the `Species` value with its cache. The cache uses 0
  as its "not computed" sentinel.
- `Ranking` (ranking.dfy): the two comparators, `std::max_element` with
  `compare_score`, and `std::sort` with `compare_score2`.
- `Sampling` (sampling.dfy): the rejection-sampling loops, as functions of
  the tape they consume.
- `Evolution` (evolution.dfy): the engine class with `population` and
  `newPopulation`, `init()` and `generation()`, and their loops.

`generation()` returns `Continued`, `Halted` (the program's `false`) or
`OutOfDraws` (a tape ran out). For a `Continued` generation, the model
proves the following:

- every pair crossed is accepted: two distinct indices below the population
  size, whose score difference is at most `max_score >> 1`;
- each child is exactly the genome `cross()` builds from its pair and its
  block of draws;
- exactly 20 valid erasures were made;
- the new population holds the children followed by the survivors;
- the population that results is a permutation of it, sorted non-increasing
  by score, of unchanged size, with all genomes of the same length.

The program halts exactly when the best score exceeds the threshold. In that
case no genome changes and no draw is consumed.

The model follows the code in two places a reader might not expect:

- `init()` clears the population before appending.
- The halting constant is written as a `long long` literal that does not fit
  in `long long`. It is taken as the unsigned value 18446744071749127043.
  Because of the `int` accumulator, only a negative accumulated sum
  (sign-extended) can ever exceed it, as `Genome.HaltingScoreIsNegativeInt`
  states.

## Model

| member | source | states |
|---|---|---|
| Numeric.AddU64 | src/main.cpp:103 | the sum of two genes, wrapped modulo 2^64: exact below 2^64, minus 2^64 above |
| Numeric.IntToU64 | src/main.cpp:84 | an `int` turned into `uint64_t`: kept when non-negative, 2^64 + x when negative (sign extension) |
| Numeric.U64ToInt | src/main.cpp:84 | a `uint64_t` stored back into the `int` accumulator: congruent modulo 2^32, unchanged below 2^31 |
| Genome.ScoreOf | src/main.cpp:84 | a score is either below 2^31 or at least 2^64 - 2^31, never in between, because the sum passes through an `int` |
| Genome.AccumulateExact | src/main.cpp:84 | while no partial sum leaves the `int` range, the accumulator holds the exact sum |
| Genome.ScoreExactWhenSmall | src/main.cpp:84 | a genome whose sum is below 2^31 scores exactly its sum |
| Genome.ScoreOverflowsIntAccumulator | src/main.cpp:84 | the score is not the 64-bit sum: one gene 2^31 scores 2^64 - 2^31 |
| Genome.HaltingScoreIsNegativeInt | src/main.cpp:134 | a score above the halting threshold comes from a negative accumulator between -(2^64 - threshold) and 0 |
| Genome.Difference | src/main.cpp:91 | score_diff's formula is the larger score minus the smaller, so smaller + result == larger and it never wraps |
| Genome.DifferenceSymmetric | src/main.cpp:89-92 | score_diff(a, b) == score_diff(b, a), and the difference is at most one of the two scores |
| Genome.CrossGenes | src/main.cpp:98-108 | the child genome has one gene per gene of this parent; gene i follows the rule for the selector draws[i] % 10 |
| Genome.CrossGeneRule | src/main.cpp:100-107 | selector 9: the wrapped sum of both genes; 6..8: this parent's gene; 0..5: the partner's gene |
| Genome.CrossInherits | src/main.cpp:100-107 | selectors all in 6..8 reproduce this parent exactly; all in 0..5 copy the partner's prefix |
| Genome.Species.AddWisdom | src/main.cpp:71-74 | add_wisdom appends exactly one gene, keeps the cache, and keeps an unset cache consistent |
| Genome.Species.Score | src/main.cpp:81-87 | score(): a cache of 0 is recomputed and stored; a non-zero cache is returned untouched; on a consistent individual the value is the score of its genes |
| Genome.Species.ScoreDiff | src/main.cpp:89-92 | score_diff: on consistent individuals, the absolute difference of their scores; only this individual's cache is filled, the argument is a copy |
| Genome.Species.Init | src/main.cpp:65-69 | Species::init appends exactly the next MaxNumWisdom uniform draws, in order; fails exactly when fewer remain |
| Genome.Species.Cross | src/main.cpp:94-111 | cross() returns a child with no cached score whose genome is CrossGenes of both parents and the next len normal draws, consumed in order; fails exactly when fewer remain |
| Genome.ScoreCached | src/main.cpp:81-87 | a second score() returns the same value, and a non-zero score is not recomputed |
| Genome.ZeroScoreNeverCached | src/main.cpp:83-84 | an individual whose score is 0 keeps an unset cache after score(), so it is recomputed on every call |
| RandomTape.Random.constructor | src/main.cpp:25-37 | the random source starts at the beginning of both tapes |
| RandomTape.Random.GetUniform | src/main.cpp:44-47 | get_uniform() returns the next uniform draw, in [0, MaxSpecies - 1], and consumes it |
| RandomTape.Random.Get | src/main.cpp:39-42 | get() returns the next normal sample and consumes it |
| Ranking.ComparatorsAreStrictWeakOrders | src/main.cpp:117-125 | compare_score and compare_score2 are strict weak orders and each is the converse of the other |
| Ranking.MaxElement | src/main.cpp:131 | std::max_element with compare_score: the first position that no individual outscores |
| Ranking.MaxScore | src/main.cpp:131-132 | the best score is the score of some individual and at least every individual's score |
| Ranking.SortByScore | src/main.cpp:178 | std::sort with compare_score2: a permutation of the population, non-increasing by score |
| Sampling.FirstOtherThan | src/main.cpp:146-149 | a draw different from s1 taken from the tape, and a strictly shorter rest of the tape; None exactly when every draw equals s1 |
| Sampling.FirstOtherThanIsFirst | src/main.cpp:146-149 | the draw returned is the first one different from s1: every earlier draw equals s1, and the rest of the tape starts right after it |
| Sampling.FirstBelow | src/main.cpp:162-165 | a draw below the current population size taken from the tape, and a strictly shorter rest of the tape; None exactly when no draw is below it |
| Sampling.FirstBelowIsFirst | src/main.cpp:162-165 | the draw returned is the first one below the bound: every earlier draw is at least the bound, and the rest of the tape starts right after it |
| Sampling.PickPair | src/main.cpp:143-153 | the pair the do-while loop accepts: distinct, both indices in range, with score difference at most half the best score; at least two draws consumed |
| Sampling.PickPairStep | src/main.cpp:143-153 | one attempt of the do-while loop either accepts its pair or starts over on the rest of the tape |
| Sampling.PickPairRejects | src/main.cpp:153 | a pair whose scores differ by more than half the best score is drawn again |
| Sampling.PickPairAcceptsFirst | src/main.cpp:153 | a first pair within the bound is taken as it is |
| Sampling.PickPairScenario | src/main.cpp:143-153 | for scores 2, 4, 6, 200 and draws 0, 3, 0, 1, the pair (0, 3) is rejected and (0, 1) is taken |
| Evolution.Erase | src/main.cpp:167 | vector::erase at i: one element fewer, elements before i unchanged, elements after i shifted down by one |
| Evolution.EraseAll | src/main.cpp:159-168 | the culling erasures, in order, each at a position valid after the earlier ones: the size shrinks by one per erasure |
| Evolution.EraseAllMembers | src/main.cpp:159-168 | every survivor of culling was a member of the population culled |
| Evolution.SameGenomesSameScores | src/main.cpp:81-87 | individuals with the same genomes have the same scores and best score, whatever their caches hold |
| Evolution.GenomesOfErasures | src/main.cpp:167 | erasing positions and taking genomes commute |
| Evolution.GenerationKeepsLengths | src/main.cpp:170-178 | children and survivors, merged and sorted, all keep the common genome length |
| Evolution.InitialGenomeScore | src/main.cpp:65-69 | a genome of 10 uniform draws scores exactly its sum, at most 49990, below the halting threshold |
| Evolution.InitialPopulationDoesNotHalt | src/main.cpp:134 | the best score of a population built by init() does not exceed the threshold |
| Evolution.InitialBlocks | src/main.cpp:205-210 | individuals built from consecutive blocks of 10 uniform draws have unset caches, 10 genes each and every gene below MaxSpecies |
| Evolution.InitialPopulationIsReady | src/main.cpp:201-211 | a population built by init() meets everything generation() requires, and its first generation does not halt |
| Evolution.DrawOtherThan | src/main.cpp:146-149 | the loop consumes uniform draws exactly as FirstOtherThan says |
| Evolution.DrawBelow | src/main.cpp:162-165 | the loop consumes uniform draws exactly as FirstBelow says |
| Evolution.SamplePair | src/main.cpp:143-153 | the do-while loop returns exactly PickPair's pair and leaves the tape as PickPair says; genomes unchanged, caches stay consistent |
| Evolution.BreedOne | src/main.cpp:140-155 | one round of the new-child loop: an accepted pair, and the child cross() builds from it with the next len normal draws |
| Evolution.Engine.constructor | src/main.cpp:114-115 | both vectors start empty |
| Evolution.Engine.Init | src/main.cpp:201-211 | init(): exactly MaxSpecies individuals, individual k built from uniform draws 10k..10k+9, unset caches, 10 genes each below MaxSpecies; fails exactly when fewer than 50000 draws remain |
| Evolution.Engine.Breed | src/main.cpp:138-156 | exactly 20 children, child k crossed from accepted pair k with the k-th block of normal draws, consumed in order; genomes of the population unchanged |
| Evolution.Engine.Cull | src/main.cpp:159-168 | exactly 20 erasures, each at an index below the current size; the population is the original with those erasures applied |
| Evolution.Engine.Merge | src/main.cpp:170-176 | survivors are appended after the children, and the population becomes a copy of the merged vector |
| Evolution.Engine.BestScore | src/main.cpp:131-132 | the best score of the population; only the best individual's cache is filled |
| Evolution.Engine.Survive | src/main.cpp:159-178 | cull, merge, then sort: new population = children + survivors, population = that, sorted |
| Evolution.Engine.Generation | src/main.cpp:127-181 | halts exactly when the best score exceeds the threshold, with genomes and tapes left as they were; otherwise 20 accepted crossings, 20 valid erasures, children before survivors, and a permutation of them sorted non-increasing by score, of the original size |

## Left out

- The internals of `Random` (src/main.cpp:16-49) are left out. That covers the
  Mersenne Twister, its seeding and the normal distribution, which is floating
  point. They are replaced by two tapes of pre-drawn values.
- `get()` converts a `double` sample to `uint64_t`, and that conversion is
  undefined for negative samples. Only the converted value is modelled, as an
  arbitrary `uint64_t` on the tape.
- The unbounded rejection loops are cut off by the finite tapes. A tape running
  out yields `OutOfDraws`, where the program would go on drawing. In that
  outcome only the consistency of the caches is promised.
- `dump()` is file output and is not modelled. Neither are `main()`'s driver
  loop with its console output, nor the Qt includes and `MainWindow`.
- The global `population`, `new_population` and `random` become fields of
  `Evolution.Engine` and a `RandomTape.Random` argument.
- Genome.Species.Score: the in-place write of `_score` is modelled as returning
  the individual with its cache filled. A `Species` is a value, as in the
  program's vectors, and the engine stores that value back into its vector.
- Ranking.MaxElement and Ranking.SortByScore do not fill the caches of the
  individuals that `compare_score` and `compare_score2` touch. Those fills do
  not change any score, given consistent caches.
- Ranking.SortByScore: `std::sort` is not stable and may order equal scores
  differently than this insertion sort. The model relies only on the result
  being a permutation, non-increasing by score.
- `operator()(idx)` is modelled as direct indexing of the partner's genome in
  `Genome.Species.Cross`.
- Evolution.Engine.Generation requires a population of at least `MaxSpecies`
  individuals whose genomes all have the same length. The program indexes the
  population with draws up to 4999 without a check. `cross()` indexes the
  partner without a check, and any pair may be drawn. `init()` and every
  generation keep both conditions.
- Loop counters (`size_t`, `int`) are unbounded integers: no counter here comes
  near its limit.
