/**
 * Ordering individuals by score: the two comparators, std::max_element with
 * compare_score, and std::sort with compare_score2.
 */
module Ranking {
  import opened Numeric
  import opened Genome

  /** compare_score: s1 scores lower than s2. */
  predicate CompareScore(s1: Species, s2: Species)
  {
    s1.Fitness() < s2.Fitness()
  }

  /** compare_score2: s1 scores higher than s2. */
  predicate CompareScore2(s1: Species, s2: Species)
  {
    s1.Fitness() > s2.Fitness()
  }

  /**
   * Both comparators are strict weak orderings, as std::max_element and
   * std::sort require, and each is the converse of the other.
   */
  lemma ComparatorsAreStrictWeakOrders(a: Species, b: Species, c: Species)
    ensures !CompareScore(a, a) && !CompareScore2(a, a)
    ensures CompareScore(a, b) && CompareScore(b, c) ==> CompareScore(a, c)
    ensures CompareScore2(a, b) && CompareScore2(b, c) ==> CompareScore2(a, c)
    ensures !CompareScore(a, b) && !CompareScore(b, a) && !CompareScore(b, c) && !CompareScore(c, b)
            ==> !CompareScore(a, c) && !CompareScore(c, a)
    ensures CompareScore2(a, b) <==> CompareScore(b, a)
  {
  }

  /** The scores of a population, position by position. */
  function Fitnesses(pop: seq<Species>): (r: seq<U64>)
    ensures |r| == |pop|
    ensures forall i | 0 <= i < |pop| :: r[i] == pop[i].Fitness()
  {
    seq(|pop|, i requires 0 <= i < |pop| => pop[i].Fitness())
  }

  /**
   * std::max_element(first, last, compare_score): the position of the first
   * individual that no other individual outscores.
   */
  function MaxElement(pop: seq<Species>): (k: nat)
    requires |pop| > 0
    ensures k < |pop|
    ensures forall j | 0 <= j < |pop| :: !CompareScore(pop[k], pop[j])
    ensures forall j | 0 <= j < k :: CompareScore(pop[j], pop[k])
    decreases |pop|
  {
    if |pop| == 1 then 0
    else
      var k := MaxElement(pop[..|pop| - 1]);
      if CompareScore(pop[k], pop[|pop| - 1]) then |pop| - 1 else k
  }

  /** The best score of a population. */
  function MaxScore(pop: seq<Species>): (m: U64)
    requires |pop| > 0
    ensures exists i | 0 <= i < |pop| :: pop[i].Fitness() == m
    ensures forall i | 0 <= i < |pop| :: pop[i].Fitness() <= m
  {
    pop[MaxElement(pop)].Fitness()
  }

  /** Non-increasing by score. */
  ghost predicate SortedDescending(pop: seq<Species>)
  {
    forall i, j | 0 <= i < j < |pop| :: pop[i].Fitness() >= pop[j].Fitness()
  }

  /** Putting an individual that scores at least as much as the head in front keeps the order. */
  lemma ConsSorted(h: Species, tail: seq<Species>)
    requires SortedDescending(tail)
    requires tail != [] ==> h.Fitness() >= tail[0].Fitness()
    ensures SortedDescending([h] + tail)
  {
    var r := [h] + tail;
    forall i, j | 0 <= i < j < |r| ensures r[i].Fitness() >= r[j].Fitness() {
      if i == 0 && j > 1 {
        assert r[j] == tail[j - 1] && tail[0].Fitness() >= tail[j - 1].Fitness();
      }
    }
  }

  /** Inserts `x` before the first individual it outscores or equals. */
  function Insert(x: Species, sorted: seq<Species>): (r: seq<Species>)
    ensures multiset(r) == multiset(sorted) + multiset{x}
    ensures |r| == |sorted| + 1
    ensures forall i | 0 <= i < |r| :: r[i] == x || r[i] in sorted
    ensures r[0] == x || (sorted != [] && r[0] == sorted[0])
    decreases |sorted|
  {
    if sorted == [] || !CompareScore2(sorted[0], x) then [x] + sorted
    else
      assert sorted == [sorted[0]] + sorted[1..];
      [sorted[0]] + Insert(x, sorted[1..])
  }

  /** Inserting into a population sorted by descending score keeps it sorted. */
  lemma {:induction false} InsertSorted(x: Species, sorted: seq<Species>)
    requires SortedDescending(sorted)
    ensures SortedDescending(Insert(x, sorted))
  {
    if sorted == [] || !CompareScore2(sorted[0], x) {
      ConsSorted(x, sorted);
    } else {
      var tail := Insert(x, sorted[1..]);
      assert SortedDescending(sorted[1..]);
      InsertSorted(x, sorted[1..]);
      assert tail[0] == x || tail[0] == sorted[1];
      ConsSorted(sorted[0], tail);
    }
  }

  /**
   * std::sort(first, last, compare_score2): a rearrangement of the population
   * in non-increasing score order. std::sort is not stable, so only these two
   * facts are relied on, not the particular order of equal scores.
   */
  function SortByScore(pop: seq<Species>): (r: seq<Species>)
    ensures multiset(r) == multiset(pop) && |r| == |pop|
    ensures forall s | s in r :: s in pop
    ensures SortedDescending(r)
    decreases |pop|
  {
    if pop == [] then []
    else
      var rest := SortByScore(pop[1..]);
      assert pop == [pop[0]] + pop[1..];
      InsertSorted(pop[0], rest);
      Insert(pop[0], rest)
  }
}
