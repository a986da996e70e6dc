/**
 * The rejection-sampling loops of generation(), as functions of the tape of
 * uniform draws they consume: each returns the accepted value(s) and the rest
 * of the tape, or None when the tape runs out before a value is accepted.
 */
module Sampling {
  import opened Numeric
  import opened RandomTape
  import opened Genome

  /** `rest` is what is left of `draws` after some of its first values were consumed. */
  ghost predicate IsSuffix(rest: seq<Uniform>, draws: seq<Uniform>)
  {
    |rest| <= |draws| && rest == draws[|draws| - |rest|..]
  }

  /**
   * `while (s1 == s2) s2 = get_uniform();`, with the first draw of s2 included:
   * the first draw that differs from `s1`.
   */
  function FirstOtherThan(s1: Uniform, draws: seq<Uniform>): (r: Option<(Uniform, seq<Uniform>)>)
    ensures r.Some? ==> r.value.0 != s1 && r.value.0 in draws
    ensures r.Some? ==> |r.value.1| < |draws| && IsSuffix(r.value.1, draws)
    ensures r.None? <==> forall d | d in draws :: d == s1
    decreases |draws|
  {
    if draws == [] then None
    else if draws[0] == s1 then
      assert forall d | d in draws :: d == draws[0] || d in draws[1..];
      FirstOtherThan(s1, draws[1..])
    else Some((draws[0], draws[1..]))
  }

  /**
   * `s1 = get_uniform(); while (s1 >= bound) s1 = get_uniform();`: the first
   * draw below `bound`.
   */
  function FirstBelow(bound: int, draws: seq<Uniform>): (r: Option<(Uniform, seq<Uniform>)>)
    ensures r.Some? ==> r.value.0 < bound && |r.value.1| < |draws| && IsSuffix(r.value.1, draws)
    ensures r.None? <==> forall d | d in draws :: bound <= d
    decreases |draws|
  {
    if draws == [] then None
    else if draws[0] < bound then
      assert draws[0] in draws;
      Some((draws[0], draws[1..]))
    else
      assert forall d | d in draws :: d == draws[0] || d in draws[1..];
      assert forall d | d in draws[1..] :: d in draws;
      FirstBelow(bound, draws[1..])
  }

  /**
   * FirstOtherThan returns the first draw that differs from `s1`, at position
   * k, every draw before it equals `s1`, and the rest of the tape starts
   * right after it.
   */
  lemma {:induction false} FirstOtherThanIsFirst(s1: Uniform, draws: seq<Uniform>)
    ensures var r := FirstOtherThan(s1, draws);
      r.Some? ==>
        var k := |draws| - |r.value.1| - 1;
        && 0 <= k && draws[k] == r.value.0 && r.value.1 == draws[k + 1..]
        && forall j | 0 <= j < k :: draws[j] == s1
    decreases |draws|
  {
    if draws != [] && draws[0] == s1 {
      FirstOtherThanIsFirst(s1, draws[1..]);
    }
  }

  /**
   * FirstBelow returns the first draw below `bound`, at position k, every
   * draw before it is at least `bound`, and the rest of the tape starts
   * right after it.
   */
  lemma {:induction false} FirstBelowIsFirst(bound: int, draws: seq<Uniform>)
    ensures var r := FirstBelow(bound, draws);
      r.Some? ==>
        var k := |draws| - |r.value.1| - 1;
        && 0 <= k && draws[k] == r.value.0 && r.value.1 == draws[k + 1..]
        && forall j | 0 <= j < k :: bound <= draws[j]
    decreases |draws|
  {
    if draws != [] && bound <= draws[0] {
      FirstBelowIsFirst(bound, draws[1..]);
    }
  }

  /** The condition under which generation() crosses individuals s1 and s2. */
  ghost predicate Accepted(scores: seq<U64>, half: U64, s1: Uniform, s2: Uniform)
  {
    s1 != s2 && s1 < |scores| && s2 < |scores| && Difference(scores[s1], scores[s2]) <= half
  }

  /**
   * The do-while loop that picks a pair of parents: draw s1, draw s2 until it
   * differs from s1, and start over while their scores differ by more than
   * `half`. `scores[i]` is the score of population[i]. The accepted pair is
   * returned with the rest of the tape.
   */
  function PickPair(scores: seq<U64>, half: U64, draws: seq<Uniform>): (r: Option<(Uniform, Uniform, seq<Uniform>)>)
    requires forall d | d in draws :: d < |scores|
    ensures r.Some? ==> Accepted(scores, half, r.value.0, r.value.1)
    ensures r.Some? ==> |r.value.2| + 2 <= |draws| && IsSuffix(r.value.2, draws)
    decreases |draws|
  {
    if draws == [] then None
    else
      match FirstOtherThan(draws[0], draws[1..])
      case None => None
      case Some((s2, rest)) =>
        assert draws[0] in draws && s2 in draws;
        assert forall d | d in rest :: d in draws;
        if Difference(scores[draws[0]], scores[s2]) > half then PickPair(scores, half, rest)
        else Some((draws[0], s2, rest))
  }

  /**
   * One attempt of the loop: the attempt that starts at `draws` draws s1, then
   * s2 as FirstOtherThan describes, and either accepts the pair or starts over
   * on what is left of the tape.
   */
  lemma PickPairStep(scores: seq<U64>, half: U64, draws: seq<Uniform>, s1: Uniform, s2: Uniform, rest: seq<Uniform>)
    requires forall d | d in draws :: d < |scores|
    requires s1 < |scores| && s2 < |scores| && forall d | d in rest :: d < |scores|
    requires draws != [] && draws[0] == s1 && FirstOtherThan(s1, draws[1..]) == Some((s2, rest))
    ensures Difference(scores[s1], scores[s2]) > half ==> PickPair(scores, half, draws) == PickPair(scores, half, rest)
    ensures Difference(scores[s1], scores[s2]) <= half ==> PickPair(scores, half, draws) == Some((s1, s2, rest))
  {
  }

  /** A pair whose scores differ by more than `half` is rejected and both indices are drawn again. */
  lemma PickPairRejects(scores: seq<U64>, half: U64, s1: Uniform, s2: Uniform, rest: seq<Uniform>)
    requires s1 != s2 && s1 < |scores| && s2 < |scores|
    requires forall d | d in rest :: d < |scores|
    requires Difference(scores[s1], scores[s2]) > half
    ensures PickPair(scores, half, [s1, s2] + rest) == PickPair(scores, half, rest)
  {
    assert ([s1, s2] + rest)[1..] == [s2] + rest;
    assert ([s2] + rest)[1..] == rest;
  }

  /** A first attempt whose scores are within `half` is accepted as it is. */
  lemma PickPairAcceptsFirst(scores: seq<U64>, half: U64, s1: Uniform, s2: Uniform, rest: seq<Uniform>)
    requires Accepted(scores, half, s1, s2)
    requires forall d | d in rest :: d < |scores|
    ensures PickPair(scores, half, [s1, s2] + rest) == Some((s1, s2, rest))
  {
    assert ([s1, s2] + rest)[1..] == [s2] + rest;
    assert ([s2] + rest)[1..] == rest;
  }

  /**
   * Four individuals scoring 2, 4, 6 and 200, so half the best score is 100:
   * the pair (0, 3) differs by 198 and is drawn again; the pair (0, 1) is taken.
   */
  lemma PickPairScenario()
    ensures PickPair([2, 4, 6, 200], 100, [0, 3, 0, 1]) == Some((0, 1, []))
  {
    PickPairRejects([2, 4, 6, 200], 100, 0, 3, [0, 1]);
    PickPairAcceptsFirst([2, 4, 6, 200], 100, 0, 1, []);
    assert [0, 3, 0, 1] == [0, 3] + [0, 1];
    assert [0, 1] == [0, 1] + [];
  }
}
