/** The PageRank power-iteration pipeline: square the weight table, replace
    dangling rows, normalise rows, mix in the random surfer, and iterate a
    uniform start vector until successive states are closer than `epsilon`
    or `maxIterations` products have been taken. */
module PageRank {
  import opened Results
  import opened Vectors
  import opened Matrices
  import opened Frames

  /** Default stop threshold and step cap of `power_iteration`. */
  const DefaultEpsilon: real := 0.00001
  const DefaultMaxIterations: int := 1000

  // Dangling-row correction

  /** A row whose sum is exactly 0.0 is replaced by a row of ones. */
  function EnsureRowsPositive(w: Matrix): (r: Matrix)
    ensures |r| == |w|
    ensures forall i :: 0 <= i < |w| ==> |r[i]| == |w[i]|
    ensures forall i :: 0 <= i < |w| && Sum(w[i]) == 0.0 ==> r[i] == Constant(|w[i]|, 1.0)
    ensures forall i :: 0 <= i < |w| && Sum(w[i]) != 0.0 ==> r[i] == w[i]
    ensures forall i :: 0 <= i < |w| && |w[i]| > 0 ==> Sum(r[i]) != 0.0
  {
    SumOfOnes(w);
    seq(|w|, i requires 0 <= i < |w| =>
      if Sum(w[i]) == 0.0 then Constant(|w[i]|, 1.0) else w[i])
  }

  lemma SumOfOnes(w: Matrix)
    ensures forall i :: 0 <= i < |w| ==> Sum(Constant(|w[i]|, 1.0)) == |w[i]| as real
  {
    forall i | 0 <= i < |w| ensures Sum(Constant(|w[i]|, 1.0)) == |w[i]| as real {
      SumConstant(|w[i]|, 1.0);
    }
  }

  /** On non-negative weights the correction leaves every row of a square
      table with a strictly positive sum and keeps every entry non-negative. */
  lemma CorrectedRowsPositive(w: Matrix, n: nat)
    requires IsSquare(w, n) && n > 0
    requires AllNonNegative(w)
    ensures AllNonNegative(EnsureRowsPositive(w))
    ensures forall i :: 0 <= i < n ==> 0.0 < Sum(EnsureRowsPositive(w)[i])
  {
    var r := EnsureRowsPositive(w);
    forall i | 0 <= i < n ensures NonNegative(r[i]) && 0.0 < Sum(r[i]) {
      SumNonNegative(r[i]);
    }
  }

  /** Correcting a corrected table changes nothing. */
  lemma EnsureRowsPositiveIdempotent(w: Matrix)
    ensures EnsureRowsPositive(EnsureRowsPositive(w)) == EnsureRowsPositive(w)
  {
  }

  // Row normalisation

  predicate NoZeroRowSum(w: Matrix) {
    forall i :: 0 <= i < |w| ==> Sum(w[i]) != 0.0
  }

  /** Each row divided by its own sum, as `div(sum(axis=1), axis=0)`. A zero
      row sum would make pandas produce NaN; the pipeline never divides by one. */
  function NormalizeRows(w: Matrix): (r: Matrix)
    requires NoZeroRowSum(w)
    ensures |r| == |w|
    ensures forall i :: 0 <= i < |w| ==> |r[i]| == |w[i]|
    ensures forall i, j :: 0 <= i < |w| && 0 <= j < |w[i]| ==> r[i][j] * Sum(w[i]) == w[i][j]
    ensures RowSumsOne(r)
  {
    NormalizedSums(w);
    seq(|w|, i requires 0 <= i < |w| => Divide(w[i], Sum(w[i])))
  }

  lemma NormalizedSums(w: Matrix)
    requires NoZeroRowSum(w)
    ensures forall i :: 0 <= i < |w| ==> Sum(Divide(w[i], Sum(w[i]))) == 1.0
  {
    forall i | 0 <= i < |w| ensures Sum(Divide(w[i], Sum(w[i]))) == 1.0 {
      SumDivide(w[i], Sum(w[i]));
      assert Sum(w[i]) / Sum(w[i]) == 1.0;
    }
  }

  /** Normalising non-negative rows with positive sums gives a row-stochastic table. */
  lemma NormalizeRowsStochastic(w: Matrix)
    requires AllNonNegative(w)
    requires forall i :: 0 <= i < |w| ==> 0.0 < Sum(w[i])
    ensures RowStochastic(NormalizeRows(w))
  {
    var r := NormalizeRows(w);
    forall i, j | 0 <= i < |w| && 0 <= j < |w[i]| ensures 0.0 <= r[i][j] {
      assert r[i][j] == w[i][j] / Sum(w[i]);
    }
  }

  /** Normalising an already normalised table changes nothing. */
  lemma NormalizeRowsIdempotent(w: Matrix)
    requires NoZeroRowSum(w)
    ensures NoZeroRowSum(NormalizeRows(w))
    ensures NormalizeRows(NormalizeRows(w)) == NormalizeRows(w)
  {
    var r := NormalizeRows(w);
    forall i | 0 <= i < |r| ensures Divide(r[i], Sum(r[i])) == r[i] {
      assert Sum(r[i]) == 1.0;
    }
  }

  /** Why the correction must come first: a dangling row of an `n`-node
      table ends up as the uniform distribution `1/n` once normalised. */
  lemma DanglingRowBecomesUniform(w: Matrix, n: nat, i: nat)
    requires IsSquare(w, n) && n > 0 && i < n
    requires Sum(w[i]) == 0.0
    ensures NormalizeRows(EnsureRowsPositive(w))[i] == Constant(n, Share(n))
  {
    var c := EnsureRowsPositive(w);
    assert c[i] == Constant(n, 1.0);
    SumConstant(n, 1.0);
    assert NormalizeRows(c)[i] == Divide(c[i], n as real);
  }

  // Random-surfer mixing

  /** The probability `rsp / n` with which the surfer jumps to any given node. */
  function Teleport(n: nat, rsp: real): (alpha: real)
    requires n > 0
    ensures alpha * n as real == rsp
  {
    1.0 / n as real * rsp
  }

  /** `(1 - rsp) * p + rsp / n`, entry by entry, for an `n`-row table. */
  function Mix(p: Matrix, rsp: real): (r: Matrix)
    requires |p| > 0
    ensures |r| == |p|
    ensures forall i :: 0 <= i < |p| ==> |r[i]| == |p[i]|
    ensures forall i :: 0 <= i < |p| ==> r[i] == Affine(1.0 - rsp, p[i], Teleport(|p|, rsp))
  {
    var alpha := Teleport(|p|, rsp);
    seq(|p|, i requires 0 <= i < |p| => Affine(1.0 - rsp, p[i], alpha))
  }

  /** Mixing keeps rows summing to 1, for every `rsp`. */
  lemma MixRowSums(p: Matrix, rsp: real)
    requires IsSquare(p, |p|) && |p| > 0
    requires RowSumsOne(p)
    ensures RowSumsOne(Mix(p, rsp))
  {
    var n := |p|;
    var alpha := Teleport(n, rsp);
    assert alpha * n as real == rsp;
    forall i | 0 <= i < n ensures Sum(Mix(p, rsp)[i]) == 1.0 {
      SumAffine(1.0 - rsp, p[i], alpha);
      calc {
        Sum(Mix(p, rsp)[i]);
        (1.0 - rsp) * Sum(p[i]) + |p[i]| as real * alpha;
        (1.0 - rsp) * 1.0 + n as real * alpha;
        1.0;
      }
    }
  }

  /** With `0 <= rsp <= 1`, mixing a non-negative table puts every entry at or above `rsp / n`. */
  lemma MixLowerBound(p: Matrix, rsp: real)
    requires |p| > 0 && AllNonNegative(p)
    requires 0.0 <= rsp <= 1.0
    ensures EntriesAtLeast(Mix(p, rsp), Teleport(|p|, rsp))
    ensures AllNonNegative(Mix(p, rsp))
  {
    var n := |p|;
    var m := Mix(p, rsp);
    assert Teleport(n, rsp) == rsp / n as real;
    forall i, j | 0 <= i < n && 0 <= j < |m[i]| ensures rsp / n as real <= m[i][j] {
      assert 0.0 <= (1.0 - rsp) * p[i][j];
    }
  }

  /** `rsp = 1` discards the edges: every entry is exactly `1/n`. */
  lemma MixFullTeleport(p: Matrix)
    requires |p| > 0
    ensures forall i, j :: 0 <= i < |p| && 0 <= j < |p[i]| ==> Mix(p, 1.0)[i][j] == Share(|p|)
  {
  }

  // Start state

  /** The uniform distribution over `n` nodes; no nodes raises `ValueError`. */
  function StartState(n: nat): (r: Result<Vector, Error>)
    ensures r.Failure? <==> n == 0
    ensures r.Failure? ==> r.error == ValueError(NoNodesMessage)
    ensures r.Success? ==> |r.value| == n && IsDistribution(r.value)
    ensures r.Success? ==> forall j :: 0 <= j < n ==> r.value[j] == Share(n)
  {
    if n == 0 then Failure(ValueError(NoNodesMessage))
    else
      SumConstant(n, Share(n));
      Success(Constant(n, Share(n)))
  }

  // Power iteration

  /** The transition table the walk uses for a frame whose nodes are listed by `index`. */
  function Transition<K>(f: Frame<K>, index: seq<K>, rsp: real): (p: Matrix)
    requires |index| > 0
    ensures IsSquare(p, |index|)
    ensures RowSumsOne(p)
  {
    var w := EnsureRowsPositive(Square(f, index));
    MixRowSums(NormalizeRows(w), rsp);
    Mix(NormalizeRows(w), rsp)
  }

  /** Non-negative weights and `0 <= rsp <= 1` make the transition table
      row-stochastic with every entry at least `rsp / n`; `rsp = 1` makes it uniform. */
  lemma TransitionBounds<K>(f: Frame<K>, index: seq<K>, rsp: real)
    requires |index| > 0
    ensures NonNegativeWeights(f) && 0.0 <= rsp <= 1.0 ==>
      RowStochastic(Transition(f, index, rsp)) && EntriesAtLeast(Transition(f, index, rsp), Teleport(|index|, rsp))
    ensures rsp == 1.0 ==> forall i, j :: 0 <= i < |index| && 0 <= j < |index| ==>
      Transition(f, index, rsp)[i][j] == Share(|index|)
  {
    var n := |index|;
    var sq := Square(f, index);
    var w := EnsureRowsPositive(sq);
    if NonNegativeWeights(f) && 0.0 <= rsp <= 1.0 {
      SquareNonNegative(f, index);
      CorrectedRowsPositive(sq, n);
      NormalizeRowsStochastic(w);
      MixLowerBound(NormalizeRows(w), rsp);
    }
    MixFullTeleport(NormalizeRows(w));
  }

  /** One step of the walk: `state · p`. */
  function Step(state: Vector, p: Matrix): (r: Vector)
    requires IsSquare(p, |state|)
    ensures |r| == |state|
    ensures RowSumsOne(p) ==> Sum(r) == Sum(state)
  {
    if RowSumsOne(p) then
      ProductConservesMass(state, p, |state|);
      Product(state, p, |state|)
    else
      Product(state, p, |state|)
  }

  /** The state after `k` steps from `start`. */
  function Power(p: Matrix, start: Vector, k: nat): (r: Vector)
    requires IsSquare(p, |start|)
    ensures |r| == |start|
    ensures RowSumsOne(p) ==> Sum(r) == Sum(start)
  {
    if k == 0 then start else Step(Power(p, start, k - 1), p)
  }

  /** The change made by the `k`-th step. */
  function Delta(p: Matrix, start: Vector, k: nat): (d: Vector)
    requires IsSquare(p, |start|) && k >= 1
    ensures |d| == |start|
    ensures forall j :: 0 <= j < |start| ==> Power(p, start, k - 1)[j] + d[j] == Power(p, start, k)[j]
    ensures RowSumsOne(p) ==> Sum(d) == 0.0
  {
    SumDifference(Power(p, start, k), Power(p, start, k - 1));
    Difference(Power(p, start, k), Power(p, start, k - 1))
  }

  /** The stop test `sqrt(d · d) < epsilon`, squared: a square root is never
      negative, so it can only hold for a positive `epsilon`, and then it is
      `d · d < epsilon²`. */
  predicate Converged(d: Vector, epsilon: real) {
    0.0 < epsilon && Dot(d, d) < epsilon * epsilon
  }

  /** A row-stochastic walk keeps a distribution a distribution. */
  lemma {:induction false} PowerDistribution(p: Matrix, start: Vector, k: nat)
    requires IsSquare(p, |start|) && RowStochastic(p)
    requires IsDistribution(start)
    ensures IsDistribution(Power(p, start, k))
  {
    if k > 0 {
      PowerDistribution(p, start, k - 1);
      var s := Power(p, start, k - 1);
      ProductConservesMass(s, p, |start|);
      ProductLowerBound(s, p, |start|, 0.0);
    }
  }

  /** After at least one step every entry is at least the smallest transition entry. */
  lemma PowerLowerBound(p: Matrix, start: Vector, k: nat, b: real)
    requires IsSquare(p, |start|) && RowStochastic(p) && EntriesAtLeast(p, b)
    requires IsDistribution(start)
    requires k >= 1
    ensures AtLeast(Power(p, start, k), b)
  {
    PowerDistribution(p, start, k - 1);
    ProductLowerBound(Power(p, start, k - 1), p, |start|, b);
  }

  /** Under a uniform transition table the uniform state is a fixed point. */
  lemma {:induction false} PowerOfUniform(p: Matrix, n: nat, k: nat)
    requires n > 0 && IsSquare(p, n)
    requires forall i, j :: 0 <= i < n && 0 <= j < n ==> p[i][j] == Share(n)
    ensures Power(p, Constant(n, Share(n)), k) == Constant(n, Share(n))
  {
    var c := Share(n);
    var u := Constant(n, c);
    if k > 0 {
      PowerOfUniform(p, n, k - 1);
      SumConstant(n, c);
      assert Sum(u) == 1.0;
      ProductOfConstant(u, p, n, c);
      var s := Step(u, p);
      assert forall j :: 0 <= j < n ==> s[j] == c * 1.0;
      assert s == u;
    }
  }

  /** `steps` and `converged` are what the loop of `power_iteration` reports for
      table `p` from `start`: it stops after the first step whose change passes
      the stop test, and otherwise after `max(0, maxIterations)` steps. */
  predicate StoppedAt(p: Matrix, start: Vector, epsilon: real, maxIterations: int, steps: nat, converged: bool)
    requires IsSquare(p, |start|)
  {
    var limit := if maxIterations < 0 then 0 else maxIterations;
    && steps <= limit
    && (converged <==> steps >= 1 && Converged(Delta(p, start, steps), epsilon))
    && (!converged ==> steps == limit)
    && (forall k :: 1 <= k < steps ==> !Converged(Delta(p, start, k), epsilon))
  }

  /** The loop of `power_iteration`: at most `maxIterations` products, stopping
      after the first one whose change passes the stop test. */
  method Iterate(p: Matrix, start: Vector, epsilon: real, maxIterations: int)
    returns (state: Vector, steps: nat, converged: bool)
    requires IsSquare(p, |start|)
    ensures state == Power(p, start, steps)
    ensures steps <= if maxIterations < 0 then 0 else maxIterations
    ensures converged <==> steps >= 1 && Converged(Delta(p, start, steps), epsilon)
    ensures !converged ==> steps == if maxIterations < 0 then 0 else maxIterations
    ensures forall k :: 1 <= k < steps ==> !Converged(Delta(p, start, k), epsilon)
    ensures RowSumsOne(p) ==> Sum(state) == Sum(start)
    ensures RowStochastic(p) && IsDistribution(start) ==> IsDistribution(state)
  {
    var limit: nat := if maxIterations < 0 then 0 else maxIterations;
    state, steps, converged := start, 0, false;
    while steps < limit
      invariant steps <= limit
      invariant state == Power(p, start, steps)
      invariant forall k :: 1 <= k <= steps ==> !Converged(Delta(p, start, k), epsilon)
      invariant RowSumsOne(p) ==> Sum(state) == Sum(start)
      invariant RowStochastic(p) && IsDistribution(start) ==> IsDistribution(state)
    {
      var previous := state;
      state := Step(state, p);
      steps := steps + 1;
      if RowSumsOne(p) {
        ProductConservesMass(previous, p, |start|);
      }
      if RowStochastic(p) && IsDistribution(start) {
        ProductLowerBound(previous, p, |start|, 0.0);
      }
      if Converged(Difference(state, previous), epsilon) {
        converged := true;
        break;
      }
    }
  }

  /** The outcome of a run: the node order, one score per node, the number of
      products taken and whether the stop test fired. */
  datatype Ranking<K> = Ranking(nodes: seq<K>, scores: Vector, steps: nat, converged: bool)

  /** The scores keyed by node, as the returned pandas `Series`. */
  function ScoreMap<K>(r: Ranking<K>): (m: map<K, real>)
    requires Distinct(r.nodes) && |r.scores| == |r.nodes|
    ensures forall k :: k in m ==> k in r.nodes
    ensures forall i :: 0 <= i < |r.nodes| ==> r.nodes[i] in m
    ensures forall i :: 0 <= i < |r.nodes| ==> m[r.nodes[i]] == r.scores[i]
  {
    map i | 0 <= i < |r.nodes| :: r.nodes[i] := r.scores[i]
  }

  /** The squared test decides `__euclidean_norm(d) < epsilon`: for the
      non-negative `norm` whose square is `d · d` (what `math.sqrt` returns),
      the test holds exactly when `norm < epsilon`. */
  lemma ConvergedIsNormBelow(d: Vector, epsilon: real, norm: real)
    requires 0.0 <= norm && norm * norm == Dot(d, d)
    ensures Converged(d, epsilon) <==> norm < epsilon
  {
    if norm < epsilon {
      calc {
        Dot(d, d);
      == norm * norm;
      <= { assert 0.0 <= norm * (epsilon - norm); } norm * epsilon;
      < { assert 0.0 < (epsilon - norm) * epsilon; } epsilon * epsilon;
      }
    } else if 0.0 < epsilon {
      calc {
        epsilon * epsilon;
      <= { assert 0.0 <= epsilon * (norm - epsilon); } epsilon * norm;
      <= { assert 0.0 <= (norm - epsilon) * norm; } norm * norm;
      == Dot(d, d);
      }
    }
  }

  /** A change of squared norm zero passes the stop test for every positive `epsilon`. */
  lemma BelowSquare(x: real, epsilon: real)
    requires x <= 0.0 < epsilon
    ensures x < epsilon * epsilon
  {
    calc {
      x;
    <= 0.0;
    == 0.0 * epsilon;
    < { assert 0.0 < epsilon; } epsilon * epsilon;
    }
  }

  /** `rsp = 1` with a positive `epsilon`: the first step changes nothing, so the stop test fires. */
  lemma FullTeleportStopsAtOnce(p: Matrix, n: nat, epsilon: real)
    requires n > 0 && IsSquare(p, n) && 0.0 < epsilon
    requires forall i, j :: 0 <= i < n && 0 <= j < n ==> p[i][j] == Share(n)
    ensures Converged(Delta(p, Constant(n, Share(n)), 1), epsilon)
  {
    var u := Constant(n, Share(n));
    PowerOfUniform(p, n, 1);
    assert Power(p, u, 0) == u;
    var d := Delta(p, u, 1);
    DotZero(d);
    BelowSquare(Dot(d, d), epsilon);
  }

  /** What the run of the walk guarantees about the scores of an `n`-node frame. */
  lemma ScoreBounds<K>(f: Frame<K>, index: seq<K>, rsp: real, steps: nat)
    requires |index| > 0
    ensures var n := |index|;
      var s := Power(Transition(f, index, rsp), Constant(n, Share(n)), steps);
      && Sum(s) == 1.0
      && (NonNegativeWeights(f) && 0.0 <= rsp <= 1.0 ==> IsDistribution(s))
      && (NonNegativeWeights(f) && 0.0 <= rsp <= 1.0 && 1 <= steps ==> AtLeast(s, Teleport(n, rsp)))
      && (rsp == 1.0 ==> s == Constant(n, Share(n)))
      && (n == 1 ==> s == [1.0])
  {
    var n := |index|;
    var p := Transition(f, index, rsp);
    var u := Constant(n, Share(n));
    SumConstant(n, Share(n));
    TransitionBounds(f, index, rsp);
    if NonNegativeWeights(f) && 0.0 <= rsp <= 1.0 {
      PowerDistribution(p, u, steps);
      if 1 <= steps {
        PowerLowerBound(p, u, steps, Teleport(n, rsp));
      }
    }
    if rsp == 1.0 {
      PowerOfUniform(p, n, steps);
    }
    if n == 1 {
      SingletonDistribution(Power(p, u, steps));
    }
  }

  lemma ScoreMapKeys<K(!new)>(r: Ranking<K>, s: set<K>)
    requires Enumerates(r.nodes, s) && |r.scores| == |r.nodes|
    ensures ScoreMap(r).Keys == s
  {
  }

  /** Everything after the start state: build the transition table over
      `index` and run the loop from the uniform `start`. */
  method Walk<K>(f: Frame<K>, index: seq<K>, start: Vector, rsp: real, epsilon: real, maxIterations: int)
    returns (r: Ranking<K>)
    requires |index| > 0 && start == Constant(|index|, Share(|index|))
    ensures r.nodes == index && |r.scores| == |index|
    ensures r.scores == Power(Transition(f, index, rsp), start, r.steps)
    ensures StoppedAt(Transition(f, index, rsp), start, epsilon, maxIterations, r.steps, r.converged)
    ensures 1 <= maxIterations ==> 1 <= r.steps
    ensures Sum(r.scores) == 1.0
    ensures NonNegativeWeights(f) && 0.0 <= rsp <= 1.0 ==> IsDistribution(r.scores)
    ensures NonNegativeWeights(f) && 0.0 <= rsp <= 1.0 && 1 <= maxIterations ==>
      AtLeast(r.scores, Teleport(|index|, rsp))
    ensures maxIterations <= 0 ==> r.scores == start
    ensures rsp == 1.0 ==> r.scores == start
    ensures rsp == 1.0 && 0.0 < epsilon && 1 <= maxIterations ==> r.steps == 1 && r.converged
    ensures |index| == 1 ==> r.scores == [1.0]
  {
    var p := Transition(f, index, rsp);
    var state, steps, converged := Iterate(p, start, epsilon, maxIterations);
    ScoreBounds(f, index, rsp, steps);
    if rsp == 1.0 && 0.0 < epsilon && 1 <= maxIterations {
      TransitionBounds(f, index, rsp);
      FullTeleportStopsAtOnce(p, |index|, epsilon);
    }
    r := Ranking(index, state, steps, converged);
  }

  /** `power_iteration` on a frame built from a dict or a list. */
  method PowerIteration<K(!new)>(f: Frame<K>, rsp: real, epsilon: real, maxIterations: int)
    returns (r: Result<Ranking<K>, Error>)
    ensures r.Failure? <==> Nodes(f) == {}
    ensures r.Failure? ==> r.error == ValueError(NoNodesMessage)
    ensures r.Success? ==> Enumerates(r.value.nodes, Nodes(f)) && |r.value.scores| == |r.value.nodes|
    ensures r.Success? ==> ScoreMap(r.value).Keys == Nodes(f)
    ensures r.Success? ==>
      r.value.scores == Power(Transition(f, r.value.nodes, rsp), Constant(|r.value.nodes|, Share(|r.value.nodes|)), r.value.steps)
    ensures r.Success? ==> r.value.steps <= if maxIterations < 0 then 0 else maxIterations
    ensures r.Success? ==> StoppedAt(Transition(f, r.value.nodes, rsp),
      Constant(|r.value.nodes|, Share(|r.value.nodes|)), epsilon, maxIterations, r.value.steps, r.value.converged)
    ensures r.Success? && 1 <= maxIterations ==> 1 <= r.value.steps
    ensures r.Success? ==> Sum(r.value.scores) == 1.0
    ensures r.Success? && NonNegativeWeights(f) && 0.0 <= rsp <= 1.0 ==> IsDistribution(r.value.scores)
    ensures r.Success? && NonNegativeWeights(f) && 0.0 <= rsp <= 1.0 && 1 <= maxIterations ==>
      AtLeast(r.value.scores, Teleport(|r.value.nodes|, rsp))
    ensures r.Success? && maxIterations <= 0 ==>
      r.value.scores == Constant(|r.value.nodes|, Share(|r.value.nodes|))
    ensures r.Success? && rsp == 1.0 ==>
      r.value.scores == Constant(|r.value.nodes|, Share(|r.value.nodes|))
    ensures r.Success? && rsp == 1.0 && 0.0 < epsilon && 1 <= maxIterations ==>
      r.value.steps == 1 && r.value.converged
    ensures r.Success? && |Nodes(f)| == 1 ==> r.value.scores == [1.0]
  {
    var index := Enumerate(Nodes(f));
    var start :- StartState(|index|);
    var ranking := Walk(f, index, start, rsp, epsilon, maxIterations);
    ScoreMapKeys(ranking, Nodes(f));
    return Success(ranking);
  }
}
