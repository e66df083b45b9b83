/** The sliding-window co-occurrence counter that turns a filtered word list
    into the weighted graph TextRank ranks. */
module Cooccurrence {

  /** `edge_weights[word][other_word]`: a nested defaultdict of floats. */
  type Weights = map<string, map<string, real>>

  /** The value a defaultdict read returns: 0.0 where nothing was counted. */
  function Get(m: Weights, w: string, o: string): real {
    if w in m && o in m[w] then m[w][o] else 0.0
  }

  /** Positions `i` and `j` of an `n`-word list are distinct and at most
      `window` apart. */
  predicate Linked(n: int, window: int, i: int, j: int) {
    0 <= i < n && 0 <= j < n && i != j && i - window <= j <= i + window
  }

  /** The ordered pair `(i, j)` counts towards the weight of `w -> o`. */
  predicate Hit(words: seq<string>, window: int, w: string, o: string, i: int, j: int) {
    Linked(|words|, window, i, j) && words[i] == w && words[j] == o
  }

  /** The number of `j < hi` with `Hit(.., i, j)`. */
  function RowHits(words: seq<string>, window: int, w: string, o: string, i: int, hi: int): nat
    decreases hi
  {
    if hi <= 0 then 0
    else RowHits(words, window, w, o, i, hi - 1) + (if Hit(words, window, w, o, i, hi - 1) then 1 else 0)
  }

  /** The number of pairs `(i, j)` with `i < rows`, `j < cols` and `Hit(.., i, j)`. */
  function Hits(words: seq<string>, window: int, w: string, o: string, rows: int, cols: int): nat
    decreases rows
  {
    if rows <= 0 then 0
    else Hits(words, window, w, o, rows - 1, cols) + RowHits(words, window, w, o, rows - 1, cols)
  }

  /** The co-occurrence weight of `w -> o`: the number of ordered position
      pairs `(i, j)`, `i != j`, `|i - j| <= window`, with `words[i] == w` and
      `words[j] == o`. */
  function Weight(words: seq<string>, window: int, w: string, o: string): (n: nat)
    ensures n > 0 ==> w in words && o in words
  {
    HitsPositive(words, window, w, o, |words|, |words|);
    Hits(words, window, w, o, |words|, |words|)
  }

  // Symmetry: count the same pairs column by column.

  /** The number of `i < hi` with `Hit(.., i, j)`. */
  function ColHits(words: seq<string>, window: int, w: string, o: string, j: int, hi: int): nat
    decreases hi
  {
    if hi <= 0 then 0
    else ColHits(words, window, w, o, j, hi - 1) + (if Hit(words, window, w, o, hi - 1, j) then 1 else 0)
  }

  function ColBlock(words: seq<string>, window: int, w: string, o: string, rows: int, cols: int): nat
    decreases cols
  {
    if cols <= 0 then 0
    else ColBlock(words, window, w, o, rows, cols - 1) + ColHits(words, window, w, o, cols - 1, rows)
  }

  /** Counting a column of `w -> o` is counting a row of `o -> w`. */
  lemma {:induction false} ColIsTransposedRow(words: seq<string>, window: int, w: string, o: string, j: int, hi: int)
    ensures ColHits(words, window, w, o, j, hi) == RowHits(words, window, o, w, j, hi)
    decreases hi
  {
    if hi > 0 {
      ColIsTransposedRow(words, window, w, o, j, hi - 1);
      assert Hit(words, window, w, o, hi - 1, j) == Hit(words, window, o, w, j, hi - 1);
    }
  }

  lemma {:induction false} ColBlockAddRow(words: seq<string>, window: int, w: string, o: string, rows: int, cols: int)
    requires 0 <= rows
    ensures ColBlock(words, window, w, o, rows + 1, cols)
         == ColBlock(words, window, w, o, rows, cols) + RowHits(words, window, w, o, rows, cols)
    decreases cols
  {
    if cols > 0 {
      ColBlockAddRow(words, window, w, o, rows, cols - 1);
    }
  }

  lemma {:induction false} RowsEqualColumns(words: seq<string>, window: int, w: string, o: string, rows: int, cols: int)
    requires 0 <= rows
    ensures Hits(words, window, w, o, rows, cols) == ColBlock(words, window, w, o, rows, cols)
    decreases rows
  {
    if rows == 0 {
      ColBlockEmpty(words, window, w, o, cols);
    } else {
      RowsEqualColumns(words, window, w, o, rows - 1, cols);
      ColBlockAddRow(words, window, w, o, rows - 1, cols);
    }
  }

  lemma {:induction false} ColBlockEmpty(words: seq<string>, window: int, w: string, o: string, cols: int)
    ensures ColBlock(words, window, w, o, 0, cols) == 0
    decreases cols
  {
    if cols > 0 {
      ColBlockEmpty(words, window, w, o, cols - 1);
    }
  }

  lemma {:induction false} ColBlockIsTransposed(words: seq<string>, window: int, w: string, o: string, rows: int, cols: int)
    ensures ColBlock(words, window, w, o, rows, cols) == Hits(words, window, o, w, cols, rows)
    decreases cols
  {
    if cols > 0 {
      ColBlockIsTransposed(words, window, w, o, rows, cols - 1);
      ColIsTransposedRow(words, window, w, o, cols - 1, rows);
    }
  }

  /** Co-occurrence is symmetric: `w -> o` weighs what `o -> w` does. */
  lemma WeightSymmetric(words: seq<string>, window: int, w: string, o: string)
    ensures Weight(words, window, w, o) == Weight(words, window, o, w)
  {
    RowsEqualColumns(words, window, w, o, |words|, |words|);
    ColBlockIsTransposed(words, window, w, o, |words|, |words|);
  }

  // Positivity

  lemma {:induction false} RowHitsPositive(words: seq<string>, window: int, w: string, o: string, i: int, hi: int)
    ensures RowHits(words, window, w, o, i, hi) > 0 <==> exists j :: j < hi && Hit(words, window, w, o, i, j)
    decreases hi
  {
    if hi > 0 {
      RowHitsPositive(words, window, w, o, i, hi - 1);
    }
  }

  lemma {:induction false} HitsPositive(words: seq<string>, window: int, w: string, o: string, rows: int, cols: int)
    ensures Hits(words, window, w, o, rows, cols) > 0 <==>
      exists i, j :: i < rows && j < cols && Hit(words, window, w, o, i, j)
    decreases rows
  {
    if rows > 0 {
      HitsPositive(words, window, w, o, rows - 1, cols);
      RowHitsPositive(words, window, w, o, rows - 1, cols);
    }
  }

  /** A weight is positive exactly when the two words occur within the window
      of each other; for `w == o` that means `w` recurs within the window. */
  lemma WeightPositive(words: seq<string>, window: int, w: string, o: string)
    ensures Weight(words, window, w, o) > 0 <==>
      exists i, j :: Linked(|words|, window, i, j) && words[i] == w && words[j] == o
  {
    HitsPositive(words, window, w, o, |words|, |words|);
    if exists i, j :: Linked(|words|, window, i, j) && words[i] == w && words[j] == o {
      var i, j :| Linked(|words|, window, i, j) && words[i] == w && words[j] == o;
      assert Hit(words, window, w, o, i, j);
    }
  }

  /** A non-positive window, or fewer than two words, links nothing. */
  lemma NothingLinked(words: seq<string>, window: int, w: string, o: string)
    requires window <= 0 || |words| < 2
    ensures Weight(words, window, w, o) == 0
  {
    WeightPositive(words, window, w, o);
  }

  /** Neighbouring positions are linked by any window of at least 1. */
  lemma NeighboursLinked(words: seq<string>, window: int, i: int)
    requires 1 <= window && 2 <= |words| && 0 <= i < |words|
    ensures Weight(words, window, words[i], words[if i + 1 < |words| then i + 1 else i - 1]) > 0
  {
    WeightPositive(words, window, words[i], words[if i + 1 < |words| then i + 1 else i - 1]);
    assert Linked(|words|, window, i, if i + 1 < |words| then i + 1 else i - 1);
  }

  // The counting loop

  lemma {:induction false} RowHitsFlat(words: seq<string>, window: int, w: string, o: string, i: int, a: int, b: int)
    requires a <= b
    requires forall j :: a <= j < b ==> !Hit(words, window, w, o, i, j)
    ensures RowHits(words, window, w, o, i, a) == RowHits(words, window, w, o, i, b)
    decreases b - a
  {
    if a < b {
      RowHitsFlat(words, window, w, o, i, a, b - 1);
    }
  }

  /** After the scan of position `i` stops at `stop`, the row is complete. */
  lemma RowScanned(words: seq<string>, window: int, w: string, o: string, i: int, stop: int)
    requires stop >= i + window + 1 || window < 0
    ensures RowHits(words, window, w, o, i, stop) == RowHits(words, window, w, o, i, |words|)
  {
    if stop <= |words| {
      RowHitsFlat(words, window, w, o, i, stop, |words|);
    } else {
      RowHitsFlat(words, window, w, o, i, |words|, stop);
    }
  }

  /** Every key of the nested map, outer or inner, is one of `words`; an
      outer key is only created together with an entry; every entry is at
      least 1.0. */
  predicate Counted(weights: Weights, words: seq<string>) {
    && (forall w {:trigger weights[w]} :: w in weights ==> w in words && weights[w] != map[])
    && (forall w, o {:trigger weights[w][o]} :: w in weights && o in weights[w] ==> o in words && 1.0 <= weights[w][o])
  }

  /** The loop of `textrank`: every position `i` adds 1.0 to
      `weights[words[i]][words[j]]` for every other position `j` within
      `window` of it. */
  method Count(words: seq<string>, window: int) returns (weights: Weights)
    ensures forall w, o :: Get(weights, w, o) == Weight(words, window, w, o) as real
    ensures Counted(weights, words)
    ensures weights == Graph(words, window)
  {
    weights := map[];
    var i := 0;
    while i < |words|
      invariant 0 <= i <= |words|
      invariant forall w, o :: Get(weights, w, o) == Hits(words, window, w, o, i, |words|) as real
      invariant Counted(weights, words)
    {
      var word := words[i];
      var other := i - window;
      forall w, o ensures RowHits(words, window, w, o, i, other) == 0 {
        if other > 0 {
          RowHitsFlat(words, window, w, o, i, 0, other);
        }
      }
      while other < i + window + 1
        invariant i - window <= other
        invariant other <= i + window + 1 || other == i - window
        invariant forall w, o ::
          Get(weights, w, o) == (Hits(words, window, w, o, i, |words|) + RowHits(words, window, w, o, i, other)) as real
        invariant Counted(weights, words)
      {
        if 0 <= other < |words| && other != i {
          var otherWord := words[other];
          var inner: map<string, real> := map[];
          var current := 0.0;
          if word in weights {
            inner := weights[word];
            if otherWord in inner {
              current := inner[otherWord];
              assert 1.0 <= weights[word][otherWord];
            }
          }
          weights := weights[word := inner[otherWord := current + 1.0]];
          assert word in words && otherWord in weights[word];
        }
        other := other + 1;
      }
      forall w, o
        ensures RowHits(words, window, w, o, i, other) == RowHits(words, window, w, o, i, |words|)
      {
        RowScanned(words, window, w, o, i, other);
      }
      i := i + 1;
    }
    CountedIsGraph(words, window, weights);
  }

  // The graph as a value

  /** The words `w` co-occurs with, each with its weight. */
  function Neighbours(words: seq<string>, window: int, w: string): map<string, real> {
    map o | o in words && Weight(words, window, w, o) > 0 :: Weight(words, window, w, o) as real
  }

  /** The graph `textrank` builds, defined pair by pair: an entry `w -> o` exists,
      holding its weight, exactly when `w` and `o` co-occur; a word with no
      partner has no entry at all. */
  function Graph(words: seq<string>, window: int): Weights {
    map w | w in words && Neighbours(words, window, w) != map[] :: Neighbours(words, window, w)
  }

  /** Reading the graph as a defaultdict gives every pair's weight. */
  lemma GraphWeights(words: seq<string>, window: int, w: string, o: string)
    ensures Get(Graph(words, window), w, o) == Weight(words, window, w, o) as real
  {
    if Weight(words, window, w, o) > 0 {
      assert o in Neighbours(words, window, w);
    }
  }

  /** The counting loop's map is the graph: a map that agrees with `Weight`
      on every read and keeps no zero entry is `Graph`. */
  lemma CountedIsGraph(words: seq<string>, window: int, weights: Weights)
    requires forall w, o :: Get(weights, w, o) == Weight(words, window, w, o) as real
    requires Counted(weights, words)
    ensures weights == Graph(words, window)
  {
    var g := Graph(words, window);
    forall w | w in weights ensures w in g && weights[w] == g[w] {
      var o :| o in weights[w];
      assert Get(weights, w, o) >= 1.0;
      assert o in Neighbours(words, window, w);
      forall o' | o' in weights[w] ensures o' in g[w] && weights[w][o'] == g[w][o'] {
        assert Get(weights, w, o') >= 1.0;
      }
      forall o' | o' in g[w] ensures o' in weights[w] {
        assert Get(weights, w, o') > 0.0;
      }
    }
    forall w | w in g ensures w in weights {
      var o :| o in Neighbours(words, window, w);
      assert Get(weights, w, o) > 0.0;
    }
  }

  /** The counted weights are symmetric. */
  lemma CountSymmetric(words: seq<string>, window: int, weights: Weights, w: string, o: string)
    requires forall w, o :: Get(weights, w, o) == Weight(words, window, w, o) as real
    ensures Get(weights, w, o) == Get(weights, o, w)
  {
    WeightSymmetric(words, window, w, o);
  }
}
