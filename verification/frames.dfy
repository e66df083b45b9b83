/** The labelled weight table the solver starts from (a pandas `DataFrame`),
    the two input shapes it is built from, node extraction and squaring. */
module Frames {
  import opened Vectors
  import opened Matrices

  /** A sparse labelled table: row labels, column labels and the cells that
      carry a value, keyed `(row, column)`. A missing cell is pandas' NaN. */
  datatype Frame<K> = Frame(rowLabels: set<K>, colLabels: set<K>, cells: map<(K, K), real>)

  /** Every cell sits at a row label and a column label. */
  predicate Valid<K>(f: Frame<K>) {
    forall p :: p in f.cells ==> p.0 in f.rowLabels && p.1 in f.colLabels
  }

  predicate NonNegativeWeights<K>(f: Frame<K>) {
    forall p :: p in f.cells ==> 0.0 <= f.cells[p]
  }

  /** The keys of all inner mappings of a nested dict. */
  function InnerKeys<K>(g: map<K, map<K, real>>): set<K> {
    set c, r | c in g && r in g[c] :: r
  }

  /** `DataFrame(dict_of_dicts)`: the outer keys become the COLUMNS and the
      inner keys the ROWS, so `g[c][r]` lands in row `r`, column `c`. */
  function FromDict<K(!new)>(g: map<K, map<K, real>>): (f: Frame<K>)
    ensures Valid(f)
    ensures f.colLabels == g.Keys
    ensures forall r :: r in f.rowLabels <==> exists c :: c in g && r in g[c]
    ensures forall r, c :: (r, c) in f.cells <==> c in g && r in g[c]
    ensures forall r, c :: c in g && r in g[c] ==> f.cells[(r, c)] == g[c][r]
  {
    Frame(InnerKeys(g), g.Keys, map c, r | c in g && r in g[c] :: (r, c) := g[c][r])
  }

  /** `DataFrame(list_of_lists)`: row `i` is the `i`-th inner list; a ragged
      list leaves the cells past its end missing. */
  function FromRows(rows: seq<seq<real>>): (f: Frame<int>)
    ensures Valid(f)
    ensures forall i :: i in f.rowLabels <==> 0 <= i < |rows|
    ensures forall j :: j in f.colLabels <==> exists i :: 0 <= i < |rows| && 0 <= j < |rows[i]|
    ensures forall i, j :: (i, j) in f.cells <==> 0 <= i < |rows| && 0 <= j < |rows[i]|
    ensures forall i, j :: 0 <= i < |rows| && 0 <= j < |rows[i]| ==> f.cells[(i, j)] == rows[i][j]
  {
    Frame(Range(|rows|),
          Range(LongestRow(rows)),
          map i, j | 0 <= i < |rows| && 0 <= j < |rows[i]| :: (i, j) := rows[i][j])
  }

  /** The positions `0 .. n-1`, a pandas `RangeIndex`. */
  function Range(n: nat): (r: set<int>)
    ensures forall i :: i in r <==> 0 <= i < n
  {
    if n == 0 then {} else Range(n - 1) + {n - 1}
  }

  /** The length of the longest inner list: pandas' column count for list input. */
  function LongestRow(rows: seq<seq<real>>): (r: nat)
    ensures forall i :: 0 <= i < |rows| ==> |rows[i]| <= r
    ensures r == 0 || exists i :: 0 <= i < |rows| && |rows[i]| == r
  {
    if |rows| == 0 then 0
    else
      var rest := LongestRow(rows[1..]);
      assert forall i :: 1 <= i < |rows| ==> rows[1..][i - 1] == rows[i];
      if |rows[0]| >= rest then |rows[0]| else rest
  }

  /** The node set: every column label and every row label. */
  function Nodes<K>(f: Frame<K>): (nodes: set<K>)
    ensures Valid(f) ==> forall p :: p in f.cells ==> p.0 in nodes && p.1 in nodes
  {
    f.colLabels + f.rowLabels
  }

  /** The nodes of a dict graph are exactly its outer keys and its inner keys. */
  lemma NodesOfDict<K(!new)>(g: map<K, map<K, real>>)
    ensures forall k :: k in Nodes(FromDict(g)) <==> k in g || exists c :: c in g && k in g[c]
  {
  }

  /** The nodes of a list graph are the row positions and the column positions. */
  lemma NodesOfRows(rows: seq<seq<real>>)
    ensures forall k :: k in Nodes(FromRows(rows)) <==>
      (0 <= k < |rows| || exists i :: 0 <= i < |rows| && 0 <= k < |rows[i]|)
  {
  }

  predicate Distinct<K(==)>(s: seq<K>) {
    forall i, j :: 0 <= i < j < |s| ==> s[i] != s[j]
  }

  /** `index` lists every member of `s` exactly once. */
  predicate Enumerates<K(!new)>(index: seq<K>, s: set<K>) {
    && Distinct(index)
    && (forall k :: k in s ==> k in index)
    && (forall k :: k in index ==> k in s)
  }

  /** Fixes an order on a node set (the order a Python set iterates in). */
  method Enumerate<K(!new)>(s: set<K>) returns (index: seq<K>)
    ensures Enumerates(index, s)
    ensures |index| == |s|
  {
    var rest := s;
    index := [];
    while rest != {}
      invariant forall k :: k in s <==> k in index || k in rest
      invariant forall k :: k in rest ==> k !in index
      invariant Distinct(index)
      invariant |index| + |rest| == |s|
      decreases rest
    {
      var k :| k in rest;
      index := index + [k];
      rest := rest - {k};
    }
  }

  /** The value pandas reads at `(r, c)` after `fillna(0.0)`. */
  function Cell<K>(f: Frame<K>, r: K, c: K): real {
    if (r, c) in f.cells then f.cells[(r, c)] else 0.0
  }

  /** The dense square table over `index` on both axes, absent cells filled with 0.0. */
  function Square<K>(f: Frame<K>, index: seq<K>): (w: Matrix)
    ensures IsSquare(w, |index|)
    ensures forall i, j :: 0 <= i < |index| && 0 <= j < |index| ==>
      (w[i][j] == if (index[i], index[j]) in f.cells then f.cells[(index[i], index[j])] else 0.0)
  {
    seq(|index|, i requires 0 <= i < |index| =>
      seq(|index|, j requires 0 <= j < |index| => Cell(f, index[i], index[j])))
  }

  /** Squaring over the node set keeps every given weight, at its own row and column. */
  lemma SquareKeepsWeights<K(!new)>(f: Frame<K>, index: seq<K>, r: K, c: K)
    requires Valid(f) && Enumerates(index, Nodes(f))
    requires (r, c) in f.cells
    ensures exists i, j ::
      && 0 <= i < |index| && 0 <= j < |index|
      && index[i] == r && index[j] == c
      && Square(f, index)[i][j] == f.cells[(r, c)]
  {
    var i :| 0 <= i < |index| && index[i] == r;
    var j :| 0 <= j < |index| && index[j] == c;
    assert Square(f, index)[i][j] == f.cells[(r, c)];
  }

  /** Squaring a dict graph: row `i` is the inner key, column `j` the outer key. */
  lemma SquareOfDict<K(!new)>(g: map<K, map<K, real>>, index: seq<K>)
    ensures forall i, j :: 0 <= i < |index| && 0 <= j < |index| ==>
      Square(FromDict(g), index)[i][j]
        == (if index[j] in g && index[i] in g[index[j]] then g[index[j]][index[i]] else 0.0)
  {
  }

  lemma SquareNonNegative<K>(f: Frame<K>, index: seq<K>)
    requires NonNegativeWeights(f)
    ensures AllNonNegative(Square(f, index))
  {
  }
}
