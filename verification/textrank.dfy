/** TextRank: keyword ranking of a tokenised, tagged document. Tokenisation
    and part-of-speech tagging are inputs; the model starts from one token
    list and its tag list. */
module TextRank {
  import opened Results
  import opened Vectors
  import opened Frames
  import opened PageRank
  import opened Cooccurrence

  // NLP utilities

  /** The nine tokens treated as punctuation. */
  const PunctuationMarks: seq<string> := [".", "?", "!", ",", "\"", ":", ";", "'", "-"]

  predicate IsPunctuation(word: string)
    ensures IsPunctuation(word) ==> |word| == 1
  {
    word in PunctuationMarks
  }

  /** A token is punctuation exactly when it is one of nine single characters. */
  lemma PunctuationIsOneMark(word: string)
    ensures IsPunctuation(word) <==>
      |word| == 1 && word[0] in {'.', '?', '!', ',', '"', ':', ';', '\'', '-'}
  {
    if |word| == 1 && word[0] in {'.', '?', '!', ',', '"', ':', ';', '\'', '-'} {
      assert word == [word[0]];
    }
  }

  predicate IsAscii(c: char) {
    (c as int) < 128
  }

  /** Drops every character whose code point is 128 or above. */
  function AsciiOnly(s: string): (r: string)
    ensures |r| <= |s|
    ensures forall i :: 0 <= i < |r| ==> IsAscii(r[i])
    ensures forall c :: c in r <==> c in s && IsAscii(c)
  {
    if |s| == 0 then ""
    else (if IsAscii(s[0]) then [s[0]] else "") + AsciiOnly(s[1..])
  }

  /** Filtering distributes over concatenation, so characters keep their order. */
  lemma {:induction false} AsciiOnlyAppend(a: string, b: string)
    ensures AsciiOnly(a + b) == AsciiOnly(a) + AsciiOnly(b)
  {
    if |a| == 0 {
      assert a + b == b;
    } else {
      assert (a + b)[0] == a[0];
      assert (a + b)[1..] == a[1..] + b;
      AsciiOnlyAppend(a[1..], b);
    }
  }

  /** A string is left unchanged exactly when it is all ASCII. */
  lemma {:induction false} AsciiOnlyUnchanged(s: string)
    ensures AsciiOnly(s) == s <==> forall i :: 0 <= i < |s| ==> IsAscii(s[i])
  {
    if |s| > 0 {
      AsciiOnlyUnchanged(s[1..]);
      if !IsAscii(s[0]) {
        assert s[0] !in AsciiOnly(s);
      }
    }
  }

  lemma AsciiOnlyIdempotent(s: string)
    ensures AsciiOnly(AsciiOnly(s)) == AsciiOnly(s)
  {
    AsciiOnlyUnchanged(AsciiOnly(s));
  }

  /** `str.lower` on the ASCII letters. */
  function LowerChar(c: char): (r: char)
    ensures 'A' <= c <= 'Z' ==> 'a' <= r <= 'z' && r as int - c as int == 32
    ensures !('A' <= c <= 'Z') ==> r == c
  {
    if 'A' <= c <= 'Z' then (c as int + 32) as char else c
  }

  function Lower(word: string): (r: string)
    ensures |r| == |word|
    ensures forall i :: 0 <= i < |r| ==> r[i] == LowerChar(word[i])
  {
    seq(|word|, i requires 0 <= i < |word| => LowerChar(word[i]))
  }

  lemma LowerIdempotent(word: string)
    ensures Lower(Lower(word)) == Lower(word)
  {
  }

  // Preprocessing

  /** The tags used when the caller passes none. */
  const DefaultPosTags: seq<string> := ["NN", "ADJ"]

  function RelevantTags(given: Option<seq<string>>): (tags: seq<string>)
    ensures given.None? ==> tags == DefaultPosTags
    ensures given.Some? ==> tags == given.value
  {
    given.GetOr(DefaultPosTags)
  }

  /** A token survives when its lower-cased form is not punctuation and its tag is relevant. */
  predicate Keeps(word: string, tag: string, relevant: seq<string>) {
    !IsPunctuation(Lower(word)) && tag in relevant
  }

  /** The lower-cased surviving tokens, in order. */
  function Kept(words: seq<string>, tags: seq<string>, relevant: seq<string>): (kept: seq<string>)
    requires |tags| == |words|
    ensures |kept| <= |words|
    ensures forall x :: x in kept ==> !IsPunctuation(x)
  {
    if |words| == 0 then []
    else
      var n := |words| - 1;
      Kept(words[..n], tags[..n], relevant) + (if Keeps(words[n], tags[n], relevant) then [Lower(words[n])] else [])
  }

  /** A word is kept exactly when some position holding it survives the filter. */
  lemma {:induction false} KeptMembers(words: seq<string>, tags: seq<string>, relevant: seq<string>, x: string)
    requires |tags| == |words|
    ensures x in Kept(words, tags, relevant) <==>
      exists i :: 0 <= i < |words| && Keeps(words[i], tags[i], relevant) && x == Lower(words[i])
  {
    if |words| > 0 {
      var n := |words| - 1;
      KeptMembers(words[..n], tags[..n], relevant, x);
      if exists i :: 0 <= i < |words| && Keeps(words[i], tags[i], relevant) && x == Lower(words[i]) {
        var i :| 0 <= i < |words| && Keeps(words[i], tags[i], relevant) && x == Lower(words[i]);
        if i < n {
          assert words[..n][i] == words[i] && tags[..n][i] == tags[i];
        }
      }
    }
  }

  /** Widening the relevant tags never shortens the filtered list. */
  lemma {:induction false} KeptMonotone(words: seq<string>, tags: seq<string>, fewer: seq<string>, more: seq<string>)
    requires |tags| == |words|
    requires forall t :: t in fewer ==> t in more
    ensures |Kept(words, tags, fewer)| <= |Kept(words, tags, more)|
  {
    if |words| > 0 {
      KeptMonotone(words[..|words| - 1], tags[..|words| - 1], fewer, more);
    }
  }

  /** The filtering loop of `__preprocess_document`. */
  method PreprocessDocument(words: seq<string>, tags: seq<string>, relevant: seq<string>)
    returns (filtered: seq<string>)
    requires |tags| == |words|
    ensures filtered == Kept(words, tags, relevant)
    ensures |filtered| <= |words|
    ensures forall x :: x in filtered ==> !IsPunctuation(x)
  {
    filtered := [];
    var index := 0;
    while index < |words|
      invariant 0 <= index <= |words|
      invariant filtered == Kept(words[..index], tags[..index], relevant)
    {
      var wordLower := Lower(words[index]);
      var tag := tags[index];
      if !IsPunctuation(wordLower) && tag in relevant {
        filtered := filtered + [wordLower];
      }
      index := index + 1;
      assert words[..index][..index - 1] == words[..index - 1];
      assert tags[..index][..index - 1] == tags[..index - 1];
    }
    assert words[..index] == words && tags[..index] == tags;
  }

  // The graph and its ranking

  /** The co-occurrence graph has an entry exactly when the window is at
      least 1 and there are two words. */
  lemma GraphNonEmpty(words: seq<string>, window: int)
    ensures Graph(words, window) != map[] <==> 1 <= window && 2 <= |words|
  {
    var g := Graph(words, window);
    if g != map[] {
      var w :| w in g;
      var o :| o in g[w];
      assert Weight(words, window, w, o) > 0;
      WeightPositive(words, window, w, o);
    }
    if 1 <= window && 2 <= |words| {
      WordInGraph(words, window, 0);
    }
  }

  /** Once anything co-occurs, every word has an entry. */
  lemma WordInGraph(words: seq<string>, window: int, i: int)
    requires 1 <= window && 2 <= |words| && 0 <= i < |words|
    ensures words[i] in Graph(words, window)
  {
    var j := if i + 1 < |words| then i + 1 else i - 1;
    NeighboursLinked(words, window, i);
    assert words[j] in Neighbours(words, window, words[i]);
  }

  /** With a window of at least 1 and two or more words, a string is a node
      of the co-occurrence graph exactly when it is one of the words. */
  lemma GraphNode(words: seq<string>, window: int, x: string)
    requires 1 <= window && 2 <= |words|
    ensures x in Nodes(FromDict(Graph(words, window))) <==> x in words
  {
    var g := Graph(words, window);
    var f := FromDict(g);
    if x in words {
      var i :| 0 <= i < |words| && words[i] == x;
      WordInGraph(words, window, i);
    }
    if x in f.rowLabels {
      var c :| c in g && x in g[c];
      assert x in Neighbours(words, window, c);
    }
  }

  /** The node set of the graph: empty for an empty graph, and exactly the
      filtered words once the graph has an edge. */
  lemma GraphNodes(words: seq<string>, window: int)
    ensures Graph(words, window) == map[] ==> Nodes(FromDict(Graph(words, window))) == {}
    ensures 1 <= window && 2 <= |words| ==>
      forall x :: x in Nodes(FromDict(Graph(words, window))) <==> x in words
  {
    var g := Graph(words, window);
    var f := FromDict(g);
    if g == map[] {
      assert f.colLabels == {};
      assert f.rowLabels == {};
    }
    if 1 <= window && 2 <= |words| {
      forall x ensures x in Nodes(f) <==> x in words {
        GraphNode(words, window, x);
      }
    }
  }

  /** Co-occurrence counts are never negative. */
  lemma GraphNonNegative(words: seq<string>, window: int)
    ensures NonNegativeWeights(FromDict(Graph(words, window)))
  {
  }

  /** The scores are the walk over `g`'s nodes in the order `ranking.nodes`
      lists them, each node once, from the uniform start, run for exactly as many steps as
      `power_iteration` takes with its default `epsilon` and step cap. */
  predicate WalkedOver(g: Weights, rsp: real, ranking: Ranking<string>) {
    var n := |ranking.nodes|;
    n > 0 && Distinct(ranking.nodes) &&
      var p := Transition(FromDict(g), ranking.nodes, rsp);
      var start := Constant(n, Share(n));
      && ranking.scores == Power(p, start, ranking.steps)
      && StoppedAt(p, start, DefaultEpsilon, DefaultMaxIterations, ranking.steps, ranking.converged)
  }

  /** `textrank` on an already tokenised and tagged document, as written:
      with no co-occurring pair the graph is empty, and ranking it raises. */
  method Rank(words: seq<string>, tags: seq<string>, windowSize: int, rsp: real,
              relevantPosTags: Option<seq<string>>)
    returns (r: Result<Ranking<string>, Error>)
    requires |tags| == |words|
    ensures r.Success? ==>
      WalkedOver(Graph(Kept(words, tags, RelevantTags(relevantPosTags)), windowSize), rsp, r.value)
    ensures var kept := Kept(words, tags, RelevantTags(relevantPosTags));
      r.Failure? <==> windowSize <= 0 || |kept| < 2
    ensures r.Failure? ==> r.error == ValueError(NoNodesMessage)
    ensures words == [] ==> r == Failure(ValueError(NoNodesMessage))
    ensures r.Success? ==> forall x :: x in r.value.nodes <==> x in Kept(words, tags, RelevantTags(relevantPosTags))
    ensures r.Success? ==> Sum(r.value.scores) == 1.0
    ensures r.Success? && 0.0 <= rsp <= 1.0 ==> IsDistribution(r.value.scores)
  {
    var relevant := RelevantTags(relevantPosTags);
    var filtered := PreprocessDocument(words, tags, relevant);
    var weights := Count(filtered, windowSize);
    GraphNonEmpty(filtered, windowSize);
    GraphNodes(filtered, windowSize);
    GraphNonNegative(filtered, windowSize);
    if 1 <= windowSize && 2 <= |filtered| {
      assert filtered[0] in Nodes(FromDict(weights));
    }
    r := PowerIteration(FromDict(weights), rsp, DefaultEpsilon, DefaultMaxIterations);
  }

  /** `textrank` with the empty-document case answered by an empty ranking
      instead of an error. */
  method RankOrEmpty(words: seq<string>, tags: seq<string>, windowSize: int, rsp: real,
                     relevantPosTags: Option<seq<string>>)
    returns (r: Result<Ranking<string>, Error>)
    requires |tags| == |words|
    ensures r.Success?
    ensures var kept := Kept(words, tags, RelevantTags(relevantPosTags));
      r.value.nodes == [] <==> windowSize <= 0 || |kept| < 2
    ensures r.value.nodes == [] ==> r.value == Ranking([], [], 0, false)
    ensures forall x :: x in r.value.nodes <==> (x in Kept(words, tags, RelevantTags(relevantPosTags))
      && r.value.nodes != [])
    ensures r.value.nodes != [] ==>
      WalkedOver(Graph(Kept(words, tags, RelevantTags(relevantPosTags)), windowSize), rsp, r.value)
    ensures r.value.nodes != [] ==> Sum(r.value.scores) == 1.0
    ensures r.value.nodes != [] && 0.0 <= rsp <= 1.0 ==> IsDistribution(r.value.scores)
  {
    var relevant := RelevantTags(relevantPosTags);
    var filtered := PreprocessDocument(words, tags, relevant);
    var weights := Count(filtered, windowSize);
    GraphNonEmpty(filtered, windowSize);
    GraphNodes(filtered, windowSize);
    GraphNonNegative(filtered, windowSize);
    if weights == map[] {
      return Success(Ranking([], [], 0, false));
    }
    assert filtered[0] in Nodes(FromDict(weights));
    r := PowerIteration(FromDict(weights), rsp, DefaultEpsilon, DefaultMaxIterations);
  }
}
