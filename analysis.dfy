/** The bookkeeping of si601_project_analysis_leabbott.py around
    `bigram_counter`: the total count, the per-bigram probabilities, the
    name of the reference-corpus result file, the header parsing of that
    file and the selection of the probabilities of the queried phrases. */
module Analysis {
  import opened PyStrings
  import opened Bigrams

  // ---------------------------------------------------------------------
  // Totals and probabilities (lines 62-96)
  // ---------------------------------------------------------------------

  /** `n_pos_bgs` / `n_neg_bgs`: the accumulator loop of lines 63-70. */
  method TotalCount(entries: seq<Entry>) returns (total: nat)
    ensures total == SumCounts(entries)
  {
    total := 0;
    var i := 0;
    while i < |entries|
      invariant 0 <= i <= |entries|
      invariant total == SumCounts(entries[..i])
    {
      SumCountsAppend(entries[..i], [entries[i]]);
      assert entries[..i + 1] == entries[..i] + [entries[i]];
      total := total + entries[i].count;
      i := i + 1;
    }
    assert entries[..i] == entries;
  }

  /** `float(count) / total`, kept as the exact fraction. */
  datatype Ratio = Ratio(num: nat, den: nat)

  /** One `[bigram, count, probability]` row of `pos_bgs_cts_probs`. */
  datatype Row = Row(bigram: string, count: nat, prob: Ratio)

  /** Lines 75-96: each entry with its probability `count / total`. */
  method AttachProbabilities(entries: seq<Entry>, total: nat) returns (rows: seq<Row>)
    ensures |rows| == |entries|
    ensures forall i :: 0 <= i < |rows| ==>
      rows[i] == Row(entries[i].bigram, entries[i].count, Ratio(entries[i].count, total))
  {
    rows := [];
    var i := 0;
    while i < |entries|
      invariant 0 <= i <= |entries|
      invariant |rows| == i
      invariant forall k :: 0 <= k < i ==>
        rows[k] == Row(entries[k].bigram, entries[k].count, Ratio(entries[k].count, total))
    {
      rows := rows + [Row(entries[i].bigram, entries[i].count, Ratio(entries[i].count, total))];
      i := i + 1;
    }
  }

  function SumNumerators(rows: seq<Row>): nat
  {
    if rows == [] then 0 else rows[0].prob.num + SumNumerators(rows[1..])
  }

  /** The probabilities of a class add up to exactly one: all share the
      denominator `total`, and their numerators add up to it. */
  lemma {:induction false} ProbabilitiesSumToOne(entries: seq<Entry>, rows: seq<Row>, total: nat)
    requires total == SumCounts(entries) && |rows| == |entries|
    requires forall i :: 0 <= i < |rows| ==>
      rows[i] == Row(entries[i].bigram, entries[i].count, Ratio(entries[i].count, total))
    ensures SumNumerators(rows) == total
    ensures forall i :: 0 <= i < |rows| ==> rows[i].prob.den == total && rows[i].prob.num <= total
  {
    SumTails(entries, rows, total);
    forall i | 0 <= i < |rows| ensures rows[i].prob.num <= total {
      CountAtMostSum(entries, i);
    }
  }

  lemma {:induction false} SumTails(entries: seq<Entry>, rows: seq<Row>, total: nat)
    requires |rows| == |entries|
    requires forall i :: 0 <= i < |rows| ==>
      rows[i] == Row(entries[i].bigram, entries[i].count, Ratio(entries[i].count, total))
    ensures SumNumerators(rows) == SumCounts(entries)
  {
    if rows != [] {
      SumTails(entries[1..], rows[1..], total);
    }
  }

  lemma {:induction false} CountAtMostSum(entries: seq<Entry>, i: nat)
    requires i < |entries|
    ensures entries[i].count <= SumCounts(entries)
  {
    if i > 0 {
      CountAtMostSum(entries[1..], i - 1);
    }
  }

  /** No division by zero: a non-empty count has a positive total, and the
      empty one is never divided (the comprehension has no element). */
  lemma PositiveTotal(entries: seq<Entry>)
    requires PositiveCounts(entries) && entries != []
    ensures SumCounts(entries) > 0
  {
    SumCountsPositive(entries);
  }

  // ---------------------------------------------------------------------
  // The reference-corpus query and its result file (lines 110-151)
  // ---------------------------------------------------------------------

  /** The phrases sent to the reference corpus (lines 116-122). */
  const PosQueries: seq<string> := ["the best", "the food", "the bar", "i love", "my favorite",
                                    "the service", "the menu", "happy hour", "the staff",
                                    "great place"]

  const NegQueries: seq<string> := ["the food", "the bar", "the service", "no one", "the manager",
                                    "the waitress", "the bartender", "my husband", "it took",
                                    "the drinks"]

  /** `param_file_handle`. */
  const ParamSuffix: string := "-eng_us_2012-2007-2008-3-caseInsensitive.csv"

  /** `'_'.join(queries).replace(' ', '')`. */
  function QueryHandle(queries: seq<string>): (h: string)
    ensures ' ' !in h
  {
    RemoveAll(JoinWith("_", queries), ' ')
  }

  /** The handle is the queries with their spaces removed, joined by '_'. */
  lemma QueryHandlePieces(queries: seq<string>)
    ensures QueryHandle(queries) == JoinWith("_", RemoveAllEach(queries, ' '))
  {
    RemoveAllJoin("_", queries, ' ');
  }

  /** `pos_filename` / `neg_filename` (lines 130-135): a space-free name
      that ends with the parameter suffix. */
  function QueryFilename(queries: seq<string>): (f: string)
    ensures |f| >= |ParamSuffix| && f[|f| - |ParamSuffix|..] == ParamSuffix
    ensures f[..|f| - |ParamSuffix|] == QueryHandle(queries)
    ensures ' ' !in f
  {
    assert ' ' !in ParamSuffix;
    QueryHandle(queries) + ParamSuffix
  }

  /** `words.split(',')[1:]` (lines 147, 150): the header row without its
      first field. */
  function EngWords(header: string): (ws: seq<string>)
    ensures forall i :: 0 <= i < |ws| ==> ',' !in ws[i]
  {
    Split(header, ',')[1..]
  }

  /** A header made of a leading field and comma-free phrases gives back the
      phrases. */
  lemma EngWordsOfHeader(first: string, phrases: seq<string>)
    requires ',' !in first
    requires forall i :: 0 <= i < |phrases| ==> ',' !in phrases[i]
    ensures EngWords(JoinWith(",", [first] + phrases)) == phrases
  {
    var xs := [first] + phrases;
    assert xs[1..] == phrases;
    SplitJoin(xs, ',');
  }

  // ---------------------------------------------------------------------
  // Selecting the probabilities of the queried phrases (lines 153-165)
  // ---------------------------------------------------------------------

  /** What the doubly nested loop of lines 154-158 appends: for each row in
      rank order, its probability once per query word equal to its bigram. */
  function Selection(rows: seq<Row>, words: seq<string>): seq<Ratio>
  {
    if rows == [] then []
    else
      var last := rows[|rows| - 1];
      Selection(rows[..|rows| - 1], words) + Repeat(last.prob, multiset(words)[last.bigram])
  }

  /** `pos_rev_probs` (lines 154-158). */
  method SelectProbabilities(rows: seq<Row>, words: seq<string>) returns (probs: seq<Ratio>)
    ensures probs == Selection(rows, words)
  {
    probs := [];
    var i := 0;
    while i < |rows|
      invariant 0 <= i <= |rows|
      invariant probs == Selection(rows[..i], words)
    {
      var j := 0;
      while j < |words|
        invariant 0 <= j <= |words|
        invariant probs == Selection(rows[..i], words) + Repeat(rows[i].prob, multiset(words[..j])[rows[i].bigram])
      {
        assert words[..j + 1] == words[..j] + [words[j]];
        if words[j] == rows[i].bigram {
          probs := probs + [rows[i].prob];
        }
        j := j + 1;
      }
      assert words[..j] == words;
      assert rows[..i + 1][..i] == rows[..i];
      i := i + 1;
    }
    assert rows[..i] == rows;
  }

  /** Some row whose bigram was queried carries probability `p`. */
  predicate Queried(rows: seq<Row>, words: seq<string>, p: Ratio)
  {
    exists i :: 0 <= i < |rows| && IsQueriedAt(rows, words, p, i)
  }

  predicate IsQueriedAt(rows: seq<Row>, words: seq<string>, p: Ratio, i: int)
    requires 0 <= i < |rows|
  {
    rows[i].prob == p && rows[i].bigram in words
  }

  lemma QueriedSnoc(rows: seq<Row>, words: seq<string>, p: Ratio)
    requires rows != []
    ensures Queried(rows, words, p) <==>
      Queried(rows[..|rows| - 1], words, p) || IsQueriedAt(rows, words, p, |rows| - 1)
  {
    var init := rows[..|rows| - 1];
    if Queried(rows, words, p) {
      var i :| 0 <= i < |rows| && IsQueriedAt(rows, words, p, i);
      if i < |init| {
        assert IsQueriedAt(init, words, p, i);
      }
    }
    if Queried(init, words, p) {
      var i :| 0 <= i < |init| && IsQueriedAt(init, words, p, i);
      assert IsQueriedAt(rows, words, p, i);
    }
  }

  /** Every selected probability belongs to a row whose bigram was queried,
      and every such row contributes. */
  lemma {:induction false} SelectionMembers(rows: seq<Row>, words: seq<string>, p: Ratio)
    ensures p in Selection(rows, words) <==> Queried(rows, words, p)
  {
    if rows != [] {
      var init, last := rows[..|rows| - 1], rows[|rows| - 1];
      SelectionMembers(init, words, p);
      QueriedSnoc(rows, words, p);
      var rep := Repeat(last.prob, multiset(words)[last.bigram]);
      assert p in rep <==> (p == last.prob && last.bigram in words) by {
        if p == last.prob && last.bigram in words {
          assert rep[0] == p;
        }
      }
    }
  }

  predicate Distinct(words: seq<string>)
  {
    forall i, j :: 0 <= i < j < |words| ==> words[i] != words[j]
  }

  /** The probabilities of the rows whose bigram is among `words`, in the
      order of the rows. */
  function MatchedProbs(rows: seq<Row>, words: seq<string>): seq<Ratio>
  {
    if rows == [] then []
    else
      var last := rows[|rows| - 1];
      MatchedProbs(rows[..|rows| - 1], words) + (if last.bigram in words then [last.prob] else [])
  }

  lemma {:induction false} DistinctMultiplicity(words: seq<string>, w: string)
    requires Distinct(words)
    ensures multiset(words)[w] == if w in words then 1 else 0
  {
    if words != [] {
      var init := words[..|words| - 1];
      assert words == init + [words[|words| - 1]];
      assert Distinct(init);
      DistinctMultiplicity(init, w);
    }
  }

  /** With distinct query words, the selection holds one probability per
      matching row, in bigram-rank order and not in query order. */
  lemma {:induction false} SelectionRankOrder(rows: seq<Row>, words: seq<string>)
    requires Distinct(words)
    ensures Selection(rows, words) == MatchedProbs(rows, words)
  {
    if rows != [] {
      var last := rows[|rows| - 1];
      SelectionRankOrder(rows[..|rows| - 1], words);
      DistinctMultiplicity(words, last.bigram);
    }
  }

  /** The built-in query lists hold no repeated phrase and no comma. */
  lemma QueriesWellFormed()
    ensures Distinct(PosQueries) && Distinct(NegQueries)
    ensures forall i :: 0 <= i < |PosQueries| ==> ',' !in PosQueries[i]
    ensures forall i :: 0 <= i < |NegQueries| ==> ',' !in NegQueries[i]
  {
  }

  /** If the reference corpus answers the built-in positive queries with a
      header listing them, the positive selection is the probabilities of
      the queried bigrams in rank order, each once. */
  lemma PosQueriesSelection(rows: seq<Row>, first: string)
    requires ',' !in first
    ensures Selection(rows, EngWords(JoinWith(",", [first] + PosQueries))) == MatchedProbs(rows, PosQueries)
  {
    QueriesWellFormed();
    EngWordsOfHeader(first, PosQueries);
    SelectionRankOrder(rows, PosQueries);
  }

  lemma RankNotQueryOrder()
    ensures Selection([Row("the bar", 2, Ratio(2, 3)), Row("the best", 1, Ratio(1, 3))],
                      ["the best", "the bar"]) == [Ratio(2, 3), Ratio(1, 3)]
  {
    var rows := [Row("the bar", 2, Ratio(2, 3)), Row("the best", 1, Ratio(1, 3))];
    var words := ["the best", "the bar"];
    assert rows[..1] == [rows[0]];
    assert multiset(words)["the bar"] == 1;
    assert multiset(words)["the best"] == 1;
  }

  /** Lines 161-165 as written: the loop runs over the negative rows and
      appends negative probabilities, but compares the query words with the
      bigram of the POSITIVE row at the same rank. */
  function CrossSelection(negRows: seq<Row>, posRows: seq<Row>, words: seq<string>): seq<Ratio>
    requires |negRows| <= |posRows|
  {
    if negRows == [] then []
    else
      var n := |negRows| - 1;
      CrossSelection(negRows[..n], posRows, words) + Repeat(negRows[n].prob, multiset(words)[posRows[n].bigram])
  }

  /** The outcome of lines 161-165: `IndexError` raised by
      `pos_bgs_cts_probs[i]` once `i` passes the positive list. */
  datatype Outcome = Picked(probs: seq<Ratio>) | IndexError

  function NegativeSelection(negRows: seq<Row>, posRows: seq<Row>, words: seq<string>): Outcome
  {
    if words == [] then Picked([])
    else if |negRows| > |posRows| then IndexError
    else Picked(CrossSelection(negRows, posRows, words))
  }

  /** `neg_rev_probs` (lines 161-165), including the `IndexError`, which
      happens exactly when the negative list is longer than the positive
      one and there is at least one query word. */
  method SelectNegative(negRows: seq<Row>, posRows: seq<Row>, words: seq<string>) returns (o: Outcome)
    ensures o == NegativeSelection(negRows, posRows, words)
    ensures o == IndexError <==> words != [] && |negRows| > |posRows|
  {
    var probs := [];
    var i := 0;
    while i < |negRows|
      invariant 0 <= i <= |negRows|
      invariant words == [] ==> probs == []
      invariant words != [] ==> i <= |posRows| && probs == CrossSelection(negRows[..i], posRows, words)
    {
      var j := 0;
      while j < |words|
        invariant 0 <= j <= |words|
        invariant j > 0 ==> i < |posRows|
        invariant words == [] ==> probs == []
        invariant words != [] && i < |posRows| ==>
          probs == CrossSelection(negRows[..i], posRows, words)
                   + Repeat(negRows[i].prob, multiset(words[..j])[posRows[i].bigram])
      {
        if i >= |posRows| {
          return IndexError;
        }
        assert words[..j + 1] == words[..j] + [words[j]];
        if words[j] == posRows[i].bigram {
          probs := probs + [negRows[i].prob];
        }
        j := j + 1;
      }
      if words != [] {
        assert words[..j] == words;
        assert negRows[..i + 1][..i] == negRows[..i];
      }
      i := i + 1;
    }
    if words != [] {
      assert negRows[..i] == negRows;
    }
    o := Picked(probs);
  }

  /** The as-written negative selection agrees with the intended one (the
      selection of lines 154-158 applied to the negative rows) only when the
      two rankings carry the same bigram at every negative rank. */
  lemma {:induction false} CrossSelectionAligned(negRows: seq<Row>, posRows: seq<Row>, words: seq<string>)
    requires |negRows| <= |posRows|
    requires forall i :: 0 <= i < |negRows| ==> negRows[i].bigram == posRows[i].bigram
    ensures CrossSelection(negRows, posRows, words) == Selection(negRows, words)
  {
    if negRows != [] {
      CrossSelectionAligned(negRows[..|negRows| - 1], posRows, words);
    }
  }

  /** A negative probability picked for a phrase that never occurs in the
      negative reviews: "the bar" ranks first among positive bigrams,
      "the food" first among negative ones. */
  lemma NegativeMismatch()
    ensures NegativeSelection([Row("the food", 1, Ratio(1, 1))], [Row("the bar", 1, Ratio(1, 1))], ["the bar"])
            == Picked([Ratio(1, 1)])
    ensures Selection([Row("the food", 1, Ratio(1, 1))], ["the bar"]) == []
  {
    assert multiset(["the bar"])["the bar"] == 1;
    assert multiset(["the bar"])["the food"] == 0;
  }

  /** With the built-in negative queries as the header, the negative loops
      fail exactly when the negative ranking is the longer one. */
  lemma NegQueriesOverrun(negRows: seq<Row>, posRows: seq<Row>, first: string)
    requires ',' !in first
    ensures NegativeSelection(negRows, posRows, EngWords(JoinWith(",", [first] + NegQueries))) == IndexError
            <==> |negRows| > |posRows|
  {
    QueriesWellFormed();
    EngWordsOfHeader(first, NegQueries);
  }

  /** A negative list longer than the positive one ends in IndexError,
      where the intended selection is defined. */
  lemma NegativeOverrun()
    ensures NegativeSelection([Row("the food", 1, Ratio(1, 1))], [], ["the food"]) == IndexError
    ensures Selection([Row("the food", 1, Ratio(1, 1))], ["the food"]) == [Ratio(1, 1)]
  {
    assert multiset(["the food"])["the food"] == 1;
  }
}
