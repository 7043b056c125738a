/** data_preprocess.py on in-memory records: keep the businesses listed
    under 'Bars', join the reviews to them on business id, split the joined
    reviews into 5-star and at-most-2-star classes with their newlines
    escaped, and write each class one review per line. */
module Preprocess {
  import opened PyStrings

  /** A line of the business dataset, after `json.loads`. */
  datatype Business = Business(businessId: string, categories: seq<string>, stars: real)

  /** A line of the review dataset, after `json.loads`. */
  datatype Review = Review(businessId: string, stars: real, text: string)

  /** A row of the `business` table: `(bar_id, avg_star_rating)`. */
  datatype BarRow = BarRow(id: string, starRating: real)

  /** A row of the `reviews` table: `(biz_id, stars, review)`. */
  datatype ReviewRow = ReviewRow(id: string, stars: real, review: string)

  /** A row of the join's result: `(r.stars, r.review)`. */
  datatype JoinedRow = JoinedRow(stars: real, review: string)

  // ---------------------------------------------------------------------
  // The generators (lines 10-42)
  // ---------------------------------------------------------------------

  predicate IsBar(b: Business)
  {
    "Bars" in b.categories
  }

  /** What `bar_business_generator` yields, in input order. */
  function Bars(records: seq<Business>): (bars: seq<BarRow>)
    ensures |bars| <= |records|
  {
    if records == [] then []
    else
      var last := records[|records| - 1];
      Bars(records[..|records| - 1]) + (if IsBar(last) then [BarRow(last.businessId, last.stars)] else [])
  }

  /** `bar_business_generator` (lines 10-24), one record per loop turn. */
  method BarBusinessGenerator(records: seq<Business>) returns (bars: seq<BarRow>)
    ensures bars == Bars(records)
  {
    bars := [];
    var i := 0;
    while i < |records|
      invariant 0 <= i <= |records|
      invariant bars == Bars(records[..i])
    {
      var line := records[i];
      assert records[..i + 1][..i] == records[..i];
      if "Bars" in line.categories {
        bars := bars + [BarRow(line.businessId, line.stars)];
      }
      i := i + 1;
    }
    assert records[..i] == records;
  }

  /** The filter keeps exactly the records listed under 'Bars'. */
  lemma {:induction false} BarsMember(records: seq<Business>, row: BarRow)
    ensures row in Bars(records) <==>
      exists i :: 0 <= i < |records| && IsBarRowOf(records, i, row)
  {
    if records != [] {
      var init := records[..|records| - 1];
      var last := records[|records| - 1];
      var tail := if IsBar(last) then [BarRow(last.businessId, last.stars)] else [];
      assert Bars(records) == Bars(init) + tail;
      BarsMember(init, row);
      if exists i :: 0 <= i < |records| && IsBarRowOf(records, i, row) {
        var i :| 0 <= i < |records| && IsBarRowOf(records, i, row);
        if i < |init| {
          assert IsBarRowOf(init, i, row);
        } else {
          assert row in tail;
        }
      }
      if row in Bars(records) {
        if row in tail {
          assert IsBarRowOf(records, |init|, row);
        } else {
          var i :| 0 <= i < |init| && IsBarRowOf(init, i, row);
          assert IsBarRowOf(records, i, row);
        }
      }
    }
  }

  predicate IsBarRowOf(records: seq<Business>, i: int, row: BarRow)
    requires 0 <= i < |records|
  {
    IsBar(records[i]) && row == BarRow(records[i].businessId, records[i].stars)
  }

  /** The filter keeps input order: filtering a concatenation concatenates
      the filtered parts. */
  lemma {:induction false} BarsAppend(xs: seq<Business>, ys: seq<Business>)
    ensures Bars(xs + ys) == Bars(xs) + Bars(ys)
    decreases |ys|
  {
    if ys == [] {
      assert xs + ys == xs;
    } else {
      var zs := xs + ys;
      var ys' := ys[..|ys| - 1];
      assert zs[..|zs| - 1] == xs + ys';
      assert zs[|zs| - 1] == ys[|ys| - 1];
      BarsAppend(xs, ys');
    }
  }

  /** What `review_generator` yields: every record, in order. */
  function ReviewRows(records: seq<Review>): (rows: seq<ReviewRow>)
  {
    seq(|records|, i requires 0 <= i < |records| => ReviewRow(records[i].businessId, records[i].stars, records[i].text))
  }

  /** `review_generator` (lines 27-42): no record is dropped or reordered. */
  method ReviewGenerator(records: seq<Review>) returns (rows: seq<ReviewRow>)
    ensures |rows| == |records|
    ensures forall i :: 0 <= i < |records| ==>
      rows[i] == ReviewRow(records[i].businessId, records[i].stars, records[i].text)
  {
    rows := [];
    var i := 0;
    while i < |records|
      invariant 0 <= i <= |records|
      invariant |rows| == i
      invariant forall k :: 0 <= k < i ==>
        rows[k] == ReviewRow(records[k].businessId, records[k].stars, records[k].text)
    {
      var line := records[i];
      rows := rows + [ReviewRow(line.businessId, line.stars, line.text)];
      i := i + 1;
    }
  }

  // ---------------------------------------------------------------------
  // The join (lines 74-76)
  // ---------------------------------------------------------------------

  /** Number of business rows with id `id`. */
  function MatchCount(bars: seq<BarRow>, id: string): nat
  {
    if bars == [] then 0 else (if bars[0].id == id then 1 else 0) + MatchCount(bars[1..], id)
  }

  /** `SELECT r.stars, r.review FROM reviews AS r JOIN business AS b ON
      (r.id=b.id)`: each review once per business row with its id, taken
      review by review (SQL leaves the row order open). */
  function Join(reviews: seq<ReviewRow>, bars: seq<BarRow>): (rows: seq<JoinedRow>)
    ensures forall k :: 0 <= k < |rows| ==>
      exists i :: 0 <= i < |reviews| && rows[k] == JoinedRow(reviews[i].stars, reviews[i].review)
  {
    if reviews == [] then []
    else
      var r := reviews[|reviews| - 1];
      Join(reviews[..|reviews| - 1], bars) + Repeat(JoinedRow(r.stars, r.review), MatchCount(bars, r.id))
  }

  /** A single review appears once per matching business row: k times for
      k rows with its id, not at all without one. */
  lemma JoinOne(r: ReviewRow, bars: seq<BarRow>)
    ensures Join([r], bars) == Repeat(JoinedRow(r.stars, r.review), MatchCount(bars, r.id))
  {
    assert [r][..0] == [];
  }

  /** Joining a concatenation of reviews concatenates the joins; with
      `JoinOne` this fixes the join completely. */
  lemma {:induction false} JoinAppend(xs: seq<ReviewRow>, ys: seq<ReviewRow>, bars: seq<BarRow>)
    ensures Join(xs + ys, bars) == Join(xs, bars) + Join(ys, bars)
    decreases |ys|
  {
    if ys == [] {
      assert xs + ys == xs;
    } else {
      var zs := xs + ys;
      var ys' := ys[..|ys| - 1];
      assert zs[..|zs| - 1] == xs + ys';
      assert zs[|zs| - 1] == ys[|ys| - 1];
      JoinAppend(xs, ys', bars);
    }
  }

  /** The join has one row per (review, business) pair with equal ids. */
  function PairCount(reviews: seq<ReviewRow>, bars: seq<BarRow>): nat
  {
    if reviews == [] then 0
    else PairCount(reviews[..|reviews| - 1], bars) + MatchCount(bars, reviews[|reviews| - 1].id)
  }

  lemma {:induction false} JoinLength(reviews: seq<ReviewRow>, bars: seq<BarRow>)
    ensures |Join(reviews, bars)| == PairCount(reviews, bars)
  {
    if reviews != [] {
      JoinLength(reviews[..|reviews| - 1], bars);
    }
  }

  /** Filtering to 'Bars' then joining keeps only reviews of bars. */
  lemma JoinExample()
    ensures Join([ReviewRow("b1", 5.0, "x"), ReviewRow("b2", 5.0, "y")],
                 Bars([Business("b1", ["Bars"], 4.0), Business("b2", ["Cafe"], 3.5)]))
            == [JoinedRow(5.0, "x")]
  {
    var businesses := [Business("b1", ["Bars"], 4.0), Business("b2", ["Cafe"], 3.5)];
    assert businesses[..1] == [businesses[0]];
    assert Bars(businesses) == [BarRow("b1", 4.0)];
    var reviews := [ReviewRow("b1", 5.0, "x"), ReviewRow("b2", 5.0, "y")];
    assert reviews[..1] == [reviews[0]];
    assert MatchCount([BarRow("b1", 4.0)], "b2") == 0;
  }

  // ---------------------------------------------------------------------
  // Classification and newline escape (lines 78-83)
  // ---------------------------------------------------------------------

  datatype ReviewClass = Positive | Negative

  /** Five stars is positive, two or fewer negative. */
  predicate InClass(stars: real, c: ReviewClass)
  {
    match c
    case Positive => stars == 5.0
    case Negative => stars <= 2.0
  }

  /** No rating is both positive and negative, and a rating is in neither
      class exactly when it is above 2 and not 5. */
  lemma ClassesDisjoint(stars: real)
    ensures !(InClass(stars, Positive) && InClass(stars, Negative))
    ensures !InClass(stars, Positive) && !InClass(stars, Negative) <==> 2.0 < stars && stars != 5.0
  {
  }

  lemma ClassBoundaries()
    ensures InClass(5.0, Positive) && !InClass(5.0, Negative)
    ensures InClass(2.0, Negative) && !InClass(2.0, Positive)
    ensures !InClass(3.0, Positive) && !InClass(3.0, Negative)
    ensures !InClass(4.99, Positive) && !InClass(4.99, Negative)
  {
  }

  /** `.replace('\n', '\s')`: in Python 2, '\s' is the two characters
      backslash and 's'. */
  function Escape(s: string): (e: string)
    ensures '\n' !in e
  {
    if s == [] then "" else (if s[0] == '\n' then "\\s" else [s[0]]) + Escape(s[1..])
  }

  lemma {:induction false} EscapeAppend(a: string, b: string)
    ensures Escape(a + b) == Escape(a) + Escape(b)
  {
    if a == [] {
      assert a + b == b;
    } else {
      assert (a + b)[1..] == a[1..] + b;
      EscapeAppend(a[1..], b);
    }
  }

  /** A newline becomes backslash-s and any other character stays; with
      `EscapeAppend` this fixes `Escape` on every string. */
  lemma EscapeChar(c: char)
    ensures Escape([c]) == if c == '\n' then "\\s" else [c]
  {
  }

  lemma {:induction false} EscapeUnchanged(s: string)
    requires '\n' !in s
    ensures Escape(s) == s
  {
    if s != [] {
      assert '\n' !in s[1..];
      EscapeUnchanged(s[1..]);
    }
  }

  /** One more character for each newline. */
  lemma {:induction false} EscapeLength(s: string)
    ensures |Escape(s)| == |s| + CountChar(s, '\n')
  {
    if s != [] {
      EscapeLength(s[1..]);
    }
  }

  /** The escape touches only newlines: a '\r' stays where it was. */
  lemma {:induction false} EscapeKeepsReturn(s: string)
    ensures '\r' in Escape(s) <==> '\r' in s
  {
    if s != [] {
      EscapeKeepsReturn(s[1..]);
      assert s == [s[0]] + s[1..];
    }
  }

  /** The escape cannot be undone: a newline and a literal backslash-s end
      up the same. */
  lemma EscapeLossy()
    ensures Escape("\n") == Escape("\\s")
  {
    assert "\\s"[1..] == "s";
  }

  /** `pos_reviews` / `neg_reviews`: the escaped text of each joined review
      of the class, in join order. */
  function Partition(rows: seq<JoinedRow>, c: ReviewClass): (texts: seq<string>)
    ensures forall i :: 0 <= i < |texts| ==> '\n' !in texts[i]
  {
    if rows == [] then []
    else
      var last := rows[|rows| - 1];
      Partition(rows[..|rows| - 1], c) + (if InClass(last.stars, c) then [Escape(last.review)] else [])
  }

  predicate Classified(rows: seq<JoinedRow>, c: ReviewClass, x: string, i: int)
    requires 0 <= i < |rows|
  {
    InClass(rows[i].stars, c) && x == Escape(rows[i].review)
  }

  /** A class holds exactly the escaped texts of the rows with its stars. */
  lemma {:induction false} PartitionMember(rows: seq<JoinedRow>, c: ReviewClass, x: string)
    ensures x in Partition(rows, c) <==> exists i :: 0 <= i < |rows| && Classified(rows, c, x, i)
  {
    if rows != [] {
      var init := rows[..|rows| - 1];
      var last := rows[|rows| - 1];
      var tail := if InClass(last.stars, c) then [Escape(last.review)] else [];
      assert Partition(rows, c) == Partition(init, c) + tail;
      PartitionMember(init, c, x);
      if exists i :: 0 <= i < |rows| && Classified(rows, c, x, i) {
        var i :| 0 <= i < |rows| && Classified(rows, c, x, i);
        if i < |init| {
          assert Classified(init, c, x, i);
        } else {
          assert x in tail;
        }
      }
      if x in Partition(rows, c) {
        if x in tail {
          assert Classified(rows, c, x, |init|);
        } else {
          var i :| 0 <= i < |init| && Classified(init, c, x, i);
          assert Classified(rows, c, x, i);
        }
      }
    }
  }

  /** The classes keep join order: classifying a concatenation of rows
      concatenates the classified parts. */
  lemma {:induction false} PartitionAppend(xs: seq<JoinedRow>, ys: seq<JoinedRow>, c: ReviewClass)
    ensures Partition(xs + ys, c) == Partition(xs, c) + Partition(ys, c)
    decreases |ys|
  {
    if ys == [] {
      assert xs + ys == xs;
    } else {
      var zs := xs + ys;
      var ys' := ys[..|ys| - 1];
      assert zs[..|zs| - 1] == xs + ys';
      assert zs[|zs| - 1] == ys[|ys| - 1];
      PartitionAppend(xs, ys', c);
    }
  }

  /** One row contributes its escaped text once if its rating is in the
      class and nothing otherwise; with `PartitionAppend` this fixes each
      class list, multiplicity and order included. */
  lemma PartitionOne(r: JoinedRow, c: ReviewClass)
    ensures Partition([r], c) == if InClass(r.stars, c) then [Escape(r.review)] else []
  {
    assert [r][..0] == [];
  }

  /** Rows with more than 2 and other than 5 stars. */
  function Unclassified(rows: seq<JoinedRow>): nat
  {
    if rows == [] then 0
    else
      var last := rows[|rows| - 1];
      Unclassified(rows[..|rows| - 1]) + (if InClass(last.stars, Positive) || InClass(last.stars, Negative) then 0 else 1)
  }

  /** Every joined row lands in at most one class: the two classes and the
      excluded rows add up to all rows. */
  lemma {:induction false} PartitionSizes(rows: seq<JoinedRow>)
    ensures |Partition(rows, Positive)| + |Partition(rows, Negative)| + Unclassified(rows) == |rows|
  {
    if rows != [] {
      PartitionSizes(rows[..|rows| - 1]);
    }
  }

  // ---------------------------------------------------------------------
  // Writing the classes (lines 85-93)
  // ---------------------------------------------------------------------

  /** The file contents: `line + '\n'` for every line. */
  function Written(lines: seq<string>): string
  {
    Concat(Terminated(lines))
  }

  /** The write loop of lines 86-88 / 91-93. */
  method WriteLines(lines: seq<string>) returns (text: string)
    ensures text == Written(lines)
  {
    text := "";
    var i := 0;
    while i < |lines|
      invariant 0 <= i <= |lines|
      invariant text == Written(lines[..i])
    {
      WrittenSnoc(lines[..i], lines[i]);
      assert lines[..i + 1] == lines[..i] + [lines[i]];
      text := text + (lines[i] + "\n");
      i := i + 1;
    }
    assert lines[..i] == lines;
  }

  lemma WrittenSnoc(lines: seq<string>, line: string)
    ensures Written(lines + [line]) == Written(lines) + (line + "\n")
  {
    assert Terminated(lines + [line]) == Terminated(lines) + [line + "\n"];
    ConcatAppend(Terminated(lines), [line + "\n"]);
    assert Concat([line + "\n"]) == line + "\n" + Concat([]);
  }

  /** Written text is the lines joined by '\n' with a final '\n'. */
  lemma {:induction false} WrittenIsJoin(lines: seq<string>)
    ensures Written(lines) == JoinWith("\n", lines + [""])
  {
    if lines != [] {
      WrittenIsJoin(lines[1..]);
      assert (lines + [""])[1..] == lines[1..] + [""];
      assert Terminated(lines)[1..] == Terminated(lines[1..]);
    }
  }

  /** Reading a written class back: `split('\n')` gives the lines and one
      empty string after the last '\n'. */
  lemma WrittenRoundTrip(lines: seq<string>)
    requires forall i :: 0 <= i < |lines| ==> '\n' !in lines[i]
    ensures Split(Written(lines), '\n') == lines + [""]
  {
    WrittenIsJoin(lines);
    SplitJoin(lines + [""], '\n');
  }

  /** The whole of data_preprocess.py: the two files it writes. */
  method PreprocessData(businesses: seq<Business>, reviews: seq<Review>) returns (posText: string, negText: string)
    ensures posText == Written(Partition(Join(ReviewRows(reviews), Bars(businesses)), Positive))
    ensures negText == Written(Partition(Join(ReviewRows(reviews), Bars(businesses)), Negative))
  {
    var bars := BarBusinessGenerator(businesses);
    var rows := ReviewGenerator(reviews);
    assert rows == ReviewRows(reviews);
    var barReviews := Join(rows, bars);
    var pos := Partition(barReviews, Positive);
    var neg := Partition(barReviews, Negative);
    posText := WriteLines(pos);
    negText := WriteLines(neg);
  }
}
