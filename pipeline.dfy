/** How the two scripts fit together: data_preprocess.py writes each class
    of reviews one per line, and si601_project_analysis_leabbott.py reads
    them back with `readlines()` and hands the lines to `bigram_counter`. */
module Pipeline {
  import opened PyStrings
  import opened Bigrams
  import opened Preprocess

  lemma AllBigramsOne(x: string)
    ensures AllBigrams([x]) == Bigrams.Bigrams(Words(x))
  {
    assert [x][..0] == [];
  }

  /** The '\n' kept at the end of every line read back changes no bigram. */
  lemma {:induction false} TerminatedBigrams(xs: seq<string>)
    ensures AllBigrams(Terminated(xs)) == AllBigrams(xs)
  {
    if xs != [] {
      TerminatedBigrams(xs[1..]);
      assert Terminated(xs) == [xs[0] + "\n"] + Terminated(xs[1..]);
      assert xs == [xs[0]] + xs[1..];
      AllBigramsAppend([xs[0] + "\n"], Terminated(xs[1..]));
      AllBigramsAppend([xs[0]], xs[1..]);
      AllBigramsOne(xs[0] + "\n");
      AllBigramsOne(xs[0]);
      TrailingNewline(xs[0]);
    }
  }

  /** A class file is read back with `open(..., 'rU').readlines()`; for
      reviews free of both '\n' and '\r' the analysis sees exactly the
      bigrams of the reviews that were written. */
  lemma StageHandOff(lines: seq<string>)
    requires forall i :: 0 <= i < |lines| ==> '\n' !in lines[i] && '\r' !in lines[i]
    ensures ReadLinesUniversal(Written(lines)) == Terminated(lines)
    ensures AllBigrams(ReadLinesUniversal(Written(lines))) == AllBigrams(lines)
  {
    ReadLinesUniversalTerminated(lines);
    TerminatedBigrams(lines);
  }

  /** The bigram counts of a class file, read in 'rU' mode (lines 51-60). */
  method CountClass(text: string) returns (r: seq<Entry>)
    ensures IsCountOf(r, AllBigrams(ReadLinesUniversal(text)))
    ensures Ranked(r)
  {
    var reviews := ReadLinesUniversal(text);
    r := BigramCounter(reviews);
  }

  /** No review text holds a carriage return. */
  predicate NoReturn(reviews: seq<Review>)
  {
    forall i :: 0 <= i < |reviews| ==> '\r' !in reviews[i].text
  }

  /** Joined rows inherit the texts of the reviews, so they hold no '\r'
      when no review does. */
  lemma JoinNoReturn(reviews: seq<Review>, bars: seq<BarRow>)
    requires NoReturn(reviews)
    ensures forall k :: 0 <= k < |Join(ReviewRows(reviews), bars)| ==> '\r' !in Join(ReviewRows(reviews), bars)[k].review
  {
    var rows := ReviewRows(reviews);
    var joined := Join(rows, bars);
    forall k | 0 <= k < |joined|
      ensures '\r' !in joined[k].review
    {
      var i :| 0 <= i < |rows| && joined[k] == JoinedRow(rows[i].stars, rows[i].review);
      assert rows[i].review == reviews[i].text;
    }
  }

  /** A class holds no '\r' when its rows hold none. */
  lemma PartitionNoReturn(rows: seq<JoinedRow>, c: ReviewClass)
    requires forall k :: 0 <= k < |rows| ==> '\r' !in rows[k].review
    ensures forall k :: 0 <= k < |Partition(rows, c)| ==> '\r' !in Partition(rows, c)[k]
  {
    var texts := Partition(rows, c);
    forall k | 0 <= k < |texts|
      ensures '\r' !in texts[k]
    {
      PartitionMember(rows, c, texts[k]);
      var i :| 0 <= i < |rows| && Classified(rows, c, texts[k], i);
      EscapeKeepsReturn(rows[i].review);
    }
  }

  /** End to end: the positive and negative counts count the bigrams of the
      lines read back from the two files; when no review holds a '\r',
      those are the bigrams of the escaped 5-star and at-most-2-star
      reviews of bars. */
  method CountBarReviews(businesses: seq<Business>, reviews: seq<Review>) returns (pos: seq<Entry>, neg: seq<Entry>)
    ensures IsCountOf(pos, AllBigrams(ReadLinesUniversal(Written(Partition(Join(ReviewRows(reviews), Bars(businesses)), Positive)))))
    ensures IsCountOf(neg, AllBigrams(ReadLinesUniversal(Written(Partition(Join(ReviewRows(reviews), Bars(businesses)), Negative)))))
    ensures NoReturn(reviews) ==> IsCountOf(pos, AllBigrams(Partition(Join(ReviewRows(reviews), Bars(businesses)), Positive)))
    ensures NoReturn(reviews) ==> IsCountOf(neg, AllBigrams(Partition(Join(ReviewRows(reviews), Bars(businesses)), Negative)))
    ensures Ranked(pos) && Ranked(neg)
  {
    var posText, negText := PreprocessData(businesses, reviews);
    var rows := Join(ReviewRows(reviews), Bars(businesses));
    if NoReturn(reviews) {
      JoinNoReturn(reviews, Bars(businesses));
      PartitionNoReturn(rows, Positive);
      PartitionNoReturn(rows, Negative);
      StageHandOff(Partition(rows, Positive));
      StageHandOff(Partition(rows, Negative));
    }
    pos := CountClass(posText);
    neg := CountClass(negText);
  }

  /** Under 'rU' a '\r' inside a written line ends that line: "a\rb"
      written with its '\n' comes back as two lines. */
  lemma ReturnSplitsLine()
    ensures Written(["a\rb"]) == "a\rb\n"
    ensures ReadLinesUniversal(Written(["a\rb"])) == ["a\n", "b\n"]
  {
    var t := Terminated(["a\rb"]);
    assert t[0] == "a\rb" + "\n";
    assert "a\rb" + "\n" == "a\rb\n";
    assert t == ["a\rb\n"];
    assert Concat(["a\rb\n"]) == "a\rb\n" + Concat([]);
    var u := Universal("a\rb\n");
    assert "a\rb\n"[1..] == "\rb\n";
    assert "\rb\n"[1..] == "b\n";
    assert "b\n"[1..] == "\n";
    assert u == "a\nb\n";
    assert IndexOf(u, '\n') == 1;
    assert u[2..] == "b\n";
    var b := "b\n";
    assert IndexOf(b, '\n') == 1;
    assert b[..2] == b && b[2..] == [];
    assert ReadLines(b) == [b] + ReadLines(b[2..]);
    assert u[..2] == "a\n";
    assert ReadLines(u) == ["a\n"] + ReadLines(b);
  }

  /** The review "a b\r" is written as "a b\r\n", which 'rU' reads as
      "a b\n". */
  lemma WrittenTrailingReturn()
    ensures Written(["a b\r"]) == "a b\r\n"
    ensures Universal("a b\r\n") == "a b\n"
  {
    var t := Terminated(["a b\r"]);
    assert t[0] == "a b\r" + "\n";
    assert "a b\r" + "\n" == "a b\r\n";
    assert t == ["a b\r\n"];
    assert Concat(["a b\r\n"]) == "a b\r\n" + Concat([]);
    UniversalReturnNewline("a b", "");
    assert "a b" + "\r\n" + "" == "a b\r\n";
  }

  /** A '\r' at the end of a review merges with the '\n' written after it
      into one line end under 'rU': "a b\r" reads back as the one line
      "a b\n". */
  lemma TrailingReturnMerges()
    ensures ReadLinesUniversal(Written(["a b\r"])) == ["a b\n"]
  {
    WrittenTrailingReturn();
    var u := "a b\n";
    assert IndexOf(u, '\n') == 3;
    assert u[..4] == u && u[4..] == [];
    assert ReadLines(u) == [u] + ReadLines(u[4..]);
  }

  /** The review "a\rb" has the single bigram "a b". */
  lemma ReturnReviewBigrams()
    ensures AllBigrams(["a\rb"]) == ["a b"]
  {
    assert "a\rb" == "a" + ['\r'] + "b";
    WordsSplitAt("a", '\r', "b");
    WordsOfWord("a");
    WordsOfWord("b");
    AllBigramsOne("a\rb");
    assert ["a", "b"][..1] == ["a"];
    assert LowerWord("a") == "a" && LowerWord("b") == "b";
    assert Bigram("a", "b") == "a b";
  }

  /** A line holding one word and its '\n' gives no bigram. */
  lemma OneWordLine(w: string)
    requires IsWord(w)
    ensures Bigrams.Bigrams(Words(w + "\n")) == []
  {
    TrailingNewline(w);
    WordsOfWord(w);
  }

  /** Two one-word lines give no bigram. */
  lemma SplitLinesBigrams()
    ensures AllBigrams(["a\n", "b\n"]) == []
  {
    var lines := ["a\n", "b\n"];
    assert lines[..1] == ["a\n"] && ["a\n"][..0] == [];
    OneWordLine("a");
    OneWordLine("b");
  }

  /** The escape handles '\n' only, so the review "a\rb", whose bigram is
      "a b", reaches `bigram_counter` as the lines "a\n" and "b\n", which
      give no bigram at all. */
  lemma ReturnLosesBigram()
    ensures AllBigrams(["a\rb"]) == ["a b"]
    ensures AllBigrams(ReadLinesUniversal(Written(["a\rb"]))) == []
  {
    ReturnReviewBigrams();
    ReturnSplitsLine();
    SplitLinesBigrams();
  }

  /** A newline inside a review becomes backslash-s: the backslash
      separates tokens, but the 's' is glued to the next word, so "a\nb"
      gives the bigram "a sb" where the raw text gives "a b". */
  lemma EscapeGluesS()
    ensures Words(Escape("a\nb")) == ["a", "sb"]
    ensures Words("a\nb") == ["a", "b"]
    ensures AllBigrams([Escape("a\nb")]) == ["a sb"]
  {
    var e := Escape("a\nb");
    assert "a\nb"[1..] == "\nb";
    assert "\nb"[1..] == "b";
    assert e == "a" + ['\\'] + "sb";
    WordsSplitAt("a", '\\', "sb");
    WordsOfWord("a");
    WordsOfWord("sb");
    assert "a\nb" == "a" + ['\n'] + "b";
    WordsSplitAt("a", '\n', "b");
    WordsOfWord("b");
    AllBigramsOne(e);
    assert ["a", "sb"][..1] == ["a"];
    assert LowerWord("a") == "a";
    assert LowerWord("sb") == "sb";
    assert Bigram("a", "sb") == "a sb";
  }
}
