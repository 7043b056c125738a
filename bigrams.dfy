/** `bigram_counter` of si601_project_analysis_leabbott.py: tokenise each
    review into ASCII word runs, emit lowercased adjacent pairs, count them
    by sort-then-group and order the counts by descending frequency. */
module Bigrams {
  import opened LexOrder
  import opened PyStrings

  // ---------------------------------------------------------------------
  // Tokenisation: `re.compile(r"\b[\w]+\b").findall(review)`
  // ---------------------------------------------------------------------

  /** `\w` on a Python 2 byte string: ASCII letters, digits and '_'. */
  predicate IsWordChar(c: char)
  {
    ('a' <= c <= 'z') || ('A' <= c <= 'Z') || ('0' <= c <= '9') || c == '_'
  }

  predicate IsWord(w: string)
  {
    w != [] && forall i :: 0 <= i < |w| ==> IsWordChar(w[i])
  }

  /** ASCII `lower()` of one byte: only 'A'..'Z' change. */
  function ToLower(c: char): char
  {
    if 'A' <= c <= 'Z' then (c as int + 32) as char else c
  }

  function LowerWord(w: string): (r: string)
    ensures |r| == |w|
  {
    seq(|w|, i requires 0 <= i < |w| => ToLower(w[i]))
  }

  /** Length of the run of word characters at the front of `s`. */
  function RunLength(s: string): (n: nat)
    ensures n <= |s|
    ensures forall i :: 0 <= i < n ==> IsWordChar(s[i])
    ensures n < |s| ==> !IsWordChar(s[n])
  {
    if s == [] || !IsWordChar(s[0]) then 0 else 1 + RunLength(s[1..])
  }

  /** The maximal runs of word characters of `s`, left to right: what the
      pattern `\b[\w]+\b` finds, every other byte being a separator. */
  function Words(s: string): (ws: seq<string>)
    ensures forall i :: 0 <= i < |ws| ==> IsWord(ws[i])
    decreases |s|
  {
    if s == [] then
      []
    else if !IsWordChar(s[0]) then
      Words(s[1..])
    else
      var n := RunLength(s);
      [s[..n]] + Words(s[n..])
  }

  /** The word characters of `s`, in order. */
  function WordChars(s: string): string
  {
    if s == [] then "" else (if IsWordChar(s[0]) then [s[0]] else "") + WordChars(s[1..])
  }

  lemma {:induction false} WordCharsAppend(a: string, b: string)
    ensures WordChars(a + b) == WordChars(a) + WordChars(b)
  {
    if a == [] {
      assert a + b == b;
    } else {
      var c := if IsWordChar(a[0]) then [a[0]] else "";
      assert (a + b)[0] == a[0];
      assert (a + b)[1..] == a[1..] + b;
      assert WordChars(a + b) == c + WordChars(a[1..] + b);
      WordCharsAppend(a[1..], b);
      assert WordChars(a) == c + WordChars(a[1..]);
    }
  }

  lemma {:induction false} WordCharsOfWord(w: string)
    requires forall i :: 0 <= i < |w| ==> IsWordChar(w[i])
    ensures WordChars(w) == w
  {
    if w != [] {
      WordCharsOfWord(w[1..]);
      assert w == [w[0]] + w[1..];
    }
  }

  /** Tokenising loses no word character, adds none and keeps their order. */
  lemma {:induction false} WordsKeepWordChars(s: string)
    ensures Concat(Words(s)) == WordChars(s)
    decreases |s|
  {
    if s != [] {
      if !IsWordChar(s[0]) {
        WordsKeepWordChars(s[1..]);
      } else {
        var n := RunLength(s);
        WordsKeepWordChars(s[n..]);
        assert ([s[..n]] + Words(s[n..]))[1..] == Words(s[n..]);
        assert s == s[..n] + s[n..];
        WordCharsAppend(s[..n], s[n..]);
        WordCharsOfWord(s[..n]);
      }
    }
  }

  /** A single run of word characters is one token. */
  lemma WordsOfWord(w: string)
    requires IsWord(w)
    ensures Words(w) == [w]
  {
    RunLengthAll(w);
    assert IsWordChar(w[0]);
    assert w[..|w|] == w;
    assert w[|w|..] == [];
  }

  lemma {:induction false} RunLengthAll(w: string)
    requires forall i :: 0 <= i < |w| ==> IsWordChar(w[i])
    ensures RunLength(w) == |w|
  {
    if w != [] {
      RunLengthAll(w[1..]);
    }
  }

  /** Text with no word character has no tokens. */
  lemma {:induction false} WordsNone(s: string)
    requires forall i :: 0 <= i < |s| ==> !IsWordChar(s[i])
    ensures Words(s) == []
  {
    if s != [] {
      WordsNone(s[1..]);
    }
  }

  lemma {:induction false} RunLengthStops(a: string, t: string)
    requires t == [] || !IsWordChar(t[0])
    ensures RunLength(a + t) == RunLength(a)
  {
    if a == [] {
      assert a + t == t;
    } else if IsWordChar(a[0]) {
      assert (a + t)[1..] == a[1..] + t;
      RunLengthStops(a[1..], t);
    }
  }

  /** Any non-word byte separates: tokens never span it. Together with
      `WordsOfWord` and `Words([]) == []` this determines `Words`. */
  lemma {:induction false} WordsSplitAt(a: string, c: char, b: string)
    requires !IsWordChar(c)
    ensures Words(a + [c] + b) == Words(a) + Words(b)
    decreases |a|
  {
    var s := a + [c] + b;
    if a == [] {
      assert s == [c] + b;
      assert s[1..] == b;
    } else if !IsWordChar(a[0]) {
      assert s[1..] == a[1..] + [c] + b;
      WordsSplitAt(a[1..], c, b);
    } else {
      RunLengthStops(a, [c] + b);
      assert s == a + ([c] + b);
      var n := RunLength(a);
      assert s[..n] == a[..n];
      assert s[n..] == a[n..] + [c] + b;
      WordsSplitAt(a[n..], c, b);
    }
  }

  /** The '\n' that `readlines` leaves on each review changes no token. */
  lemma TrailingNewline(x: string)
    ensures Words(x + "\n") == Words(x)
  {
    WordsSplitAt(x, '\n', "");
    assert x + ['\n'] + "" == x + "\n";
  }

  // ---------------------------------------------------------------------
  // Bigram list (lines 24-29)
  // ---------------------------------------------------------------------

  /** `words[i].lower() + ' ' + words[i+1].lower()`. */
  function Bigram(w1: string, w2: string): (b: string)
    ensures |b| == |w1| + 1 + |w2|
    ensures b[|w1|] == ' '
  {
    LowerWord(w1) + " " + LowerWord(w2)
  }

  /** The bigrams of one token list, first pair first. */
  function Bigrams(ws: seq<string>): seq<string>
  {
    if |ws| < 2 then [] else Bigrams(ws[..|ws| - 1]) + [Bigram(ws[|ws| - 2], ws[|ws| - 1])]
  }

  /** n tokens give max(n - 1, 0) bigrams, the i-th pairing tokens i and i+1. */
  lemma {:induction false} BigramsShape(ws: seq<string>)
    ensures |Bigrams(ws)| == if |ws| < 2 then 0 else |ws| - 1
    ensures forall i :: 0 <= i < |Bigrams(ws)| ==> Bigrams(ws)[i] == Bigram(ws[i], ws[i + 1])
  {
    if |ws| >= 2 {
      var ps := ws[..|ws| - 1];
      BigramsShape(ps);
      forall i | 0 <= i < |Bigrams(ps)|
        ensures Bigrams(ws)[i] == Bigram(ws[i], ws[i + 1])
      {
        assert ps[i] == ws[i] && ps[i + 1] == ws[i + 1];
      }
    }
  }

  /** The bigrams of every review, review after review. */
  function AllBigrams(reviews: seq<string>): seq<string>
  {
    if reviews == [] then []
    else AllBigrams(reviews[..|reviews| - 1]) + Bigrams(Words(reviews[|reviews| - 1]))
  }

  /** Reviews with no word character (or no reviews at all) give no bigram. */
  lemma {:induction false} AllBigramsNone(reviews: seq<string>)
    requires forall r, i :: 0 <= r < |reviews| && 0 <= i < |reviews[r]| ==> !IsWordChar(reviews[r][i])
    ensures AllBigrams(reviews) == []
  {
    if reviews != [] {
      var init := reviews[..|reviews| - 1];
      assert forall r :: 0 <= r < |init| ==> init[r] == reviews[r];
      AllBigramsNone(init);
      WordsNone(reviews[|reviews| - 1]);
    }
  }

  /** Each review's bigrams are appended after those of the reviews before it. */
  lemma {:induction false} AllBigramsAppend(xs: seq<string>, ys: seq<string>)
    ensures AllBigrams(xs + ys) == AllBigrams(xs) + AllBigrams(ys)
    decreases |ys|
  {
    if ys == [] {
      assert xs + ys == xs;
    } else {
      var zs := xs + ys;
      var ys' := ys[..|ys| - 1];
      var last := ys[|ys| - 1];
      assert zs[..|zs| - 1] == xs + ys';
      assert zs[|zs| - 1] == last;
      AllBigramsAppend(xs, ys');
      assert AllBigrams(zs) == AllBigrams(xs + ys') + Bigrams(Words(last));
      assert AllBigrams(ys) == AllBigrams(ys') + Bigrams(Words(last));
    }
  }

  /** The total number of bigrams is the sum over reviews of (tokens - 1). */
  function PairSlots(reviews: seq<string>): nat
  {
    if reviews == [] then 0
    else
      var n := |Words(reviews[|reviews| - 1])|;
      PairSlots(reviews[..|reviews| - 1]) + (if n < 2 then 0 else n - 1)
  }

  lemma {:induction false} AllBigramsLength(reviews: seq<string>)
    ensures |AllBigrams(reviews)| == PairSlots(reviews)
  {
    if reviews != [] {
      AllBigramsLength(reviews[..|reviews| - 1]);
      BigramsShape(Words(reviews[|reviews| - 1]));
    }
  }

  /** The nested loops of lines 24-29, appending one bigram at a time. */
  method BigramList(reviews: seq<string>) returns (list: seq<string>)
    ensures list == AllBigrams(reviews)
  {
    list := [];
    var r := 0;
    while r < |reviews|
      invariant 0 <= r <= |reviews|
      invariant list == AllBigrams(reviews[..r])
    {
      var words := Words(reviews[r]);
      var i := 0;
      while i + 1 < |words|
        invariant words == [] ==> i == 0
        invariant words != [] ==> i + 1 <= |words|
        invariant list == AllBigrams(reviews[..r]) + Bigrams(words[..if words == [] then 0 else i + 1])
      {
        var bigram := Bigram(words[i], words[i + 1]);
        assert words[..i + 2][..i + 1] == words[..i + 1];
        list := list + [bigram];
        i := i + 1;
      }
      assert words[..if words == [] then 0 else i + 1] == words;
      assert reviews[..r + 1][..r] == reviews[..r];
      r := r + 1;
    }
    assert reviews[..r] == reviews;
  }

  // ---------------------------------------------------------------------
  // Counting by groupby over the sorted list (lines 32-41)
  // ---------------------------------------------------------------------

  /** One `[key, bigram_count]` row of `bigram_counts_list`. */
  datatype Entry = Entry(bigram: string, count: nat)

  /** The list a grouping stands for: each key repeated `count` times. */
  function Expand(g: seq<Entry>): seq<string>
  {
    if g == [] then [] else Expand(g[..|g| - 1]) + Repeat(g[|g| - 1].bigram, g[|g| - 1].count)
  }

  function Keys(g: seq<Entry>): (ks: seq<string>)
    ensures |ks| == |g|
  {
    seq(|g|, i requires 0 <= i < |g| => g[i].bigram)
  }

  function SumCounts(g: seq<Entry>): nat
  {
    if g == [] then 0 else g[0].count + SumCounts(g[1..])
  }

  lemma {:induction false} SumCountsAppend(a: seq<Entry>, b: seq<Entry>)
    ensures SumCounts(a + b) == SumCounts(a) + SumCounts(b)
  {
    if a == [] {
      assert a + b == b;
    } else {
      assert (a + b)[1..] == a[1..] + b;
      SumCountsAppend(a[1..], b);
    }
  }

  predicate PositiveCounts(g: seq<Entry>)
  {
    forall k :: 0 <= k < |g| ==> g[k].count >= 1
  }

  /** Neighbouring groups have different keys. */
  predicate NeighboursDiffer(g: seq<Entry>)
  {
    forall k :: 0 < k < |g| ==> g[k - 1].bigram != g[k].bigram
  }

  /** The groups of `s[..i]`, as the `groupby` loop has them after `i` items:
      `i` ends a run of equal items. */
  predicate GroupedPrefix(groups: seq<Entry>, s: seq<string>, i: nat)
  {
    && i <= |s|
    && Expand(groups) == s[..i]
    && PositiveCounts(groups) && NeighboursDiffer(groups)
    && (groups == [] <==> i == 0)
    && (groups != [] ==> groups[|groups| - 1].bigram == s[i - 1])
    && (0 < i < |s| ==> s[i] != s[i - 1])
  }

  /** `groupby` over a list: consecutive equal items form one group. */
  method GroupCount(s: seq<string>) returns (groups: seq<Entry>)
    ensures Expand(groups) == s
    ensures PositiveCounts(groups)
    ensures NeighboursDiffer(groups)
  {
    groups := [];
    var i := 0;
    while i < |s|
      invariant GroupedPrefix(groups, s, i)
      decreases |s| - i
    {
      var key := s[i];
      var start := i;
      var count := 0;
      while i < |s| && s[i] == key
        invariant start <= i <= |s|
        invariant count == i - start
        invariant forall k :: start <= k < i ==> s[k] == key
      {
        count := count + 1;
        i := i + 1;
      }
      GroupStep(groups, s, start, i);
      groups := groups + [Entry(key, count)];
    }
    assert s[..i] == s;
  }

  /** Closing the run `s[start..i]` extends the groups of `s[..start]` to
      the groups of `s[..i]`. */
  lemma GroupStep(groups: seq<Entry>, s: seq<string>, start: nat, i: nat)
    requires GroupedPrefix(groups, s, start) && start < i <= |s|
    requires forall k :: start <= k < i ==> s[k] == s[start]
    requires i < |s| ==> s[i] != s[start]
    ensures GroupedPrefix(groups + [Entry(s[start], i - start)], s, i)
  {
    var e := Entry(s[start], i - start);
    var g := groups + [e];
    ExpandPush(groups, s, start, i);
    forall k | 0 < k < |g| ensures g[k - 1].bigram != g[k].bigram {
      if k < |groups| {
        assert g[k - 1] == groups[k - 1] && g[k] == groups[k];
      }
    }
    assert PositiveCounts(g);
  }

  /** Closing a run of equal items appends one group. */
  lemma ExpandPush(groups: seq<Entry>, s: seq<string>, start: nat, i: nat)
    requires start < i <= |s| && Expand(groups) == s[..start]
    requires forall k :: start <= k < i ==> s[k] == s[start]
    ensures Expand(groups + [Entry(s[start], i - start)]) == s[..i]
  {
    var groups' := groups + [Entry(s[start], i - start)];
    assert groups'[..|groups'| - 1] == groups;
    assert s[start..i] == Repeat(s[start], i - start);
    assert s[..i] == s[..start] + s[start..i];
  }

  lemma {:induction false} ExpandLength(g: seq<Entry>)
    ensures |Expand(g)| == SumCounts(g)
  {
    if g != [] {
      var h := g[..|g| - 1];
      ExpandLength(h);
      SumCountsAppend(h, [g[|g| - 1]]);
      assert h + [g[|g| - 1]] == g;
    }
  }

  /** With no empty group, the items of a grouping are exactly its keys. */
  lemma {:induction false} ExpandMember(g: seq<Entry>, x: string)
    requires PositiveCounts(g)
    ensures x in Expand(g) <==> x in Keys(g)
  {
    if g != [] {
      var h := g[..|g| - 1];
      ExpandMember(h, x);
      assert Keys(g) == Keys(h) + [g[|g| - 1].bigram];
      assert Repeat(g[|g| - 1].bigram, g[|g| - 1].count)[0] == g[|g| - 1].bigram;
    }
  }

  /** Grouping a sorted list gives sorted keys. */
  lemma {:induction false} ExpandSortedKeys(g: seq<Entry>)
    requires PositiveCounts(g) && Sorted(Expand(g))
    ensures Sorted(Keys(g))
  {
    if g != [] {
      var h := g[..|g| - 1];
      var e := g[|g| - 1];
      var xs, rep := Expand(h), Repeat(e.bigram, e.count);
      assert Expand(g) == xs + rep;
      assert Sorted(xs) by {
        forall i, j | 0 <= i < j < |xs| ensures LexLe(xs[i], xs[j]) {
          assert xs[i] == Expand(g)[i] && xs[j] == Expand(g)[j];
        }
      }
      ExpandSortedKeys(h);
      var ks := Keys(g);
      forall i, j | 0 <= i < j < |ks| ensures LexLe(ks[i], ks[j]) {
        if j < |g| - 1 {
          assert ks[i] == Keys(h)[i] && ks[j] == Keys(h)[j];
        } else {
          assert ks[i] in Keys(h) by {
            assert Keys(h)[i] == ks[i];
          }
          ExpandMember(h, ks[i]);
          var p :| 0 <= p < |xs| && xs[p] == ks[i];
          assert Expand(g)[p] == ks[i];
          assert Expand(g)[|xs|] == e.bigram == ks[j];
        }
      }
    }
  }

  /** Sorted keys with no two equal neighbours are pairwise distinct. */
  lemma SortedAdjacentDistinct(ks: seq<string>)
    requires Sorted(ks)
    requires forall k :: 0 < k < |ks| ==> ks[k - 1] != ks[k]
    ensures forall i, j :: 0 <= i < j < |ks| ==> LexLt(ks[i], ks[j])
  {
    forall i, j | 0 <= i < j < |ks| ensures ks[i] != ks[j] {
      if j > i + 1 && ks[i] == ks[j] {
        LexLeAntisym(ks[i], ks[i + 1]);
      }
    }
  }

  /** With distinct keys, each group's count is the key's multiplicity. */
  lemma {:induction false} ExpandMultiplicity(g: seq<Entry>, k: nat)
    requires PositiveCounts(g)
    requires forall i, j :: 0 <= i < j < |g| ==> g[i].bigram != g[j].bigram
    requires k < |g|
    ensures multiset(Expand(g))[g[k].bigram] == g[k].count
  {
    var h := g[..|g| - 1];
    var e := g[|g| - 1];
    assert Expand(g) == Expand(h) + Repeat(e.bigram, e.count);
    RepeatMultiset(e.bigram, e.count, g[k].bigram);
    if k < |g| - 1 {
      assert h[k] == g[k];
      ExpandMultiplicity(h, k);
    } else {
      ExpandMember(h, e.bigram);
      assert e.bigram !in Keys(h);
    }
  }

  // ---------------------------------------------------------------------
  // `sorted(bigram_counts_list, key=lambda x: -x[1])` (lines 43-44)
  // ---------------------------------------------------------------------

  predicate NonIncreasing(s: seq<Entry>)
  {
    forall i, j :: 0 <= i < j < |s| ==> s[i].count >= s[j].count
  }

  /** Insertion that keeps the new entry before every entry of equal
      count, which is what makes the sort below stable. */
  function InsertByCount(e: Entry, s: seq<Entry>): (r: seq<Entry>)
    requires NonIncreasing(s)
    ensures NonIncreasing(r)
    ensures multiset(r) == multiset(s) + multiset{e}
    ensures SumCounts(r) == SumCounts(s) + e.count
  {
    if s == [] || s[0].count <= e.count then
      [e] + s
    else
      var t := InsertByCount(e, s[1..]);
      HeadDominates(e, s, t);
      [s[0]] + t
  }

  lemma HeadDominates(e: Entry, s: seq<Entry>, t: seq<Entry>)
    requires NonIncreasing(s) && s != [] && s[0].count > e.count
    requires NonIncreasing(t) && multiset(t) == multiset(s[1..]) + multiset{e}
    requires SumCounts(t) == SumCounts(s[1..]) + e.count
    ensures NonIncreasing([s[0]] + t)
    ensures multiset([s[0]] + t) == multiset(s) + multiset{e}
    ensures SumCounts([s[0]] + t) == SumCounts(s) + e.count
  {
    assert s == [s[0]] + s[1..];
    var r := [s[0]] + t;
    assert r[1..] == t;
    HeadAboveRest(e, s, t);
    forall i, j | 0 <= i < j < |r| ensures r[i].count >= r[j].count {
      assert r[j] == t[j - 1];
      if i > 0 {
        assert r[i] == t[i - 1];
      }
    }
  }

  /** The head of `s` outranks everything after it, and `e` too. */
  lemma HeadAboveRest(e: Entry, s: seq<Entry>, t: seq<Entry>)
    requires NonIncreasing(s) && s != [] && s[0].count > e.count
    requires multiset(t) == multiset(s[1..]) + multiset{e}
    ensures forall j :: 0 <= j < |t| ==> s[0].count >= t[j].count
  {
    forall j | 0 <= j < |t| ensures s[0].count >= t[j].count {
      var y := t[j];
      assert y in multiset(t);
      if y != e {
        assert y in multiset(s[1..]);
        var k :| 0 <= k < |s[1..]| && s[1..][k] == y;
        assert s[k + 1] == y;
      }
    }
  }

  /** Python's stable `sorted` by descending count. */
  function SortByCount(s: seq<Entry>): (r: seq<Entry>)
    ensures NonIncreasing(r)
    ensures multiset(r) == multiset(s)
    ensures SumCounts(r) == SumCounts(s)
  {
    if s == [] then
      []
    else
      assert s == [s[0]] + s[1..];
      InsertByCount(s[0], SortByCount(s[1..]))
  }

  /** `a` may precede `b`: a higher count, or the same count and a smaller key. */
  predicate RankedPair(a: Entry, b: Entry)
  {
    a.count > b.count || (a.count == b.count && LexLt(a.bigram, b.bigram))
  }

  /** Descending count; equal counts in ascending string order. */
  predicate Ranked(s: seq<Entry>)
  {
    forall i, j :: 0 <= i < j < |s| ==> RankedPair(s[i], s[j])
  }

  predicate KeysAscending(s: seq<Entry>)
  {
    forall i, j :: 0 <= i < j < |s| ==> LexLt(s[i].bigram, s[j].bigram)
  }

  lemma RankedCons(x: Entry, t: seq<Entry>)
    requires Ranked(t)
    requires forall y :: y in multiset(t) ==> RankedPair(x, y)
    ensures Ranked([x] + t)
  {
    var r := [x] + t;
    forall i, j | 0 <= i < j < |r| ensures RankedPair(r[i], r[j]) {
      assert r[j] == t[j - 1];
      if i == 0 {
        assert t[j - 1] in multiset(t);
      } else {
        assert r[i] == t[i - 1];
      }
    }
  }

  lemma {:induction false} InsertRanked(e: Entry, s: seq<Entry>)
    requires Ranked(s)
    requires forall x :: x in multiset(s) ==> LexLt(e.bigram, x.bigram)
    ensures NonIncreasing(s)
    ensures Ranked(InsertByCount(e, s))
  {
    assert NonIncreasing(s) by {
      forall i, j | 0 <= i < j < |s| ensures s[i].count >= s[j].count {
        assert RankedPair(s[i], s[j]);
      }
    }
    if s == [] {
    } else if s[0].count <= e.count {
      forall y | y in multiset(s) ensures RankedPair(e, y) {
        var k :| 0 <= k < |s| && s[k] == y;
      }
      RankedCons(e, s);
    } else {
      var tail := s[1..];
      RankedTail(s);
      assert s == [s[0]] + tail;
      assert multiset(s) == multiset{s[0]} + multiset(tail);
      InsertRanked(e, tail);
      RankedBehindHead(e, s, InsertByCount(e, tail));
    }
  }

  lemma RankedTail(s: seq<Entry>)
    requires Ranked(s) && s != []
    ensures Ranked(s[1..])
  {
    var tail := s[1..];
    forall i, j | 0 <= i < j < |tail| ensures RankedPair(tail[i], tail[j]) {
      assert tail[i] == s[i + 1] && tail[j] == s[j + 1];
    }
  }

  lemma RankedBehindHead(e: Entry, s: seq<Entry>, t: seq<Entry>)
    requires Ranked(s) && NonIncreasing(s) && s != [] && s[0].count > e.count
    requires Ranked(t) && multiset(t) == multiset(s[1..]) + multiset{e}
    ensures Ranked([s[0]] + t)
  {
    var tail := s[1..];
    forall y | y in multiset(t) ensures RankedPair(s[0], y) {
      if y != e {
        var k :| 0 <= k < |tail| && tail[k] == y;
        assert s[k + 1] == y;
      }
    }
    RankedCons(s[0], t);
  }

  /** Sorting by count a list whose keys ascend (the output of groupby over
      a sorted list) leaves ties in ascending key order. */
  lemma {:induction false} SortByCountRanked(s: seq<Entry>)
    requires KeysAscending(s)
    ensures Ranked(SortByCount(s))
  {
    if s != [] {
      var t := s[1..];
      assert KeysAscending(t) by {
        assert forall j :: 0 <= j < |t| ==> t[j] == s[j + 1];
      }
      SortByCountRanked(t);
      forall x | x in multiset(SortByCount(t)) ensures LexLt(s[0].bigram, x.bigram) {
        assert x in multiset(t);
        var j :| 0 <= j < |t| && t[j] == x;
        assert s[j + 1] == x;
      }
      InsertRanked(s[0], SortByCount(t));
    }
  }

  lemma {:induction false} SumCountsPositive(g: seq<Entry>)
    requires PositiveCounts(g) && g != []
    ensures SumCounts(g) >= |g|
  {
    if |g| > 1 {
      assert PositiveCounts(g[1..]) by {
        assert forall j :: 0 <= j < |g[1..]| ==> g[1..][j] == g[j + 1];
      }
      SumCountsPositive(g[1..]);
    }
  }

  /** `g` counts `list`: one entry per distinct item, holding its multiplicity. */
  ghost predicate IsCountOf(g: seq<Entry>, list: seq<string>)
  {
    && PositiveCounts(g)
    && (forall i :: 0 <= i < |g| ==> g[i].count == multiset(list)[g[i].bigram])
    && (forall b :: b in list <==> b in Keys(g))
  }

  /** Grouping a sorted list gives strictly ascending keys. */
  lemma GroupsAscending(groups: seq<Entry>)
    requires Sorted(Expand(groups)) && PositiveCounts(groups)
    requires NeighboursDiffer(groups)
    ensures KeysAscending(groups)
  {
    ExpandSortedKeys(groups);
    AscendingFromKeys(groups);
  }

  lemma AscendingFromKeys(groups: seq<Entry>)
    requires Sorted(Keys(groups))
    requires NeighboursDiffer(groups)
    ensures KeysAscending(groups)
  {
    var ks := Keys(groups);
    forall k | 0 < k < |ks| ensures ks[k - 1] != ks[k] {
      assert ks[k - 1] == groups[k - 1].bigram && ks[k] == groups[k].bigram;
    }
    SortedAdjacentDistinct(ks);
    forall i, j | 0 <= i < j < |groups| ensures LexLt(groups[i].bigram, groups[j].bigram) {
      assert ks[i] == groups[i].bigram && ks[j] == groups[j].bigram;
    }
  }

  /** A grouping with distinct keys and no empty group counts its items. */
  lemma GroupsCount(list: seq<string>, groups: seq<Entry>)
    requires multiset(Expand(groups)) == multiset(list)
    requires PositiveCounts(groups) && KeysAscending(groups)
    ensures IsCountOf(groups, list)
  {
    forall k | 0 <= k < |groups| ensures groups[k].count == multiset(list)[groups[k].bigram] {
      ExpandMultiplicity(groups, k);
    }
    forall b ensures b in list <==> b in Keys(groups) {
      assert b in list <==> b in multiset(Expand(groups));
      ExpandMember(groups, b);
    }
  }

  /** Reordering a count is still a count. */
  lemma PermutedCount(g: seq<Entry>, r: seq<Entry>, list: seq<string>)
    requires IsCountOf(g, list) && multiset(r) == multiset(g)
    ensures IsCountOf(r, list)
  {
    forall i | 0 <= i < |r|
      ensures r[i].count >= 1 && r[i].count == multiset(list)[r[i].bigram]
    {
      assert r[i] in multiset(r);
      var k :| 0 <= k < |g| && g[k] == r[i];
    }
    forall b ensures b in Keys(g) <==> b in Keys(r) {
      if b in Keys(g) {
        var k :| 0 <= k < |g| && Keys(g)[k] == b;
        assert g[k] in multiset(r);
        var i :| 0 <= i < |r| && r[i] == g[k];
        assert Keys(r)[i] == b;
      }
      if b in Keys(r) {
        var i :| 0 <= i < |r| && Keys(r)[i] == b;
        assert r[i] in multiset(g);
        var k :| 0 <= k < |g| && g[k] == r[i];
        assert Keys(g)[k] == b;
      }
    }
  }

  /** In a ranked count, no key occurs twice: equal keys would have equal
      counts, and equal counts need strictly ascending keys. */
  lemma RankedCountDistinct(r: seq<Entry>, list: seq<string>)
    requires IsCountOf(r, list) && Ranked(r)
    ensures forall i, j :: 0 <= i < j < |r| ==> r[i].bigram != r[j].bigram
  {
    forall i, j | 0 <= i < j < |r| ensures r[i].bigram != r[j].bigram {
      assert RankedPair(r[i], r[j]);
    }
  }

  // ---------------------------------------------------------------------
  // bigram_counter (lines 14-47)
  // ---------------------------------------------------------------------

  /** `bigram_counter(reviews)`: one entry per distinct bigram, whose count
      is its number of occurrences, ranked by descending count with ties in
      ascending string order; the counts add up to the number of bigrams. */
  method BigramCounter(reviews: seq<string>) returns (r: seq<Entry>)
    ensures PositiveCounts(r)
    ensures forall i :: 0 <= i < |r| ==> r[i].count == multiset(AllBigrams(reviews))[r[i].bigram]
    ensures forall b :: b in AllBigrams(reviews) <==> b in Keys(r)
    ensures forall i, j :: 0 <= i < j < |r| ==> r[i].bigram != r[j].bigram
    ensures Ranked(r)
    ensures SumCounts(r) == |AllBigrams(reviews)|
    ensures r == [] <==> AllBigrams(reviews) == []
  {
    var list := BigramList(reviews);
    var sorted := SortStrings(list);
    var groups := GroupCount(sorted);
    GroupsAscending(groups);
    GroupsCount(list, groups);
    r := SortByCount(groups);
    SortByCountRanked(groups);
    PermutedCount(groups, r, list);
    RankedCountDistinct(r, list);
    ExpandLength(groups);
    assert |multiset(sorted)| == |multiset(list)|;
    if r != [] {
      SumCountsPositive(r);
    }
  }
}
