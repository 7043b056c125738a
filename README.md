# Yelp bar-review bigram pipeline, in Dafny

This is a Dafny model of the data-transformation core of a two-script Python 2
pipeline over the Yelp Academic dataset.

`data_preprocess.py` does the first half:

- it keeps the businesses whose category list contains `'Bars'`;
- it passes every review through unchanged;
- it joins reviews to bars on business id;
- it splits the joined reviews into a positive class (exactly 5.0 stars) and
  a negative class (2.0 stars or fewer), replacing each newline in a review
  by the two characters `\` and `s`;
- it writes each class to a file, one review per line.

`si601_project_analysis_leabbott.py` does the second half:

- it reads each class back with `readlines()`;
- `bigram_counter` tokenises each review into maximal runs of ASCII word
  characters and lists the lowercased adjacent pairs;
- it counts the pairs by sorting and grouping, then ranks them by
  descending count;
- it sums the counts and attaches `count / total` to each entry;
- it builds the file name under which the n-gram query result was saved;
- it picks out the probabilities of the bigrams that the reference corpus
  returned.

Modules:

- `PyStrings` (pystrings.dfy): the Python string builtins the scripts use,
  on `seq<char>`: `join`, one-character `split`, `replace(c, '')`, and
  `readlines` on a file opened in `'rU'` mode. It also defines `Repeat`,
  n copies of a value, which the join's fan-out and the counting loops are
  stated with.
- `LexOrder` (lexorder.dfy): Python 2's byte-string order, and `sorted`
  as insertion sort with its sortedness and permutation proved.
- `Bigrams` (bigrams.dfy): `bigram_counter`.
- `Analysis` (analysis.dfy): the totals, the probabilities, the query file
  name and the two selection loops.
- `Preprocess` (preprocess.dfy): `data_preprocess.py`.
- `Pipeline` (pipeline.dfy): the hand-off from the written files, read
  back in `'rU'` mode, to `bigram_counter`, as one end-to-end method.

Each modelled loop is a method whose `ensures` gives its result, through a
specification function (most loops) or element by element
(`Analysis.AttachProbabilities`, `Preprocess.ReviewGenerator`);
`Bigrams.GroupCount` states the properties that determine its result. The
loops that write the statistics files (lines 100-108) are not modelled.
Expressions without loops (`sorted`, the comprehensions, the SQL
join, the file-name expressions) are functions.

Probabilities are kept exact: each is the pair `Ratio(count, total)`, not a
float. Ratings are `real`.

The SQL join leaves row order open. The model fixes one order: review by
review, each review repeated once per bar row with its id.

Three behaviours of the code that are easy to misread:

- The selection at lines 154-158 appends one probability per matching
  (rank, phrase) pair. It does so in rank order, not query order, and once
  per repetition of a phrase in the query result.
- The negative loop at lines 161-165 compares against the positive ranking
  (see Findings).
- The class files are read back with `open(..., 'rU')`, where `'\r'` and
  `'\r\n'` also end a line, but the escape at data_preprocess.py:80-82
  replaces only `'\n'`. A `'\r'` anywhere but at the end of a review ends a
  line, so the review comes back as more than one line, and the bigram of
  the two words around that `'\r'` is lost (`Pipeline.ReturnLosesBigram`).
  A trailing `'\r'` merges with the written `'\n'` into one line end
  (`Pipeline.TrailingReturnMerges`). The
  end-to-end results are stated for reviews without `'\r'`.

## Model

| member | source | states |
|---|---|---|
| LexOrder.LexLe | si601_project_analysis_leabbott.py:32 | Python 2's byte-string order, which `sorted` uses: character by character, a proper prefix first (total, antisymmetric and transitive by the three lemmas below) |
| LexOrder.LexLeRefl | si601_project_analysis_leabbott.py:32 | Every string is at most itself |
| LexOrder.LexLeTotal | si601_project_analysis_leabbott.py:32 | Any two byte strings are comparable in Python's order |
| LexOrder.LexLeAntisym | si601_project_analysis_leabbott.py:32 | Two strings each at most the other are equal |
| LexOrder.LexLeTrans | si601_project_analysis_leabbott.py:32 | The string order is transitive |
| LexOrder.Insert | si601_project_analysis_leabbott.py:32 | Inserting into a sorted list keeps it sorted and adds exactly that element |
| LexOrder.SortStrings | si601_project_analysis_leabbott.py:32 | `sorted(bigram_list)` is in ascending order (every pair) and a permutation of its input |
| PyStrings.CountCharAppend | si601_project_analysis_leabbott.py:131 | Occurrence counts add over concatenation |
| PyStrings.ConcatAppend | data_preprocess.py:86-93 | Concatenating a list of lines distributes over list append |
| PyStrings.JoinWith | si601_project_analysis_leabbott.py:131-132 | `'_'.join(qs)` is as long as the pieces plus one separator between each neighbouring pair |
| PyStrings.RemoveAll | si601_project_analysis_leabbott.py:131 | `replace(' ', '')` leaves no space and shortens the string by the number of spaces |
| PyStrings.RemoveAllAppend | si601_project_analysis_leabbott.py:131 | Removal distributes over concatenation |
| PyStrings.RemoveAllAbsent | si601_project_analysis_leabbott.py:131 | Removal leaves a string without that character unchanged |
| PyStrings.RemoveAllJoin | si601_project_analysis_leabbott.py:131-132 | Removing spaces from `'_'.join(qs)` is joining the space-free queries |
| PyStrings.IndexOf | si601_project_analysis_leabbott.py:147 | The first separator position: none before it, and it is the separator when inside the string |
| PyStrings.Split | si601_project_analysis_leabbott.py:147 | `split(',')` gives one more piece than there are commas, none holding a comma |
| PyStrings.SplitJoin | si601_project_analysis_leabbott.py:147 | Splitting a comma-joined list of comma-free pieces returns the pieces |
| PyStrings.JoinSplit | si601_project_analysis_leabbott.py:147 | Joining the pieces of a split returns the original string |
| PyStrings.ReadLines | si601_project_analysis_leabbott.py:51-52 | Cutting text after each '\n' gives non-empty lines, each but the last ending in its only '\n', that concatenate to the text |
| PyStrings.ReadLinesTerminated | si601_project_analysis_leabbott.py:51-52 | Cutting text written as `line + '\n'` per newline-free line gives back those terminated lines |
| PyStrings.Universal | si601_project_analysis_leabbott.py:51-56 | What a file opened in `'rU'` mode hands over holds no '\r' (the translation of each line end is stated by the two lemmas below) |
| PyStrings.UniversalReturnNewline | si601_project_analysis_leabbott.py:51-56 | In `'rU'` mode each "\r\n" reads as one '\n' and the text before it is unchanged |
| PyStrings.UniversalLoneReturn | si601_project_analysis_leabbott.py:51-56 | In `'rU'` mode a '\r' not followed by '\n' reads as '\n' and the text before it is unchanged |
| PyStrings.UniversalUnchanged | si601_project_analysis_leabbott.py:51-56 | Text without '\r' reads unchanged in `'rU'` mode |
| PyStrings.ReadLinesUniversal | si601_project_analysis_leabbott.py:51-56 | `open(..., 'rU').readlines()` returns non-empty lines free of '\r', cut after each '\n' (no '\n' inside a line, each but the last ending in one), that concatenate to the translated text |
| PyStrings.ReadLinesUniversalTerminated | si601_project_analysis_leabbott.py:51-56 | Lines written with a trailing '\n' come back as written under `'rU'` when they hold neither '\n' nor '\r' |
| PyStrings.Terminated | data_preprocess.py:88 | Each written record is its line followed by '\n' |
| PyStrings.RepeatMultiset | data_preprocess.py:74-76 | `n` copies of `x` hold `x` exactly `n` times and nothing else |
| Bigrams.IsWordChar | si601_project_analysis_leabbott.py:21 | `\w` on a byte string: ASCII letters, digits and '_' (what `Bigrams.Words` tokenises on) |
| Bigrams.ToLower | si601_project_analysis_leabbott.py:28 | `.lower()` on one byte: only 'A'..'Z' change, to 'a'..'z' |
| Bigrams.LowerWord | si601_project_analysis_leabbott.py:28 | Lowercasing keeps the length |
| Bigrams.RunLength | si601_project_analysis_leabbott.py:21 | A token extends over word characters and stops just before the first non-word character |
| Bigrams.Words | si601_project_analysis_leabbott.py:21-26 | `findall(r"\b[\w]+\b")` returns only non-empty runs of ASCII word characters |
| Bigrams.WordCharsAppend | si601_project_analysis_leabbott.py:21 | The word characters of a concatenation are the concatenated word characters |
| Bigrams.WordCharsOfWord | si601_project_analysis_leabbott.py:21 | A string of word characters keeps all its characters |
| Bigrams.WordsKeepWordChars | si601_project_analysis_leabbott.py:21-26 | The tokens together hold every word character of the review, in order, and nothing else |
| Bigrams.WordsOfWord | si601_project_analysis_leabbott.py:21-26 | A review that is one word is one token |
| Bigrams.RunLengthAll | si601_project_analysis_leabbott.py:21 | A run over a string of word characters covers the whole string |
| Bigrams.WordsNone | si601_project_analysis_leabbott.py:21-26 | Text without word characters has no tokens |
| Bigrams.RunLengthStops | si601_project_analysis_leabbott.py:21 | A token cannot run past a non-word character |
| Bigrams.WordsSplitAt | si601_project_analysis_leabbott.py:21-26 | Every non-word byte separates: the tokens of `a + c + b` are those of `a` then those of `b` |
| Bigrams.TrailingNewline | si601_project_analysis_leabbott.py:21-26 | The '\n' kept by `readlines` changes no token |
| Bigrams.Bigram | si601_project_analysis_leabbott.py:28 | A bigram is one character longer than its two tokens together, with the space right after the first token (its pairing within a review is stated by `Bigrams.BigramsShape`) |
| Bigrams.Bigrams | si601_project_analysis_leabbott.py:25-29 | The bigrams one review contributes, first pair first (shape proved by `Bigrams.BigramsShape`) |
| Bigrams.BigramsShape | si601_project_analysis_leabbott.py:25-29 | n tokens give max(n-1, 0) bigrams, the i-th being `lower(w[i]) + ' ' + lower(w[i+1])` |
| Bigrams.AllBigrams | si601_project_analysis_leabbott.py:24-29 | The value of `bigram_list`: the bigrams of every review, review after review (its loop is `Bigrams.BigramList`) |
| Bigrams.AllBigramsNone | si601_project_analysis_leabbott.py:21-29 | Reviews without word characters, or no reviews, give no bigrams |
| Bigrams.AllBigramsAppend | si601_project_analysis_leabbott.py:24-29 | The bigram list of two review lists is the concatenation of their bigram lists |
| Bigrams.AllBigramsLength | si601_project_analysis_leabbott.py:24-29 | The number of bigrams is the sum over reviews of max(tokens - 1, 0) |
| Bigrams.BigramList | si601_project_analysis_leabbott.py:24-29 | The nested append loops build exactly the bigrams of all reviews, review after review |
| Bigrams.SumCounts | si601_project_analysis_leabbott.py:63-70 | The value of `n_pos_bgs` / `n_neg_bgs`: the sum of the counts (equal to the number of bigrams by `Bigrams.BigramCounter`) |
| Bigrams.SumCountsAppend | si601_project_analysis_leabbott.py:63-70 | Count sums add over concatenation |
| Bigrams.GroupCount | si601_project_analysis_leabbott.py:36-41 | The groupby counting loop yields positive counts, neighbouring keys differ, and expanding each key by its count gives back the input list |
| Bigrams.GroupStep | si601_project_analysis_leabbott.py:37-41 | Closing a run of equal items extends the groups of the prefix before it to the groups of the prefix it ends: positive counts, differing neighbours, same expansion |
| Bigrams.ExpandPush | si601_project_analysis_leabbott.py:37-41 | Ending a run of equal items with its count extends the expansion by that run |
| Bigrams.ExpandLength | si601_project_analysis_leabbott.py:36-41 | The counts of the groups add up to the length of the grouped list |
| Bigrams.ExpandMember | si601_project_analysis_leabbott.py:36-41 | A bigram is a group key exactly when it occurs in the grouped list |
| Bigrams.ExpandSortedKeys | si601_project_analysis_leabbott.py:32-41 | Grouping a sorted list gives sorted keys |
| Bigrams.SortedAdjacentDistinct | si601_project_analysis_leabbott.py:32-41 | Sorted keys with differing neighbours are strictly ascending |
| Bigrams.ExpandMultiplicity | si601_project_analysis_leabbott.py:36-41 | With distinct keys, each group's count is the multiplicity of its key |
| Bigrams.InsertByCount | si601_project_analysis_leabbott.py:43-44 | Inserting by count keeps counts non-increasing and adds exactly that entry |
| Bigrams.HeadDominates | si601_project_analysis_leabbott.py:43-44 | An entry with a higher count stays ahead of an inserted one |
| Bigrams.HeadAboveRest | si601_project_analysis_leabbott.py:43-44 | An entry with a higher count than the inserted one outranks everything placed after it |
| Bigrams.SortByCount | si601_project_analysis_leabbott.py:43-44 | `sorted(key=-count)` gives non-increasing counts and a permutation with the same total |
| Bigrams.RankedCons | si601_project_analysis_leabbott.py:43-44 | An entry ranked before every later entry can head a ranked list |
| Bigrams.InsertRanked | si601_project_analysis_leabbott.py:43-44 | Inserting an entry whose key precedes all others keeps the ranking |
| Bigrams.RankedTail | si601_project_analysis_leabbott.py:43-44 | The tail of a ranked list is ranked |
| Bigrams.RankedBehindHead | si601_project_analysis_leabbott.py:43-44 | A higher-count head stays ranked before the rest |
| Bigrams.SortByCountRanked | si601_project_analysis_leabbott.py:32-44 | The count sort is stable: on key-ascending input, equal counts stay in ascending key order |
| Bigrams.SumCountsPositive | si601_project_analysis_leabbott.py:36-41 | With every count at least 1, the counts add up to at least the number of entries |
| Bigrams.GroupsAscending | si601_project_analysis_leabbott.py:32-41 | The groups of the sorted list have strictly ascending keys |
| Bigrams.AscendingFromKeys | si601_project_analysis_leabbott.py:32-41 | Sorted keys with differing neighbours give strictly ascending group keys |
| Bigrams.GroupsCount | si601_project_analysis_leabbott.py:32-41 | The groups count the unsorted bigram list |
| Bigrams.PermutedCount | si601_project_analysis_leabbott.py:43-44 | Reordering the entries of a count keeps it a count |
| Bigrams.RankedCountDistinct | si601_project_analysis_leabbott.py:43-44 | A ranked count has no repeated key |
| Bigrams.BigramCounter | si601_project_analysis_leabbott.py:14-47 | One entry per distinct bigram, holding its number of occurrences (at least 1). Ranked by descending count, ties ascending. Counts sum to the number of bigrams. Empty exactly when there are no bigrams |
| Analysis.TotalCount | si601_project_analysis_leabbott.py:62-70 | The accumulator loop totals the counts |
| Analysis.AttachProbabilities | si601_project_analysis_leabbott.py:75-96 | Each row keeps its entry's bigram and count, with probability `count / total`, in rank order |
| Analysis.ProbabilitiesSumToOne | si601_project_analysis_leabbott.py:63-76 | The probabilities of a class share the total as denominator and each is at most 1; the numerators sum to the shared denominator, so the probabilities sum to 1 whenever the class has a bigram |
| Analysis.SumTails | si601_project_analysis_leabbott.py:75-76 | The numerators add up to the summed counts |
| Analysis.CountAtMostSum | si601_project_analysis_leabbott.py:63-70 | No single count exceeds the total |
| Analysis.PositiveTotal | si601_project_analysis_leabbott.py:63-76 | A non-empty count has a positive total, so the division is defined |
| Analysis.QueryHandle | si601_project_analysis_leabbott.py:131-132 | The file handle holds no space |
| Analysis.QueryHandlePieces | si601_project_analysis_leabbott.py:131-132 | The handle is the space-stripped queries joined by '_' |
| Analysis.QueryFilename | si601_project_analysis_leabbott.py:130-135 | The file name is the handle followed by the parameter suffix (the constant `ParamSuffix`, line 130), and holds no space |
| Analysis.EngWords | si601_project_analysis_leabbott.py:147-150 | The phrases after the first field hold no comma |
| Analysis.EngWordsOfHeader | si601_project_analysis_leabbott.py:147-150 | A comma-joined header line gives back its phrases without the first field |
| Analysis.Selection | si601_project_analysis_leabbott.py:154-158 | The value of `pos_rev_probs`: each ranked row's probability once per query phrase equal to its bigram (characterised by `Analysis.SelectionMembers`) |
| Analysis.SelectProbabilities | si601_project_analysis_leabbott.py:154-158 | The nested selection loops compute one probability per (rank, matching phrase) pair, in rank order |
| Analysis.QueriedSnoc | si601_project_analysis_leabbott.py:154-158 | A probability is selected from a longer ranking exactly when it is selected from the shorter one or from the added row |
| Analysis.SelectionMembers | si601_project_analysis_leabbott.py:154-158 | A probability is selected exactly when some ranked bigram carrying it is among the queried phrases |
| Analysis.DistinctMultiplicity | si601_project_analysis_leabbott.py:156 | In a list without repeats each phrase occurs at most once |
| Analysis.SelectionRankOrder | si601_project_analysis_leabbott.py:154-158 | For repeat-free phrases, the selection is the probabilities of the matched bigrams, in rank order |
| Analysis.QueriesWellFormed | si601_project_analysis_leabbott.py:116-122 | The built-in query lists (the constants `PosQueries` and `NegQueries`) repeat no phrase and hold no comma |
| Analysis.PosQueriesSelection | si601_project_analysis_leabbott.py:116-158 | With the built-in positive queries as the result header, the selection is the probabilities of the queried bigrams in rank order, each once |
| Analysis.RankNotQueryOrder | si601_project_analysis_leabbott.py:154-158 | Worked case: the order follows the bigram ranking, not the order of the queries |
| Analysis.CrossSelection | si601_project_analysis_leabbott.py:161-165 | The value of `neg_rev_probs` when no IndexError occurs: negative probabilities wherever the positive bigram of the same rank was queried |
| Analysis.NegativeSelection | si601_project_analysis_leabbott.py:161-165 | The outcome of the negative loops, IndexError included (characterised by `Analysis.SelectNegative`) |
| Analysis.SelectNegative | si601_project_analysis_leabbott.py:161-165 | The negative loops as written. They raise IndexError exactly when there are query phrases and more negative than positive rows. Otherwise they pick negative probabilities where the positive bigram at the same rank matches |
| Analysis.CrossSelectionAligned | si601_project_analysis_leabbott.py:161-165 | When both rankings agree position by position, the negative loops equal the intended selection |
| Analysis.NegativeMismatch | si601_project_analysis_leabbott.py:161-165 | Worked case: a negative probability is picked for a bigram the negative ranking does not contain |
| Analysis.NegQueriesOverrun | si601_project_analysis_leabbott.py:116-165 | With the built-in negative queries as the result header, the negative loops fail exactly when the negative ranking is longer than the positive one |
| Analysis.NegativeOverrun | si601_project_analysis_leabbott.py:161-165 | Worked case: an empty positive ranking makes the negative loops fail with IndexError |
| Preprocess.Bars | data_preprocess.py:21-24 | The filter yields at most one row per record (membership and order: `Preprocess.BarsMember`, `Preprocess.BarsAppend`) |
| Preprocess.IsBar | data_preprocess.py:21 | `'Bars' in line_dict['categories']` |
| Preprocess.BarBusinessGenerator | data_preprocess.py:15-24 | The generator loop yields exactly the filter's rows, in input order |
| Preprocess.BarsMember | data_preprocess.py:21-24 | A row is yielded exactly when some record listed under 'Bars' has that id and rating |
| Preprocess.BarsAppend | data_preprocess.py:15-24 | The filter keeps input order: filtering a concatenation concatenates the filtered parts |
| Preprocess.ReviewRows | data_preprocess.py:38-42 | What `review_generator` yields: one (id, stars, text) row per record, in order |
| Preprocess.ReviewGenerator | data_preprocess.py:33-42 | One (id, stars, text) row per record, same position, nothing dropped |
| Preprocess.Join | data_preprocess.py:74-75 | Every joined row carries the rating and text of some review |
| Preprocess.JoinOne | data_preprocess.py:74-76 | A single review appears once per bar row with its id: k times for k rows, not at all for none |
| Preprocess.JoinAppend | data_preprocess.py:74-76 | Joining a concatenation of reviews concatenates the joins |
| Preprocess.JoinLength | data_preprocess.py:74-76 | The join has one row per (review, bar) pair with equal ids |
| Preprocess.JoinExample | data_preprocess.py:74-76 | Worked case: a review of a non-bar business does not survive the filter and join |
| Preprocess.InClass | data_preprocess.py:80-83 | Positive is exactly 5.0 stars, negative 2.0 stars or fewer (characterised by `Preprocess.ClassesDisjoint`) |
| Preprocess.ClassesDisjoint | data_preprocess.py:80-83 | No rating is in both classes, and a rating is in neither exactly when it is above 2 and other than 5 |
| Preprocess.ClassBoundaries | data_preprocess.py:80-83 | 5.0 is positive only, 2.0 negative only, 3.0 and 4.99 neither |
| Preprocess.Escape | data_preprocess.py:80-82 | An escaped review holds no '\n' |
| Preprocess.EscapeAppend | data_preprocess.py:80-82 | The escape works character by character: it distributes over concatenation |
| Preprocess.EscapeChar | data_preprocess.py:80-82 | A newline becomes backslash-s and every other character stays itself |
| Preprocess.EscapeUnchanged | data_preprocess.py:80-82 | A newline-free review is left unchanged |
| Preprocess.EscapeLength | data_preprocess.py:80-82 | Escaping adds exactly one character per newline |
| Preprocess.EscapeKeepsReturn | data_preprocess.py:80-82 | The escaped text holds a '\r' exactly when the review does (where each character goes is stated by `Preprocess.EscapeChar` and `Preprocess.EscapeAppend`) |
| Preprocess.EscapeLossy | data_preprocess.py:80-82 | A newline and a literal backslash-s escape to the same text |
| Preprocess.Partition | data_preprocess.py:80-83 | No text in a class holds '\n' (the lists themselves, multiplicity and order included, are fixed by `Preprocess.PartitionOne` and `Preprocess.PartitionAppend`) |
| Preprocess.PartitionAppend | data_preprocess.py:80-83 | Classifying a concatenation of joined rows concatenates the class lists, so join order is kept |
| Preprocess.PartitionOne | data_preprocess.py:80-83 | A joined row contributes its escaped text exactly once to a class whose rating it has, and nothing otherwise |
| Preprocess.PartitionMember | data_preprocess.py:80-83 | A text is in a class exactly when it is the escape of some joined review with that class's rating |
| Preprocess.PartitionSizes | data_preprocess.py:80-83 | Positive, negative and unclassified rows add up to all joined rows, so no row is in both classes |
| Preprocess.Written | data_preprocess.py:86-93 | The file contents: `line + '\n'` for every line, in order (read back by `Preprocess.WrittenRoundTrip`) |
| Preprocess.WriteLines | data_preprocess.py:86-93 | The write loop produces each line followed by '\n', in order |
| Preprocess.WrittenSnoc | data_preprocess.py:87-88 | Writing one more line appends it with its '\n' |
| Preprocess.WrittenIsJoin | data_preprocess.py:86-93 | The written text is the lines joined by '\n' with a final '\n' |
| Preprocess.WrittenRoundTrip | data_preprocess.py:86-93 | Splitting the written text at '\n' gives the newline-free lines plus one empty tail |
| Preprocess.PreprocessData | data_preprocess.py:59-93 | The two files are the written escaped 5-star and at-most-2-star texts of the bar-joined reviews |
| Pipeline.AllBigramsOne | si601_project_analysis_leabbott.py:25-29 | A single review contributes the bigrams of its tokens |
| Pipeline.TerminatedBigrams | si601_project_analysis_leabbott.py:51-59 | The '\n' ending each line read back changes no bigram |
| Pipeline.StageHandOff | si601_project_analysis_leabbott.py:51-60 | For written lines free of '\n' and '\r', the `'rU'` read gives each line back with its '\n', and the analysis sees exactly their bigrams |
| Pipeline.CountClass | si601_project_analysis_leabbott.py:51-60 | Counting a class file gives a ranked count of the bigrams of the lines its `'rU'` read returns |
| Pipeline.JoinNoReturn | data_preprocess.py:74-75 | Joined rows hold no '\r' when no review text does |
| Pipeline.PartitionNoReturn | data_preprocess.py:80-83 | A class holds no '\r' when its joined rows hold none |
| Pipeline.CountBarReviews | data_preprocess.py:59-93 | End to end: each class's ranked counts count the bigrams of the lines read back from its file; when no review holds '\r', those are the bigrams of the escaped, bar-joined reviews of that class |
| Pipeline.ReturnSplitsLine | si601_project_analysis_leabbott.py:51-52 | Worked case: the review "a\rb", written as one line, reads back under `'rU'` as the two lines "a\n" and "b\n" |
| Pipeline.WrittenTrailingReturn | data_preprocess.py:86-88 | Worked case: "a b\r" is written as "a b\r\n", which the `'rU'` read translates to "a b\n" |
| Pipeline.TrailingReturnMerges | si601_project_analysis_leabbott.py:51-52 | Worked case: a review ending in '\r', written with its '\n', reads back under `'rU'` as one line ending in '\n' |
| Pipeline.ReturnReviewBigrams | si601_project_analysis_leabbott.py:21-29 | Worked case: the review "a\rb" has the single bigram "a b" |
| Pipeline.OneWordLine | si601_project_analysis_leabbott.py:21-29 | A line of one word and its '\n' gives no bigram |
| Pipeline.SplitLinesBigrams | si601_project_analysis_leabbott.py:21-29 | Worked case: the lines "a\n" and "b\n" give no bigram |
| Pipeline.ReturnLosesBigram | data_preprocess.py:80-93 | Worked case: the bigram "a b" of the review "a\rb" is lost between writing and reading back |
| Pipeline.EscapeGluesS | data_preprocess.py:80-82 | A newline in a review turns "a\nb" into tokens "a", "sb" and bigram "a sb" |

## Left out

- File, JSON and database I/O: `open`, `readline`, `json.loads`, the SQLite tables, inserts and indexes. Records are in-memory sequences of datatypes; a malformed JSON line or a missing key (a fatal error in the source) is outside the model.
- The generators are modelled as the full lists they yield, not as lazy streams.
- The SQL join's row order is unspecified by SQL; the model fixes review-major order and proves the order-independent facts (fan-out, membership, size).
- `'Bars' in line_dict['categories']` is modelled as list membership; the dataset stores categories as a list.
- `.encode('utf8')`: text is modelled as its byte sequence, so the encoding is the identity here.
- Pipeline.CountBarReviews: the equality with the bigrams of the reviews is stated only for reviews without '\r'; for other reviews the counts are stated against the lines the `'rU'` read returns, and `Pipeline.ReturnLosesBigram` shows they differ.
- Pipeline.StageHandOff: holds only for lines free of '\r', for the same reason.
- PyStrings.Split: only one-character separators, the only kind the source uses.
- The n-gram query itself (`runQuery`, a network call to code outside this repository), the query string built at lines 125-126, and the CSV reading at lines 137-145. The query result's header line is an input to `Analysis.EngWords`, and `Analysis.SelectProbabilities` takes the phrase list as an input.
- Floating point: probabilities are exact ratios, not floats. The `float(num)` parsing at lines 148 and 151, the `str` formatting of the statistics files at lines 100-108, and the `math.log` ratios at lines 169-175 are not modelled.
- Analysis.QueryFilename: the model proves the shape of the file name for any query list, not the literal file name for the two built-in lists.
- Bigrams.SortByCountRanked: stability is stated for key-ascending input, which is what grouping a sorted list produces; it is not stated for arbitrary input.
- Chart rendering with numpy and matplotlib.

## Findings

| source | as written | input that shows it | evidently intended | confidence | as-written member | corrected member |
|---|---|---|---|---|---|---|
| si601_project_analysis_leabbott.py:161-165 | The negative loop compares each query phrase with `pos_bgs_cts_probs[i][0]`, the positive bigram at rank i. It appends the negative probability at that rank. | Negative ranking `[("the food", 1)]`, positive ranking `[("the bar", 1)]`, phrases `["the bar"]`: it picks 1/1, though the negative reviews never contain "the bar". With an empty positive ranking and phrase "the food" it raises IndexError. | Compare with `neg_bgs_cts_probs[i][0]`, as the positive loop at lines 154-158 does with its own list. | medium; not executed | Analysis.NegativeMismatch | Analysis.SelectionMembers |
