/** The few Python 2 string builtins the pipeline relies on, on byte
    strings modelled as `seq<char>`: `sep.join`, `s.split(c)`,
    `s.replace(c, '')` and `file.readlines()` on in-memory text, both
    plain and in the 'rU' universal-newline mode; plus `Repeat`, a
    sequence helper the join and the counting loops are stated with. */
module PyStrings {

  /** Number of occurrences of `c` in `s`. */
  function CountChar(s: string, c: char): nat
  {
    if s == [] then 0 else (if s[0] == c then 1 else 0) + CountChar(s[1..], c)
  }

  lemma {:induction false} CountCharAppend(a: string, b: string, c: char)
    ensures CountChar(a + b, c) == CountChar(a, c) + CountChar(b, c)
  {
    if a != [] {
      assert (a + b)[1..] == a[1..] + b;
      CountCharAppend(a[1..], b, c);
    } else {
      assert a + b == b;
    }
  }

  lemma {:induction false} CountCharAbsent(s: string, c: char)
    requires c !in s
    ensures CountChar(s, c) == 0
  {
    if s != [] {
      assert c !in s[1..];
      CountCharAbsent(s[1..], c);
    }
  }

  /** The strings of `xs` one after the other (`''.join(xs)`). */
  function Concat(xs: seq<string>): string
  {
    if xs == [] then "" else xs[0] + Concat(xs[1..])
  }

  lemma {:induction false} ConcatAppend(xs: seq<string>, ys: seq<string>)
    ensures Concat(xs + ys) == Concat(xs) + Concat(ys)
  {
    if xs != [] {
      assert (xs + ys)[1..] == xs[1..] + ys;
      ConcatAppend(xs[1..], ys);
    } else {
      assert xs + ys == ys;
    }
  }

  /** `sep.join(xs)`: the pieces with one separator between neighbours. */
  function JoinWith(sep: string, xs: seq<string>): (r: string)
    ensures |r| == |Concat(xs)| + (if xs == [] then 0 else (|xs| - 1) * |sep|)
  {
    if xs == [] then "" else if |xs| == 1 then xs[0] else xs[0] + sep + JoinWith(sep, xs[1..])
  }

  /** `s.replace(c, '')`: every occurrence of `c` is dropped and the other
      characters keep their order. */
  function RemoveAll(s: string, c: char): (r: string)
    ensures c !in r
    ensures |r| == |s| - CountChar(s, c)
  {
    if s == [] then "" else (if s[0] == c then "" else [s[0]]) + RemoveAll(s[1..], c)
  }

  lemma {:induction false} RemoveAllAppend(a: string, b: string, c: char)
    ensures RemoveAll(a + b, c) == RemoveAll(a, c) + RemoveAll(b, c)
  {
    if a != [] {
      assert (a + b)[1..] == a[1..] + b;
      RemoveAllAppend(a[1..], b, c);
    } else {
      assert a + b == b;
    }
  }

  lemma {:induction false} RemoveAllAbsent(s: string, c: char)
    requires c !in s
    ensures RemoveAll(s, c) == s
  {
    if s != [] {
      assert c !in s[1..];
      RemoveAllAbsent(s[1..], c);
    }
  }

  /** `[x.replace(c, '') for x in xs]`. */
  function RemoveAllEach(xs: seq<string>, c: char): (r: seq<string>)
    ensures |r| == |xs|
  {
    if xs == [] then [] else [RemoveAll(xs[0], c)] + RemoveAllEach(xs[1..], c)
  }

  /** Removing `c` from a joined string is the same as removing it from
      each piece first, when the separator does not contain `c`. */
  lemma {:induction false} RemoveAllJoin(sep: string, xs: seq<string>, c: char)
    requires c !in sep
    ensures RemoveAll(JoinWith(sep, xs), c) == JoinWith(sep, RemoveAllEach(xs, c))
  {
    if |xs| > 1 {
      RemoveAllJoin(sep, xs[1..], c);
      RemoveAllAppend(xs[0] + sep, JoinWith(sep, xs[1..]), c);
      RemoveAllAppend(xs[0], sep, c);
      RemoveAllAbsent(sep, c);
    }
  }

  /** Position of the first `c` in `s`, or `|s|` if there is none. */
  function IndexOf(s: string, c: char): (k: nat)
    ensures k <= |s|
    ensures c !in s[..k]
    ensures k < |s| ==> s[k] == c
  {
    if s == [] then 0
    else if s[0] == c then 0
    else
      var k := 1 + IndexOf(s[1..], c);
      assert s[..k] == [s[0]] + s[1..][..k - 1];
      k
  }

  /** `s.split(c)` for a one-character separator: the pieces between the
      occurrences of `c`, so always one more piece than there are `c`s. */
  function Split(s: string, c: char): (r: seq<string>)
    ensures |r| == CountChar(s, c) + 1
    ensures forall i :: 0 <= i < |r| ==> c !in r[i]
    decreases |s|
  {
    var k := IndexOf(s, c);
    assert s == s[..k] + s[k..];
    CountCharAppend(s[..k], s[k..], c);
    CountCharAbsent(s[..k], c);
    if k == |s| then
      [s]
    else
      assert s[k..] == [c] + s[k + 1..];
      var rest := Split(s[k + 1..], c);
      [s[..k]] + rest
  }

  lemma IndexOfPiece(x: string, rest: string, c: char)
    requires c !in x
    ensures IndexOf(x + [c] + rest, c) == |x|
    ensures IndexOf(x, c) == |x|
  {
    var s := x + [c] + rest;
    assert s[|x|] == c;
    assert forall i :: 0 <= i < |x| ==> s[i] == x[i];
    assert s[..|x| + 1][|x|] == c;
  }

  /** Splitting a joined list recovers it when no piece holds the separator. */
  lemma {:induction false} SplitJoin(xs: seq<string>, c: char)
    requires |xs| >= 1
    requires forall i :: 0 <= i < |xs| ==> c !in xs[i]
    ensures Split(JoinWith([c], xs), c) == xs
  {
    if |xs| == 1 {
      IndexOfPiece(xs[0], "", c);
    } else {
      var rest := JoinWith([c], xs[1..]);
      var s := xs[0] + [c] + rest;
      IndexOfPiece(xs[0], rest, c);
      assert s[..|xs[0]|] == xs[0];
      assert s[|xs[0]| + 1..] == rest;
      SplitJoin(xs[1..], c);
      assert xs == [xs[0]] + xs[1..];
    }
  }

  /** Joining the pieces of a split gives the string back. */
  lemma {:induction false} JoinSplit(s: string, c: char)
    ensures JoinWith([c], Split(s, c)) == s
    decreases |s|
  {
    var k := IndexOf(s, c);
    if k < |s| {
      JoinSplit(s[k + 1..], c);
      var r := Split(s, c);
      assert r == [s[..k]] + Split(s[k + 1..], c);
      assert r[1..] == Split(s[k + 1..], c);
      assert s == s[..k] + [c] + s[k + 1..];
    }
  }

  /** `f.readlines()` on text whose only line terminator is '\n': every
      line but possibly the last ends with its '\n', and nothing is lost. */
  function ReadLines(s: string): (r: seq<string>)
    ensures forall i :: 0 <= i < |r| ==> r[i] != []
    ensures forall i :: 0 <= i < |r| - 1 ==> r[i][|r[i]| - 1] == '\n'
    ensures forall i :: 0 <= i < |r| ==> '\n' !in r[i][..|r[i]| - 1]
    ensures Concat(r) == s
    decreases |s|
  {
    if s == [] then
      []
    else
      var k := IndexOf(s, '\n');
      if k == |s| then
        assert Concat([s]) == s + Concat([]);
        [s]
      else
        var line := s[..k + 1];
        var rest := ReadLines(s[k + 1..]);
        assert line[..|line| - 1] == s[..k];
        assert ([line] + rest)[1..] == rest;
        assert s == line + s[k + 1..];
        [line] + rest
  }

  /** Reading back lines that were each written with a trailing '\n'. */
  lemma {:induction false} ReadLinesTerminated(xs: seq<string>)
    requires forall i :: 0 <= i < |xs| ==> '\n' !in xs[i]
    ensures ReadLines(Concat(Terminated(xs))) == Terminated(xs)
  {
    if xs != [] {
      var rest := Concat(Terminated(xs[1..]));
      assert Terminated(xs)[1..] == Terminated(xs[1..]);
      assert Concat(Terminated(xs)) == xs[0] + "\n" + rest;
      IndexOfPiece(xs[0], rest, '\n');
      var s := xs[0] + "\n" + rest;
      assert s[..|xs[0]| + 1] == xs[0] + "\n";
      assert s[|xs[0]| + 1..] == rest;
      ReadLinesTerminated(xs[1..]);
    }
  }

  /** What a file opened in 'rU' mode hands to `readlines`: every "\r\n"
      and every lone '\r' becomes '\n'. */
  function Universal(s: string): (t: string)
    ensures '\r' !in t
    decreases |s|
  {
    if s == [] then ""
    else if s[0] == '\r' then "\n" + Universal(if |s| > 1 && s[1] == '\n' then s[2..] else s[1..])
    else [s[0]] + Universal(s[1..])
  }

  lemma {:induction false} UniversalUnchanged(s: string)
    requires '\r' !in s
    ensures Universal(s) == s
  {
    if s != [] {
      assert '\r' !in s[1..];
      UniversalUnchanged(s[1..]);
    }
  }

  /** A "\r\n" reads as a single '\n'; with `UniversalLoneReturn` and
      `UniversalUnchanged` this fixes `Universal` on every string. */
  lemma {:induction false} UniversalReturnNewline(x: string, y: string)
    requires '\r' !in x
    ensures Universal(x + "\r\n" + y) == x + "\n" + Universal(y)
  {
    var s := x + "\r\n" + y;
    if x == [] {
      assert s == "\r\n" + y;
      assert s[2..] == y;
    } else {
      assert s[1..] == x[1..] + "\r\n" + y;
      assert '\r' !in x[1..];
      UniversalReturnNewline(x[1..], y);
      assert x == [x[0]] + x[1..];
    }
  }

  /** A '\r' not followed by '\n' reads as '\n'. */
  lemma {:induction false} UniversalLoneReturn(x: string, y: string)
    requires '\r' !in x
    requires y == [] || y[0] != '\n'
    ensures Universal(x + "\r" + y) == x + "\n" + Universal(y)
  {
    var s := x + "\r" + y;
    if x == [] {
      assert s == "\r" + y;
      assert s[1..] == y;
    } else {
      assert s[1..] == x[1..] + "\r" + y;
      assert '\r' !in x[1..];
      UniversalLoneReturn(x[1..], y);
      assert x == [x[0]] + x[1..];
    }
  }

  /** `f.readlines()` on a file opened with mode 'rU'. */
  function ReadLinesUniversal(s: string): (r: seq<string>)
    ensures forall i :: 0 <= i < |r| ==> r[i] != [] && '\r' !in r[i]
    ensures forall i :: 0 <= i < |r| - 1 ==> r[i][|r[i]| - 1] == '\n'
    ensures forall i :: 0 <= i < |r| ==> '\n' !in r[i][..|r[i]| - 1]
    ensures Concat(r) == Universal(s)
  {
    var r := ReadLines(Universal(s));
    ConcatKeepsOut(r, '\r');
    r
  }

  /** A character in a piece is in the concatenation. */
  lemma {:induction false} ConcatKeepsOut(xs: seq<string>, c: char)
    ensures (exists i :: 0 <= i < |xs| && c in xs[i]) ==> c in Concat(xs)
  {
    if xs != [] {
      ConcatKeepsOut(xs[1..], c);
      if exists i :: 0 <= i < |xs| && c in xs[i] {
        var i :| 0 <= i < |xs| && c in xs[i];
        if i > 0 {
          assert c in xs[1..][i - 1];
        }
      }
    }
  }

  /** Pieces without `c` concatenate to a string without `c`. */
  lemma {:induction false} ConcatFree(xs: seq<string>, c: char)
    requires forall i :: 0 <= i < |xs| ==> c !in xs[i]
    ensures c !in Concat(xs)
  {
    if xs != [] {
      ConcatFree(xs[1..], c);
    }
  }

  /** Under 'rU', lines written with a trailing '\n' come back as written
      when they hold neither '\n' nor '\r'. */
  lemma ReadLinesUniversalTerminated(xs: seq<string>)
    requires forall i :: 0 <= i < |xs| ==> '\n' !in xs[i] && '\r' !in xs[i]
    ensures ReadLinesUniversal(Concat(Terminated(xs))) == Terminated(xs)
  {
    var ts := Terminated(xs);
    forall i | 0 <= i < |ts| ensures '\r' !in ts[i] {
      assert ts[i] == xs[i] + "\n";
    }
    ConcatFree(ts, '\r');
    UniversalUnchanged(Concat(ts));
    ReadLinesTerminated(xs);
  }

  /** `[x + '\n' for x in xs]`. */
  function Terminated(xs: seq<string>): (r: seq<string>)
    ensures |r| == |xs|
    ensures forall i :: 0 <= i < |xs| ==> r[i] == xs[i] + "\n"
  {
    if xs == [] then [] else [xs[0] + "\n"] + Terminated(xs[1..])
  }

  /** `n` copies of `x`. Not a Python builtin the scripts call: it
      describes the fan-out of the SQL join (a review once per matching
      row), a run of equal items in a grouping, and the repeated appends of
      the selection loops. */
  function Repeat<T>(x: T, n: nat): (r: seq<T>)
    ensures |r| == n
    ensures forall i :: 0 <= i < n ==> r[i] == x
  {
    if n == 0 then [] else Repeat(x, n - 1) + [x]
  }

  lemma {:induction false} RepeatMultiset<T>(x: T, n: nat, y: T)
    ensures multiset(Repeat(x, n))[y] == if x == y then n else 0
  {
    if n > 0 {
      RepeatMultiset(x, n - 1, y);
    }
  }
}
