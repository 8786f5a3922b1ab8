/** Output lines of the parity checker: which lines carry data, how lines are
    ordered, and the two-pointer comparison of two sorted outputs. */
module Lines {
  import opened Seqs

  type Line = string

  // ---- data lines ----

  /** Unicode `White_Space`. */
  predicate IsWhitespace(c: char) {
    '\t' <= c <= '\r' || c == ' ' || c == '\U{85}' || c == '\U{A0}' || c == '\U{1680}' ||
    '\U{2000}' <= c <= '\U{200A}' || c == '\U{2028}' || c == '\U{2029}' || c == '\U{202F}' ||
    c == '\U{205F}' || c == '\U{3000}'
  }

  function TrimStart(s: string): string {
    if s != [] && IsWhitespace(s[0]) then TrimStart(s[1..]) else s
  }

  function TrimEnd(s: string): string {
    if s != [] && IsWhitespace(s[|s| - 1]) then TrimEnd(s[..|s| - 1]) else s
  }

  function Trim(s: string): string { TrimEnd(TrimStart(s)) }

  /** Header, footer and blank lines, which no comparison looks at. */
  predicate IsFooterOrHeader(line: Line) {
    var t := Trim(line);
    || t == ""
    || "Drives?" <= t
    || "MMMmmm that was FAST" <= t
    || "Search path" <= t
    || "\"Path\"" <= t
    || "Path\t" <= t
  }

  predicate IsData(line: Line) { !IsFooterOrHeader(line) }

  function DataLines(lines: seq<Line>): seq<Line> {
    Filter(IsData, lines)
  }

  // ---- the order of lines ----

  /** Byte order of UTF-8 text, which is code point order. */
  predicate Before(a: Line, b: Line) {
    b != [] && (a == [] || a[0] < b[0] || (a[0] == b[0] && Before(a[1..], b[1..])))
  }

  lemma {:induction false} BeforeTotal(a: Line, b: Line)
    ensures a == b || Before(a, b) || Before(b, a)
    ensures !(Before(a, b) && Before(b, a))
    ensures !Before(a, a)
  {
    if a != [] && b != [] {
      BeforeTotal(a[1..], b[1..]);
      assert a == [a[0]] + a[1..] && b == [b[0]] + b[1..];
    }
    if a != [] {
      BeforeTotal(a[1..], a[1..]);
    }
  }

  lemma {:induction false} BeforeTransitive(a: Line, b: Line, c: Line)
    requires Before(a, b) && Before(b, c)
    ensures Before(a, c)
  {
    if a != [] && a[0] == b[0] == c[0] {
      BeforeTransitive(a[1..], b[1..], c[1..]);
    }
  }

  predicate Sorted(s: seq<Line>) {
    |s| <= 1 || (!Before(s[1], s[0]) && Sorted(s[1..]))
  }

  lemma NotBeforeTransitive(a: Line, b: Line, c: Line)
    requires !Before(b, a) && !Before(c, b)
    ensures !Before(c, a)
  {
    BeforeTotal(a, b);
    BeforeTotal(b, c);
    if a != b && b != c {
      BeforeTransitive(a, b, c);
      BeforeTotal(a, c);
    }
  }

  /** The first line of a sorted list is a least one. */
  lemma {:induction false} HeadIsLeast(s: seq<Line>, x: Line)
    requires Sorted(s)
    requires x in s
    ensures !Before(x, s[0])
  {
    BeforeTotal(x, x);
    if x != s[0] {
      assert s == [s[0]] + s[1..];
      HeadIsLeast(s[1..], x);
      NotBeforeTransitive(s[0], s[1], x);
    }
  }

  function Insert(x: Line, s: seq<Line>): (r: seq<Line>)
    ensures r != [] && (r[0] == x || (s != [] && r[0] == s[0]))
  {
    if s == [] || Before(x, s[0]) then [x] + s else [s[0]] + Insert(x, s[1..])
  }

  lemma {:induction false} InsertKeeps(x: Line, s: seq<Line>)
    ensures multiset(Insert(x, s)) == multiset{x} + multiset(s)
  {
    if !(s == [] || Before(x, s[0])) {
      InsertKeeps(x, s[1..]);
      assert s == [s[0]] + s[1..];
    }
  }

  lemma {:induction false} InsertSorts(x: Line, s: seq<Line>)
    requires Sorted(s)
    ensures Sorted(Insert(x, s))
  {
    var r := Insert(x, s);
    if s == [] || Before(x, s[0]) {
      assert r[1..] == s;
      if s != [] {
        BeforeTotal(x, s[0]);
      }
    } else {
      assert r[1..] == Insert(x, s[1..]);
      InsertSorts(x, s[1..]);
    }
  }

  /** The sort used before comparing: lines that compare equal are equal, so any order among them is the same. */
  function Sort(s: seq<Line>): seq<Line> {
    if s == [] then [] else Insert(s[0], Sort(s[1..]))
  }

  lemma {:induction false} SortSorts(s: seq<Line>)
    ensures Sorted(Sort(s))
    ensures multiset(Sort(s)) == multiset(s)
  {
    if s != [] {
      SortSorts(s[1..]);
      InsertSorts(s[0], Sort(s[1..]));
      InsertKeeps(s[0], Sort(s[1..]));
      assert s == [s[0]] + s[1..];
    }
  }

  /** The data lines in sorted order. */
  method FilterDataLines(lines: seq<Line>) returns (r: seq<Line>)
    ensures Sorted(r)
    ensures multiset(r) == multiset(DataLines(lines))
  {
    var filtered := [];
    for i := 0 to |lines|
      invariant filtered == DataLines(lines[..i])
    {
      FilterSnoc(IsData, lines[..i], lines[i]);
      assert lines[..i + 1] == lines[..i] + [lines[i]];
      if !IsFooterOrHeader(lines[i]) {
        filtered := filtered + [lines[i]];
      }
    }
    assert lines[..|lines|] == lines;
    r := Sort(filtered);
    SortSorts(filtered);
  }

  // ---- the two-pointer merge ----

  /** What the merge of two sorted lists leaves of `mine`. */
  function Leftover(mine: seq<Line>, other: seq<Line>): seq<Line>
    decreases |mine| + |other|
  {
    if mine == [] then []
    else if other == [] then mine
    else if mine[0] == other[0] then Leftover(mine[1..], other[1..])
    else if Before(mine[0], other[0]) then [mine[0]] + Leftover(mine[1..], other)
    else Leftover(mine, other[1..])
  }

  /** A line that lies before the head of a sorted list is not in it. */
  lemma SmallerIsAbsent(x: Line, s: seq<Line>)
    requires Sorted(s)
    requires s != [] ==> Before(x, s[0])
    ensures x !in s
  {
    if x in s {
      HeadIsLeast(s, x);
    }
  }

  function Count(s: seq<Line>, x: Line): nat {
    if s == [] then 0 else (if s[0] == x then 1 else 0) + Count(s[1..], x)
  }

  lemma {:induction false} CountIsMultiplicity(s: seq<Line>, x: Line)
    ensures Count(s, x) == multiset(s)[x]
  {
    if s != [] {
      assert s == [s[0]] + s[1..];
      CountIsMultiplicity(s[1..], x);
    }
  }

  lemma {:induction false} SmallerCount(x: Line, s: seq<Line>)
    requires Sorted(s)
    requires s != [] ==> Before(x, s[0])
    ensures Count(s, x) == 0
  {
    CountIsMultiplicity(s, x);
    SmallerIsAbsent(x, s);
  }

  /** What `used` uses leave of `count`. */
  function Left(count: nat, used: nat): nat { if count > used then count - used else 0 }

  lemma {:induction false} LeftoverCount(mine: seq<Line>, other: seq<Line>, x: Line)
    requires Sorted(mine) && Sorted(other)
    ensures Count(Leftover(mine, other), x) == Left(Count(mine, x), Count(other, x))
    decreases |mine| + |other|
  {
    if mine != [] && other != [] {
      BeforeTotal(mine[0], other[0]);
      if mine[0] == other[0] {
        LeftoverCount(mine[1..], other[1..], x);
      } else if Before(mine[0], other[0]) {
        LeftoverCount(mine[1..], other, x);
        SmallerCount(mine[0], other);
        var rest := Leftover(mine[1..], other);
        assert ([mine[0]] + rest)[1..] == rest;
      } else {
        LeftoverCount(mine, other[1..], x);
        SmallerCount(other[0], mine);
      }
    }
  }

  /** The merge computes the multiset difference. */
  lemma LeftoverIsDifference(mine: seq<Line>, other: seq<Line>)
    requires Sorted(mine) && Sorted(other)
    ensures multiset(Leftover(mine, other)) == multiset(mine) - multiset(other)
  {
    forall x ensures multiset(Leftover(mine, other))[x] == (multiset(mine) - multiset(other))[x] {
      LeftoverCount(mine, other, x);
      CountIsMultiplicity(Leftover(mine, other), x);
      CountIsMultiplicity(mine, x);
      CountIsMultiplicity(other, x);
    }
  }

  /** One step of the merge, seen from one side. */
  lemma LeftoverStep(only: seq<Line>, mine: seq<Line>, i: nat, other: seq<Line>, j: nat)
    requires i < |mine| && j < |other|
    ensures only + Leftover(mine[i..], other[j..]) ==
            if mine[i] == other[j] then only + Leftover(mine[i + 1..], other[j + 1..])
            else if Before(mine[i], other[j]) then (only + [mine[i]]) + Leftover(mine[i + 1..], other[j..])
            else only + Leftover(mine[i..], other[j + 1..])
  {
    assert mine[i..][1..] == mine[i + 1..] && other[j..][1..] == other[j + 1..];
  }

  /** The trailing loop: once one list is used up, the rest of the other has no partner. */
  method Drain(only: seq<Line>, mine: seq<Line>, from: nat) returns (r: seq<Line>)
    requires from <= |mine|
    ensures r == only + mine[from..]
  {
    r := only;
    for i := from to |mine|
      invariant r == only + mine[from..i]
    {
      r := r + [mine[i]];
    }
  }

  /** The merge loop. */
  method Merge(subset: seq<Line>, superset: seq<Line>)
    returns (a: nat, b: nat, onlyInSubset: seq<Line>, onlyInSuperset: seq<Line>)
    ensures a <= |subset| && b <= |superset| && (a == |subset| || b == |superset|)
    ensures onlyInSubset + Leftover(subset[a..], superset[b..]) == Leftover(subset, superset)
    ensures onlyInSuperset + Leftover(superset[b..], subset[a..]) == Leftover(superset, subset)
  {
    onlyInSubset, onlyInSuperset := [], [];
    a, b := 0, 0;
    assert subset[0..] == subset && superset[0..] == superset;
    while a < |subset| && b < |superset|
      invariant a <= |subset| && b <= |superset|
      invariant onlyInSubset + Leftover(subset[a..], superset[b..]) == Leftover(subset, superset)
      invariant onlyInSuperset + Leftover(superset[b..], subset[a..]) == Leftover(superset, subset)
      decreases |subset| + |superset| - a - b
    {
      LeftoverStep(onlyInSubset, subset, a, superset, b);
      LeftoverStep(onlyInSuperset, superset, b, subset, a);
      BeforeTotal(subset[a], superset[b]);
      if subset[a] == superset[b] {
        a := a + 1;
        b := b + 1;
      } else if Before(subset[a], superset[b]) {
        onlyInSubset := onlyInSubset + [subset[a]];
        a := a + 1;
      } else {
        onlyInSuperset := onlyInSuperset + [superset[b]];
        b := b + 1;
      }
    }
  }

  /** One sorted list against another, keeping what has no partner. The two results
      are the multiset differences of the inputs. */
  method CheckSortedSubset(subset: seq<Line>, superset: seq<Line>)
    returns (onlyInSubset: seq<Line>, onlyInSuperset: seq<Line>)
    requires Sorted(subset) && Sorted(superset)
    ensures multiset(onlyInSubset) == multiset(subset) - multiset(superset)
    ensures multiset(onlyInSuperset) == multiset(superset) - multiset(subset)
  {
    var a, b;
    a, b, onlyInSubset, onlyInSuperset := Merge(subset, superset);
    onlyInSubset := Drain(onlyInSubset, subset, a);
    onlyInSuperset := Drain(onlyInSuperset, superset, b);
    LeftoverIsDifference(subset, superset);
    LeftoverIsDifference(superset, subset);
  }

  // ---- which lines are not data ----

  /** The 25 code points that count as white space. */
  lemma WhitespaceIs(c: char)
    ensures IsWhitespace(c) <==>
            c in {'\U{9}', '\U{A}', '\U{B}', '\U{C}', '\U{D}', '\U{20}', '\U{85}', '\U{A0}', '\U{1680}', '\U{2000}',
                  '\U{2001}', '\U{2002}', '\U{2003}', '\U{2004}', '\U{2005}', '\U{2006}', '\U{2007}', '\U{2008}',
                  '\U{2009}', '\U{200A}', '\U{2028}', '\U{2029}', '\U{202F}', '\U{205F}', '\U{3000}'}
  {
  }

  predicate Blank(s: string) { forall k :: 0 <= k < |s| ==> IsWhitespace(s[k]) }

  lemma {:induction false} TrimEndKeeps(p: string, s: string)
    requires p != ""
    ensures p <= TrimEnd(s) <==> p <= s && !Blank(s[|p| - 1..])
  {
    var n := |s| - 1;
    if |p| > |s| {
      TrimEndShrinks(s);
    } else if !IsWhitespace(s[n]) {
      assert s[|p| - 1..][n - (|p| - 1)] == s[n];
    } else {
      TrimEndKeeps(p, s[..n]);
      BlankEnd(p, s);
    }
  }

  /** White space at the end does not count. */
  lemma BlankEnd(p: string, s: string)
    requires 0 < |p| <= |s| && IsWhitespace(s[|s| - 1])
    ensures var front := s[..|s| - 1];
            (p <= s && !Blank(s[|p| - 1..])) <==> (p <= front && !Blank(front[|p| - 1..]))
  {
    var n := |s| - 1;
    if |p| <= n {
      assert s[|p| - 1..] == s[..n][|p| - 1..] + [s[n]];
      assert p <= s <==> p <= s[..n];
    } else {
      assert s[n..] == [s[n]];
    }
  }

  lemma {:induction false} TrimEndShrinks(s: string)
    ensures |TrimEnd(s)| <= |s|
  {
    if s != "" && IsWhitespace(s[|s| - 1]) {
      TrimEndShrinks(s[..|s| - 1]);
    }
  }

  /** White space up to `i`, then something else. */
  predicate InkAt(s: string, i: nat) { i < |s| && Blank(s[..i]) && !IsWhitespace(s[i]) }

  lemma {:induction false} TrimStartToInk(s: string, i: nat)
    requires InkAt(s, i)
    ensures TrimStart(s) == s[i..]
  {
    if i > 0 {
      assert s[..i][0] == s[0];
      assert s[1..][..i - 1] == s[..i][1..];
      TrimStartToInk(s[1..], i - 1);
    }
  }

  lemma {:induction false} InkOrBlank(s: string)
    ensures Blank(s) || exists i: nat :: InkAt(s, i)
  {
    if s != "" {
      if IsWhitespace(s[0]) {
        InkOrBlank(s[1..]);
        if i: nat :| InkAt(s[1..], i) {
          assert s[..i + 1] == [s[0]] + s[1..][..i];
          assert InkAt(s, i + 1);
        } else {
          assert s == [s[0]] + s[1..];
        }
      } else {
        assert InkAt(s, 0);
      }
    }
  }

  lemma {:induction false} BlankTrims(s: string)
    requires Blank(s)
    ensures TrimStart(s) == ""
  {
    if s != "" {
      BlankTrims(s[1..]);
    }
  }

  /** The prefix stands behind nothing but white space, and its last character or something after it is ink. */
  predicate StandsFirst(line: Line, p: string, i: nat)
    requires p != ""
  {
    i <= |line| && Blank(line[..i]) && p <= line[i..] && !Blank(line[i + |p| - 1..])
  }

  lemma TrimmedStarts(line: Line, p: string)
    requires p != "" && !IsWhitespace(p[0])
    ensures p <= Trim(line) <==> exists i: nat :: StandsFirst(line, p, i)
  {
    forall i: nat | i < |line| && p <= line[i..] ensures !IsWhitespace(line[i]) {
      assert line[i..][0] == p[0];
    }
    InkOrBlank(line);
    if i: nat :| InkAt(line, i) {
      TrimStartToInk(line, i);
      TrimEndKeeps(p, line[i..]);
      if p <= line[i..] {
        assert line[i..][|p| - 1..] == line[i + |p| - 1..];
      }
      assert p <= Trim(line) <==> StandsFirst(line, p, i);
      forall j: nat | StandsFirst(line, p, j) ensures j == i {
        assert line[j..][0] == p[0];
        TrimStartToInk(line, j);
        assert |line[i..]| == |line[j..]|;
      }
    } else {
      BlankTrims(line);
    }
  }

  lemma TrimmedToNothing(line: Line)
    ensures Trim(line) == "" <==> Blank(line)
  {
    InkOrBlank(line);
    if i: nat :| InkAt(line, i) {
      TrimStartToInk(line, i);
      TrimEndKeeps(line[i..i + 1], line[i..]);
      assert line[i..][0] == line[i];
    } else {
      BlankTrims(line);
    }
  }

  /** `p` follows the white space at the start of the line. */
  predicate Opens(line: Line, p: string, i: nat) { i <= |line| && Blank(line[..i]) && p <= line[i..] }

  /** A line is no data exactly when it is blank, or opens, after white space, with one of the four texts, or with
      `Path` and a tab and does not end there. */
  lemma NotDataIff(line: Line)
    ensures IsFooterOrHeader(line) <==>
            || Blank(line)
            || (exists i: nat :: Opens(line, "Drives?", i))
            || (exists i: nat :: Opens(line, "MMMmmm that was FAST", i))
            || (exists i: nat :: Opens(line, "Search path", i))
            || (exists i: nat :: Opens(line, "\"Path\"", i))
            || (exists i: nat :: Opens(line, "Path\t", i) && !Blank(line[i + 5..]))
  {
    TrimmedToNothing(line);
    OpensIff(line, "Drives?");
    OpensIff(line, "MMMmmm that was FAST");
    OpensIff(line, "Search path");
    OpensIff(line, "\"Path\"");
    TabOpensIff(line, "Path\t");
  }

  lemma OpensIff(line: Line, p: string)
    requires p != "" && !IsWhitespace(p[0]) && !IsWhitespace(p[|p| - 1])
    ensures p <= Trim(line) <==> exists i: nat :: Opens(line, p, i)
  {
    TrimmedStarts(line, p);
    forall i: nat ensures Opens(line, p, i) <==> StandsFirst(line, p, i) {
      if Opens(line, p, i) {
        assert line[i + |p| - 1..][0] == line[i..][|p| - 1];
      }
    }
  }

  lemma TabOpensIff(line: Line, p: string)
    requires p != "" && !IsWhitespace(p[0]) && IsWhitespace(p[|p| - 1])
    ensures p <= Trim(line) <==> exists i: nat :: Opens(line, p, i) && !Blank(line[i + |p|..])
  {
    TrimmedStarts(line, p);
    forall i: nat ensures Opens(line, p, i) && !Blank(line[i + |p|..]) <==> StandsFirst(line, p, i) {
      if Opens(line, p, i) {
        assert line[i + |p| - 1..] == [line[i..][|p| - 1]] + line[i + |p|..];
      }
    }
  }

  // ---- the order, character by character ----

  /** The lines agree up to `k`, where `a` ends or has the smaller character. */
  predicate SmallerAt(a: Line, b: Line, k: nat) {
    k <= |a| && k < |b| && a[..k] == b[..k] && (k == |a| || a[k] < b[k])
  }

  lemma SmallerNext(a: Line, b: Line, k: nat)
    requires a != "" && b != "" && a[0] == b[0]
    ensures SmallerAt(a, b, k + 1) <==> SmallerAt(a[1..], b[1..], k)
  {
    if k < |a| && k + 1 < |b| {
      assert a[..k + 1] == [a[0]] + a[1..][..k] && b[..k + 1] == [b[0]] + b[1..][..k];
      assert a[..k + 1][1..] == a[1..][..k] && b[..k + 1][1..] == b[1..][..k];
    }
  }

  lemma {:induction false} BeforeIff(a: Line, b: Line)
    ensures Before(a, b) <==> exists k: nat :: SmallerAt(a, b, k)
  {
    if b != "" && (a == "" || a[0] < b[0]) {
      assert SmallerAt(a, b, 0);
    } else if b != "" && a[0] == b[0] {
      BeforeIff(a[1..], b[1..]);
      if k: nat :| SmallerAt(a[1..], b[1..], k) {
        SmallerNext(a, b, k);
        assert SmallerAt(a, b, k + 1);
      }
      if k: nat :| SmallerAt(a, b, k) {
        assert k > 0;
        SmallerNext(a, b, k - 1);
        assert SmallerAt(a[1..], b[1..], k - 1);
      }
    } else {
      assert forall k: nat :: 0 < k <= |a| && k <= |b| ==> a[..k][0] == a[0] && b[..k][0] == b[0];
      assert forall k: nat :: SmallerAt(a, b, k) ==> k == 0 || a[..k][0] == b[..k][0];
    }
  }
}
