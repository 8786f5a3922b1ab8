/** Why the optimality of the reconciliation needs well-formed rows: for quoted paths that begin with a comma the
    path extraction returns a lone quote, rows of different paths meet, and the greedy pairing can miss a pair. */
module LeadingComma {
  import opened Seqs
  import opened Lines
  import opened Csv
  import opened LiveSkew
  import opened GreedyMatching

  predicate NoQuote(s: string) { forall i :: 0 <= i < |s| ==> s[i] != QUOTE }

  lemma {:induction false} QuotedFieldSplits(path: string, rest: string)
    requires NoQuote(path)
    ensures RawFields(path + ([QUOTE, COMMA] + rest), true) == [path + [QUOTE]] + Split(rest)
  {
    var s := path + ([QUOTE, COMMA] + rest);
    if path == [] {
      assert s == [QUOTE, COMMA] + rest;
      assert s[1..] == [COMMA] + rest && s[1..][1..] == rest;
      assert RawFields(s[1..], false) == [""] + Split(rest);
      PrependToEmptyField([QUOTE], Split(rest));
      assert path + [QUOTE] == [QUOTE];
    } else {
      assert s[1..] == path[1..] + ([QUOTE, COMMA] + rest);
      QuotedFieldSplits(path[1..], rest);
      assert [path[0]] + (path[1..] + [QUOTE]) == path + [QUOTE];
      assert PrependTo([path[0]], [path[1..] + [QUOTE]] + Split(rest)) == [path + [QUOTE]] + Split(rest);
    }
  }

  lemma QuotedRowSplits(path: string, rest: string)
    requires NoQuote(path)
    ensures Split(QuotedRow(path, rest)) == [[QUOTE] + path + [QUOTE]] + Split(rest)
  {
    var inner := path + ([QUOTE, COMMA] + rest);
    assert QuotedRow(path, rest) == [QUOTE] + inner;
    assert ([QUOTE] + inner)[1..] == inner;
    QuotedFieldSplits(path, rest);
    assert [QUOTE] + (path + [QUOTE]) == [QUOTE] + path + [QUOTE];
    assert PrependTo([QUOTE], [path + [QUOTE]] + Split(rest)) == [[QUOTE] + path + [QUOTE]] + Split(rest);
  }

  lemma CommaSplits(s: string)
    ensures Split([COMMA] + s) == [""] + Split(s)
  {
    assert ([COMMA] + s)[1..] == s;
  }

  lemma OneCharSplits(c: char)
    requires c != COMMA && c != QUOTE
    ensures Split([c]) == [[c]]
  {
    assert [c][1..] == [];
    assert RawFields([], false) == [""];
    PrependToEmptyField([c], []);
    assert [""] + [] == [""] && [[c]] + [] == [[c]];
    assert Split([c]) == PrependTo([c], [""]);
  }

  function Blanks(n: nat, accessed: string): string {
    if n == 0 then accessed else [COMMA] + Blanks(n - 1, accessed)
  }

  function BlankFields(n: nat, accessed: string): (r: seq<string>)
    ensures |r| == n + 1 && r[n] == accessed && forall i :: 0 <= i < n ==> r[i] == ""
  {
    if n == 0 then [accessed] else [""] + BlankFields(n - 1, accessed)
  }

  lemma {:induction false} BlanksSplit(n: nat, accessed: string)
    requires Split(accessed) == [accessed]
    ensures Split(Blanks(n, accessed)) == BlankFields(n, accessed)
  {
    if n > 0 {
      BlanksSplit(n - 1, accessed);
      CommaSplits(Blanks(n - 1, accessed));
    }
  }

  /** A row whose only other content is its access time. */
  function Row(path: string, accessed: string): Line { QuotedRow(path, Blanks(6, accessed)) }

  function RowFields(path: string, accessed: string): seq<string> {
    [[QUOTE] + path + [QUOTE]] + BlankFields(6, accessed)
  }

  lemma RowSplits(path: string, accessed: string)
    requires NoQuote(path) && Split(accessed) == [accessed]
    ensures Split(Row(path, accessed)) == RowFields(path, accessed)
  {
    BlanksSplit(6, accessed);
    QuotedRowSplits(path, Blanks(6, accessed));
  }

  lemma QuotedPath(path: string)
    requires NoQuote(path)
    ensures TrimEndChar(TrimStartChar([QUOTE] + path + [QUOTE], QUOTE), QUOTE) == path
  {
    var quoted := [QUOTE] + path + [QUOTE];
    assert quoted[1..] == path + [QUOTE];
    if path == [] {
      assert quoted == [QUOTE, QUOTE] && quoted[1..] == [QUOTE] && [QUOTE][1..] == [];
      assert TrimStartChar([QUOTE], QUOTE) == [];
    } else {
      assert (path + [QUOTE])[0] == path[0];
      assert TrimStartChar(quoted, QUOTE) == path + [QUOTE];
      assert (path + [QUOTE])[..|path|] == path;
      assert TrimEndChar(path, QUOTE) == path by { assert path[|path| - 1] != QUOTE; }
    }
  }

  lemma RowPath(path: string, accessed: string)
    requires NoQuote(path)
    ensures PathOf(RowFields(path, accessed)) == path
  {
    QuotedPath(path);
    assert RowFields(path, accessed)[0] == [QUOTE] + path + [QUOTE];
  }

  predicate StartsWithComma(path: string) { path != [] && path[0] == COMMA && NoQuote(path) }

  /** Two such rows are compared whatever their paths are; the baseline path alone decides how. */
  lemma PairAccepted(p: string, q: string)
    requires StartsWithComma(p) && StartsWithComma(q)
    ensures Acceptable(Row(p, "0"), Row(q, "1")) <==> IsNtfsVolatilePath(p) || p == q
  {
    QuotedRowWellFormedIff(p, Blanks(6, "0"));
    QuotedRowWellFormedIff(q, Blanks(6, "1"));
    OneCharSplits('0');
    OneCharSplits('1');
    RowSplits(p, "0");
    RowSplits(q, "1");
    RowPath(p, "0");
    FieldsAccepted(p, q);
  }

  lemma RowsDifferAt(p: string, q: string, i: int)
    ensures DiffersAt(RowFields(p, "0"), RowFields(q, "1"), i) <==> (i == 0 && p != q) || i == 7
  {
    var b, r := RowFields(p, "0"), RowFields(q, "1");
    QuotedPathsDiffer(p, q);
    assert b[0] == [QUOTE] + p + [QUOTE] && r[0] == [QUOTE] + q + [QUOTE];
    assert b[7] == "0" && r[7] == "1" && b[7] != r[7];
    assert 1 <= i < 7 ==> b[i] == "" && r[i] == "";
  }

  lemma ColumnsCompared(p: string, q: string, isDir: bool)
    ensures CompareColumns(RowFields(p, "0"), RowFields(q, "1"), isDir).Some? <==> p == q
  {
    var b, r := RowFields(p, "0"), RowFields(q, "1");
    forall i ensures DiffersAt(b, r, i) <==> (i == 0 && p != q) || i == 7 {
      RowsDifferAt(p, q, i);
    }
    assert DiffersAt(b, r, 7);
    assert p != q ==> DiffersAt(b, r, 0) && !Tolerated(0, isDir);
  }

  lemma FieldsAccepted(p: string, q: string)
    requires StartsWithComma(p) && StartsWithComma(q)
    ensures ClassifyFields(RowFields(p, "0"), RowFields(q, "1")).Some? <==> IsNtfsVolatilePath(p) || p == q
  {
    RowPath(p, "0");
    ColumnsCompared(p, q, IsDirectory(p));
  }

  const VOLATILE := ",idx-delta-verify"
  const STABLE := ","

  lemma PartsAreLong(i: nat)
    requires i < |VOLATILE_PARTS|
    ensures |VOLATILE_PARTS[i]| > 1
  {
  }

  lemma LeavesAreLong(i: nat)
    requires i < |VOLATILE_LEAVES|
    ensures |VOLATILE_LEAVES[i]| > 1
  {
  }

  lemma TooShort(c: char, part: string)
    requires |part| > 1
    ensures !Contains([c], part) && !EndsWith([c], part)
  {
    assert [c][1..] == [];
  }

  lemma StablePath()
    ensures !IsNtfsVolatilePath(STABLE)
  {
    assert ToAsciiLower(STABLE) == STABLE == [COMMA];
    assert TrimEndChar(STABLE, '\\') == STABLE;
    forall i: nat | i < |VOLATILE_PARTS| ensures !Contains(STABLE, VOLATILE_PARTS[i]) {
      PartsAreLong(i);
      TooShort(COMMA, VOLATILE_PARTS[i]);
    }
    forall i: nat | i < |VOLATILE_LEAVES| ensures !EndsWith(STABLE, VOLATILE_LEAVES[i]) {
      LeavesAreLong(i);
      TooShort(COMMA, VOLATILE_LEAVES[i]);
    }
    NoneContained(STABLE, VOLATILE_PARTS);
    NoneEnds(STABLE, VOLATILE_LEAVES);
  }

  lemma {:induction false} NoneContained(s: string, parts: seq<string>)
    requires forall i :: 0 <= i < |parts| ==> !Contains(s, parts[i])
    ensures !ContainsAny(s, parts)
  {
    if parts != [] {
      NoneContained(s, parts[1..]);
    }
  }

  lemma {:induction false} NoneEnds(s: string, ends: seq<string>)
    requires forall i :: 0 <= i < |ends| ==> !EndsWith(s, ends[i])
    ensures !EndsWithAny(s, ends)
  {
    if ends != [] {
      NoneEnds(s, ends[1..]);
    }
  }

  lemma {:induction false} SomeContained(s: string, parts: seq<string>, i: nat)
    requires i < |parts| && Contains(s, parts[i])
    ensures ContainsAny(s, parts)
  {
    if i > 0 {
      SomeContained(s, parts[1..], i - 1);
    }
  }

  lemma VolatilePath()
    ensures IsNtfsVolatilePath(VOLATILE)
  {
    assert ToAsciiLower(VOLATILE) == VOLATILE;
    assert VOLATILE[1..] == VOLATILE_PARTS[4];
    assert Contains(VOLATILE[1..], VOLATILE_PARTS[4]);
    SomeContained(VOLATILE, VOLATILE_PARTS, 4);
  }

  lemma FirstTakesFirst<T>(ok: (T, T) -> bool, b: T, b': T, r: T, r': T)
    requires ok(b, r) && ok(b, r') && ok(b', r) && !ok(b', r')
    ensures PairCount(Greedy(ok, [b, b'], [r, r'])) == 1
    ensures IsPairing(ok, [b, b'], [r, r'], [(0, 1), (1, 0)])
  {
    var rs := [r, r'];
    GreedySnoc(ok, [], b, rs);
    assert [] + [b] == [b] && [b] + [b'] == [b, b'];
    assert Greedy(ok, [b], rs) == Matching([0], [true, false]);
    GreedySnoc(ok, [b], b', rs);
    assert Greedy(ok, [b, b'], rs) == Matching([0, NO_PARTNER], [true, false]);
    DroppedSnoc([], 0);
    DroppedSnoc([0], NO_PARTNER);
    assert [] + [0] == [0] && [0] + [NO_PARTNER] == [0, NO_PARTNER];
  }

  /** One pair is tolerated where two could have been: the row of the volatile path takes the only partner of
      the row of the stable one. */
  lemma GreedyMissesAPair(volatile: string, stable: string, other: string)
    requires StartsWithComma(volatile) && StartsWithComma(stable) && StartsWithComma(other)
    requires IsNtfsVolatilePath(volatile) && !IsNtfsVolatilePath(stable) && other != stable
    ensures var bs := [Row(volatile, "0"), Row(stable, "0")];
            var rs := [Row(stable, "1"), Row(other, "1")];
            PairCount(Greedy(Acceptable, bs, rs)) == 1 && IsPairing(Acceptable, bs, rs, [(0, 1), (1, 0)])
  {
    PairAccepted(volatile, stable);
    PairAccepted(volatile, other);
    PairAccepted(stable, stable);
    PairAccepted(stable, other);
    FirstTakesFirst(Acceptable, Row(volatile, "0"), Row(stable, "0"), Row(stable, "1"), Row(other, "1"));
  }

  /** There are such paths. */
  lemma SuchPathsExist()
    ensures StartsWithComma(VOLATILE) && IsNtfsVolatilePath(VOLATILE)
    ensures StartsWithComma(STABLE) && !IsNtfsVolatilePath(STABLE)
  {
    PathsStart();
    VolatilePath();
    StablePath();
  }

  lemma PathsStart()
    ensures StartsWithComma(VOLATILE) && StartsWithComma(STABLE)
  {
  }

  // ---- exactly when the pairing is maximum ----

  /** A row that begins with a quoted path without a quote in it. */
  ghost predicate IsQuotedRow(path: string, line: Line) {
    NoQuote(path) && exists rest :: line == QuotedRow(path, rest)
  }

  /** What the two readers make of such a row. */
  lemma RowIsRead(path: string, line: Line)
    requires IsQuotedRow(path, line)
    ensures Split(line)[0] == [QUOTE] + path + [QUOTE] && PathOf(Split(line)) == path
    ensures ExtractPath(line) == if StartsWithComma(path) then [QUOTE] else [QUOTE] + path + [QUOTE]
  {
    var rest :| line == QuotedRow(path, rest);
    QuotedRowWellFormedIff(path, rest);
    QuotedPath(path);
  }

  lemma QuotedPathsDiffer(p: string, q: string)
    ensures [QUOTE] + p + [QUOTE] == [QUOTE] + q + [QUOTE] <==> p == q
    ensures [QUOTE] + p + [QUOTE] != [QUOTE]
  {
    var a, b := [QUOTE] + p + [QUOTE], [QUOTE] + q + [QUOTE];
    assert a[1..|a| - 1] == p && b[1..|b| - 1] == q;
  }

  /** Rows that meet, when no volatile and stable paths with leading commas do: all rows of volatile ones are one
      path as far as the reconciliation can see. */
  function MeetingClass(line: Line): SkewClass {
    var fields := Split(line);
    var path := PathOf(fields);
    SkewClass(if StartsWithComma(path) && IsNtfsVolatilePath(path) then [QUOTE] else fields[0], |fields|,
              if IsNtfsVolatilePath(path) then [] else Structural(fields, IsDirectory(path)))
  }

  /** A volatile and a stable path that the path extraction cannot tell apart. */
  predicate Clash(p: string, q: string) {
    StartsWithComma(p) && StartsWithComma(q) && IsNtfsVolatilePath(p) && !IsNtfsVolatilePath(q)
  }

  lemma MeetIff(p: string, q: string, b: Line, r: Line)
    requires IsQuotedRow(p, b) && IsQuotedRow(q, r) && b != r && !Clash(p, q) && !Clash(q, p)
    ensures Acceptable(b, r) <==> MeetingClass(b) == MeetingClass(r)
  {
    RowIsRead(p, b);
    RowIsRead(q, r);
    QuotedPathsDiffer(p, q);
    QuotedPathsDiffer(q, p);
    SplitInjective(b, r);
    var bf, rf := Split(b), Split(r);
    if |bf| == |rf| {
      ClassifiedIsStructural(bf, rf);
      if p != q && !IsNtfsVolatilePath(p) {
        FirstColumnCounts(bf, rf, IsDirectory(p));
      }
    }
  }

  lemma FirstColumnCounts(b: seq<string>, r: seq<string>, isDir: bool)
    requires b != [] && |b| == |r| && b[0] != r[0]
    ensures Structural(b, isDir) != Structural(r, isDir)
  {
    assert Structural(b, isDir)[0] == b[0] && Structural(r, isDir)[0] == r[0];
  }

  /** Rows of quoted paths from a set. */
  ghost predicate RowsOver(S: string -> bool, lines: seq<Line>) {
    forall x :: x in lines ==> exists path :: S(path) && IsQuotedRow(path, x)
  }

  ghost predicate Apart(bs: seq<Line>, rs: seq<Line>) { forall b, r :: b in bs && r in rs ==> b != r }

  /** The pairing is a maximum one for all lists of such rows that share no row, as the lists of a diff do. */
  ghost predicate AlwaysMaximum(S: string -> bool) {
    forall bs, rs, pairs ::
      RowsOver(S, bs) && RowsOver(S, rs) && Apart(bs, rs) && IsPairing(Acceptable, bs, rs, pairs) ==>
      |pairs| <= PairCount(Greedy(Acceptable, bs, rs))
  }

  ghost predicate Clashes(S: string -> bool) { exists p, q :: S(p) && S(q) && Clash(p, q) }

  lemma RowsMeetByClass(S: string -> bool, bs: seq<Line>, rs: seq<Line>)
    requires !Clashes(S) && RowsOver(S, bs) && RowsOver(S, rs) && Apart(bs, rs)
    ensures ByClass(Acceptable, MeetingClass, bs, rs)
  {
    forall b, r | b in bs && r in rs ensures Acceptable(b, r) <==> MeetingClass(b) == MeetingClass(r) {
      var p :| S(p) && IsQuotedRow(p, b);
      var q :| S(q) && IsQuotedRow(q, r);
      MeetIff(p, q, b, r);
    }
  }

  lemma ClashMissesAPair(S: string -> bool, p: string, q: string)
    requires S(p) && S(q) && Clash(p, q)
    ensures !AlwaysMaximum(S)
  {
    GreedyMissesAPair(p, q, p);
    RowsDiffer(p, q);
    FourRows(S, p, q, Row(p, "0"), Row(q, "0"), Row(q, "1"), Row(p, "1"));
    var bs, rs := [Row(p, "0"), Row(q, "0")], [Row(q, "1"), Row(p, "1")];
    NotMaximum(S, bs, rs, [(0, 1), (1, 0)]);
  }

  lemma FourRows(S: string -> bool, p: string, q: string, b: Line, b': Line, r: Line, r': Line)
    requires S(p) && S(q) && IsQuotedRow(p, b) && IsQuotedRow(q, b') && IsQuotedRow(q, r) && IsQuotedRow(p, r')
    requires b != r && b != r' && b' != r && b' != r'
    ensures RowsOver(S, [b, b']) && RowsOver(S, [r, r']) && Apart([b, b'], [r, r'])
  {
  }

  lemma NotMaximum(S: string -> bool, bs: seq<Line>, rs: seq<Line>, pairs: seq<(nat, nat)>)
    requires RowsOver(S, bs) && RowsOver(S, rs) && Apart(bs, rs) && IsPairing(Acceptable, bs, rs, pairs)
    requires |pairs| > PairCount(Greedy(Acceptable, bs, rs))
    ensures !AlwaysMaximum(S)
  {
  }

  lemma RowsDiffer(p: string, q: string)
    requires NoQuote(p) && NoQuote(q)
    ensures Row(p, "0") != Row(p, "1") && Row(q, "0") != Row(q, "1")
    ensures Row(p, "0") != Row(q, "1") && Row(q, "0") != Row(p, "1")
  {
    OneCharSplits('0');
    OneCharSplits('1');
    RowSplits(p, "0");
    RowSplits(q, "0");
    RowSplits(p, "1");
    RowSplits(q, "1");
    assert RowFields(p, "0")[7] == "0" && RowFields(q, "0")[7] == "0";
    assert RowFields(p, "1")[7] == "1" && RowFields(q, "1")[7] == "1";
  }

  /** The reconciliation of rows over a set of paths is always a maximum matching if and only if the set does not hold
      both a volatile and a stable path that begin with a comma. */
  lemma MaximumIffNoClash(S: string -> bool)
    ensures AlwaysMaximum(S) <==> !Clashes(S)
  {
    if Clashes(S) {
      var p, q :| S(p) && S(q) && Clash(p, q);
      ClashMissesAPair(S, p, q);
    } else {
      forall bs, rs, pairs |
        RowsOver(S, bs) && RowsOver(S, rs) && Apart(bs, rs) && IsPairing(Acceptable, bs, rs, pairs)
        ensures |pairs| <= PairCount(Greedy(Acceptable, bs, rs))
      {
        RowsMeetByClass(S, bs, rs);
        GreedyIsMaximum(Acceptable, MeetingClass, bs, rs, pairs);
      }
    }
  }

  /** Over all quoted paths it is not. */
  lemma NotOverAllPaths()
    ensures !AlwaysMaximum(path => true)
  {
    SuchPathsExist();
    assert Clash(VOLATILE, STABLE);
    ClashMissesAPair(path => true, VOLATILE, STABLE);
  }
}
