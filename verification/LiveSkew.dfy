/** Read-time skew between two live scans: which same-path row pairs differ only
    in fields a live volume changes between two reads. */
module LiveSkew {
  import opened Seqs
  import opened Lines
  import opened Csv

  const COL_SIZE := 3
  const COL_ALLOCATED := 4
  const COL_ACCESSED := 7
  const COL_COUNT := 8

  datatype SkewReason = VolatilePath | AccessedOnly | DirAggregate

  // ---- paths ----

  function ToAsciiLower(s: string): string {
    seq(|s|, i requires 0 <= i < |s| => if 'A' <= s[i] <= 'Z' then (s[i] as int + 32) as char else s[i])
  }

  predicate Contains(s: string, part: string) {
    part <= s || (s != [] && Contains(s[1..], part))
  }

  predicate EndsWith(s: string, end: string) {
    |end| <= |s| && s[|s| - |end|..] == end
  }

  function TrimEndChar(s: string, c: char): string {
    if s != [] && s[|s| - 1] == c then TrimEndChar(s[..|s| - 1], c) else s
  }

  function TrimStartChar(s: string, c: char): string {
    if s != [] && s[0] == c then TrimStartChar(s[1..], c) else s
  }

  const VOLATILE_PARTS: seq<string> := [
    "\\$recycle.bin\\", "\\system volume information\\", "\\$extend\\", "\\norton sandbox\\", "idx-delta-verify"]

  const VOLATILE_LEAVES: seq<string> := [
    "\\$mft", "\\$mftmirr", "\\$logfile", "\\$volume", "\\$attrdef", "\\$bitmap", "\\$boot", "\\$badclus",
    "\\$secure", "\\$upcase", "\\$extend", "\\pagefile.sys", "\\hiberfil.sys", "\\swapfile.sys", "\\dumpstack.log.tmp"]

  /** Paths that NTFS or the OS rewrites all the time. */
  predicate IsNtfsVolatilePath(path: string) {
    var p := ToAsciiLower(path);
    ContainsAny(p, VOLATILE_PARTS) || EndsWithAny(TrimEndChar(p, '\\'), VOLATILE_LEAVES)
  }

  predicate ContainsAny(s: string, parts: seq<string>) {
    parts != [] && (Contains(s, parts[0]) || ContainsAny(s, parts[1..]))
  }

  predicate EndsWithAny(s: string, ends: seq<string>) {
    ends != [] && (EndsWith(s, ends[0]) || EndsWithAny(s, ends[1..]))
  }

  /** Position of the first `",`, or the length of the line. */
  function FindQuoteComma(line: Line): (pos: nat)
    ensures pos <= |line|
    ensures pos < |line| ==> pos + 1 < |line| && line[pos] == QUOTE && line[pos + 1] == COMMA
  {
    if |line| < 2 then |line|
    else if line[0] == QUOTE && line[1] == COMMA then 0
    else 1 + FindQuoteComma(line[1..])
  }

  /** The first quoted field of a row, quotes included; the whole line when there is none. */
  function ExtractPath(line: Line): string {
    var pos := FindQuoteComma(line);
    if pos < |line| then line[..pos + 1] else line
  }

  function PathOf(fields: seq<string>): string
    requires fields != []
  {
    TrimEndChar(TrimStartChar(fields[0], QUOTE), QUOTE)
  }

  // ---- classifying a pair ----

  predicate IsDirectory(path: string) { EndsWith(path, "\\") }

  /** Columns that may move between two reads of an unchanged file or directory. */
  predicate Tolerated(column: nat, isDir: bool) {
    column == COL_ACCESSED || (isDir && (column == COL_SIZE || column == COL_ALLOCATED || column == COL_COUNT))
  }

  predicate DiffersAt(b: seq<string>, r: seq<string>, i: int) {
    0 <= i < |b| == |r| && b[i] != r[i]
  }

  /** Two rows of one stable path: real difference, no difference, or skew. */
  function CompareColumns(b: seq<string>, r: seq<string>, isDir: bool): Option<SkewReason>
    requires |b| == |r|
  {
    if exists i :: 0 <= i < |b| && DiffersAt(b, r, i) && !Tolerated(i, isDir) then None
    else if b == r then None
    else if exists i :: 0 <= i < |b| && DiffersAt(b, r, i) && i != COL_ACCESSED then Some(DirAggregate)
    else Some(AccessedOnly)
  }

  function ClassifyFields(b: seq<string>, r: seq<string>): Option<SkewReason>
    requires b != []
  {
    if |b| != |r| then None
    else if IsNtfsVolatilePath(PathOf(b)) then Some(VolatilePath)
    else CompareColumns(b, r, IsDirectory(PathOf(b)))
  }

  /** Why a row pair counts as skew, if it does. */
  function Classify(baseline: Line, rust: Line): Option<SkewReason> {
    ClassifyFields(Split(baseline), Split(rust))
  }

  method ScanColumns(bf: seq<string>, rf: seq<string>, isDir: bool) returns (reason: Option<SkewReason>)
    requires |bf| == |rf|
    ensures reason == CompareColumns(bf, rf, isDir)
  {
    var accessedOnly := true;
    var anyDiff := false;
    for i := 0 to |bf|
      invariant forall j :: 0 <= j < i && DiffersAt(bf, rf, j) ==> Tolerated(j, isDir)
      invariant anyDiff <==> exists j :: 0 <= j < i && DiffersAt(bf, rf, j)
      invariant !accessedOnly <==> exists j :: 0 <= j < i && DiffersAt(bf, rf, j) && j != COL_ACCESSED
    {
      if bf[i] == rf[i] {
        continue;
      }
      assert DiffersAt(bf, rf, i);
      anyDiff := true;
      if i == COL_ACCESSED {
        continue;
      }
      if isDir && (i == COL_SIZE || i == COL_ALLOCATED || i == COL_COUNT) {
        accessedOnly := false;
        continue;
      }
      return None;
    }
    if !anyDiff {
      assert forall j :: 0 <= j < |bf| ==> bf[j] == rf[j] || DiffersAt(bf, rf, j);
      return None;
    }
    return Some(if accessedOnly then AccessedOnly else DirAggregate);
  }

  method ClassifyLiveSkew(baseline: Line, rust: Line) returns (reason: Option<SkewReason>)
    ensures reason == Classify(baseline, rust)
    ensures reason == Some(DirAggregate) ==> DifferOnlyIn(Split(baseline), Split(rust), {3, 4, 7, 8})
    ensures reason == Some(AccessedOnly) ==> DifferOnlyIn(Split(baseline), Split(rust), {7})
  {
    SkewIff(baseline, rust);
    var bf := SplitCsvFields(baseline);
    var rf := SplitCsvFields(rust);
    if bf == [] || |bf| != |rf| {
      return None;
    }
    var path := PathOf(bf);
    if IsNtfsVolatilePath(path) {
      return Some(VolatilePath);
    }
    reason := ScanColumns(bf, rf, IsDirectory(path));
  }

  /** The pairs the reconciliation may drop. */
  predicate Acceptable(baseline: Line, rust: Line) {
    ExtractPath(baseline) == ExtractPath(rust) && Classify(baseline, rust).Some?
  }

  // ---- skew classes ----

  /** A row whose first field is what the path extraction returns. */
  predicate WellFormed(line: Line) {
    ExtractPath(line) == Split(line)[0]
  }

  /** The fields that must agree, with the tolerated ones blanked. */
  function Structural(fields: seq<string>, isDir: bool): seq<string> {
    seq(|fields|, i requires 0 <= i < |fields| => if Tolerated(i, isDir) then "" else fields[i])
  }

  datatype SkewClass = SkewClass(path: string, fieldCount: nat, structural: seq<string>)

  /** Same path and field count and, off the volatile paths, the same structural fields. */
  function ClassOf(line: Line): SkewClass {
    var fields := Split(line);
    var path := PathOf(fields);
    SkewClass(ExtractPath(line), |fields|,
              if IsNtfsVolatilePath(path) then [] else Structural(fields, IsDirectory(path)))
  }

  lemma StructuralAgree(b: seq<string>, r: seq<string>, isDir: bool)
    requires |b| == |r|
    ensures Structural(b, isDir) == Structural(r, isDir) <==>
            forall i :: 0 <= i < |b| && DiffersAt(b, r, i) ==> Tolerated(i, isDir)
  {
    var x, y := Structural(b, isDir), Structural(r, isDir);
    if x == y {
      forall i | 0 <= i < |b| && DiffersAt(b, r, i) ensures Tolerated(i, isDir) {
        assert x[i] == y[i];
      }
    }
    if forall i :: 0 <= i < |b| && DiffersAt(b, r, i) ==> Tolerated(i, isDir) {
      forall i | 0 <= i < |b| ensures x[i] == y[i] {
        assert DiffersAt(b, r, i) || b[i] == r[i];
      }
    }
  }

  /** On rows of one path the column scan accepts what differs in tolerated columns only. */
  lemma ClassifiedIsStructural(b: seq<string>, r: seq<string>)
    requires b != [] && |b| == |r| && b != r
    ensures var path := PathOf(b);
            ClassifyFields(b, r).Some? <==>
            IsNtfsVolatilePath(path) || Structural(b, IsDirectory(path)) == Structural(r, IsDirectory(path))
  {
    StructuralAgree(b, r, IsDirectory(PathOf(b)));
  }

  /** On well-formed, different rows the pairwise test is equality of classes. */
  lemma AcceptableIsSameClass(b: Line, r: Line)
    requires WellFormed(b) && WellFormed(r) && b != r
    ensures Acceptable(b, r) <==> ClassOf(b) == ClassOf(r)
  {
    var bf, rf := Split(b), Split(r);
    SplitInjective(b, r);
    if ExtractPath(b) == ExtractPath(r) && |bf| == |rf| {
      assert PathOf(bf) == PathOf(rf);
      ClassifiedIsStructural(bf, rf);
    }
  }

  function QuotedRow(path: string, rest: string): Line { [QUOTE] + path + [QUOTE, COMMA] + rest }

  /** A row that starts with a quoted path without a quote in it is well formed exactly when the path does not
      begin with a comma: then the opening quote and the comma look like the end of a field. */
  lemma QuotedRowWellFormedIff(path: string, rest: string)
    requires forall i :: 0 <= i < |path| ==> path[i] != QUOTE
    ensures WellFormed(QuotedRow(path, rest)) <==> path == [] || path[0] != COMMA
    ensures Split(QuotedRow(path, rest))[0] == [QUOTE] + path + [QUOTE]
    ensures ExtractPath(QuotedRow(path, rest)) ==
            if path == [] || path[0] != COMMA then [QUOTE] + path + [QUOTE] else [QUOTE]
  {
    var inner := path + ([QUOTE, COMMA] + rest);
    var line := QuotedRow(path, rest);
    assert line == [QUOTE] + inner;
    assert line[1..] == inner;
    QuotedPrefix(path, rest);
    assert [QUOTE] + (path + [QUOTE]) == [QUOTE] + path + [QUOTE];
    if path == [] || path[0] != COMMA {
      assert inner[0] != COMMA;
      assert FindQuoteComma(line) == |path| + 1;
      assert line[..|path| + 2] == [QUOTE] + path + [QUOTE];
    } else {
      assert inner[0] == COMMA;
      assert line[..1] == [QUOTE];
    }
  }

  lemma {:induction false} QuotedPrefix(path: string, rest: string)
    requires forall i :: 0 <= i < |path| ==> path[i] != QUOTE
    ensures FindQuoteComma(path + ([QUOTE, COMMA] + rest)) == |path|
    ensures RawFields(path + ([QUOTE, COMMA] + rest), true)[0] == path + [QUOTE]
  {
    var s := path + ([QUOTE, COMMA] + rest);
    if path == [] {
      assert s == [QUOTE, COMMA] + rest;
      assert s[1..] == [COMMA] + rest;
    } else {
      QuotedPrefix(path[1..], rest);
      assert s[1..] == path[1..] + ([QUOTE, COMMA] + rest);
      assert [path[0]] + (path[1..] + [QUOTE]) == path + [QUOTE];
    }
  }

  // ---- which differences are skew, column by column ----

  /** Equally many fields, at least one difference, and every difference in one of these columns. */
  ghost predicate DifferOnlyIn(b: seq<string>, r: seq<string>, columns: set<nat>) {
    |b| == |r| && b != r && forall i: nat :: i < |b| && b[i] != r[i] ==> i in columns
  }

  /** A pair on a volatile path is skew whenever the rows have equally many fields; of a stable file, when they differ
      in column 7 alone; of a stable directory, when they differ in columns 3, 4, 7 and 8 alone. */
  lemma SkewIff(baseline: Line, rust: Line)
    ensures var b, r := Split(baseline), Split(rust);
            var path, reason := PathOf(b), Classify(baseline, rust);
            if IsNtfsVolatilePath(path) then reason == if |b| == |r| then Some(VolatilePath) else None
            else if path == "" || path[|path| - 1] != '\\' then
              reason == if DifferOnlyIn(b, r, {7}) then Some(AccessedOnly) else None
            else
              reason == if DifferOnlyIn(b, r, {7}) then Some(AccessedOnly)
                        else if DifferOnlyIn(b, r, {3, 4, 7, 8}) then Some(DirAggregate)
                        else None
  {
    var b, r := Split(baseline), Split(rust);
    var path := PathOf(b);
    EndsWithOne(path, '\\');
    if |b| == |r| && !IsNtfsVolatilePath(path) {
      ColumnsOf(b, r, IsDirectory(path));
    }
  }

  lemma EndsWithOne(s: string, c: char)
    ensures EndsWith(s, [c]) <==> s != "" && s[|s| - 1] == c
  {
    if s != "" {
      assert s[|s| - 1..] == [s[|s| - 1]];
    }
  }

  lemma ColumnsOf(b: seq<string>, r: seq<string>, isDir: bool)
    requires |b| == |r|
    ensures CompareColumns(b, r, isDir) ==
            if DifferOnlyIn(b, r, {7}) then Some(AccessedOnly)
            else if isDir && DifferOnlyIn(b, r, {3, 4, 7, 8}) then Some(DirAggregate)
            else None
  {
    assert forall i: nat :: i < |b| ==> (DiffersAt(b, r, i) <==> b[i] != r[i]);
  }

  /** The path is the first field without the quotes around it. */
  lemma PathIsInner(fields: seq<string>)
    requires fields != []
    ensures var path := PathOf(fields);
            (path != "" ==> path[0] != QUOTE && path[|path| - 1] != QUOTE) &&
            exists i: nat, j: nat :: i <= j <= |fields[0]| && path == fields[0][i..j] && AllAre(fields[0][..i], QUOTE) &&
                                     AllAre(fields[0][j..], QUOTE)
  {
    var field := fields[0];
    TrimStartIs(field, QUOTE);
    var tail := TrimStartChar(field, QUOTE);
    TrimEndIs(tail, QUOTE);
    var i, path := |field| - |tail|, TrimEndChar(tail, QUOTE);
    assert path == field[i..i + |path|] && field[i + |path|..] == tail[|path|..];
  }

  predicate AllAre(s: string, c: char) { forall i :: 0 <= i < |s| ==> s[i] == c }

  lemma {:induction false} TrimStartIs(s: string, c: char)
    ensures var t := TrimStartChar(s, c);
            |t| <= |s| && t == s[|s| - |t|..] && AllAre(s[..|s| - |t|], c) && (t != "" ==> t[0] != c)
  {
    if s != "" && s[0] == c {
      TrimStartIs(s[1..], c);
      var k := |s[1..]| - |TrimStartChar(s[1..], c)|;
      assert s[..k + 1] == [c] + s[1..][..k] && s[k + 1..] == s[1..][k..];
    }
  }

  lemma {:induction false} TrimEndIs(s: string, c: char)
    ensures var t := TrimEndChar(s, c);
            |t| <= |s| && t == s[..|t|] && AllAre(s[|t|..], c) && (t != "" ==> t[|t| - 1] != c)
  {
    if s != "" && s[|s| - 1] == c {
      var front := s[..|s| - 1];
      TrimEndIs(front, c);
      var k := |TrimEndChar(front, c)|;
      assert s[k..] == front[k..] + [c] && s[..k] == front[..k];
    }
  }

  /** The end of a quoted field. */
  predicate EndsField(line: Line, i: nat) { i + 1 < |line| && line[i] == '"' && line[i + 1] == ',' }

  /** The extracted path ends with the first quote before a comma. */
  lemma {:induction false} ExtractedUpTo(line: Line, i: nat)
    requires EndsField(line, i) && forall j: nat :: j < i ==> !EndsField(line, j)
    ensures FindQuoteComma(line) == i && ExtractPath(line) == line[..i + 1]
  {
    if i > 0 {
      assert !EndsField(line, 0);
      forall j: nat | j < i - 1 ensures !EndsField(line[1..], j) {
        assert !EndsField(line, j + 1);
      }
      ExtractedUpTo(line[1..], i - 1);
    }
  }

  /** Without one the whole line is taken. */
  lemma {:induction false} ExtractedWhole(line: Line)
    requires forall j: nat :: !EndsField(line, j)
    ensures FindQuoteComma(line) == |line| && ExtractPath(line) == line
  {
    if |line| >= 2 {
      assert !EndsField(line, 0);
      forall j: nat ensures !EndsField(line[1..], j) {
        assert !EndsField(line, j + 1);
      }
      ExtractedWhole(line[1..]);
    }
  }

  // ---- which paths are volatile ----

  /** `c` is the small character `small`, or its capital. */
  predicate SameLetter(c: char, small: char) { c == small || ('a' <= small <= 'z' && c as int + 32 == small as int) }

  /** `part` stands in `path` from `i` on, in whatever case. */
  ghost predicate StandsAt(path: string, part: string, i: nat) {
    i + |part| <= |path| && forall k :: 0 <= k < |part| ==> SameLetter(path[i + k], part[k])
  }

  predicate HasNoCapitals(s: string) { forall k :: 0 <= k < |s| ==> !('A' <= s[k] <= 'Z') }

  predicate PartAt(s: string, part: string, i: nat) { i <= |s| && part <= s[i..] }

  lemma LowerMatches(path: string, part: string, i: nat)
    requires HasNoCapitals(part)
    ensures StandsAt(path, part, i) <==> PartAt(ToAsciiLower(path), part, i)
  {
    var p := ToAsciiLower(path);
    assert forall c: char, d: char :: !('A' <= d <= 'Z') ==>
        (SameLetter(c, d) <==> (if 'A' <= c <= 'Z' then (c as int + 32) as char else c) == d);
    if i + |part| <= |path| {
      var there := p[i..][..|part|];
      assert part <= p[i..] <==> there == part;
      assert forall k :: 0 <= k < |part| ==> (there[k] == part[k] <==> SameLetter(path[i + k], part[k]));
    }
  }

  lemma PartNext(s: string, part: string, i: nat)
    requires s != ""
    ensures PartAt(s, part, i + 1) <==> PartAt(s[1..], part, i)
  {
    if i + 1 <= |s| {
      assert s[1..][i..] == s[i + 1..];
    }
  }

  lemma {:induction false} ContainsIff(s: string, part: string)
    ensures Contains(s, part) <==> exists i: nat :: PartAt(s, part, i)
  {
    assert PartAt(s, part, 0) <==> part <= s by { assert s[0..] == s; }
    if s != "" {
      ContainsIff(s[1..], part);
      if i: nat :| PartAt(s[1..], part, i) {
        PartNext(s, part, i);
        assert PartAt(s, part, i + 1);
      }
      if i: nat :| PartAt(s, part, i) && i > 0 {
        PartNext(s, part, i - 1);
        assert PartAt(s[1..], part, i - 1);
      }
    }
  }

  lemma {:induction false} ContainsAnyIff(s: string, parts: seq<string>)
    ensures ContainsAny(s, parts) <==> exists k :: 0 <= k < |parts| && Contains(s, parts[k])
  {
    if parts != [] {
      ContainsAnyIff(s, parts[1..]);
      assert forall k :: 0 < k < |parts| ==> parts[k] == parts[1..][k - 1];
    }
  }

  lemma {:induction false} EndsWithAnyIff(s: string, ends: seq<string>)
    ensures EndsWithAny(s, ends) <==> exists k :: 0 <= k < |ends| && EndsWith(s, ends[k])
  {
    if ends != [] {
      EndsWithAnyIff(s, ends[1..]);
      assert forall k :: 0 < k < |ends| ==> ends[k] == ends[1..][k - 1];
    }
  }

  /** The path has one of these parts somewhere, in whatever case. */
  ghost predicate HasPart(path: string, part: string) { exists i: nat :: StandsAt(path, part, i) }

  /** The path ends with the leaf, in whatever case and with any number of backslashes behind it. */
  ghost predicate HasLeaf(path: string, leaf: string) {
    exists i: nat :: StandsAt(path, leaf, i) && AllAre(path[i + |leaf|..], '\\')
  }

  lemma HasPartIff(path: string, part: string)
    requires HasNoCapitals(part)
    ensures HasPart(path, part) <==> Contains(ToAsciiLower(path), part)
  {
    forall i: nat ensures StandsAt(path, part, i) <==> PartAt(ToAsciiLower(path), part, i) {
      LowerMatches(path, part, i);
    }
    ContainsIff(ToAsciiLower(path), part);
  }

  /** `leaf` stands at `i` and only backslashes follow. */
  predicate LeafAt(p: string, leaf: string, i: nat) {
    PartAt(p, leaf, i) && AllAre(p[i + |leaf|..], '\\')
  }

  lemma TrimmedLeaf(p: string, leaf: string)
    requires EndsWith(TrimEndChar(p, '\\'), leaf)
    ensures LeafAt(p, leaf, |TrimEndChar(p, '\\')| - |leaf|)
  {
    TrimEndIs(p, '\\');
    var t := TrimEndChar(p, '\\');
    var i := |t| - |leaf|;
    assert p[i..][..|leaf|] == t[i..];
  }

  lemma LeafTrimmed(p: string, leaf: string, i: nat)
    requires leaf != "" && leaf[|leaf| - 1] != '\\' && LeafAt(p, leaf, i)
    ensures EndsWith(TrimEndChar(p, '\\'), leaf)
  {
    var end := i + |leaf|;
    assert p[i..][|leaf| - 1] == p[end - 1];
    forall j | end <= j < |p| ensures p[j] == '\\' {
      assert p[end..][j - end] == p[j];
    }
    LastOther(p, end);
    assert p[..end][i..] == p[i..][..|leaf|];
  }

  lemma LastOther(p: string, end: nat)
    requires 0 < end <= |p| && p[end - 1] != '\\' && forall j :: end <= j < |p| ==> p[j] == '\\'
    ensures TrimEndChar(p, '\\') == p[..end]
    decreases |p|
  {
    if end < |p| {
      LastOther(p[..|p| - 1], end);
      assert p[..|p| - 1][..end] == p[..end];
    }
  }

  lemma SameBackslashes(path: string, k: nat)
    requires k <= |path|
    ensures AllAre(ToAsciiLower(path)[k..], '\\') <==> AllAre(path[k..], '\\')
  {
    var p := ToAsciiLower(path);
    assert forall j :: 0 <= j < |path| - k ==> (p[k..][j] == '\\' <==> path[k..][j] == '\\');
  }

  lemma HasLeafIff(path: string, leaf: string)
    requires HasNoCapitals(leaf) && leaf != "" && leaf[|leaf| - 1] != '\\'
    ensures HasLeaf(path, leaf) <==> EndsWith(TrimEndChar(ToAsciiLower(path), '\\'), leaf)
  {
    var p := ToAsciiLower(path);
    forall i: nat
      ensures StandsAt(path, leaf, i) && AllAre(path[i + |leaf|..], '\\') <==> LeafAt(p, leaf, i)
    {
      LowerMatches(path, leaf, i);
      if i + |leaf| <= |path| {
        SameBackslashes(path, i + |leaf|);
      }
    }
    if EndsWith(TrimEndChar(p, '\\'), leaf) {
      TrimmedLeaf(p, leaf);
    }
    if i: nat :| LeafAt(p, leaf, i) {
      LeafTrimmed(p, leaf, i);
    }
  }

  /** A path is volatile exactly when it has one of these five parts, or ends with one of these fifteen leaves. */
  lemma VolatileIff(path: string)
    ensures IsNtfsVolatilePath(path) <==>
            HasPart(path, "\\$recycle.bin\\") || HasPart(path, "\\system volume information\\") ||
            HasPart(path, "\\$extend\\") || HasPart(path, "\\norton sandbox\\") || HasPart(path, "idx-delta-verify") ||
            HasLeaf(path, "\\$mft") || HasLeaf(path, "\\$mftmirr") || HasLeaf(path, "\\$logfile") ||
            HasLeaf(path, "\\$volume") || HasLeaf(path, "\\$attrdef") || HasLeaf(path, "\\$bitmap") ||
            HasLeaf(path, "\\$boot") || HasLeaf(path, "\\$badclus") || HasLeaf(path, "\\$secure") ||
            HasLeaf(path, "\\$upcase") || HasLeaf(path, "\\$extend") || HasLeaf(path, "\\pagefile.sys") ||
            HasLeaf(path, "\\hiberfil.sys") || HasLeaf(path, "\\swapfile.sys") || HasLeaf(path, "\\dumpstack.log.tmp")
  {
    VolatilePartIff(path);
    VolatileLeafIff(path);
  }

  lemma VolatilePartIff(path: string)
    ensures ContainsAny(ToAsciiLower(path), VOLATILE_PARTS) <==>
            HasPart(path, "\\$recycle.bin\\") || HasPart(path, "\\system volume information\\") ||
            HasPart(path, "\\$extend\\") || HasPart(path, "\\norton sandbox\\") || HasPart(path, "idx-delta-verify")
  {
    PartsAmong(path);
    assert |VOLATILE_PARTS| == 5;
    assert VOLATILE_PARTS[0] == "\\$recycle.bin\\";
    assert VOLATILE_PARTS[1] == "\\system volume information\\";
    assert VOLATILE_PARTS[2] == "\\$extend\\";
    assert VOLATILE_PARTS[3] == "\\norton sandbox\\";
    assert VOLATILE_PARTS[4] == "idx-delta-verify";
  }

  lemma VolatileLeafIff(path: string)
    ensures EndsWithAny(TrimEndChar(ToAsciiLower(path), '\\'), VOLATILE_LEAVES) <==>
            HasLeaf(path, "\\$mft") || HasLeaf(path, "\\$mftmirr") || HasLeaf(path, "\\$logfile") ||
            HasLeaf(path, "\\$volume") || HasLeaf(path, "\\$attrdef") || HasLeaf(path, "\\$bitmap") ||
            HasLeaf(path, "\\$boot") || HasLeaf(path, "\\$badclus") || HasLeaf(path, "\\$secure") ||
            HasLeaf(path, "\\$upcase") || HasLeaf(path, "\\$extend") || HasLeaf(path, "\\pagefile.sys") ||
            HasLeaf(path, "\\hiberfil.sys") || HasLeaf(path, "\\swapfile.sys") || HasLeaf(path, "\\dumpstack.log.tmp")
  {
    LeavesAmong(path);
    assert |VOLATILE_LEAVES| == 15;
    assert VOLATILE_LEAVES[0] == "\\$mft";
    assert VOLATILE_LEAVES[1] == "\\$mftmirr";
    assert VOLATILE_LEAVES[2] == "\\$logfile";
    assert VOLATILE_LEAVES[3] == "\\$volume";
    assert VOLATILE_LEAVES[4] == "\\$attrdef";
    assert VOLATILE_LEAVES[5] == "\\$bitmap";
    assert VOLATILE_LEAVES[6] == "\\$boot";
    assert VOLATILE_LEAVES[7] == "\\$badclus";
    assert VOLATILE_LEAVES[8] == "\\$secure";
    assert VOLATILE_LEAVES[9] == "\\$upcase";
    assert VOLATILE_LEAVES[10] == "\\$extend";
    assert VOLATILE_LEAVES[11] == "\\pagefile.sys";
    assert VOLATILE_LEAVES[12] == "\\hiberfil.sys";
    assert VOLATILE_LEAVES[13] == "\\swapfile.sys";
    assert VOLATILE_LEAVES[14] == "\\dumpstack.log.tmp";
  }

  lemma PartsAmong(path: string)
    ensures ContainsAny(ToAsciiLower(path), VOLATILE_PARTS) <==>
            exists k :: 0 <= k < |VOLATILE_PARTS| && HasPart(path, VOLATILE_PARTS[k])
  {
    var p := ToAsciiLower(path);
    ContainsAnyIff(p, VOLATILE_PARTS);
    forall k | 0 <= k < |VOLATILE_PARTS| ensures HasPart(path, VOLATILE_PARTS[k]) <==> Contains(p, VOLATILE_PARTS[k]) {
      PartsAreSmall(k);
      HasPartIff(path, VOLATILE_PARTS[k]);
    }
  }

  lemma LeavesAmong(path: string)
    ensures EndsWithAny(TrimEndChar(ToAsciiLower(path), '\\'), VOLATILE_LEAVES) <==>
            exists k :: 0 <= k < |VOLATILE_LEAVES| && HasLeaf(path, VOLATILE_LEAVES[k])
  {
    var t := TrimEndChar(ToAsciiLower(path), '\\');
    EndsWithAnyIff(t, VOLATILE_LEAVES);
    forall k | 0 <= k < |VOLATILE_LEAVES| ensures HasLeaf(path, VOLATILE_LEAVES[k]) <==> EndsWith(t, VOLATILE_LEAVES[k]) {
      LeafIff(path, k);
    }
  }

  lemma LeafIff(path: string, k: nat)
    requires k < |VOLATILE_LEAVES|
    ensures HasLeaf(path, VOLATILE_LEAVES[k]) <==> EndsWith(TrimEndChar(ToAsciiLower(path), '\\'), VOLATILE_LEAVES[k])
  {
    LeavesAreSmall(k);
    HasLeafIff(path, VOLATILE_LEAVES[k]);
  }

  lemma PartsAreSmall(k: nat)
    requires k < |VOLATILE_PARTS|
    ensures HasNoCapitals(VOLATILE_PARTS[k])
  {
  }

  lemma LeavesAreSmall(k: nat)
    requires k < |VOLATILE_LEAVES|
    ensures var leaf := VOLATILE_LEAVES[k]; HasNoCapitals(leaf) && leaf != "" && leaf[|leaf| - 1] != '\\'
  {
  }
}
