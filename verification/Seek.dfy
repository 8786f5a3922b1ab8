/** Seek distance of reading files in a given order, and the bound no order beats. */
module Seek {
  import opened Seqs
  import opened Orders

  function AbsDiff(a: nat, b: nat): nat { if a < b then b - a else a - b }

  /** Head movement of visiting the positions in order. */
  function TotalSeek(s: seq<nat>): nat {
    if |s| < 2 then 0 else TotalSeek(s[..|s| - 1]) + AbsDiff(s[|s| - 2], s[|s| - 1])
  }

  method TotalSeekDistance(s: seq<nat>) returns (total: nat)
    ensures total == TotalSeek(s)
  {
    total := 0;
    var i := 1;
    while i < |s|
      invariant 1 <= i && (|s| > 0 ==> i <= |s| && total == TotalSeek(s[..i])) && (s == [] ==> total == 0)
    {
      assert s[..i + 1][..i] == s[..i];
      total := total + AbsDiff(s[i - 1], s[i]);
      i := i + 1;
    }
    assert s[..|s|] == s;
  }

  /** Getting from one visited position to a later one costs at least their distance. */
  lemma {:induction false} SeekBetween(s: seq<nat>, i: nat, j: nat)
    requires i <= j < |s|
    ensures TotalSeek(s) >= AbsDiff(s[i], s[j])
  {
    var n := |s| - 1;
    if j < n {
      SeekBetween(s[..n], i, j);
    } else if i < n {
      SeekBetween(s[..n], i, n - 1);
    }
  }

  /** No order of visiting the positions moves less than the distance between any two of them. */
  lemma NoOrderBeats(s: seq<nat>, a: nat, b: nat)
    requires a in s && b in s
    ensures TotalSeek(s) >= AbsDiff(a, b)
  {
    var i :| 0 <= i < |s| && s[i] == a;
    var j :| 0 <= j < |s| && s[j] == b;
    if i <= j {
      SeekBetween(s, i, j);
    } else {
      SeekBetween(s, j, i);
    }
  }

  predicate Climbs(s: seq<nat>) {
    |s| < 2 || (s[|s| - 2] <= s[|s| - 1] && Climbs(s[..|s| - 1]))
  }

  lemma {:induction false} ClimbsIfOrdered(s: seq<nat>)
    requires forall a, b :: 0 <= a < b < |s| ==> s[a] <= s[b]
    ensures Climbs(s)
  {
    if |s| >= 2 {
      ClimbsIfOrdered(s[..|s| - 1]);
    }
  }

  /** Ascending order moves exactly from the lowest position to the highest. */
  lemma {:induction false} AscendingSeek(s: seq<nat>)
    requires Climbs(s) && s != []
    ensures s[0] <= s[|s| - 1] && TotalSeek(s) == s[|s| - 1] - s[0]
  {
    if |s| >= 2 {
      AscendingSeek(s[..|s| - 1]);
    }
  }

  /** The oracle: over the same positions, ascending order is never worse than any other order. */
  lemma OracleIsOptimal(sorted: seq<nat>, any: seq<nat>)
    requires Climbs(sorted) && multiset(sorted) == multiset(any)
    ensures TotalSeek(sorted) <= TotalSeek(any)
  {
    if sorted != [] {
      AscendingSeek(sorted);
      assert sorted[0] in multiset(any) && sorted[|sorted| - 1] in multiset(any);
      NoOrderBeats(any, sorted[0], sorted[|sorted| - 1]);
    }
  }

  datatype Resolved = Resolved(naturalIndex: nat, frs: nat, lcn: nat)

  function SaturatingSub(a: nat, b: nat): nat { if a > b then a - b else 0 }

  function Lcns(files: seq<Resolved>, order: seq<nat>): seq<nat>
    requires forall k :: 0 <= k < |order| ==> order[k] < |files|
  {
    seq(|order|, k requires 0 <= k < |order| => files[order[k]].lcn)
  }

  /** Every order of the files visits the same positions. */
  lemma OrdersVisitTheSame(files: seq<Resolved>, p: seq<nat>)
    requires multiset(p) == multiset(Range(|files|))
    requires forall k :: 0 <= k < |p| ==> p[k] < |files|
    ensures multiset(Lcns(files, p)) == multiset(Lcns(files, Range(|files|)))
  {
    var at := (i: nat) => if i < |files| then files[i].lcn else 0;
    MapMonotone(at, p, Range(|files|));
    MapMonotone(at, Range(|files|), p);
    assert Map(at, p) == Lcns(files, p);
    assert Map(at, Range(|files|)) == Lcns(files, Range(|files|));
  }

  /** The positions visited when the files are read in the stable ascending order of their keys. */
  ghost predicate Visits(keys: seq<nat>, files: seq<Resolved>, lcns: seq<nat>) {
    |keys| == |files| && exists p :: IsOrder(keys, p, |keys|) && lcns == Lcns(files, p)
  }

  lemma OrderedByLcn(files: seq<Resolved>, p: seq<nat>)
    requires IsOrder(LcnKeys(files), p, |files|)
    ensures Climbs(Lcns(files, p))
  {
    var lcns := Lcns(files, p);
    forall a, b | 0 <= a < b < |lcns| ensures lcns[a] <= lcns[b] {
      assert Precedes(LcnKeys(files), p[a], p[b]);
    }
    ClimbsIfOrdered(lcns);
  }

  function NaturalKeys(files: seq<Resolved>): seq<nat> { Map((f: Resolved) => f.naturalIndex, files) }
  function FrsKeys(files: seq<Resolved>): seq<nat> { Map((f: Resolved) => f.frs, files) }
  function LcnKeys(files: seq<Resolved>): seq<nat> { Map((f: Resolved) => f.lcn, files) }

  method OrderBy(keys: seq<nat>, files: seq<Resolved>) returns (lcns: seq<nat>)
    requires |keys| == |files|
    ensures Visits(keys, files, lcns)
  {
    var p := SortByKey(keys);
    lcns := Lcns(files, p);
  }

  /** All orders visit the same positions, and the one by position climbs. */
  lemma VisitsFacts(keys: seq<nat>, files: seq<Resolved>, lcns: seq<nat>)
    requires Visits(keys, files, lcns)
    ensures multiset(lcns) == multiset(LcnKeys(files))
    ensures keys == LcnKeys(files) ==> Climbs(lcns)
  {
    var p :| IsOrder(keys, p, |keys|) && lcns == Lcns(files, p);
    OrdersVisitTheSame(files, p);
    assert Lcns(files, Range(|files|)) == LcnKeys(files);
    if keys == LcnKeys(files) {
      OrderedByLcn(files, p);
    }
  }

  /** The distance of reading the files in the order of their keys. */
  ghost predicate Measures(keys: seq<nat>, files: seq<Resolved>, total: nat) {
    exists lcns :: Visits(keys, files, lcns) && total == TotalSeek(lcns)
  }

  /** Distance between the outermost positions. */
  ghost predicate IsSpread(s: seq<nat>, d: nat) {
    (forall a, b :: a in s && b in s ==> AbsDiff(a, b) <= d) &&
    (if s == [] then d == 0 else exists a, b :: a in s && b in s && AbsDiff(a, b) == d)
  }

  lemma OracleIsSpread(files: seq<Resolved>, lcns: seq<nat>)
    requires Visits(LcnKeys(files), files, lcns)
    ensures IsSpread(LcnKeys(files), TotalSeek(lcns))
  {
    VisitsFacts(LcnKeys(files), files, lcns);
    var s := LcnKeys(files);
    forall a, b | a in s && b in s ensures AbsDiff(a, b) <= TotalSeek(lcns) {
      assert a in multiset(lcns) && b in multiset(lcns);
      NoOrderBeats(lcns, a, b);
    }
    assert |multiset(s)| == |s| && |multiset(lcns)| == |lcns|;
    if s != [] {
      AscendingSeek(lcns);
      var least, greatest := lcns[0], lcns[|lcns| - 1];
      assert least in multiset(s) && greatest in multiset(s);
      assert least in s && greatest in s && AbsDiff(least, greatest) == TotalSeek(lcns);
    }
  }

  /** The report's arithmetic: three totals, and how much of the achievable reduction the FRS order captures. */
  method SeekComparison(files: seq<Resolved>)
    returns (natural: nat, frs: nat, oracle: nat, achievable: nat, captured: nat)
    ensures Measures(NaturalKeys(files), files, natural) && Measures(FrsKeys(files), files, frs)
    ensures IsSpread(LcnKeys(files), oracle)
    ensures achievable == natural - oracle
    ensures captured <= achievable && frs >= oracle
    ensures captured == if frs < natural then natural - frs else 0
    ensures achievable > 0 ==> (captured == achievable <==> frs == oracle)
  {
    natural := MeasureBy(NaturalKeys(files), files);
    frs := MeasureBy(FrsKeys(files), files);
    oracle := MeasureBy(LcnKeys(files), files);
    OracleFacts(files, oracle, NaturalKeys(files), natural);
    OracleFacts(files, oracle, FrsKeys(files), frs);
    achievable := SaturatingSub(natural, oracle);
    captured := SaturatingSub(natural, frs);
  }

  /** Sort by the keys and add up the distances. */
  method MeasureBy(keys: seq<nat>, files: seq<Resolved>) returns (total: nat)
    requires |keys| == |files|
    ensures Measures(keys, files, total)
  {
    var lcns := OrderBy(keys, files);
    total := TotalSeekDistance(lcns);
  }

  lemma OracleFacts(files: seq<Resolved>, oracle: nat, keys: seq<nat>, total: nat)
    requires Measures(LcnKeys(files), files, oracle) && Measures(keys, files, total)
    ensures IsSpread(LcnKeys(files), oracle) && oracle <= total
  {
    var best :| Visits(LcnKeys(files), files, best) && oracle == TotalSeek(best);
    var lcns :| Visits(keys, files, lcns) && total == TotalSeek(lcns);
    OracleBelow(files, best, keys, lcns);
    OracleIsSpread(files, best);
  }

  lemma OracleBelow(files: seq<Resolved>, oracle: seq<nat>, keys: seq<nat>, lcns: seq<nat>)
    requires Visits(LcnKeys(files), files, oracle) && Visits(keys, files, lcns)
    ensures TotalSeek(oracle) <= TotalSeek(lcns)
  {
    VisitsFacts(LcnKeys(files), files, oracle);
    VisitsFacts(keys, files, lcns);
    OracleIsOptimal(oracle, lcns);
  }

  // ---- what the distance is, move by move ----

  lemma SeekOfTwo(x: nat, y: nat)
    ensures TotalSeek([]) == 0 && TotalSeek([x]) == 0
    ensures TotalSeek([x, y]) == if x <= y then y - x else x - y
  {
    assert [x, y][..1] == [x];
  }

  /** A tour is two tours that meet at any position of it. */
  lemma {:induction false} SeekSplits(s: seq<nat>, i: nat)
    requires i < |s|
    ensures TotalSeek(s) == TotalSeek(s[..i + 1]) + TotalSeek(s[i..])
  {
    var n := |s| - 1;
    if i == n {
      assert s[..n + 1] == s;
    } else {
      SeekSplits(s[..n], i);
      assert s[..n][..i + 1] == s[..i + 1] && s[i..][..n - i] == s[..n][i..];
    }
  }

  /** `p` lists every file once, by ascending key and among equal keys by place in the list. */
  ghost predicate IsReading(files: seq<Resolved>, key: Resolved -> nat, p: seq<nat>) {
    multiset(p) == multiset(Range(|files|)) && (forall a :: 0 <= a < |p| ==> p[a] < |files|) &&
    forall a, b :: 0 <= a < b < |p| ==>
      key(files[p[a]]) < key(files[p[b]]) || (key(files[p[a]]) == key(files[p[b]]) && p[a] < p[b])
  }

  /** The distance of reading the files in the order of the key. */
  ghost predicate ReadsIn(files: seq<Resolved>, key: Resolved -> nat, total: nat) {
    exists p :: IsReading(files, key, p) && total == TotalSeek(Lcns(files, p))
  }

  lemma MeasuredBy(files: seq<Resolved>, key: Resolved -> nat, total: nat)
    requires Measures(Map(key, files), files, total)
    ensures ReadsIn(files, key, total)
  {
    var keys := Map(key, files);
    var lcns :| Visits(keys, files, lcns) && total == TotalSeek(lcns);
    var p :| IsOrder(keys, p, |keys|) && lcns == Lcns(files, p);
    forall a, b | 0 <= a < b < |p|
      ensures key(files[p[a]]) < key(files[p[b]]) || (key(files[p[a]]) == key(files[p[b]]) && p[a] < p[b])
    {
      assert Precedes(keys, p[a], p[b]);
    }
    assert IsReading(files, key, p);
  }

  /** Each total is the distance of reading the files by that number. */
  lemma TotalsAreReadings(files: seq<Resolved>, natural: nat, frs: nat)
    requires Measures(NaturalKeys(files), files, natural) && Measures(FrsKeys(files), files, frs)
    ensures ReadsIn(files, (f: Resolved) => f.naturalIndex, natural) && ReadsIn(files, (f: Resolved) => f.frs, frs)
  {
    MeasuredBy(files, (f: Resolved) => f.naturalIndex, natural);
    MeasuredBy(files, (f: Resolved) => f.frs, frs);
  }
}
