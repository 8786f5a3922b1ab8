/** Reconciling live-read skew in place: baseline leftovers are paired with Rust
    leftovers of the same path and accepted pairs are dropped from both lists.
    The loops here are proved to compute the greedy matching of GreedyMatching. */
module Reconcile {
  import opened Seqs
  import opened Lines
  import opened LiveSkew
  import opened StreamingDiff
  import opened GreedyMatching
  import opened Verdict

  // ---- the index by path ----

  /** Positions of the elements that pass the test, ascending. */
  function Positions<T>(p: T -> bool, s: seq<T>): seq<nat> {
    if s == [] then [] else Positions(p, s[..|s| - 1]) + if p(s[|s| - 1]) then [|s| - 1] else []
  }

  /** Every entry is such a position, and they ascend. */
  ghost predicate ArePositions<T>(p: T -> bool, s: seq<T>, idxs: seq<nat>) {
    (forall t :: 0 <= t < |idxs| ==> idxs[t] < |s| && p(s[idxs[t]])) &&
    (forall t, u :: 0 <= t < u < |idxs| ==> idxs[t] < idxs[u])
  }

  lemma {:induction false} PositionsAre<T>(p: T -> bool, s: seq<T>)
    ensures ArePositions(p, s, Positions(p, s))
  {
    if s != [] {
      PositionsAre(p, s[..|s| - 1]);
    }
  }

  lemma {:induction false} PositionsHave<T>(p: T -> bool, s: seq<T>, i: nat)
    requires i < |s| && p(s[i])
    ensures i in Positions(p, s)
  {
    if i < |s| - 1 {
      PositionsHave(p, s[..|s| - 1], i);
    }
  }

  function HasKey<T, K(==)>(key: T -> K, k: K): T -> bool { (x: T) => key(x) == k }

  /** Positions of the rows with the given path. */
  function IndicesOf(rows: seq<Line>, path: string): seq<nat> { Positions(HasKey(ExtractPath, path), rows) }

  function Lookup<K>(byKey: map<K, seq<nat>>, k: K): seq<nat> { if k in byKey then byKey[k] else [] }

  /** The map lists the positions of every key. */
  ghost predicate IsIndex<T, K(!new)>(key: T -> K, byKey: map<K, seq<nat>>, s: seq<T>) {
    forall k :: Lookup(byKey, k) == Positions(HasKey(key, k), s)
  }

  lemma PositionsSnoc<T>(p: T -> bool, s: seq<T>, x: T)
    ensures Positions(p, s + [x]) == Positions(p, s) + if p(x) then [|s|] else []
  {
    assert (s + [x])[..|s|] == s;
  }

  lemma IndexNext<T, K(!new)>(key: T -> K, byKey: map<K, seq<nat>>, s: seq<T>, x: T)
    requires IsIndex(key, byKey, s)
    ensures IsIndex(key, byKey[key(x) := Lookup(byKey, key(x)) + [|s|]], s + [x])
  {
    var next := byKey[key(x) := Lookup(byKey, key(x)) + [|s|]];
    forall k ensures Lookup(next, k) == Positions(HasKey(key, k), s + [x]) {
      PositionsSnoc(HasKey(key, k), s, x);
    }
  }

  method IndexByPath(rows: seq<Line>) returns (byPath: map<string, seq<nat>>)
    ensures IsIndex(ExtractPath, byPath, rows)
  {
    byPath := map[];
    for i := 0 to |rows|
      invariant IsIndex(ExtractPath, byPath, rows[..i])
    {
      var path := ExtractPath(rows[i]);
      IndexNext(ExtractPath, byPath, rows[..i], rows[i]);
      assert rows[..i + 1] == rows[..i] + [rows[i]];
      byPath := byPath[path := Lookup(byPath, path) + [i]];
    }
    assert rows[..|rows|] == rows;
  }

  // ---- one baseline row ----

  /** The first free acceptable row is the only row that is one and has none before it. */
  lemma FirstFreeIs<T>(ok: (T, T) -> bool, b: T, rs: seq<T>, used: seq<bool>, j: nat)
    requires |used| == |rs| && j <= |rs|
    requires j < |rs| ==> !used[j] && ok(b, rs[j])
    requires forall i :: 0 <= i < j ==> used[i] || !ok(b, rs[i])
    ensures FirstFree(ok, b, rs, used, 0) == j
  {
  }

  /** The first `t` listed rows are taken or not acceptable. */
  ghost predicate Passed<T>(ok: (T, T) -> bool, b: T, rs: seq<T>, used: seq<bool>, idxs: seq<nat>, t: nat) {
    t <= |idxs| && |used| == |rs| && (forall u :: 0 <= u < |idxs| ==> idxs[u] < |rs|) &&
    forall u :: 0 <= u < t ==> used[idxs[u]] || !ok(b, rs[idxs[u]])
  }

  lemma PassedNext<T>(ok: (T, T) -> bool, b: T, rs: seq<T>, used: seq<bool>, idxs: seq<nat>, t: nat)
    requires Passed(ok, b, rs, used, idxs, t) && t < |idxs| && (used[idxs[t]] || !ok(b, rs[idxs[t]]))
    ensures Passed(ok, b, rs, used, idxs, t + 1)
  {
  }

  /** The list names every row that could be acceptable, ascending. */
  ghost predicate Lists<T>(ok: (T, T) -> bool, b: T, rs: seq<T>, idxs: seq<nat>) {
    (forall t, u :: 0 <= t < u < |idxs| ==> idxs[t] < idxs[u]) &&
    forall i: nat :: i < |rs| && ok(b, rs[i]) ==> i in idxs
  }

  lemma FirstListed<T>(ok: (T, T) -> bool, b: T, rs: seq<T>, used: seq<bool>, idxs: seq<nat>, t: nat)
    requires Lists(ok, b, rs, idxs) && Passed(ok, b, rs, used, idxs, t)
    requires t < |idxs| ==> !used[idxs[t]] && ok(b, rs[idxs[t]])
    ensures FirstFree(ok, b, rs, used, 0) == if t < |idxs| then idxs[t] else |rs|
  {
    var j := if t < |idxs| then idxs[t] else |rs|;
    assert forall u :: t < u < |idxs| ==> idxs[t] < idxs[u];
    forall i | 0 <= i < j ensures used[i] || !ok(b, rs[i]) {
      if ok(b, rs[i]) {
        assert i in idxs;
        var u :| 0 <= u < |idxs| && idxs[u] == i;
      }
    }
    FirstFreeIs(ok, b, rs, used, j);
  }

  /** Rows outside the index of a path are not acceptable for it. */
  lemma IndexLists(b: Line, rs: seq<Line>)
    ensures Lists(Acceptable, b, rs, IndicesOf(rs, ExtractPath(b)))
    ensures forall u :: 0 <= u < |IndicesOf(rs, ExtractPath(b))| ==>
              IndicesOf(rs, ExtractPath(b))[u] < |rs| &&
              ExtractPath(rs[IndicesOf(rs, ExtractPath(b))[u]]) == ExtractPath(b)
  {
    PositionsAre(HasKey(ExtractPath, ExtractPath(b)), rs);
    forall i: nat | i < |rs| && Acceptable(b, rs[i]) ensures i in IndicesOf(rs, ExtractPath(b)) {
      PositionsHave(HasKey(ExtractPath, ExtractPath(b)), rs, i);
    }
  }

  method FindPartner(b: Line, rs: seq<Line>, idxs: seq<nat>, taken: array<bool>)
    returns (j: nat)
    requires taken.Length == |rs|
    requires idxs == IndicesOf(rs, ExtractPath(b))
    ensures j == FirstFree(Acceptable, b, rs, taken[..], 0)
  {
    IndexLists(b, rs);
    for t := 0 to |idxs|
      invariant Passed(Acceptable, b, rs, taken[..], idxs, t)
    {
      var ri := idxs[t];
      assert ExtractPath(rs[ri]) == ExtractPath(b);
      if !taken[ri] {
        var reason := ClassifyLiveSkew(b, rs[ri]);
        if reason.Some? {
          FirstListed(Acceptable, b, rs, taken[..], idxs, t);
          return ri;
        }
      }
      PassedNext(Acceptable, b, rs, taken[..], idxs, t);
    }
    FirstListed(Acceptable, b, rs, taken[..], idxs, |idxs|);
    j := |rs|;
  }

  // ---- the reconciliation ----

  method RetainRows(rows: seq<Line>, drop: array<bool>) returns (kept: seq<Line>)
    requires drop.Length == |rows|
    ensures kept == Retain(rows, drop[..])
  {
    kept := [];
    for i := 0 to |rows|
      invariant kept == Retain(rows[..i], drop[..i])
    {
      RetainSnoc(rows[..i], drop[..i], rows[i], drop[i]);
      assert rows[..i + 1] == rows[..i] + [rows[i]] && drop[..i + 1] == drop[..i] + [drop[i]];
      if !drop[i] {
        kept := kept + [rows[i]];
      }
    }
    assert rows[..|rows|] == rows && drop[..|rows|] == drop[..];
  }

  lemma NoRowsNoPairs(bs: seq<Line>, rs: seq<Line>)
    requires bs == [] || rs == []
    ensures PairCount(Greedy(Acceptable, bs, rs)) == 0
  {
    NothingAcceptable(Acceptable, bs, rs);
  }

  /** With nothing tolerated both lists stay as they are. */
  lemma NothingTolerated(bs: seq<Line>, rs: seq<Line>)
    requires PairCount(Greedy(Acceptable, bs, rs)) == 0
    ensures SurvivorsB(bs, Greedy(Acceptable, bs, rs)) == bs
    ensures SurvivorsR(rs, Greedy(Acceptable, bs, rs)) == rs
  {
    var m := Greedy(Acceptable, bs, rs);
    GreedyTakesPairs(Acceptable, bs, rs);
    RetainLength(bs, Dropped(m.partner));
    RetainLength(rs, m.used);
  }

  /** The two leftover lists of a diff, which the reconciliation shortens in place. */
  class LiveDiff {
    var onlyInBaseline: seq<Line>
    var onlyInRust: seq<Line>

    constructor (diff: DiffResult)
      ensures onlyInBaseline == diff.onlyInBaseline && onlyInRust == diff.onlyInRust
    {
      onlyInBaseline, onlyInRust := diff.onlyInBaseline, diff.onlyInRust;
    }

    /** Drops exactly the pairs of the greedy matching from both lists. */
    method ReconcileLiveSkew() returns (tolerated: nat)
      modifies this
      ensures var m := Greedy(Acceptable, old(onlyInBaseline), old(onlyInRust));
              tolerated == PairCount(m) &&
              onlyInBaseline == SurvivorsB(old(onlyInBaseline), m) &&
              onlyInRust == SurvivorsR(old(onlyInRust), m)
    {
      var bs, rs := onlyInBaseline, onlyInRust;
      if bs == [] || rs == [] {
        NoRowsNoPairs(bs, rs);
        NothingTolerated(bs, rs);
        return 0;
      }
      var dropBaseline, dropRust;
      tolerated, dropBaseline, dropRust := PairRows(bs, rs);
      if tolerated == 0 {
        NothingTolerated(bs, rs);
        return 0;
      }
      onlyInBaseline := RetainRows(bs, dropBaseline);
      onlyInRust := RetainRows(rs, dropRust);
    }
  }

  /** One baseline row: flag it and its partner, if there is one. */
  method PairRow(
    bs: seq<Line>, rs: seq<Line>, bi: nat, idxs: seq<nat>, dropBaseline: array<bool>, dropRust: array<bool>, tolerated: nat)
    returns (tolerated': nat)
    requires bi < |bs| && dropBaseline != dropRust && idxs == IndicesOf(rs, ExtractPath(bs[bi]))
    requires PairedTo(Acceptable, bs, rs, bi, dropBaseline[..], dropRust[..], tolerated)
    modifies dropBaseline, dropRust
    ensures PairedTo(Acceptable, bs, rs, bi + 1, dropBaseline[..], dropRust[..], tolerated')
  {
    PairedNext(Acceptable, bs, rs, bi, dropBaseline[..], dropRust[..], tolerated);
    var ri := FindPartner(bs[bi], rs, idxs, dropRust);
    tolerated' := tolerated;
    if ri < |rs| {
      ghost var db, dr := dropBaseline[..], dropRust[..];
      dropBaseline[bi] := true;
      dropRust[ri] := true;
      tolerated' := tolerated + 1;
      assert dropBaseline[..] == db[bi := true] && dropRust[..] == dr[ri := true];
    }
  }

  /** The pairing loop with its drop flags. */
  method PairRows(bs: seq<Line>, rs: seq<Line>)
    returns (tolerated: nat, dropBaseline: array<bool>, dropRust: array<bool>)
    ensures fresh(dropBaseline) && fresh(dropRust)
    ensures var m := Greedy(Acceptable, bs, rs);
            tolerated == PairCount(m) && dropBaseline[..] == Dropped(m.partner) && dropRust[..] == m.used
  {
    var byPath := IndexByPath(rs);
    dropBaseline := new bool[|bs|](_ => false);
    dropRust := new bool[|rs|](_ => false);
    tolerated := 0;
    PairedNone(Acceptable, bs, rs, dropBaseline[..], dropRust[..]);
    for bi := 0 to |bs|
      invariant fresh(dropBaseline) && fresh(dropRust) && dropBaseline != dropRust
      invariant PairedTo(Acceptable, bs, rs, bi, dropBaseline[..], dropRust[..], tolerated)
    {
      var idxs := Lookup(byPath, ExtractPath(bs[bi]));
      tolerated := PairRow(bs, rs, bi, idxs, dropBaseline, dropRust, tolerated);
    }
    assert bs[..|bs|] == bs && dropBaseline[..][..|bs|] == dropBaseline[..];
  }

  // ---- the rows of the parity checker ----

  ghost predicate AllWellFormed(lines: seq<Line>) {
    forall x :: x in lines ==> WellFormed(x)
  }

  /** On the two lists of a streaming diff, acceptance is equality of classes: the lists share no line. */
  lemma DiffRowsAreByClass(H: Hasher, baseline: seq<Line>, rust: seq<Line>)
    requires AllWellFormed(SurplusLines(H, baseline, rust)) && AllWellFormed(SurplusLines(H, rust, baseline))
    ensures ByClass(Acceptable, ClassOf, SurplusLines(H, baseline, rust), SurplusLines(H, rust, baseline))
  {
    var bs, rs := SurplusLines(H, baseline, rust), SurplusLines(H, rust, baseline);
    forall b, r | b in bs && r in rs ensures Acceptable(b, r) <==> ClassOf(b) == ClassOf(r) {
      SurplusDisjoint(H, baseline, rust, b, r);
      AcceptableIsSameClass(b, r);
    }
  }

  /** The tolerated count of a live comparison is the sum over the skew classes of the smaller row count,
      however the rows are ordered, and no pairing of acceptable rows has more pairs. */
  lemma LiveToleranceIsOptimal(H: Hasher, baseline: seq<Line>, rust: seq<Line>, pairs: seq<(nat, nat)>)
    requires AllWellFormed(SurplusLines(H, baseline, rust)) && AllWellFormed(SurplusLines(H, rust, baseline))
    ensures var bs, rs := SurplusLines(H, baseline, rust), SurplusLines(H, rust, baseline);
            PairCount(Greedy(Acceptable, bs, rs)) == |Classes(ClassOf, bs) * Classes(ClassOf, rs)| &&
            (IsPairing(Acceptable, bs, rs, pairs) ==> |pairs| <= PairCount(Greedy(Acceptable, bs, rs)))
  {
    var bs, rs := SurplusLines(H, baseline, rust), SurplusLines(H, rust, baseline);
    DiffRowsAreByClass(H, baseline, rust);
    GreedyCountsClasses(Acceptable, ClassOf, bs, rs);
    if IsPairing(Acceptable, bs, rs, pairs) {
      GreedyIsMaximum(Acceptable, ClassOf, bs, rs, pairs);
    }
  }

  // ---- the live verdict ----

  function LiveVerdictOf(D: Digest, H: Hasher, baseline: seq<Line>, rust: seq<Line>): VerifyResult {
    if D(baseline) == D(rust) then StrictMatch
    else if FingerprintOf(H, baseline) == FingerprintOf(H, rust) then SortedMatch
    else
      var bs, rs := SurplusLines(H, baseline, rust), SurplusLines(H, rust, baseline);
      if SurvivorsB(bs, Greedy(Acceptable, bs, rs)) == [] then SupersetMatch else Mismatch
  }

  method RunLiveDriveParity(D: Digest, H: Hasher, cpp: seq<Line>, rust: seq<Line>)
    returns (result: VerifyResult, extraRustLines: nat)
    ensures result == LiveVerdictOf(D, H, cpp, rust)
    ensures result in {StrictMatch, SortedMatch} ==> extraRustLines == 0
    ensures result in {SupersetMatch, Mismatch} ==>
            extraRustLines + PairCount(Greedy(Acceptable, SurplusLines(H, cpp, rust), SurplusLines(H, rust, cpp))) ==
            |SurplusLines(H, rust, cpp)|
  {
    var goldenStats := ComputeStreamingStats(D, H, cpp);
    var rustStats := ComputeStreamingStats(D, H, rust);
    if goldenStats.orderedHash == rustStats.orderedHash {
      return StrictMatch, 0;
    }
    if IsSortedMatch(goldenStats, rustStats) {
      return SortedMatch, 0;
    }
    var diff := ComputeStreamingDiff(H, cpp, rust);
    var live := new LiveDiff(diff);
    var tolerated := live.ReconcileLiveSkew();
    SurvivorsShrink(Acceptable, diff.onlyInBaseline, diff.onlyInRust);
    if live.onlyInBaseline == [] {
      return SupersetMatch, |live.onlyInRust|;
    }
    return Mismatch, |live.onlyInRust|;
  }

  /** On well-formed rows, a live comparison that reaches the diff passes exactly when every skew class
      of the missing rows has at least as many extra rows. */
  lemma LiveVerdictByClasses(D: Digest, H: Hasher, baseline: seq<Line>, rust: seq<Line>)
    requires AllWellFormed(SurplusLines(H, baseline, rust)) && AllWellFormed(SurplusLines(H, rust, baseline))
    requires D(baseline) != D(rust) && FingerprintOf(H, baseline) != FingerprintOf(H, rust)
    ensures LiveVerdictOf(D, H, baseline, rust) == SupersetMatch <==>
            Classes(ClassOf, SurplusLines(H, baseline, rust)) <= Classes(ClassOf, SurplusLines(H, rust, baseline))
  {
    var bs, rs := SurplusLines(H, baseline, rust), SurplusLines(H, rust, baseline);
    DiffRowsAreByClass(H, baseline, rust);
    SurvivingClasses(Acceptable, ClassOf, bs, rs);
    var left := SurvivorsB(bs, Greedy(Acceptable, bs, rs));
    ClassesIsImage(ClassOf, left);
    EmptyDifference(Classes(ClassOf, bs), Classes(ClassOf, rs));
  }

  lemma EmptyDifference<K>(a: multiset<K>, b: multiset<K>)
    ensures |a - b| == 0 <==> a <= b
  {
    if |a - b| == 0 {
      forall k ensures a[k] <= b[k] {
        assert (a - b)[k] == 0;
      }
    }
    assert a <= b ==> a - b == multiset{};
  }

  /** The first two verdicts of a live comparison are those of the offline one; the other two, on well-formed rows,
      say whether every skew class of the missing rows has at least as many extra rows. */
  lemma LiveVerdictIff(D: Digest, H: Hasher, baseline: seq<Line>, rust: seq<Line>)
    ensures var verdict := LiveVerdictOf(D, H, baseline, rust);
            (verdict == StrictMatch <==> D(baseline) == D(rust)) &&
            (verdict == SortedMatch <==> D(baseline) != D(rust) && LookPermuted(H, baseline, rust))
    ensures var bs, rs := SurplusLines(H, baseline, rust), SurplusLines(H, rust, baseline);
            AllWellFormed(bs) && AllWellFormed(rs) && D(baseline) != D(rust) && !LookPermuted(H, baseline, rust) ==>
              LiveVerdictOf(D, H, baseline, rust) ==
              if Classes(ClassOf, bs) <= Classes(ClassOf, rs) then SupersetMatch else Mismatch
  {
    FingerprintsAgreeIff(H, baseline, rust);
    var bs, rs := SurplusLines(H, baseline, rust), SurplusLines(H, rust, baseline);
    if AllWellFormed(bs) && AllWellFormed(rs) && D(baseline) != D(rust) && !LookPermuted(H, baseline, rust) {
      LiveVerdictByClasses(D, H, baseline, rust);
    }
  }
}
