/** The substring search of a drive, from names to results: trigram candidates
    are checked against the current names, in record order, up to a limit. */
module NameSearch {
  import opened Seqs
  import opened Postings
  import opened CsrSearch
  import opened Overlay
  import opened Trigram
  import opened ParentFirst
  import opened Journal
  import opened SlotTable
  import opened DriveIndex
  import Patch

  type Test = nat -> bool

  /** The records among the first `n` that pass the test, ascending. */
  function ScanTo(keep: Test, n: nat): seq<nat> {
    if n == 0 then [] else ScanTo(keep, n - 1) + if keep(n - 1) then [n - 1] else []
  }

  function Take<T>(s: seq<T>, n: nat): seq<T> { if |s| <= n then s else s[..n] }

  lemma {:induction false} ScanAscending(keep: Test, n: nat)
    ensures Ascending(ScanTo(keep, n))
    ensures ScanTo(keep, n) != [] ==> ScanTo(keep, n)[|ScanTo(keep, n)| - 1] < n
  {
    if n > 0 {
      ScanAscending(keep, n - 1);
      var s, t := ScanTo(keep, n), ScanTo(keep, n - 1);
      assert if keep(n - 1) then s[..|t|] == t else s == t;
    }
  }

  lemma {:induction false} ScanMembers(keep: Test, n: nat)
    ensures forall r: nat :: r in ScanTo(keep, n) <==> r < n && keep(r)
  {
    if n > 0 {
      ScanMembers(keep, n - 1);
    }
  }

  /** Ascending lists with the same members are the same list. */
  lemma {:induction false} AscendingUnique(s: seq<nat>, t: seq<nat>)
    requires Ascending(s) && Ascending(t)
    requires forall x: nat :: x in s <==> x in t
    ensures s == t
    decreases |s|
  {
    assert t != [] ==> t[0] in s;
    if s != [] {
      assert s[0] in t;
      var m, n := |s| - 1, |t| - 1;
      LastIsGreatest(s);
      LastIsGreatest(t);
      assert s[m] in s && t[n] in t;
      assert s[m] == t[n];
      forall x: nat ensures x in s[..m] <==> x in t[..n] {
        assert x in s[..m] <==> x in s && x < s[m];
        assert x in t[..n] <==> x in t && x < t[n];
      }
      AscendingUnique(s[..m], t[..n]);
      assert s == s[..m] + [s[m]] && t == t[..n] + [t[n]];
    }
  }

  lemma LastIsGreatest(s: seq<nat>)
    requires Ascending(s) && s != []
    ensures forall x: nat :: x in s[..|s| - 1] <==> x in s && x < s[|s| - 1]
    ensures forall x: nat :: x in s ==> x <= s[|s| - 1]
  {
    forall i | 0 <= i < |s| - 1 ensures s[i] < s[|s| - 1] {
      AscendingPair(s, i, |s| - 1);
    }
    assert s == s[..|s| - 1] + [s[|s| - 1]];
  }

  /** Check candidates in order until the limit is reached. */
  method CollectMatches(candidates: seq<nat>, keep: Test, limit: nat) returns (hits: seq<nat>)
    ensures hits == Take(Filter(keep, candidates), limit)
  {
    hits := [];
    for i := 0 to |candidates|
      invariant hits == Filter(keep, candidates[..i]) && |hits| <= limit
    {
      FilterSnoc(keep, candidates[..i], candidates[i]);
      assert candidates[..i + 1] == candidates[..i] + [candidates[i]];
      if |hits| >= limit {
        FilterAppend(keep, candidates[..i], candidates[i..]);
        assert candidates == candidates[..i] + candidates[i..];
        return;
      }
      if keep(candidates[i]) {
        hits := hits + [candidates[i]];
      }
    }
    assert candidates[..|candidates|] == candidates;
  }

  /** The linear scan that short needles fall back to. */
  method ScanMatches(n: nat, keep: Test, limit: nat) returns (hits: seq<nat>)
    ensures hits == Take(ScanTo(keep, n), limit)
  {
    hits := [];
    for i := 0 to n
      invariant hits == Take(ScanTo(keep, i), limit)
    {
      if |hits| < limit && keep(i) {
        hits := hits + [i];
      }
    }
  }

  // ---- the search of a drive ----

  /** The search can see the whole drive for this needle: it has a kept key to start from, and no pruned
      key of it is listed in the delta. */
  ghost predicate Sees(drive: Drive, needle: seq<Key>)
    reads drive
  {
    match drive.delta
    case None => exists t :: t in needle && !Pruned(drive.base, t)
    case Some(d) => !Blind(drive.base, d, needle)
  }

  /** The delta answers for the slot. */
  ghost predicate Answers(drive: Drive, r: nat)
    reads drive
  {
    drive.delta.Some? && Covered(drive.base, drive.delta.value, r)
  }

  function NameTest(fold: Folding, names: seq<string>, needle: string): Test {
    (r: nat) => r < |names| && Matches(fold, names[r], needle)
  }

  /** A matching slot is a candidate exactly when the search sees the needle or the delta answers for the slot. */
  lemma MatchIsFoundIff(drive: Drive, needle: string, keys: seq<Key>, r: nat)
    requires drive.Valid() && |needle| >= 3 && keys == Distinct(KeysOf(drive.fold, needle))
    requires NameTest(drive.fold, drive.table.names, needle)(r)
    ensures drive.Finds(keys, r) <==> Sees(drive, keys) || Answers(drive, r)
  {
    var names := drive.table.names;
    MatchHasTrigrams(drive.fold, names[r], needle);
    NeedleHasKeys(drive.fold, needle);
    assert KeyLists(drive.fold, names)[r] == KeysOf(drive.fold, names[r]);
    match drive.delta {
      case None => FoundIffSomeKeyKept(drive.base, keys, r);
      case Some(d) => OverlayFindsIff(drive.base, d, KeyLists(drive.fold, names), keys, r);
    }
  }

  lemma NeedleHasKeys(fold: Folding, needle: string)
    requires |needle| >= 3
    ensures Distinct(KeysOf(fold, needle)) != []
  {
    WindowsAt(CodesOf(fold, needle));
    DistinctKeepsMembers(KeysOf(fold, needle));
    assert KeysOf(fold, needle)[0] in Distinct(KeysOf(fold, needle));
  }

  // ---- results up to a limit ----

  lemma {:induction false} FilterAll<T>(p: T -> bool, s: seq<T>)
    requires forall x :: x in s ==> p(x)
    ensures Filter(p, s) == s
  {
    if s != [] {
      var n := |s| - 1;
      assert s == s[..n] + [s[n]];
      FilterAll(p, s[..n]);
    }
  }

  /** A filter that keeps the first elements keeps them as the first elements. */
  lemma TakeKept<T>(p: T -> bool, s: seq<T>, limit: nat)
    requires forall x :: x in Take(s, limit) ==> p(x)
    ensures Take(Filter(p, s), limit) == Take(s, limit)
  {
    var first := Take(s, limit);
    var rest := s[|first|..];
    assert s == first + rest;
    FilterAppend(p, first, rest);
    FilterAll(p, first);
  }

  /** The first results of a part of an ascending list are those of the whole exactly when the part has them. */
  lemma TakeOfPart(part: seq<nat>, whole: seq<nat>, limit: nat)
    requires Ascending(part) && Ascending(whole) && forall x :: x in part ==> x in whole
    ensures Take(part, limit) == Take(whole, limit) <==> forall x :: x in Take(whole, limit) ==> x in part
  {
    var p := (x: nat) => x in part;
    FilterMembers(p, whole);
    FilterAscending(p, whole);
    AscendingUnique(Filter(p, whole), part);
    assert forall x :: x in Take(part, limit) ==> x in part;
    if forall x :: x in Take(whole, limit) ==> x in part {
      TakeKept(p, whole, limit);
    }
  }

  /** The first matches of a scan over the current names. */
  function FirstMatches(fold: Folding, names: seq<string>, needle: string, limit: nat): seq<nat> {
    Take(ScanTo(NameTest(fold, names, needle), |names|), limit)
  }

  /** Whatever journal batches led to the present state, the results are the first matches of a linear scan over the
      current names, in the same order, for needles of one or two characters; for longer ones exactly when the search
      sees the needle or the delta answers for each of those matches. */
  method SearchCompactDrive(drive: Drive, needle: string, limit: nat) returns (hits: seq<nat>)
    requires drive.Valid()
    ensures needle == "" ==> hits == []
    ensures forall r :: r in hits ==> NameTest(drive.fold, drive.table.names, needle)(r)
    ensures 0 < |needle| < 3 ==> hits == FirstMatches(drive.fold, drive.table.names, needle, limit)
    ensures |needle| >= 3 ==>
              (hits == FirstMatches(drive.fold, drive.table.names, needle, limit) <==>
               Sees(drive, Distinct(KeysOf(drive.fold, needle))) ||
               forall r :: r in FirstMatches(drive.fold, drive.table.names, needle, limit) ==> Answers(drive, r))
  {
    if needle == "" {
      return [];
    }
    var keep, n := NameTest(drive.fold, drive.table.names, needle), |drive.table.names|;
    ScanMembers(keep, n);
    if |needle| < 3 {
      hits := ScanMatches(n, keep, limit);
      assert forall r :: r in hits ==> r in ScanTo(keep, n);
      return;
    }
    var keys := Deduplicate(KeysOf(drive.fold, needle));
    var candidates := drive.TrigramSearch(keys);
    hits := CollectMatches(candidates, keep, limit);
    FilterMembers(keep, candidates);
    FilterAscending(keep, candidates);
    assert forall r :: r in hits ==> r in Filter(keep, candidates);
    FoundAmongFirst(drive, needle, keys, candidates, limit);
  }

  lemma FoundAmongFirst(drive: Drive, needle: string, keys: seq<Key>, candidates: seq<nat>, limit: nat)
    requires drive.Valid() && |needle| >= 3 && keys == Distinct(KeysOf(drive.fold, needle))
    requires Ascending(candidates) && forall r: nat :: r in candidates <==> drive.Finds(keys, r)
    ensures var keep := NameTest(drive.fold, drive.table.names, needle);
            var first := FirstMatches(drive.fold, drive.table.names, needle, limit);
            Take(Filter(keep, candidates), limit) == first <==>
            Sees(drive, keys) || forall r :: r in first ==> Answers(drive, r)
  {
    var keep, n := NameTest(drive.fold, drive.table.names, needle), |drive.table.names|;
    var part, whole := Filter(keep, candidates), ScanTo(keep, n);
    ScanMembers(keep, n);
    ScanAscending(keep, n);
    FilterMembers(keep, candidates);
    FilterAscending(keep, candidates);
    TakeOfPart(part, whole, limit);
    assert forall r :: r in Take(whole, limit) ==> r in whole;
    forall r | r in Take(whole, limit) ensures r in part <==> Sees(drive, keys) || Answers(drive, r) {
      MatchIsFoundIff(drive, needle, keys, r);
    }
  }

  // ---- from the journal to the results ----

  /** Poll the journal and search. Where the records agree and the needle is seen, the files found are exactly those
      whose name, after applying the records one at a time, matches. */
  method PollAndSearch(drive: Drive, records: seq<UsnRecord>, iteration: map<nat, Change> -> seq<Change>, needle: string)
      returns (hits: seq<nat>)
    requires drive.Valid() && Patch.IsIteration(iteration) && needle != ""
    modifies drive
    ensures drive.Valid()
    ensures (forall f: nat :: Patch.Agrees(NamesIn(old(drive.table)), records, f)) &&
            (|needle| < 3 || Sees(drive, Distinct(KeysOf(drive.fold, needle)))) ==>
              var names := Replay(NamesIn(old(drive.table)), records);
              (forall f: nat :: f in names <==> f in drive.table.slotOf) &&
              forall f: nat :: f in names ==> (drive.table.slotOf[f] in hits <==> Matches(drive.fold, names[f].name, needle))
  {
    drive.ApplyJournal(records, iteration);
    var n := |drive.table.names|;
    hits := SearchCompactDrive(drive, needle, n);
    AllMatches(drive.fold, drive.table.names, needle);
  }

  lemma AllMatches(fold: Folding, names: seq<string>, needle: string)
    ensures forall r: nat :: r in FirstMatches(fold, names, needle, |names|) <==> r < |names| && Matches(fold, names[r], needle)
  {
    var keep := NameTest(fold, names, needle);
    ScanMembers(keep, |names|);
    ScanLength(keep, |names|);
  }

  lemma {:induction false} ScanLength(keep: Test, n: nat)
    ensures |ScanTo(keep, n)| <= n
  {
    if n > 0 {
      ScanLength(keep, n - 1);
    }
  }

  // ---- when a needle is seen, in terms of names ----

  /** Slots whose name has the trigram. */
  ghost function NamesWith(fold: Folding, names: seq<string>, t: Key): set<nat> {
    set s: nat | s < |names| && t in KeysOf(fold, names[s])
  }

  /** A fresh index sees a needle exactly when one of its trigrams is in at most 1024 names, or in at most a quarter of
      all names. */
  lemma FreshIndexSeesIff(drive: Drive, needle: string)
    requires drive.Valid() && drive.delta.None?
    ensures Sees(drive, Distinct(KeysOf(drive.fold, needle))) <==>
            exists t :: t in KeysOf(drive.fold, needle) &&
                        (|NamesWith(drive.fold, drive.table.names, t)| <= 1024 ||
                         4 * |NamesWith(drive.fold, drive.table.names, t)| <= |drive.table.names|)
  {
    DistinctKeepsMembers(KeysOf(drive.fold, needle));
    var names := drive.table.names;
    var records := KeyLists(drive.fold, names);
    forall t ensures Pruned(records, t) <==>
      |NamesWith(drive.fold, names, t)| > 1024 && 4 * |NamesWith(drive.fold, names, t)| > |names|
    {
      PrunedIff(records, t);
      assert NamesWith(drive.fold, names, t) == set r: nat | r < |records| && t in records[r];
    }
  }

  /** The characters of the needle stand in the name from `i` on, up to case. */
  ghost predicate FoldedAt(fold: Folding, name: string, needle: string, i: nat) {
    i + |needle| <= |name| && forall k :: 0 <= k < |needle| ==> fold(name[i + k]) == fold(needle[k])
  }

  lemma FoldedOccurs(fold: Folding, name: string, needle: string, i: nat)
    ensures FoldedAt(fold, name, needle, i) <==> i <= |name| && OccursAt(Map(fold, name), Map(fold, needle), i)
  {
    var text, part := Map(fold, name), Map(fold, needle);
    if i + |needle| <= |name| {
      var there := text[i..i + |part|];
      assert forall k :: 0 <= k < |needle| ==> there[k] == fold(name[i + k]);
      if FoldedAt(fold, name, needle, i) {
        assert there == part;
      }
    }
  }

  /** A name matches where it has the needle's characters, after folding, one after the other. */
  lemma MatchesIff(fold: Folding, name: string, needle: string)
    ensures Matches(fold, name, needle) <==>
            name != "" && name != "." && exists i: nat :: FoldedAt(fold, name, needle, i)
  {
    forall i: nat ensures FoldedAt(fold, name, needle, i) <==> i <= |name| && OccursAt(Map(fold, name), Map(fold, needle), i) {
      FoldedOccurs(fold, name, needle, i);
    }
  }

  /** The limit cuts the results and nothing else. */
  lemma TakeIsPrefix<T>(s: seq<T>, n: nat)
    ensures Take(s, n) <= s && |Take(s, n)| == if |s| <= n then |s| else n
  {
  }
}
