/** Incremental maintenance of the trigram index: an immutable base, a delta of
    postings added since, and tombstones for records whose base postings are stale.

    Records are known by the trigrams of their current name; a deleted record has
    none. A search reads base and delta together; compaction folds them. */
module Overlay {
  import opened Seqs
  import opened Postings
  import opened CsrBuild
  import opened CsrSearch

  datatype Delta = Delta(postings: map<Key, seq<nat>>, tombstones: set<nat>, touched: nat)

  const EMPTY_DELTA := Delta(map[], {}, 0)

  function DeltaList(d: Delta, t: Key): seq<nat> {
    if t in d.postings then d.postings[t] else []
  }

  // ---- updating the delta ----

  /** Insert into an ascending list, once. */
  function SortedInsert(list: seq<nat>, v: nat): seq<nat> {
    if list == [] || list[|list| - 1] < v then list + [v]
    else if list[|list| - 1] == v then list
    else SortedInsert(list[..|list| - 1], v) + [list[|list| - 1]]
  }

  /** All elements of `out` lie below `x`. */
  ghost predicate Below(out: seq<nat>, x: nat) { out == [] || out[|out| - 1] < x }

  lemma AppendAscending(out: seq<nat>, x: nat)
    requires Ascending(out) && Below(out, x)
    ensures Ascending(out + [x]) && forall y :: y in out + [x] <==> y in out || y == x
  {
    assert (out + [x])[..|out|] == out;
  }

  /** The greatest element after the insertion. */
  function LastOf(list: seq<nat>, v: nat): nat {
    if list == [] || list[|list| - 1] < v then v else list[|list| - 1]
  }

  lemma FrontBelow(list: seq<nat>)
    requires Ascending(list) && list != []
    ensures Ascending(list[..|list| - 1]) && Below(list[..|list| - 1], list[|list| - 1])
  {
  }

  lemma {:induction false} SortedInsertAscends(list: seq<nat>, v: nat)
    requires Ascending(list)
    ensures var r := SortedInsert(list, v); Ascending(r) && r != [] && r[|r| - 1] == LastOf(list, v)
  {
    if list == [] || list[|list| - 1] < v {
      AppendAscending(list, v);
    } else if list[|list| - 1] > v {
      var n := |list| - 1;
      FrontBelow(list);
      SortedInsertAscends(list[..n], v);
      AppendAscending(SortedInsert(list[..n], v), list[n]);
    }
  }

  lemma {:induction false} SortedInsertMembers(list: seq<nat>, v: nat)
    ensures forall x :: x in SortedInsert(list, v) <==> x == v || x in list
  {
    if list != [] && list[|list| - 1] > v {
      var n := |list| - 1;
      SortedInsertMembers(list[..n], v);
      assert list == list[..n] + [list[n]];
    }
  }

  function AddPosting(d: Delta, i: nat, t: Key): Delta {
    d.(postings := d.postings[t := SortedInsert(DeltaList(d, t), i)])
  }

  function AddPostings(d: Delta, i: nat, keys: seq<Key>): Delta {
    if keys == [] then d else AddPosting(AddPostings(d, i, keys[..|keys| - 1]), i, keys[|keys| - 1])
  }

  /** Register the keys of a created or renamed record. */
  function AddRecord(d: Delta, i: nat, keys: seq<Key>): Delta {
    var d' := AddPostings(d, i, keys);
    d'.(touched := d'.touched + 1)
  }

  /** Mark the base postings of a record stale. */
  function Tombstone(d: Delta, i: nat): Delta {
    if i in d.tombstones then d else d.(tombstones := d.tombstones + {i}, touched := d.touched + 1)
  }

  function TombstoneAll(d: Delta, stale: seq<nat>): Delta {
    if stale == [] then d else Tombstone(TombstoneAll(d, stale[..|stale| - 1]), stale[|stale| - 1])
  }

  /** Re-add the records that are still in use under their current keys; a name too short for a trigram adds no
      posting but counts as a touch. */
  function AddAll(d: Delta, records: seq<Record>, live: nat -> bool, adds: seq<nat>): Delta {
    if adds == [] then d
    else
      var d' := AddAll(d, records, live, adds[..|adds| - 1]);
      var i := adds[|adds| - 1];
      if i < |records| && live(i) then AddRecord(d', i, Distinct(records[i])) else d'
  }

  function DeltaAfter(d: Delta, records: seq<Record>, live: nat -> bool, adds: seq<nat>, stale: seq<nat>): Delta {
    AddAll(TombstoneAll(d, stale), records, live, adds)
  }

  /** A record with trigrams is in use. */
  ghost predicate LiveIfKeyed(records: seq<Record>, live: nat -> bool) {
    forall i: nat :: i < |records| && records[i] != [] ==> live(i)
  }

  /** The delta lists record `x` under key `t`. */
  predicate Lists(d: Delta, t: Key, x: nat) { x in DeltaList(d, t) }

  ghost predicate ListOk(list: seq<nat>, n: nat) {
    Ascending(list) && forall k :: 0 <= k < |list| ==> list[k] < n
  }

  ghost predicate ListsAscend(d: Delta, n: nat) {
    forall t :: ListOk(DeltaList(d, t), n)
  }

  lemma AddPostingAdds(d: Delta, i: nat, t: Key, n: nat)
    requires ListsAscend(d, n) && i < n
    ensures var d' := AddPosting(d, i, t);
            ListsAscend(d', n) && d'.tombstones == d.tombstones &&
            forall u, x :: Lists(d', u, x) <==> Lists(d, u, x) || (x == i && u == t)
  {
    var d' := AddPosting(d, i, t);
    var list := DeltaList(d, t);
    assert ListOk(list, n);
    SortedInsertAscends(list, i);
    SortedInsertMembers(list, i);
    assert forall u :: DeltaList(d', u) == if u == t then SortedInsert(list, i) else DeltaList(d, u);
    forall k | 0 <= k < |SortedInsert(list, i)| ensures SortedInsert(list, i)[k] < n {
      assert SortedInsert(list, i)[k] in SortedInsert(list, i);
    }
  }

  lemma {:induction false} AddPostingsAdds(d: Delta, i: nat, keys: seq<Key>, n: nat)
    requires ListsAscend(d, n) && i < n
    ensures var d' := AddPostings(d, i, keys);
            ListsAscend(d', n) && d'.tombstones == d.tombstones &&
            forall u, x :: Lists(d', u, x) <==> Lists(d, u, x) || (x == i && u in keys)
  {
    if keys != [] {
      var m := |keys| - 1;
      AddPostingsAdds(d, i, keys[..m], n);
      assert keys == keys[..m] + [keys[m]];
      AddPostingAdds(AddPostings(d, i, keys[..m]), i, keys[m], n);
    }
  }

  lemma AddRecordAdds(d: Delta, i: nat, record: Record, n: nat)
    requires ListsAscend(d, n) && i < n
    ensures var d' := AddRecord(d, i, Distinct(record));
            ListsAscend(d', n) && d'.tombstones == d.tombstones &&
            forall u, x :: Lists(d', u, x) <==> Lists(d, u, x) || (x == i && u in record)
  {
    AddPostingsAdds(d, i, Distinct(record), n);
    DistinctKeepsMembers(record);
    var d1 := AddPostings(d, i, Distinct(record));
    var d' := AddRecord(d, i, Distinct(record));
    assert forall u :: DeltaList(d', u) == DeltaList(d1, u);
    assert forall u, x :: Lists(d', u, x) == Lists(d1, u, x);
  }

  lemma {:induction false} TombstoneAllMarks(d: Delta, stale: seq<nat>)
    ensures var d' := TombstoneAll(d, stale);
            d'.postings == d.postings && forall i :: i in d'.tombstones <==> i in d.tombstones || i in stale
  {
    if stale != [] {
      var m := |stale| - 1;
      TombstoneAllMarks(d, stale[..m]);
      assert stale == stale[..m] + [stale[m]];
    }
  }

  lemma {:induction false} AddAllAdds(d: Delta, records: seq<Record>, live: nat -> bool, adds: seq<nat>)
    requires ListsAscend(d, |records|) && LiveIfKeyed(records, live)
    ensures var d' := AddAll(d, records, live, adds);
            ListsAscend(d', |records|) && d'.tombstones == d.tombstones &&
            forall u, x: nat :: Lists(d', u, x) <==> Lists(d, u, x) || (x in adds && x < |records| && u in records[x])
  {
    if adds != [] {
      var m := |adds| - 1;
      AddAllAdds(d, records, live, adds[..m]);
      assert adds == adds[..m] + [adds[m]];
      var i := adds[m];
      if i < |records| && live(i) {
        AddRecordAdds(AddAll(d, records, live, adds[..m]), i, records[i], |records|);
      }
    }
  }

  // ---- what the overlay stands for ----

  /** Records whose postings the delta answers for. */
  predicate Covered(base: seq<Record>, d: Delta, i: nat) {
    i >= |base| || i in d.tombstones
  }

  /** Base and delta together describe `records`. */
  ghost predicate Overlays(base: seq<Record>, d: Delta, records: seq<Record>) {
    |base| <= |records| && ListsAscend(d, |records|) &&
    (forall i :: 0 <= i < |records| && !Covered(base, d, i) ==> records[i] == base[i]) &&
    (forall i, t :: 0 <= i < |records| && Covered(base, d, i) && t in records[i] ==> Lists(d, t, i)) &&
    (forall i, t :: Lists(d, t, i) ==> Covered(base, d, i))
  }

  /** A batch told the index which records it changed: every change is stale or new, re-added unless it is
      gone, and nothing else is re-added. */
  ghost predicate Reports(before: seq<Record>, after: seq<Record>, adds: seq<nat>, stale: seq<nat>) {
    |before| <= |after| &&
    (forall i :: 0 <= i < |before| && after[i] != before[i] ==> i in stale) &&
    (forall i :: |before| <= i < |after| && after[i] != [] ==> i in adds) &&
    (forall i :: i in stale && i < |after| && after[i] != [] ==> i in adds) &&
    (forall i :: i in adds ==> i in stale || i >= |before|)
  }

  /** Every step of the overlay keeps its meaning. */
  lemma OverlayStep(
    base: seq<Record>, d: Delta, before: seq<Record>, after: seq<Record>, live: nat -> bool, adds: seq<nat>, stale: seq<nat>)
    requires Overlays(base, d, before) && Reports(before, after, adds, stale) && LiveIfKeyed(after, live)
    ensures Overlays(base, DeltaAfter(d, after, live, adds, stale), after)
  {
    var marked := TombstoneAll(d, stale);
    TombstoneAllMarks(d, stale);
    assert forall t :: DeltaList(marked, t) == DeltaList(d, t) && ListOk(DeltaList(d, t), |before|);
    AddAllAdds(marked, after, live, adds);
    var d' := DeltaAfter(d, after, live, adds, stale);
    forall i, t | 0 <= i < |after| && Covered(base, d', i) && t in after[i] ensures Lists(d', t, i) {
      if i in stale || i >= |before| {
        assert i in adds;
      } else {
        assert Covered(base, d, i) && after[i] == before[i];
        assert Lists(d, t, i) && Lists(marked, t, i);
      }
    }
    forall i: nat, t | Lists(d', t, i) ensures Covered(base, d', i) {
      assert Lists(marked, t, i) ==> Lists(d, t, i);
    }
  }

  // ---- merging base and delta lists ----

  /** `out` is the sorted union of what was read so far, and below what comes next. */
  ghost predicate MergedTo(out: seq<nat>, a: seq<nat>, i: nat, b: seq<nat>, j: nat) {
    i <= |a| && j <= |b| && Ascending(out) &&
    (i < |a| ==> Below(out, a[i])) && (j < |b| ==> Below(out, b[j])) &&
    forall x :: x in out <==> x in a[..i] || x in b[..j]
  }

  lemma OneMore(a: seq<nat>, i: nat)
    requires i < |a| && Ascending(a)
    ensures forall y :: y in a[..i + 1] <==> y in a[..i] || y == a[i]
    ensures i + 1 < |a| ==> a[i] < a[i + 1]
  {
    assert a[..i + 1] == a[..i] + [a[i]];
    if i + 1 < |a| { AscendingPair(a, i, i + 1); }
  }

  lemma MergeLeft(out: seq<nat>, a: seq<nat>, i: nat, b: seq<nat>, j: nat)
    requires MergedTo(out, a, i, b, j) && Ascending(a) && i < |a| && (j < |b| ==> a[i] < b[j])
    ensures MergedTo(out + [a[i]], a, i + 1, b, j)
  {
    AppendAscending(out, a[i]);
    OneMore(a, i);
  }

  lemma MergeSwap(out: seq<nat>, a: seq<nat>, i: nat, b: seq<nat>, j: nat)
    requires MergedTo(out, a, i, b, j)
    ensures MergedTo(out, b, j, a, i)
  {
  }

  lemma MergeBoth(out: seq<nat>, a: seq<nat>, i: nat, b: seq<nat>, j: nat)
    requires MergedTo(out, a, i, b, j) && Ascending(a) && Ascending(b) && i < |a| && j < |b| && a[i] == b[j]
    ensures MergedTo(out + [a[i]], a, i + 1, b, j + 1)
  {
    AppendAscending(out, a[i]);
    OneMore(a, i);
    OneMore(b, j);
  }

  /** Sorted union of two ascending lists. */
  method MergePostings(base: seq<nat>, delta: seq<nat>) returns (out: seq<nat>)
    requires Ascending(base) && Ascending(delta)
    ensures Ascending(out) && forall x :: x in out <==> x in base || x in delta
  {
    if delta == [] { return base; }
    if base == [] { return delta; }
    out := [];
    var i, j := 0, 0;
    while i < |base| || j < |delta|
      invariant MergedTo(out, base, i, delta, j)
      decreases |base| + |delta| - i - j
    {
      if i < |base| && (j == |delta| || base[i] < delta[j]) {
        MergeLeft(out, base, i, delta, j);
        out := out + [base[i]];
        i := i + 1;
      } else if j < |delta| && (i == |base| || delta[j] < base[i]) {
        MergeSwap(out, base, i, delta, j);
        MergeLeft(out, delta, j, base, i);
        MergeSwap(out + [delta[j]], delta, j + 1, base, i);
        out := out + [delta[j]];
        j := j + 1;
      } else {
        MergeBoth(out, base, i, delta, j);
        out := out + [base[i]];
        i, j := i + 1, j + 1;
      }
    }
    assert base[..|base|] == base && delta[..|delta|] == delta;
  }

  // ---- searching base and delta together ----

  /** Some posting of the key survives, in the base or in the delta. */
  predicate Present(base: seq<Record>, d: Delta, t: Key) {
    Kept(base, t) || DeltaList(d, t) != []
  }

  /** The merged posting list of the key holds the record. */
  predicate InMerged(base: seq<Record>, d: Delta, t: Key, r: nat) {
    (Kept(base, t) && r < |base| && t in base[r]) || Lists(d, t, r)
  }

  /** What the overlay search returns: absent keys are skipped, the rest intersected, and a tombstoned
      record stays only when the delta has it under every key of the needle. */
  ghost predicate IsOverlayCandidate(base: seq<Record>, d: Delta, needle: seq<Key>, r: nat) {
    (exists t :: t in needle && Present(base, d, t)) &&
    (forall t :: t in needle && Present(base, d, t) ==> InMerged(base, d, t, r)) &&
    (r in d.tombstones ==> forall t :: t in needle ==> Lists(d, t, r))
  }

  ghost predicate SomePresent(base: seq<Record>, d: Delta, needle: seq<Key>) {
    exists t :: t in needle && Present(base, d, t)
  }

  /** The record is on the merged list of every key of the needle that has one. */
  ghost predicate InEvery(base: seq<Record>, d: Delta, needle: seq<Key>, r: nat) {
    forall t :: t in needle && Present(base, d, t) ==> InMerged(base, d, t, r)
  }

  /** The merged lists of the needle's present keys, up to order within the list of lists. */
  ghost predicate MergedLists(lists: seq<seq<nat>>, base: seq<Record>, d: Delta, needle: seq<Key>) {
    (forall k :: 0 <= k < |lists| ==> Ascending(lists[k])) &&
    (lists != [] <==> SomePresent(base, d, needle)) &&
    (forall r: nat :: InAll(lists, r) <==> InEvery(base, d, needle, r))
  }

  lemma InEverySnoc(base: seq<Record>, d: Delta, needle: seq<Key>, t: Key, r: nat)
    ensures InEvery(base, d, needle + [t], r) <==>
            InEvery(base, d, needle, r) && (Present(base, d, t) ==> InMerged(base, d, t, r))
  {
    assert t in needle + [t] && forall u :: u in needle ==> u in needle + [t];
  }

  lemma SomePresentSnoc(base: seq<Record>, d: Delta, needle: seq<Key>, t: Key)
    ensures SomePresent(base, d, needle + [t]) <==> SomePresent(base, d, needle) || Present(base, d, t)
  {
    assert t in needle + [t] && forall u :: u in needle ==> u in needle + [t];
  }

  lemma MergedListsSnoc(
    lists: seq<seq<nat>>, base: seq<Record>, d: Delta, needle: seq<Key>, t: Key, merged: seq<nat>)
    requires MergedLists(lists, base, d, needle)
    requires Ascending(merged) && (merged != [] <==> Present(base, d, t))
    requires forall r: nat :: r in merged <==> InMerged(base, d, t, r)
    ensures MergedLists(if merged == [] then lists else lists + [merged], base, d, needle + [t])
  {
    SomePresentSnoc(base, d, needle, t);
    var lists' := if merged == [] then lists else lists + [merged];
    forall r: nat ensures InAll(lists', r) <==> InEvery(base, d, needle + [t], r) {
      InEverySnoc(base, d, needle, t, r);
      assert InAll(lists, r) <==> InEvery(base, d, needle, r);
      if merged != [] {
        InAllSnoc(lists, merged, r);
        assert r in merged <==> InMerged(base, d, t, r);
      }
    }
  }

  lemma InAllSnoc(lists: seq<seq<nat>>, list: seq<nat>, r: nat)
    ensures InAll(lists + [list], r) <==> InAll(lists, r) && r in list
  {
    if InAll(lists + [list], r) {
      assert (lists + [list])[|lists|] == list;
      assert forall k :: 0 <= k < |lists| ==> (lists + [list])[k] == lists[k];
    }
  }

  /** One key: its base postings, if it was kept, merged with the delta's. */
  method MergedList(idx: CsrIndex, t: Key, d: Delta, ghost base: seq<Record>, ghost n: nat) returns (merged: seq<nat>)
    requires Indexes(idx, base) && ListsAscend(d, n)
    ensures Ascending(merged) && (merged != [] <==> Present(base, d, t))
    ensures forall r: nat :: r in merged <==> InMerged(base, d, t, r)
  {
    var found := GetPosting(idx, t, base);
    PostingMembers(base, t);
    assert ListOk(DeltaList(d, t), n);
    merged := MergePostings(if found.Some? then found.value else [], DeltaList(d, t));
    assert Kept(base, t) ==> PostingList(base, t)[0] in merged;
    assert DeltaList(d, t) != [] ==> DeltaList(d, t)[0] in merged;
    assert merged != [] ==> merged[0] in merged;
  }

  method AddList(
    lists: seq<seq<nat>>, ghost done: seq<Key>, idx: CsrIndex, t: Key, d: Delta, ghost base: seq<Record>, ghost n: nat)
    returns (longer: seq<seq<nat>>)
    requires Indexes(idx, base) && ListsAscend(d, n) && MergedLists(lists, base, d, done)
    ensures MergedLists(longer, base, d, done + [t])
  {
    var merged := MergedList(idx, t, d, base, n);
    MergedListsSnoc(lists, base, d, done, t, merged);
    longer := if merged == [] then lists else lists + [merged];
  }

  method OverlayLists(idx: CsrIndex, needle: seq<Key>, d: Delta, ghost base: seq<Record>, ghost n: nat)
    returns (lists: seq<seq<nat>>)
    requires Indexes(idx, base) && ListsAscend(d, n)
    ensures MergedLists(lists, base, d, needle)
  {
    lists := [];
    for i := 0 to |needle|
      invariant MergedLists(lists, base, d, needle[..i])
    {
      assert needle[..i + 1] == needle[..i] + [needle[i]];
      lists := AddList(lists, needle[..i], idx, needle[i], d, base, n);
    }
    assert needle[..|needle|] == needle;
  }

  /** A tombstoned record is kept only under its re-added keys. */
  predicate Survives(d: Delta, needle: seq<Key>, r: nat) {
    r in d.tombstones ==> forall t :: t in needle ==> Lists(d, t, r)
  }

  method OverlaySearch(idx: CsrIndex, needle: seq<Key>, d: Delta, ghost base: seq<Record>, ghost n: nat)
    returns (result: seq<nat>)
    requires Indexes(idx, base) && ListsAscend(d, n)
    ensures Ascending(result) && forall r: nat :: r in result <==> IsOverlayCandidate(base, d, needle, r)
  {
    var lists := OverlayLists(idx, needle, d, base, n);
    if lists == [] {
      return [];
    }
    var candidates := IntersectAll(lists);
    result := Filter<nat>((r: nat) => Survives(d, needle, r), candidates);
    FilterMembers<nat>((r: nat) => Survives(d, needle, r), candidates);
    FilterAscending((r: nat) => Survives(d, needle, r), candidates);
  }

  // ---- exactly when nothing is missed ----

  /** A record the delta answers for is always found under the keys of its current name. */
  lemma CoveredIsFound(base: seq<Record>, d: Delta, records: seq<Record>, needle: seq<Key>, r: nat)
    requires Overlays(base, d, records) && needle != []
    requires r < |records| && HasAll(records[r], needle) && Covered(base, d, r)
    ensures IsOverlayCandidate(base, d, needle, r)
  {
    forall t | t in needle ensures Lists(d, t, r) && Present(base, d, t) {
      assert t in records[r];
    }
    assert needle[0] in needle;
  }

  /** Any other record is found if and only if some key of the needle was kept in the base and no pruned
      key of the needle has come back through the delta. */
  lemma BaseRecordFoundIff(base: seq<Record>, d: Delta, records: seq<Record>, needle: seq<Key>, r: nat)
    requires Overlays(base, d, records)
    requires r < |records| && HasAll(records[r], needle) && !Covered(base, d, r)
    ensures IsOverlayCandidate(base, d, needle, r) <==>
            (exists t :: t in needle && !Pruned(base, t)) &&
            (forall t :: t in needle && Pruned(base, t) ==> DeltaList(d, t) == [])
  {
    assert records[r] == base[r];
    forall t | t in needle ensures Kept(base, t) <==> !Pruned(base, t) {
      KeptOrPruned(base, t);
      assert t in base[r];
    }
    assert forall t :: !Lists(d, t, r);
  }

  /** The needle has no kept key left to look up, or a pruned one that the delta only partly lists. */
  ghost predicate Blind(base: seq<Record>, d: Delta, needle: seq<Key>) {
    (forall t :: t in needle ==> Pruned(base, t)) ||
    (exists t :: t in needle && Pruned(base, t) && DeltaList(d, t) != [])
  }

  /** A matching record is found by the overlay exactly when the delta answers for it or the needle is not blind. */
  lemma OverlayFindsIff(base: seq<Record>, d: Delta, records: seq<Record>, needle: seq<Key>, r: nat)
    requires Overlays(base, d, records) && needle != []
    requires r < |records| && HasAll(records[r], needle)
    ensures IsOverlayCandidate(base, d, needle, r) <==> Covered(base, d, r) || !Blind(base, d, needle)
  {
    if Covered(base, d, r) {
      CoveredIsFound(base, d, records, needle, r);
    } else {
      BaseRecordFoundIff(base, d, records, needle, r);
    }
  }

  /** Checking the overlay's candidates is the linear scan of the current records, for every test that
      implies the needle's keys: unless the needle is blind, and then exactly as long as only records
      the delta answers for match. */
  lemma OverlayIsScanIff(
    base: seq<Record>, d: Delta, records: seq<Record>, needle: seq<Key>, keep: nat -> bool)
    requires Overlays(base, d, records) && needle != []
    requires forall r: nat :: r < |records| && keep(r) ==> HasAll(records[r], needle)
    ensures (forall r: nat :: r < |records| && keep(r) ==> IsOverlayCandidate(base, d, needle, r)) <==>
            (!Blind(base, d, needle) || forall r: nat :: r < |records| && keep(r) ==> Covered(base, d, r))
  {
    forall r: nat | r < |records| && keep(r)
      ensures IsOverlayCandidate(base, d, needle, r) <==> Covered(base, d, r) || !Blind(base, d, needle)
    {
      OverlayFindsIff(base, d, records, needle, r);
    }
  }

  /** An index rebuilt from the current records can look the needle up. */
  ghost predicate RebuildSees(records: seq<Record>, needle: seq<Key>) {
    exists t :: t in needle && !Pruned(records, t)
  }

  /** Overlay and rebuild find the same matches: where the rebuild can look the needle up, exactly when the overlay
      is not blind or the delta answers for every match; where the rebuild finds nothing, exactly when the overlay is
      blind and the delta answers for no match, or there is no match. */
  lemma OverlayIsRebuildIff(
    base: seq<Record>, d: Delta, records: seq<Record>, needle: seq<Key>, keep: nat -> bool)
    requires Overlays(base, d, records) && needle != []
    requires forall r: nat :: r < |records| && keep(r) ==> HasAll(records[r], needle)
    ensures (forall r: nat :: r < |records| && keep(r) ==>
               (IsOverlayCandidate(base, d, needle, r) <==> IsCandidate(records, needle, r))) <==>
            if RebuildSees(records, needle)
            then !Blind(base, d, needle) || forall r: nat :: r < |records| && keep(r) ==> Covered(base, d, r)
            else forall r: nat :: r < |records| && keep(r) ==> Blind(base, d, needle) && !Covered(base, d, r)
  {
    forall r: nat | r < |records| && keep(r)
      ensures IsOverlayCandidate(base, d, needle, r) <==> Covered(base, d, r) || !Blind(base, d, needle)
      ensures IsCandidate(records, needle, r) <==> RebuildSees(records, needle)
    {
      OverlayFindsIff(base, d, records, needle, r);
      FoundIffSomeKeyKept(records, needle, r);
    }
  }

  lemma {:induction false} RankOne(records: seq<Record>, n: nat, t: Key)
    requires 0 < n <= |records| && t in records[0] && forall r :: 0 < r < n ==> t !in records[r]
    ensures Rank(records, n, t) == 1
  {
    if n > 1 {
      RankOne(records, n - 1, t);
    }
  }

  /** Creating one file can hide another. All of more than 1024 files have the trigram `a`, and the first
      also has `b`. A search for both finds it; after a file with `a` is created, the same search misses it. */
  lemma CreateHidesAnotherFile(base: seq<Record>, a: Key, b: Key)
    requires |base| > 1024 && a != b && HasAll(base[0], [a, b])
    requires forall r :: 0 <= r < |base| ==> a in base[r]
    requires forall r :: 0 < r < |base| ==> b !in base[r]
    ensures IsCandidate(base, [a, b], 0)
    ensures var records := base + [[a]];
            var d := DeltaAfter(EMPTY_DELTA, records, i => true, [|base|], []);
            Overlays(base, d, records) && HasAll(records[0], [a, b]) && !IsOverlayCandidate(base, d, [a, b], 0)
  {
    EveryRecordCounts(base, |base|, a);
    RankOne(base, |base|, b);
    FoundIffSomeKeyKept(base, [a, b], 0);
    assert b in [a, b] && !Pruned(base, b) && a in [a, b] && Pruned(base, a);
    var records := base + [[a]];
    OverlayStep(base, EMPTY_DELTA, base, records, i => true, [|base|], []);
    var d := DeltaAfter(EMPTY_DELTA, records, i => true, [|base|], []);
    assert Covered(base, d, |base|) && a in records[|base|];
    assert Lists(d, a, |base|);
    TombstoneAllMarks(EMPTY_DELTA, []);
    AddAllAdds(TombstoneAll(EMPTY_DELTA, []), records, i => true, [|base|]);
    BaseRecordFoundIff(base, d, records, [a, b], 0);
  }

  // ---- candidates, by where the record is ----

  /** A tombstoned record is a candidate exactly when the delta lists it under every key of the needle. */
  lemma TombstonedFoundIff(base: seq<Record>, d: Delta, needle: seq<Key>, r: nat)
    requires r in d.tombstones
    ensures IsOverlayCandidate(base, d, needle, r) <==> needle != [] && forall t :: t in needle ==> r in DeltaList(d, t)
  {
    if needle != [] && forall t :: t in needle ==> r in DeltaList(d, t) {
      assert needle[0] in needle;
      assert forall t :: t in needle ==> Lists(d, t, r);
    }
  }

  /** A record newer than the base is one exactly when the delta lists it under every key that is on any list. */
  lemma AppendedFoundIff(base: seq<Record>, d: Delta, needle: seq<Key>, r: nat)
    requires r >= |base| && r !in d.tombstones
    ensures IsOverlayCandidate(base, d, needle, r) <==>
            (exists t :: t in needle && r in DeltaList(d, t)) &&
            forall t :: t in needle ==> r in DeltaList(d, t) || (DeltaList(d, t) == [] && !Kept(base, t))
  {
    assert forall t :: InMerged(base, d, t, r) <==> r in DeltaList(d, t);
    assert forall t :: Present(base, d, t) <==> Kept(base, t) || DeltaList(d, t) != [];
  }

  // ---- what counts as pending ----

  /** The stale records that were not marked before. */
  function NewlyStale(d: Delta, stale: seq<nat>): set<nat> { set i: nat | i in stale && i !in d.tombstones }

  lemma {:induction false} TombstonesCount(d: Delta, stale: seq<nat>)
    ensures TombstoneAll(d, stale).touched == d.touched + |NewlyStale(d, stale)|
  {
    if stale == [] {
      assert NewlyStale(d, stale) == {};
    } else {
      var m := |stale| - 1;
      TombstonesCount(d, stale[..m]);
      TombstoneAllMarks(d, stale[..m]);
      assert stale == stale[..m] + [stale[m]];
      var before := NewlyStale(d, stale[..m]);
      assert NewlyStale(d, stale) == if stale[m] in d.tombstones then before else before + {stale[m]};
    }
  }

  lemma {:induction false} PostingsDoNotCount(d: Delta, i: nat, keys: seq<Key>)
    ensures AddPostings(d, i, keys).touched == d.touched
  {
    if keys != [] {
      PostingsDoNotCount(d, i, keys[..|keys| - 1]);
    }
  }

  lemma {:induction false} AddsCount(d: Delta, records: seq<Record>, live: nat -> bool, adds: seq<nat>)
    ensures AddAll(d, records, live, adds).touched == d.touched + |Filter((i: nat) => i < |records| && live(i), adds)|
  {
    if adds != [] {
      var m := |adds| - 1;
      AddsCount(d, records, live, adds[..m]);
      if adds[m] < |records| && live(adds[m]) {
        PostingsDoNotCount(AddAll(d, records, live, adds[..m]), adds[m], Distinct(records[adds[m]]));
      }
    }
  }

  /** A batch adds to what is pending one for every record newly marked stale and one for every re-added one in use. */
  lemma TouchedCounts(d: Delta, records: seq<Record>, live: nat -> bool, adds: seq<nat>, stale: seq<nat>)
    ensures DeltaAfter(d, records, live, adds, stale).touched ==
            d.touched + |set i: nat | i in stale && i !in d.tombstones| + |Filter((i: nat) => i < |records| && live(i), adds)|
  {
    TombstonesCount(d, stale);
    assert NewlyStale(d, stale) == set i: nat | i in stale && i !in d.tombstones;
    AddsCount(TombstoneAll(d, stale), records, live, adds);
  }
}
