/** Searching the trigram index: look the needle's keys up, intersect what is
    found, and exactly when that finds every matching record. */
module CsrSearch {
  import opened Seqs
  import opened Postings
  import opened CsrBuild

  // ---- looking one key up ----

  method GetPosting(idx: CsrIndex, t: Key, ghost records: seq<Record>) returns (list: Option<seq<nat>>)
    requires Indexes(idx, records)
    ensures list == if Kept(records, t) then Some(PostingList(records, t)) else None
  {
    var lo, hi := 0, |idx.keys|;
    while lo < hi
      invariant 0 <= lo <= hi <= |idx.keys|
      invariant forall i :: 0 <= i < lo ==> idx.keys[i] < t
      invariant forall i :: hi <= i < |idx.keys| ==> t < idx.keys[i]
    {
      var mid := (lo + hi) / 2;
      if idx.keys[mid] == t {
        assert RegionIs(idx, records, mid);
        return Some(idx.values[idx.offsets[mid]..idx.offsets[mid + 1]]);
      } else if idx.keys[mid] < t {
        forall i | 0 <= i < mid ensures idx.keys[i] < t {
          AscendingPair(idx.keys, i, mid);
        }
        lo := mid + 1;
      } else {
        forall i | mid < i < |idx.keys| ensures t < idx.keys[i] {
          AscendingPair(idx.keys, mid, i);
        }
        hi := mid;
      }
    }
    return None;
  }

  // ---- intersecting in place ----

  /** What stays of `s` when it is intersected with `other`. */
  function Common(s: seq<nat>, other: seq<nat>): seq<nat> {
    Filter((x: nat) => x in other, s)
  }

  /** Filtering an ascending list keeps it ascending. */
  lemma {:induction false} FilterAscending(keep: nat -> bool, s: seq<nat>)
    requires Ascending(s)
    ensures var c := Filter(keep, s); Ascending(c) && (c != [] ==> c[|c| - 1] <= s[|s| - 1])
  {
    if s != [] {
      var n := |s| - 1;
      FilterAscending(keep, s[..n]);
      var rest := Filter(keep, s[..n]);
      assert (rest + [s[n]])[..|rest|] == rest;
    }
  }

  lemma CommonAscending(s: seq<nat>, other: seq<nat>)
    requires Ascending(s)
    ensures Ascending(Common(s, other))
  {
    FilterAscending((x: nat) => x in other, s);
  }

  lemma CommonMembers(s: seq<nat>, other: seq<nat>)
    ensures forall x :: x in Common(s, other) <==> x in s && x in other
  {
    FilterMembers((x: nat) => x in other, s);
  }

  /** Elements of a sorted list before and after position `j`, against a value. */
  lemma NotInTail(other: seq<nat>, j: nat, x: nat)
    requires Ascending(other) && j <= |other|
    requires forall i :: 0 <= i < j ==> other[i] < x
    requires j < |other| ==> x <= other[j]
    ensures x in other <==> j < |other| && other[j] == x
  {
    if j < |other| && x < other[j] {
      forall i | j < i < |other| ensures x < other[i] {
        AscendingPair(other, j, i);
      }
    }
  }

  /** Every element before position `j` is smaller than `x`. */
  ghost predicate AllBelow(other: seq<nat>, j: nat, x: nat) {
    j <= |other| && forall i :: 0 <= i < j ==> other[i] < x
  }

  /** Moves past everything up to `val` and tells whether `val` was there. */
  method SkipTo(other: seq<nat>, from: nat, val: nat) returns (j: nat, found: bool)
    requires AllBelow(other, from, val) && Ascending(other)
    ensures found <==> val in other
    ensures AllBelow(other, j, val + 1)
  {
    j := from;
    while j < |other| && other[j] < val
      invariant AllBelow(other, j, val)
    {
      j := j + 1;
    }
    NotInTail(other, j, val);
    found := j < |other| && other[j] == val;
    if found {
      j := j + 1;
    }
  }

  lemma CommonNext(s: seq<nat>, i: nat, other: seq<nat>)
    requires i < |s|
    ensures Common(s[..i + 1], other) == if s[i] in other then Common(s[..i], other) + [s[i]] else Common(s[..i], other)
  {
    FilterSnoc((x: nat) => x in other, s[..i], s[i]);
    assert s[..i + 1] == s[..i] + [s[i]];
  }

  /** The buffer `a` after `i` of the first elements `s`: the kept ones in front, the rest untouched. */
  ghost predicate Intersecting(a: seq<nat>, s: seq<nat>, other: seq<nat>, i: nat, write: nat) {
    write <= i <= |s| <= |a| && a[i..|s|] == s[i..] && a[..write] == Common(s[..i], other)
  }

  lemma IntersectNext(a: seq<nat>, s: seq<nat>, other: seq<nat>, i: nat, write: nat)
    requires Intersecting(a, s, other, i, write) && i < |s|
    ensures a[i] == s[i]
    ensures s[i] in other ==> Intersecting(a[write := s[i]], s, other, i + 1, write + 1)
    ensures s[i] !in other ==> Intersecting(a, s, other, i + 1, write)
  {
    CommonNext(s, i, other);
    assert a[i..|s|][0] == s[i..][0];
    assert a[i + 1..|s|] == a[i..|s|][1..] == s[i..][1..] == s[i + 1..];
    var b := a[write := s[i]];
    assert b[i + 1..|s|] == a[i + 1..|s|];
    assert b[..write + 1] == a[..write] + [s[i]];
  }

  /** Keeps the elements of `result[..len]` that are in `other`, in place, and returns how many. */
  method IntersectInPlace(result: array<nat>, len: nat, other: seq<nat>) returns (write: nat)
    requires len <= result.Length
    requires Ascending(result[..len]) && Ascending(other)
    modifies result
    ensures write <= len
    ensures result[..write] == Common(old(result[..len]), other)
  {
    ghost var s := result[..len];
    write := 0;
    var j := 0;
    for i := 0 to len
      invariant Intersecting(result[..], s, other, i, write)
      invariant i < len ==> AllBelow(other, j, s[i])
    {
      IntersectNext(result[..], s, other, i, write);
      var val, found := result[i], false;
      j, found := SkipTo(other, j, val);
      if i + 1 < len {
        AscendingPair(s, i, i + 1);
      }
      if found {
        ghost var a := result[..];
        result[write] := val;
        assert result[..] == a[write := val];
        write := write + 1;
      }
    }
    assert s[..len] == s && result[..][..write] == result[..write];
  }

  // ---- the search ----

  /** The needle's kept keys all occur in the record, and there is one. */
  ghost predicate IsCandidate(records: seq<Record>, needle: seq<Key>, r: nat) {
    (exists t :: t in needle && Kept(records, t)) &&
    r < |records| && forall t :: t in needle && Kept(records, t) ==> t in records[r]
  }

  method Shortest(lists: seq<seq<nat>>) returns (best: nat)
    requires lists != []
    ensures best < |lists| && forall i :: 0 <= i < |lists| ==> |lists[best]| <= |lists[i]|
  {
    best := 0;
    for i := 1 to |lists|
      invariant best < |lists| && forall k :: 0 <= k < i ==> |lists[best]| <= |lists[k]|
    {
      if |lists[i]| < |lists[best]| { best := i; }
    }
  }

  /** The posting lists of the kept keys of the needle, in needle order. */
  function ListsOf(records: seq<Record>, needle: seq<Key>): seq<seq<nat>> {
    if needle == [] then []
    else
      var n := |needle| - 1;
      var front := ListsOf(records, needle[..n]);
      if Kept(records, needle[n]) then front + [PostingList(records, needle[n])] else front
  }

  lemma {:induction false} ListsOfKept(records: seq<Record>, needle: seq<Key>)
    ensures forall t :: t in needle && Kept(records, t) ==> PostingList(records, t) in ListsOf(records, needle)
    ensures forall list :: list in ListsOf(records, needle) ==>
              exists t :: t in needle && Kept(records, t) && list == PostingList(records, t)
  {
    if needle != [] {
      var n := |needle| - 1;
      ListsOfKept(records, needle[..n]);
      assert needle == needle[..n] + [needle[n]];
      forall list | list in ListsOf(records, needle)
        ensures exists t :: t in needle && Kept(records, t) && list == PostingList(records, t)
      {
        if list in ListsOf(records, needle[..n]) {
          var t :| t in needle[..n] && Kept(records, t) && list == PostingList(records, t);
          assert t in needle;
        } else {
          assert needle[n] in needle;
        }
      }
    }
  }

  method CollectLists(idx: CsrIndex, needle: seq<Key>, ghost records: seq<Record>) returns (lists: seq<seq<nat>>)
    requires Indexes(idx, records)
    ensures lists == ListsOf(records, needle)
  {
    lists := [];
    for i := 0 to |needle|
      invariant lists == ListsOf(records, needle[..i])
    {
      assert needle[..i + 1][..i] == needle[..i];
      var list := GetPosting(idx, needle[i], records);
      if list.Some? {
        lists := lists + [list.value];
      }
    }
    assert needle[..|needle|] == needle;
  }

  /** Is `r` in every one of the lists? */
  predicate InAll(lists: seq<seq<nat>>, r: nat) {
    forall i :: 0 <= i < |lists| ==> r in lists[i]
  }

  /** `s` is the part of `first` that lies in all of `lists`. */
  ghost predicate Narrowed(s: seq<nat>, first: seq<nat>, lists: seq<seq<nat>>) {
    Ascending(s) && forall r :: r in s <==> r in first && InAll(lists, r)
  }

  lemma NarrowOne(s: seq<nat>, first: seq<nat>, lists: seq<seq<nat>>, i: nat)
    requires i < |lists| && Narrowed(s, first, lists[..i])
    ensures Narrowed(Common(s, lists[i]), first, lists[..i + 1])
  {
    CommonAscending(s, lists[i]);
    CommonMembers(s, lists[i]);
    assert lists[..i + 1] == lists[..i] + [lists[i]];
    forall r ensures InAll(lists[..i + 1], r) <==> InAll(lists[..i], r) && r in lists[i] {
      if InAll(lists[..i + 1], r) {
        assert forall k :: 0 <= k < i ==> lists[..i][k] == lists[..i + 1][k];
        assert lists[..i + 1][i] == lists[i];
      }
    }
  }

  /** The intersection of the lists, the shortest one first. */
  method IntersectAll(lists: seq<seq<nat>>) returns (result: seq<nat>)
    requires lists != [] && forall i :: 0 <= i < |lists| ==> Ascending(lists[i])
    ensures Ascending(result) && forall r :: r in result <==> InAll(lists, r)
  {
    var first := Shortest(lists);
    var buffer := new nat[|lists[first]|](i requires 0 <= i < |lists[first]| => lists[first][i]);
    var len: nat := |lists[first]|;
    assert buffer[..len] == lists[first];
    for i := 0 to |lists|
      invariant fresh(buffer) && len <= buffer.Length
      invariant Narrowed(buffer[..len], lists[first], lists[..i])
    {
      NarrowOne(buffer[..len], lists[first], lists, i);
      len := IntersectInPlace(buffer, len, lists[i]);
      if len == 0 {
        NothingLeft(lists, first, i + 1);
        return [];
      }
    }
    assert lists[..|lists|] == lists;
    result := buffer[..len];
  }

  lemma NothingLeft(lists: seq<seq<nat>>, first: nat, n: nat)
    requires first < |lists| && n <= |lists| && Narrowed([], lists[first], lists[..n])
    ensures forall r :: !InAll(lists, r)
  {
    assert forall r :: InAll(lists, r) ==> InAll(lists[..n], r) && r in lists[first];
  }

  /** Candidates for a needle, given by its keys. */
  method Search(idx: CsrIndex, needle: seq<Key>, ghost records: seq<Record>) returns (result: seq<nat>)
    requires Indexes(idx, records)
    ensures Ascending(result) && forall r :: r in result <==> IsCandidate(records, needle, r)
  {
    var lists := CollectLists(idx, needle, records);
    ListsOfKept(records, needle);
    if lists == [] {
      assert forall t :: t in needle ==> !Kept(records, t);
      return [];
    }
    forall i | 0 <= i < |lists| ensures Ascending(lists[i]) {
      assert lists[i] in lists;
      var t :| t in needle && Kept(records, t) && lists[i] == PostingList(records, t);
      PostingMembers(records, t);
    }
    result := IntersectAll(lists);
    forall r ensures InAll(lists, r) <==> IsCandidate(records, needle, r) {
      CandidateInLists(records, needle, r);
    }
  }

  lemma CandidateInLists(records: seq<Record>, needle: seq<Key>, r: nat)
    requires ListsOf(records, needle) != []
    ensures InAll(ListsOf(records, needle), r) <==> IsCandidate(records, needle, r)
  {
    var lists := ListsOf(records, needle);
    ListsOfKept(records, needle);
    assert lists[0] in lists;
    var t0 :| t0 in needle && Kept(records, t0) && lists[0] == PostingList(records, t0);
    PostingMembers(records, t0);
    if InAll(lists, r) {
      forall t | t in needle && Kept(records, t) ensures t in records[r] {
        PostingMembers(records, t);
        var i :| 0 <= i < |lists| && lists[i] == PostingList(records, t);
      }
    }
    if IsCandidate(records, needle, r) {
      forall i | 0 <= i < |lists| ensures r in lists[i] {
        assert lists[i] in lists;
        var t :| t in needle && Kept(records, t) && lists[i] == PostingList(records, t);
        PostingMembers(records, t);
      }
    }
  }

  // ---- exactly when nothing is missed ----

  /** A record with every key of the needle. */
  predicate HasAll(record: Record, needle: seq<Key>) {
    forall t :: t in needle ==> t in record
  }

  /** A record that has the needle's keys is found if and only if one of those keys was kept:
      when all of them were pruned as too frequent, the search returns nothing at all. */
  lemma FoundIffSomeKeyKept(records: seq<Record>, needle: seq<Key>, r: nat)
    requires r < |records| && HasAll(records[r], needle)
    ensures IsCandidate(records, needle, r) <==> exists t :: t in needle && !Pruned(records, t)
  {
    forall t | t in needle ensures Kept(records, t) <==> !Pruned(records, t) {
      KeptOrPruned(records, t);
      assert t in records[r];
    }
  }

  /** Checking the candidates with any test that implies the needle's keys gives the linear scan, for a
      needle with a key that was not pruned. */
  lemma SearchIsScan(records: seq<Record>, needle: seq<Key>, keep: nat -> bool, result: seq<nat>)
    requires forall r: nat :: r in result <==> IsCandidate(records, needle, r)
    requires forall r: nat :: r < |records| && keep(r) ==> HasAll(records[r], needle)
    requires exists t :: t in needle && !Pruned(records, t)
    ensures forall r: nat :: r in Filter<nat>(keep, result) <==> r < |records| && keep(r)
  {
    FilterMembers<nat>(keep, result);
    forall r: nat | r < |records| && keep(r) ensures r in result {
      FoundIffSomeKeyKept(records, needle, r);
    }
  }

  // ---- the family that is missed ----

  lemma {:induction false} EveryRecordCounts(records: seq<Record>, n: nat, t: Key)
    requires n <= |records| && forall r :: 0 <= r < n ==> t in records[r]
    ensures Rank(records, n, t) == n
  {
    if n > 0 {
      EveryRecordCounts(records, n - 1, t);
    }
  }

  /** More than 1024 records that all have the key: each one matches, none is found. */
  lemma CommonNeedleFindsNothing(records: seq<Record>, t: Key, r: nat)
    requires |records| > 1024 && forall i :: 0 <= i < |records| ==> t in records[i]
    ensures r < |records| ==> HasAll(records[r], [t])
    ensures !IsCandidate(records, [t], r)
  {
    EveryRecordCounts(records, |records|, t);
  }
}
