/** Posting lists over records that are known by their keys: the specification
    of an inverted index in compressed-sparse-row form.

    A record is the sequence of its keys, in any order and with repetitions. */
module Postings {
  import opened Seqs


  type Key = nat
  type Record = seq<Key>

  /** The elements of `s` without repetition, in order of first occurrence. */
  function Distinct(s: seq<Key>): seq<Key> {
    if s == [] then []
    else
      var rest := Distinct(s[..|s| - 1]);
      if s[|s| - 1] in rest then rest else rest + [s[|s| - 1]]
  }

  lemma {:induction false} DistinctKeepsMembers(s: seq<Key>)
    ensures forall t :: t in Distinct(s) <==> t in s
    ensures NoDuplicates(Distinct(s))
  {
    if s != [] {
      DistinctKeepsMembers(s[..|s| - 1]);
      assert s == s[..|s| - 1] + [s[|s| - 1]];
    }
  }

  /** A linear-scan set, good for the few keys of one file name. */
  method Deduplicate(s: seq<Key>) returns (r: seq<Key>)
    ensures r == Distinct(s)
    ensures NoDuplicates(r) && forall t :: t in r <==> t in s
  {
    r := [];
    for i := 0 to |s|
      invariant r == Distinct(s[..i])
    {
      assert s[..i + 1][..i] == s[..i];
      if s[i] !in r {
        r := r + [s[i]];
      }
    }
    assert s[..|s|] == s;
    DistinctKeepsMembers(s);
  }

  /** How many of the first `n` records have the key. */
  function Rank(records: seq<Record>, n: nat, t: Key): nat
    requires n <= |records|
  {
    if n == 0 then 0 else Rank(records, n - 1, t) + if t in records[n - 1] then 1 else 0
  }

  /** The records among the first `n` that have the key, ascending. */
  function PostingsTo(records: seq<Record>, n: nat, t: Key): (p: seq<nat>)
    requires n <= |records|
    ensures |p| == Rank(records, n, t)
  {
    if n == 0 then [] else PostingsTo(records, n - 1, t) + if t in records[n - 1] then [n - 1] else []
  }

  function PostingList(records: seq<Record>, t: Key): seq<nat> {
    PostingsTo(records, |records|, t)
  }

  function Frequency(records: seq<Record>, t: Key): nat {
    Rank(records, |records|, t)
  }

  lemma {:induction false} RankMonotone(records: seq<Record>, m: nat, n: nat, t: Key)
    requires m <= n <= |records|
    ensures Rank(records, m, t) <= Rank(records, n, t)
    ensures m < n && t in records[m] ==> Rank(records, m, t) < Rank(records, n, t)
  {
    if m < n {
      RankMonotone(records, m, n - 1, t);
    }
  }

  /** A posting list holds record `r` at position Rank(r). */
  lemma {:induction false} PostingAtRank(records: seq<Record>, n: nat, t: Key, r: nat)
    requires r < n <= |records| && t in records[r]
    ensures Rank(records, r, t) < Rank(records, n, t) && PostingsTo(records, n, t)[Rank(records, r, t)] == r
  {
    if r < n - 1 {
      PostingAtRank(records, n - 1, t, r);
    }
  }

  /** It holds nothing else. */
  lemma {:induction false} PostingIsRecord(records: seq<Record>, n: nat, t: Key, p: nat)
    requires n <= |records| && p < Rank(records, n, t)
    ensures var r := PostingsTo(records, n, t)[p]; r < n && t in records[r] && Rank(records, r, t) == p
  {
    if p < Rank(records, n - 1, t) {
      PostingIsRecord(records, n - 1, t, p);
    }
  }

  predicate Ascending(s: seq<nat>) {
    |s| <= 1 || (s[|s| - 2] < s[|s| - 1] && Ascending(s[..|s| - 1]))
  }

  lemma {:induction false} AscendingPair(s: seq<nat>, i: nat, j: nat)
    requires Ascending(s) && i < j < |s|
    ensures s[i] < s[j]
  {
    var n := |s| - 1;
    if j < n {
      AscendingPair(s[..n], i, j);
    } else if i < n - 1 {
      AscendingPair(s[..n], i, n - 1);
    }
  }

  lemma {:induction false} PostingsAscending(records: seq<Record>, n: nat, t: Key)
    requires n <= |records|
    ensures Ascending(PostingsTo(records, n, t))
  {
    if n > 0 {
      PostingsAscending(records, n - 1, t);
      var p, q := PostingsTo(records, n, t), PostingsTo(records, n - 1, t);
      if t in records[n - 1] {
        assert p[..|p| - 1] == q;
        if q != [] {
          PostingIsRecord(records, n - 1, t, |q| - 1);
        }
      } else {
        assert p == q;
      }
    }
  }

  lemma PostingMembers(records: seq<Record>, t: Key)
    ensures forall r :: r in PostingList(records, t) <==> 0 <= r < |records| && t in records[r]
    ensures Ascending(PostingList(records, t))
  {
    var list := PostingList(records, t);
    forall r | 0 <= r < |records| && t in records[r] ensures r in list {
      PostingAtRank(records, |records|, t, r);
    }
    forall r | r in list ensures r < |records| && t in records[r] {
      var p :| 0 <= p < |list| && list[p] == r;
      PostingIsRecord(records, |records|, t, p);
    }
    PostingsAscending(records, |records|, t);
  }

  // ---- pruning ----

  /** Keys in more than a quarter of the records, and in more than 1024, are not indexed. */
  function FrequencyCap(records: nat): nat {
    if records / 4 > 1024 then records / 4 else 1024
  }

  predicate Pruned(records: seq<Record>, t: Key) {
    Frequency(records, t) > FrequencyCap(|records|)
  }

  predicate Kept(records: seq<Record>, t: Key) {
    0 < Frequency(records, t) <= FrequencyCap(|records|)
  }

  /** A key of some record is either kept or pruned; a key of none is neither. */
  lemma KeptOrPruned(records: seq<Record>, t: Key)
    ensures (exists r :: 0 <= r < |records| && t in records[r]) <==> Kept(records, t) || Pruned(records, t)
    ensures !(Kept(records, t) && Pruned(records, t))
  {
    if r :| 0 <= r < |records| && t in records[r] {
      RankMonotone(records, r, |records|, t);
    }
    if Frequency(records, t) > 0 {
      PostingIsRecord(records, |records|, t, 0);
    }
  }

  /** The records that have the key. */
  function HavingKey(records: seq<Record>, n: nat, t: Key): set<nat>
    requires n <= |records|
  {
    set r: nat | r < n && t in records[r]
  }

  lemma {:induction false} RankCounts(records: seq<Record>, n: nat, t: Key)
    requires n <= |records|
    ensures |HavingKey(records, n, t)| == Rank(records, n, t)
  {
    if n == 0 {
      assert HavingKey(records, 0, t) == {};
    } else {
      RankCounts(records, n - 1, t);
      var before := HavingKey(records, n - 1, t);
      assert HavingKey(records, n, t) == if t in records[n - 1] then before + {n - 1} else before;
    }
  }

  /** A key is pruned exactly when more than 1024 records, and more than a quarter of them, have it. */
  lemma PrunedIff(records: seq<Record>, t: Key)
    ensures var n := |set r: nat | r < |records| && t in records[r]|;
            (Pruned(records, t) <==> n > 1024 && 4 * n > |records|) &&
            (Kept(records, t) <==> n > 0 && (n <= 1024 || 4 * n <= |records|))
  {
    RankCounts(records, |records|, t);
    assert HavingKey(records, |records|, t) == set r: nat | r < |records| && t in records[r];
  }
}
