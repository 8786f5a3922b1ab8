/** Sorting positions by a key, as the measurement scripts do with index vectors. */
module Orders {
  import opened Seqs

  /** 0, 1, ..., n-1. */
  function Range(n: nat): (r: seq<nat>)
    ensures |r| == n && forall i :: 0 <= i < n ==> r[i] == i
  {
    seq(n, i => i)
  }

  /** `i` comes before `j`: a smaller key, or the same key and an earlier position. */
  predicate Precedes(keys: seq<nat>, i: nat, j: nat)
    requires i < |keys| && j < |keys|
  {
    keys[i] < keys[j] || (keys[i] == keys[j] && i < j)
  }

  /** The stable ascending order of the first `n` positions. */
  ghost predicate IsOrder(keys: seq<nat>, p: seq<nat>, n: nat) {
    n <= |keys| && multiset(p) == multiset(Range(n)) && Ordered(keys, p, n)
  }

  ghost predicate Ordered(keys: seq<nat>, p: seq<nat>, n: nat)
    requires n <= |keys|
  {
    (forall k :: 0 <= k < |p| ==> p[k] < n) &&
    (forall a, b :: 0 <= a < b < |p| ==> Precedes(keys, p[a], p[b]))
  }

  /** Where a new last position goes: after every smaller or equal key. */
  method InsertAt(keys: seq<nat>, p: seq<nat>, n: nat) returns (at: nat)
    requires IsOrder(keys, p, n) && n < |keys|
    ensures at <= |p|
    ensures forall k :: 0 <= k < at ==> Precedes(keys, p[k], n)
    ensures forall k :: at <= k < |p| ==> Precedes(keys, n, p[k])
  {
    at := |p|;
    while at > 0 && keys[p[at - 1]] > keys[n]
      invariant at <= |p|
      invariant forall k :: at <= k < |p| ==> Precedes(keys, n, p[k])
    {
      at := at - 1;
    }
    forall k | 0 <= k < at ensures Precedes(keys, p[k], n) {
      if k < at - 1 {
        assert Precedes(keys, p[k], p[at - 1]);
      }
    }
  }

  lemma InsertKeepsOrdered(keys: seq<nat>, p: seq<nat>, n: nat, at: nat)
    requires n < |keys| && at <= |p| && Ordered(keys, p, n)
    requires forall k :: 0 <= k < at ==> Precedes(keys, p[k], n)
    requires forall k :: at <= k < |p| ==> Precedes(keys, n, p[k])
    ensures Ordered(keys, p[..at] + [n] + p[at..], n + 1)
  {
    var q := p[..at] + [n] + p[at..];
    assert forall k :: 0 <= k < |q| ==> q[k] == if k < at then p[k] else if k == at then n else p[k - 1];
    forall a, b | 0 <= a < b < |q| ensures Precedes(keys, q[a], q[b]) {
      if a != at && b != at {
        assert Precedes(keys, p[if a < at then a else a - 1], p[if b < at then b else b - 1]);
      }
    }
  }

  lemma InsertKeepsPositions(p: seq<nat>, n: nat, at: nat)
    requires at <= |p| && multiset(p) == multiset(Range(n))
    ensures multiset(p[..at] + [n] + p[at..]) == multiset(Range(n + 1))
  {
    assert p == p[..at] + p[at..];
    assert Range(n + 1) == Range(n) + [n];
  }

  /** Stable sort of the positions by key. */
  method SortByKey(keys: seq<nat>) returns (p: seq<nat>)
    ensures IsOrder(keys, p, |keys|) && |p| == |keys|
  {
    p := [];
    for n := 0 to |keys|
      invariant IsOrder(keys, p, n)
    {
      var at := InsertAt(keys, p, n);
      InsertKeepsOrdered(keys, p, n, at);
      InsertKeepsPositions(p, n, at);
      p := p[..at] + [n] + p[at..];
    }
    assert |multiset(p)| == |multiset(Range(|keys|))|;
  }

  // ---- ranks ----

  /** `r[i]` is where position `i` stands in the order `p`. */
  ghost predicate IsRank(p: seq<nat>, r: seq<nat>) {
    |r| == |p| && forall k :: 0 <= k < |p| ==> p[k] < |r| && r[p[k]] == k
  }

  method RanksOf(p: seq<nat>) returns (r: seq<nat>)
    requires multiset(p) == multiset(Range(|p|))
    ensures IsRank(p, r)
  {
    var n := |p|;
    PermutationFacts(p);
    var rank := new nat[n](_ => 0);
    for k := 0 to n
      invariant fresh(rank) && forall i :: 0 <= i < k ==> rank[p[i]] == i
    {
      rank[p[k]] := k;
    }
    r := rank[..];
  }

  /** A permutation stays in range and repeats nothing. */
  lemma PermutationFacts(p: seq<nat>)
    requires multiset(p) == multiset(Range(|p|))
    ensures forall k :: 0 <= k < |p| ==> p[k] < |p|
    ensures forall a, b :: 0 <= a < b < |p| ==> p[a] != p[b]
  {
    forall k | 0 <= k < |p| ensures p[k] < |p| {
      assert p[k] in multiset(p);
      assert p[k] in Range(|p|);
    }
    forall a, b | 0 <= a < b < |p| ensures p[a] != p[b] {
      RangeOnce(|p|, p[a]);
      if p[a] == p[b] {
        CountTwice(p, a, b);
      }
    }
  }

  lemma {:induction false} RangeOnce(n: nat, x: nat)
    ensures multiset(Range(n))[x] == if x < n then 1 else 0
  {
    if n > 0 {
      assert Range(n) == Range(n - 1) + [n - 1];
      RangeOnce(n - 1, x);
    }
  }

  /** Ranks are themselves a permutation. */
  lemma RanksArePermutation(p: seq<nat>, r: seq<nat>)
    requires multiset(p) == multiset(Range(|p|)) && IsRank(p, r)
    ensures multiset(r) == multiset(Range(|p|))
  {
    var n := |p|;
    var at := (i: nat) => if i < |r| then r[i] else 0;
    MapMonotone(at, p, Range(n));
    MapMonotone(at, Range(n), p);
    assert Map(at, p) == Range(n);
    assert Map(at, Range(n)) == r;
  }

  /** Two orders agree exactly when their ranks agree. */
  lemma SameRanksSameOrder(p: seq<nat>, q: seq<nat>, r: seq<nat>, s: seq<nat>)
    requires multiset(p) == multiset(Range(|p|)) && multiset(q) == multiset(Range(|q|)) && |p| == |q|
    requires IsRank(p, r) && IsRank(q, s)
    ensures r == s <==> p == q
  {
    if r == s {
      forall k | 0 <= k < |p| ensures p[k] == q[k] {
        RankInverts(q, s, p[k]);
      }
    }
    if p == q {
      forall i | 0 <= i < |r| ensures r[i] == s[i] {
        RankInverts(p, r, i);
      }
    }
  }

  /** One order is the other reversed exactly when the ranks of each position add up to n-1. */
  lemma OppositeRanksReversedOrder(p: seq<nat>, q: seq<nat>, r: seq<nat>, s: seq<nat>)
    requires multiset(p) == multiset(Range(|p|)) && multiset(q) == multiset(Range(|q|)) && |p| == |q|
    requires IsRank(p, r) && IsRank(q, s)
    ensures (forall i :: 0 <= i < |r| ==> r[i] + s[i] == |p| - 1) <==>
            (forall k :: 0 <= k < |p| ==> q[|p| - 1 - k] == p[k])
  {
    if forall i :: 0 <= i < |r| ==> r[i] + s[i] == |p| - 1 {
      forall k | 0 <= k < |p| ensures q[|p| - 1 - k] == p[k] {
        RankInverts(q, s, p[k]);
        assert r[p[k]] + s[p[k]] == |p| - 1;
      }
    }
    if forall k :: 0 <= k < |p| ==> q[|p| - 1 - k] == p[k] {
      forall i | 0 <= i < |r| ensures r[i] + s[i] == |p| - 1 {
        RankInverts(p, r, i);
        assert q[|p| - 1 - r[i]] == i;
      }
    }
  }

  lemma RankInverts(p: seq<nat>, r: seq<nat>, i: nat)
    requires multiset(p) == multiset(Range(|p|)) && IsRank(p, r) && i < |p|
    ensures r[i] < |p| && p[r[i]] == i
  {
    assert Range(|p|)[i] == i;
    assert i in multiset(Range(|p|));
    assert i in p;
    var k :| 0 <= k < |p| && p[k] == i;
  }
}
