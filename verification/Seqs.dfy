/** Sequence vocabulary shared by the other modules: filtering, mapping and
    folds whose result does not depend on the order of the elements. */
module Seqs {

  datatype Option<+T> = None | Some(value: T)

  /** The elements of `s` that satisfy `p`, in order. */
  function Filter<T>(p: T -> bool, s: seq<T>): seq<T> {
    if s == [] then []
    else
      var rest := Filter(p, s[..|s| - 1]);
      if p(s[|s| - 1]) then rest + [s[|s| - 1]] else rest
  }

  lemma {:induction false} FilterMembers<T>(p: T -> bool, s: seq<T>)
    ensures forall x :: x in Filter(p, s) ==> x in s && p(x)
    ensures forall x :: x in s && p(x) ==> x in Filter(p, s)
  {
    if s != [] {
      FilterMembers(p, s[..|s| - 1]);
      assert s == s[..|s| - 1] + [s[|s| - 1]];
    }
  }

  function Map<A, B>(f: A -> B, s: seq<A>): (r: seq<B>)
    ensures |r| == |s|
    ensures forall i :: 0 <= i < |s| ==> r[i] == f(s[i])
  {
    seq(|s|, i requires 0 <= i < |s| => f(s[i]))
  }

  /** One more element at the end filters as one more element at the end. */
  lemma FilterSnoc<T>(p: T -> bool, s: seq<T>, x: T)
    ensures Filter(p, s + [x]) == Filter(p, s) + if p(x) then [x] else []
  {
    assert (s + [x])[..|s|] == s;
  }

  lemma {:induction false} FilterAppend<T>(p: T -> bool, a: seq<T>, b: seq<T>)
    ensures Filter(p, a + b) == Filter(p, a) + Filter(p, b)
  {
    if b == [] {
      assert a + b == a;
    } else {
      var n := |b| - 1;
      assert (a + b)[..|a + b| - 1] == a + b[..n];
      FilterAppend(p, a, b[..n]);
    }
  }

  /** Filtering keeps every copy of a wanted element and no copy of another. */
  lemma {:induction false} FilterCount<T>(p: T -> bool, s: seq<T>, x: T)
    ensures multiset(Filter(p, s))[x] == if p(x) then multiset(s)[x] else 0
  {
    if s != [] {
      FilterCount(p, s[..|s| - 1], x);
      assert s == s[..|s| - 1] + [s[|s| - 1]];
    }
  }

  lemma {:induction false} FilterAgree<T>(p: T -> bool, q: T -> bool, s: seq<T>)
    requires forall x :: x in s ==> p(x) == q(x)
    ensures Filter(p, s) == Filter(q, s)
  {
    if s != [] {
      assert s == s[..|s| - 1] + [s[|s| - 1]];
      FilterAgree(p, q, s[..|s| - 1]);
    }
  }

  /** Mapping commutes with taking one element away from the end. */
  lemma MapSnoc<A, B>(f: A -> B, s: seq<A>, x: A)
    ensures Map(f, s + [x]) == Map(f, s) + [f(x)]
  {
  }

  /** Taking one element away takes its image away. */
  lemma MapWithout<A, B>(f: A -> B, s: seq<A>, i: nat)
    requires i < |s|
    ensures multiset(Map(f, s)) == multiset(Map(f, Without(s, i))) + multiset{f(s[i])}
  {
    assert Map(f, s) == Map(f, s[..i]) + [f(s[i])] + Map(f, s[i + 1..]);
    assert Map(f, Without(s, i)) == Map(f, s[..i]) + Map(f, s[i + 1..]);
  }

  /** Images keep inclusion, counting copies. */
  lemma {:induction false} MapMonotone<A, B>(f: A -> B, s: seq<A>, t: seq<A>)
    requires multiset(s) <= multiset(t)
    ensures multiset(Map(f, s)) <= multiset(Map(f, t))
    decreases |s|
  {
    if s == [] {
      assert Map(f, s) == [];
    } else {
      var n := |s| - 1;
      assert s == s[..n] + [s[n]];
      assert s[n] in multiset(t);
      var i :| 0 <= i < |t| && t[i] == s[n];
      WithoutTakesOne(t, i);
      MapMonotone(f, s[..n], Without(t, i));
      MapWithout(f, t, i);
      assert Without(s, n) == s[..n];
      MapWithout(f, s, n);
    }
  }

  /** The images of all elements, one after the other. */
  function FlatMap<A, B>(f: A -> seq<B>, s: seq<A>): seq<B> {
    if s == [] then [] else FlatMap(f, s[..|s| - 1]) + f(s[|s| - 1])
  }

  lemma FlatMapSnoc<A, B>(f: A -> seq<B>, s: seq<A>, x: A)
    ensures FlatMap(f, s + [x]) == FlatMap(f, s) + f(x)
  {
    assert (s + [x])[..|s|] == s;
  }

  lemma {:induction false} FlatMapAppend<A, B>(f: A -> seq<B>, a: seq<A>, b: seq<A>)
    ensures FlatMap(f, a + b) == FlatMap(f, a) + FlatMap(f, b)
  {
    if b == [] {
      assert a + b == a;
    } else {
      var n := |b| - 1;
      FlatMapAppend(f, a, b[..n]);
      assert (a + b)[..|a + b| - 1] == a + b[..n];
    }
  }

  lemma MapAppend<A, B>(f: A -> B, a: seq<A>, b: seq<A>)
    ensures Map(f, a + b) == Map(f, a) + Map(f, b)
  {
  }

  /** Replacing every element by others with the same meaning, up to `g`, keeps the meaning of the whole. */
  lemma {:induction false} FlatMapKeepsMeaning<A(!new), B>(f: A -> seq<A>, meaning: A -> seq<B>, g: B -> B, s: seq<A>)
    requires forall x :: multiset(FlatMap(meaning, f(x))) == multiset(Map(g, meaning(x)))
    ensures multiset(FlatMap(meaning, FlatMap(f, s))) == multiset(Map(g, FlatMap(meaning, s)))
  {
    if s == [] {
      assert FlatMap(meaning, FlatMap(f, s)) == [] && Map(g, FlatMap(meaning, s)) == [];
    } else {
      var n := |s| - 1;
      FlatMapKeepsMeaning(f, meaning, g, s[..n]);
      FlatMapAppend(meaning, FlatMap(f, s[..n]), f(s[n]));
      MapAppend(g, FlatMap(meaning, s[..n]), meaning(s[n]));
    }
  }

  /** Left fold. */
  function Fold<A, T>(step: (A, T) -> A, init: A, s: seq<T>): A
  {
    if s == [] then init else step(Fold(step, init, s[..|s| - 1]), s[|s| - 1])
  }

  /** Two steps may be swapped. */
  ghost predicate Commutes<A(!new), T(!new)>(step: (A, T) -> A) {
    forall a, x, y :: step(step(a, x), y) == step(step(a, y), x)
  }

  function Without<T>(s: seq<T>, i: nat): seq<T>
    requires i < |s|
  {
    s[..i] + s[i + 1..]
  }

  lemma WithoutTakesOne<T>(s: seq<T>, i: nat)
    requires i < |s|
    ensures multiset(Without(s, i)) == multiset(s) - multiset{s[i]}
  {
    assert s == s[..i] + [s[i]] + s[i + 1..];
  }

  predicate NoDuplicates<T(==)>(s: seq<T>) { forall i, j :: 0 <= i < j < |s| ==> s[i] != s[j] }

  lemma CountTwice<T>(s: seq<T>, i: nat, j: nat)
    requires i < j < |s| && s[i] == s[j]
    ensures multiset(s)[s[i]] >= 2
  {
    assert s == s[..j] + [s[j]] + s[j + 1..];
    assert s[..j][i] == s[i] && s[i] in s[..j];
    assert multiset(s[..j])[s[i]] >= 1;
  }

  lemma {:induction false} CountOnce<T>(s: seq<T>, x: T)
    requires NoDuplicates(s)
    ensures multiset(s)[x] <= 1
  {
    if s != [] {
      var n := |s| - 1;
      CountOnce(s[..n], x);
      assert s == s[..n] + [s[n]];
      if s[n] == x {
        assert x !in s[..n];
      }
    }
  }

  /** Being without duplicates does not depend on the order. */
  lemma PermutedNoDuplicates<T>(s: seq<T>, t: seq<T>)
    requires NoDuplicates(s) && multiset(s) == multiset(t)
    ensures NoDuplicates(t)
  {
    forall i, j | 0 <= i < j < |t| ensures t[i] != t[j] {
      CountOnce(s, t[i]);
      if t[i] == t[j] {
        CountTwice(t, i, j);
      }
    }
  }

  /** Some `x` stands before some `y`. */
  ghost predicate ComesBefore<T>(s: seq<T>, x: T, y: T) {
    exists i, j :: 0 <= i < j < |s| && s[i] == x && s[j] == y
  }

  lemma ComesBeforeSnoc<T>(s: seq<T>, z: T, x: T, y: T)
    ensures ComesBefore(s + [z], x, y) <==> ComesBefore(s, x, y) || (x in s && z == y)
  {
    var t := s + [z];
    if ComesBefore(s, x, y) {
      var i, j :| 0 <= i < j < |s| && s[i] == x && s[j] == y;
      assert t[i] == x && t[j] == y;
    }
    if x in s && z == y {
      var i :| 0 <= i < |s| && s[i] == x;
      assert t[i] == x && t[|s|] == y;
    }
  }

  /** Filtering keeps the order of what it keeps. */
  lemma {:induction false} FilterComesBefore<T>(p: T -> bool, s: seq<T>, x: T, y: T)
    requires p(x) && p(y)
    ensures ComesBefore(Filter(p, s), x, y) <==> ComesBefore(s, x, y)
  {
    if s != [] {
      var n := |s| - 1;
      FilterComesBefore(p, s[..n], x, y);
      FilterMembers(p, s[..n]);
      assert s == s[..n] + [s[n]];
      ComesBeforeSnoc(s[..n], s[n], x, y);
      if p(s[n]) {
        ComesBeforeSnoc(Filter(p, s[..n]), s[n], x, y);
      }
    }
  }

  lemma FoldSnoc<A, T>(step: (A, T) -> A, init: A, s: seq<T>, x: T)
    ensures Fold(step, init, s + [x]) == step(Fold(step, init, s), x)
  {
    assert (s + [x])[..|s|] == s;
  }

  lemma WithoutSnoc<T>(s: seq<T>, i: nat)
    requires i < |s| - 1
    ensures Without(s, i) == Without(s[..|s| - 1], i) + [s[|s| - 1]]
  {
  }

  lemma Swap<A(!new), T(!new)>(step: (A, T) -> A, a: A, x: T, y: T)
    requires Commutes(step)
    ensures step(step(a, x), y) == step(step(a, y), x)
  {
  }

  /** Any element can be folded in last. */
  lemma {:induction false} FoldPick<A(!new), T(!new)>(step: (A, T) -> A, init: A, s: seq<T>, i: nat)
    requires Commutes(step)
    requires i < |s|
    ensures Fold(step, init, s) == step(Fold(step, init, Without(s, i)), s[i])
    decreases |s|
  {
    var n := |s| - 1;
    if i == n {
      assert Without(s, i) == s[..n];
    } else {
      FoldPick(step, init, s[..n], i);
      WithoutSnoc(s, i);
      FoldSnoc(step, init, Without(s[..n], i), s[n]);
      Swap(step, Fold(step, init, Without(s[..n], i)), s[i], s[n]);
    }
  }

  /** A fold of commuting steps depends on the multiset of elements only. */
  lemma {:induction false} FoldPermutation<A(!new), T(!new)>(step: (A, T) -> A, init: A, s: seq<T>, t: seq<T>)
    requires Commutes(step)
    requires multiset(s) == multiset(t)
    ensures Fold(step, init, s) == Fold(step, init, t)
    decreases |s|
  {
    assert |multiset(s)| == |s| && |multiset(t)| == |t|;
    if s != [] {
      var n := |s| - 1;
      assert s == s[..n] + [s[n]];
      assert s[n] in multiset(t);
      var i :| 0 <= i < |t| && t[i] == s[n];
      FoldPick(step, init, t, i);
      WithoutTakesOne(t, i);
      FoldPermutation(step, init, s[..n], Without(t, i));
    }
  }
}
