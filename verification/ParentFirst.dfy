/** Ordering a journal batch so that a directory created in it is applied before what appears inside it.

    The batch arrives in arbitrary order. One pass holds back the changes whose parent is still to be created;
    further passes release them as parents come out, until none is left or none can be released. */
module ParentFirst {
  import opened Seqs

  /** The net change of one record; `created`, `deleted` and `renamed` are flags. */
  datatype Change = Change(frs: nat, parent: nat, name: string, created: bool, deleted: bool, renamed: bool)

  /** The records a sequence of changes creates. */
  function CreatedIn(s: seq<Change>): set<nat> {
    if s == [] then {}
    else
      var last := s[|s| - 1];
      CreatedIn(s[..|s| - 1]) + if last.created then {last.frs} else {}
  }

  /** The change needs a parent that the batch creates. */
  predicate Depends(creates: set<nat>, c: Change) {
    (c.created || c.renamed) && c.parent != c.frs && c.parent in creates
  }

  predicate Waits(creates: set<nat>, out: seq<Change>, c: Change) {
    Depends(creates, c) && c.parent !in CreatedIn(out)
  }

  /** The changes emitted and those held back. */
  datatype Passed = Passed(out: seq<Change>, deferred: seq<Change>)

  function Pass(creates: set<nat>, out: seq<Change>, items: seq<Change>): Passed {
    if items == [] then Passed(out, [])
    else
      var p := Pass(creates, out, items[..|items| - 1]);
      var c := items[|items| - 1];
      if Waits(creates, p.out, c) then Passed(p.out, p.deferred + [c]) else Passed(p.out + [c], p.deferred)
  }

  function Settle(creates: set<nat>, p: Passed): seq<Change>
    decreases |p.deferred|
  {
    if p.deferred == [] then p.out
    else
      PassShrinks(creates, p.out, p.deferred);
      var next := Pass(creates, p.out, p.deferred);
      if |next.deferred| == |p.deferred| then next.out + next.deferred else Settle(creates, next)
  }

  function OrderOf(changes: seq<Change>): seq<Change> {
    var creates := CreatedIn(changes);
    Settle(creates, Pass(creates, [], changes))
  }

  lemma {:induction false} PassShrinks(creates: set<nat>, out: seq<Change>, items: seq<Change>)
    ensures var p := Pass(creates, out, items); |p.deferred| <= |items| && |p.out| + |p.deferred| == |out| + |items|
  {
    if items != [] {
      PassShrinks(creates, out, items[..|items| - 1]);
    }
  }

  lemma PassSnoc(creates: set<nat>, out: seq<Change>, items: seq<Change>, c: Change)
    ensures var p := Pass(creates, out, items);
            Pass(creates, out, items + [c]) ==
            if Waits(creates, p.out, c) then Passed(p.out, p.deferred + [c]) else Passed(p.out + [c], p.deferred)
  {
    assert (items + [c])[..|items|] == items;
  }

  lemma OneReleased(creates: set<nat>, out: seq<Change>, c: Change)
    requires !Waits(creates, out, c)
    ensures Settle(creates, Passed(out, [c])) == out + [c]
  {
    PassSnoc(creates, out, [], c);
    assert [] + [c] == [c];
    assert Settle(creates, Passed(out + [c], [])) == out + [c];
  }

  // ---- the program ----

  method CollectCreates(changes: seq<Change>) returns (creates: set<nat>)
    ensures creates == CreatedIn(changes)
  {
    creates := {};
    for i := 0 to |changes|
      invariant creates == CreatedIn(changes[..i])
    {
      assert changes[..i + 1][..i] == changes[..i];
      if changes[i].created {
        creates := creates + {changes[i].frs};
      }
    }
    assert changes[..|changes|] == changes;
  }

  lemma CreatedSnoc(s: seq<Change>, c: Change)
    ensures CreatedIn(s + [c]) == CreatedIn(s) + if c.created then {c.frs} else {}
  {
    assert (s + [c])[..|s|] == s;
  }

  /** One pass, with the set of creates already emitted kept beside the output. */
  method RunPass(creates: set<nat>, start: seq<Change>, applied: set<nat>, items: seq<Change>)
      returns (p: Passed, applied': set<nat>)
    requires applied == CreatedIn(start)
    ensures p == Pass(creates, start, items) && applied' == CreatedIn(p.out)
  {
    p, applied' := Passed(start, []), applied;
    for i := 0 to |items|
      invariant p == Pass(creates, start, items[..i]) && applied' == CreatedIn(p.out)
    {
      var c := items[i];
      assert items[..i + 1][..i] == items[..i];
      if (c.created || c.renamed) && c.parent != c.frs && c.parent in creates && c.parent !in applied' {
        p := Passed(p.out, p.deferred + [c]);
      } else {
        CreatedSnoc(p.out, c);
        p := Passed(p.out + [c], p.deferred);
        if c.created {
          applied' := applied' + {c.frs};
        }
      }
    }
    assert items[..|items|] == items;
  }

  method OrderParentFirst(changes: seq<Change>) returns (out: seq<Change>)
    ensures out == OrderOf(changes)
  {
    var creates := CollectCreates(changes);
    var p, applied := RunPass(creates, [], {}, changes);
    while p.deferred != []
      invariant Settle(creates, p) == OrderOf(changes) && applied == CreatedIn(p.out)
      decreases |p.deferred|
    {
      PassShrinks(creates, p.out, p.deferred);
      var next, applied' := RunPass(creates, p.out, applied, p.deferred);
      if |next.deferred| == |p.deferred| {
        return next.out + next.deferred;
      }
      p, applied := next, applied';
    }
    out := p.out;
  }

  // ---- nothing is lost, nothing else moves ----

  lemma OneMore<T>(a: seq<T>, b: seq<T>, before: multiset<T>, items: seq<T>, x: T)
    requires multiset(a) + multiset(b) == before + multiset(items)
    ensures multiset(a + [x]) + multiset(b) == before + multiset(items + [x])
    ensures multiset(a) + multiset(b + [x]) == before + multiset(items + [x])
  {
    assert multiset(a + [x]) == multiset(a) + multiset{x} && multiset(b + [x]) == multiset(b) + multiset{x};
    assert multiset(items + [x]) == multiset(items) + multiset{x};
    var one := multiset{x};
    assert (multiset(a) + one) + multiset(b) == (multiset(a) + multiset(b)) + one;
    assert before + (multiset(items) + one) == (before + multiset(items)) + one;
  }

  lemma StepKeeps(p: Passed, waits: bool, before: multiset<Change>, items: seq<Change>, c: Change)
    requires multiset(p.out) + multiset(p.deferred) == before + multiset(items)
    ensures var next := if waits then Passed(p.out, p.deferred + [c]) else Passed(p.out + [c], p.deferred);
            multiset(next.out) + multiset(next.deferred) == before + multiset(items + [c])
  {
    OneMore(p.out, p.deferred, before, items, c);
  }

  lemma {:induction false} PassKeeps(creates: set<nat>, out: seq<Change>, items: seq<Change>)
    ensures var p := Pass(creates, out, items); multiset(p.out) + multiset(p.deferred) == multiset(out) + multiset(items)
  {
    if items != [] {
      var n := |items| - 1;
      PassKeeps(creates, out, items[..n]);
      assert items == items[..n] + [items[n]];
      StepKeeps(Pass(creates, out, items[..n]), Waits(creates, Pass(creates, out, items[..n]).out, items[n]),
                multiset(out), items[..n], items[n]);
    }
  }

  lemma {:induction false} SettleKeeps(creates: set<nat>, p: Passed)
    ensures multiset(Settle(creates, p)) == multiset(p.out) + multiset(p.deferred)
    decreases |p.deferred|
  {
    if p.deferred != [] {
      PassShrinks(creates, p.out, p.deferred);
      PassKeeps(creates, p.out, p.deferred);
      var next := Pass(creates, p.out, p.deferred);
      if |next.deferred| < |p.deferred| {
        SettleKeeps(creates, next);
      }
    }
  }

  /** Every change is applied exactly once. */
  lemma OrderIsPermutation(changes: seq<Change>)
    ensures multiset(OrderOf(changes)) == multiset(changes)
  {
    var creates := CreatedIn(changes);
    PassKeeps(creates, [], changes);
    SettleKeeps(creates, Pass(creates, [], changes));
  }

  function Independent(creates: set<nat>, s: seq<Change>): seq<Change> { Filter(c => !Depends(creates, c), s) }

  predicate AllDepend(creates: set<nat>, s: seq<Change>) { forall i :: 0 <= i < |s| ==> Depends(creates, s[i]) }

  lemma {:induction false} NoneIndependent(creates: set<nat>, s: seq<Change>)
    requires AllDepend(creates, s)
    ensures Independent(creates, s) == []
  {
    if s != [] {
      NoneIndependent(creates, s[..|s| - 1]);
    }
  }

  lemma {:induction false} PassKeepsOrder(creates: set<nat>, out: seq<Change>, items: seq<Change>)
    ensures var p := Pass(creates, out, items);
            AllDepend(creates, p.deferred) &&
            Independent(creates, p.out) == Independent(creates, out) + Independent(creates, items)
  {
    if items != [] {
      var n := |items| - 1;
      PassKeepsOrder(creates, out, items[..n]);
      var p := Pass(creates, out, items[..n]);
      FilterSnoc(c => !Depends(creates, c), p.out, items[n]);
      FilterSnoc(c => !Depends(creates, c), items[..n], items[n]);
      assert items == items[..n] + [items[n]];
    }
  }

  lemma {:induction false} SettleKeepsOrder(creates: set<nat>, p: Passed)
    requires AllDepend(creates, p.deferred)
    ensures Independent(creates, Settle(creates, p)) == Independent(creates, p.out)
    decreases |p.deferred|
  {
    if p.deferred != [] {
      PassShrinks(creates, p.out, p.deferred);
      PassKeepsOrder(creates, p.out, p.deferred);
      NoneIndependent(creates, p.deferred);
      var next := Pass(creates, p.out, p.deferred);
      if |next.deferred| < |p.deferred| {
        SettleKeepsOrder(creates, next);
      } else {
        FilterAppend(c => !Depends(creates, c), next.out, next.deferred);
        NoneIndependent(creates, next.deferred);
      }
    }
  }

  /** Changes that need no parent from the batch keep their order. */
  lemma OthersKeepTheirOrder(changes: seq<Change>)
    ensures var creates := CreatedIn(changes); Independent(creates, OrderOf(changes)) == Independent(creates, changes)
  {
    var creates := CreatedIn(changes);
    PassKeepsOrder(creates, [], changes);
    SettleKeepsOrder(creates, Pass(creates, [], changes));
  }

  // ---- parents come first, whenever that is possible ----

  /** Every change that needs a parent from the batch comes after a create of it. */
  predicate ParentsFirst(creates: set<nat>, s: seq<Change>) {
    s == [] ||
    (var front, last := s[..|s| - 1], s[|s| - 1];
     ParentsFirst(creates, front) && !Waits(creates, front, last))
  }

  /** Some change before `j` creates the record. */
  predicate CreatedBefore(s: seq<Change>, frs: nat, j: nat) {
    exists i :: 0 <= i < j && i < |s| && s[i].created && s[i].frs == frs
  }

  lemma {:induction false} CreatedIff(s: seq<Change>, frs: nat)
    ensures frs in CreatedIn(s) <==> CreatedBefore(s, frs, |s|)
  {
    if s != [] {
      CreatedIff(s[..|s| - 1], frs);
    }
  }

  /** In other words: whatever appears under a directory the batch creates, and is not its own parent, comes after a
      create of that directory. */
  lemma {:induction false} ParentsFirstMeans(creates: set<nat>, s: seq<Change>)
    ensures ParentsFirst(creates, s) <==>
            forall j :: 0 <= j < |s| && (s[j].created || s[j].renamed) && s[j].parent != s[j].frs && s[j].parent in creates ==>
              CreatedBefore(s, s[j].parent, j)
  {
    if s != [] {
      var n := |s| - 1;
      ParentsFirstMeans(creates, s[..n]);
      CreatedIff(s[..n], s[n].parent);
      assert forall j, frs :: 0 <= j <= n ==> (CreatedBefore(s[..n], frs, j) <==> CreatedBefore(s, frs, j));
    }
  }

  lemma {:induction false} PrefixParentsFirst(creates: set<nat>, a: seq<Change>, b: seq<Change>)
    requires ParentsFirst(creates, a + b)
    ensures ParentsFirst(creates, a)
    ensures b != [] ==> !Waits(creates, a, b[0])
  {
    if b == [] {
      assert a + b == a;
    } else {
      var n := |b| - 1;
      assert (a + b)[..|a + b| - 1] == a + b[..n];
      PrefixParentsFirst(creates, a, b[..n]);
      if n == 0 {
        assert a + b[..n] == a;
      }
    }
  }

  lemma {:induction false} PassOrders(creates: set<nat>, out: seq<Change>, items: seq<Change>)
    requires ParentsFirst(creates, out)
    ensures ParentsFirst(creates, Pass(creates, out, items).out)
  {
    if items != [] {
      var n := |items| - 1;
      PassOrders(creates, out, items[..n]);
      var p := Pass(creates, out, items[..n]);
      assert (p.out + [items[n]])[..|p.out|] == p.out;
    }
  }

  /** No change of `s` can be released after `out`. */
  predicate Stuck(creates: set<nat>, out: seq<Change>, s: seq<Change>) {
    forall i :: 0 <= i < |s| ==> Waits(creates, out, s[i])
  }

  lemma {:induction false} NoProgressIsStuck(creates: set<nat>, out: seq<Change>, items: seq<Change>)
    requires |Pass(creates, out, items).deferred| == |items|
    ensures Pass(creates, out, items) == Passed(out, items) && Stuck(creates, out, items)
  {
    if items != [] {
      var n := |items| - 1;
      PassShrinks(creates, out, items[..n]);
      NoProgressIsStuck(creates, out, items[..n]);
      assert items == items[..n] + [items[n]];
    }
  }

  /** The result is what came out in order, then what is stuck. */
  ghost predicate Splits(creates: set<nat>, changes: seq<Change>, result: seq<Change>, out: seq<Change>, stuck: seq<Change>) {
    result == out + stuck && ParentsFirst(creates, out) && Stuck(creates, out, stuck) &&
    multiset(out) + multiset(stuck) == multiset(changes)
  }

  lemma {:induction false} SettleSplits(creates: set<nat>, changes: seq<Change>, p: Passed)
    requires ParentsFirst(creates, p.out) && multiset(p.out) + multiset(p.deferred) == multiset(changes)
    ensures exists out, stuck :: Splits(creates, changes, Settle(creates, p), out, stuck)
    decreases |p.deferred|
  {
    if p.deferred == [] {
      assert p.out + [] == p.out;
      assert Settle(creates, p) == p.out;
      assert Splits(creates, changes, Settle(creates, p), p.out, []);
    } else {
      PassShrinks(creates, p.out, p.deferred);
      PassKeeps(creates, p.out, p.deferred);
      PassOrders(creates, p.out, p.deferred);
      var next := Pass(creates, p.out, p.deferred);
      if |next.deferred| == |p.deferred| {
        NoProgressIsStuck(creates, p.out, p.deferred);
        assert Settle(creates, p) == next.out + next.deferred;
        assert Splits(creates, changes, Settle(creates, p), next.out, next.deferred);
      } else {
        SettleSplits(creates, changes, next);
        assert Settle(creates, p) == Settle(creates, next);
      }
    }
  }

  lemma OrderSplits(changes: seq<Change>)
    ensures exists out, stuck :: Splits(CreatedIn(changes), changes, OrderOf(changes), out, stuck)
  {
    var creates := CreatedIn(changes);
    PassKeeps(creates, [], changes);
    PassOrders(creates, [], changes);
    assert multiset([]) + multiset(changes) == multiset(changes);
    SettleSplits(creates, changes, Pass(creates, [], changes));
    assert OrderOf(changes) == Settle(creates, Pass(creates, [], changes));
  }

  /** The change's parents lead, through creates of the batch, to one that needs none. */
  predicate Grounded(creates: set<nat>, changes: seq<Change>, c: Change, n: nat)
    decreases n
  {
    !Depends(creates, c) || (n > 0 && exists p :: p in changes && IsParent(p, c) && Grounded(creates, changes, p, n - 1))
  }

  predicate IsParent(p: Change, c: Change) { p.created && p.frs == c.parent }

  ghost predicate AllGrounded(creates: set<nat>, changes: seq<Change>, s: seq<Change>) {
    forall c :: c in s ==> exists n: nat :: Grounded(creates, changes, c, n)
  }

  lemma {:induction false} CreatedHasChange(s: seq<Change>, frs: nat)
    ensures frs in CreatedIn(s) <==> exists p :: p in s && p.created && p.frs == frs
  {
    if s != [] {
      CreatedHasChange(s[..|s| - 1], frs);
      assert s == s[..|s| - 1] + [s[|s| - 1]];
    }
  }

  /** In any parents-first order of changes of the batch every change is grounded. */
  lemma {:induction false} OrderedIsGrounded(creates: set<nat>, changes: seq<Change>, s: seq<Change>)
    requires ParentsFirst(creates, s) && forall c :: c in s ==> c in changes
    ensures AllGrounded(creates, changes, s)
  {
    if s != [] {
      var n := |s| - 1;
      assert s == s[..n] + [s[n]];
      OrderedIsGrounded(creates, changes, s[..n]);
      LastIsGrounded(creates, changes, s[..n], s[n]);
    }
  }

  lemma LastIsGrounded(creates: set<nat>, changes: seq<Change>, front: seq<Change>, c: Change)
    requires AllGrounded(creates, changes, front) && !Waits(creates, front, c) && forall x :: x in front ==> x in changes
    ensures exists n: nat :: Grounded(creates, changes, c, n)
  {
    if Depends(creates, c) {
      CreatedHasChange(front, c.parent);
      var p :| p in front && p.created && p.frs == c.parent;
      var n: nat :| Grounded(creates, changes, p, n);
      assert IsParent(p, c);
      assert Grounded(creates, changes, c, n + 1);
    } else {
      assert Grounded(creates, changes, c, 0);
    }
  }

  /** A stuck change is not grounded, however long its chain of parents is. */
  lemma {:induction false} StuckIsNotGrounded(
      creates: set<nat>, changes: seq<Change>, out: seq<Change>, stuck: seq<Change>, c: Change, n: nat)
    requires Stuck(creates, out, stuck) && c in stuck && forall x :: x in changes ==> x in out || x in stuck
    ensures !Grounded(creates, changes, c, n)
    decreases n
  {
    if n > 0 {
      forall p | p in changes && IsParent(p, c) ensures !Grounded(creates, changes, p, n - 1) {
        CreatedHasChange(out, c.parent);
        assert p !in out;
        StuckIsNotGrounded(creates, changes, out, stuck, p, n - 1);
      }
    }
  }

  /** Parents come first in the result exactly when no chain of parents in the batch goes in a circle. */
  lemma ParentsFirstIff(changes: seq<Change>)
    ensures var creates := CreatedIn(changes);
            ParentsFirst(creates, OrderOf(changes)) <==> AllGrounded(creates, changes, changes)
  {
    var creates := CreatedIn(changes);
    OrderSplits(changes);
    var out, stuck :| Splits(creates, changes, OrderOf(changes), out, stuck);
    SameMembers(changes, out, stuck);
    if stuck == [] {
      assert out + stuck == out;
      OrderedIsGrounded(creates, changes, out);
    } else {
      assert stuck[0] in stuck && stuck[0] in changes;
      forall n: nat ensures !Grounded(creates, changes, stuck[0], n) {
        StuckIsNotGrounded(creates, changes, out, stuck, stuck[0], n);
      }
      assert !AllGrounded(creates, changes, changes);
      assert Waits(creates, out, stuck[0]);
      if ParentsFirst(creates, out + stuck) {
        PrefixParentsFirst(creates, out, stuck);
      }
    }
  }

  lemma SameMembers(changes: seq<Change>, out: seq<Change>, stuck: seq<Change>)
    requires multiset(out) + multiset(stuck) == multiset(changes)
    ensures forall x :: x in changes <==> x in out || x in stuck
  {
    forall x ensures x in changes <==> x in out || x in stuck {
      assert x in multiset(changes) <==> x in multiset(out) || x in multiset(stuck);
    }
  }

  /** If any order of the batch puts parents first, the result does. */
  lemma FoundWheneverPossible(changes: seq<Change>, any: seq<Change>)
    requires multiset(any) == multiset(changes) && ParentsFirst(CreatedIn(changes), any)
    ensures ParentsFirst(CreatedIn(changes), OrderOf(changes))
  {
    SameMembers(changes, any, []);
    OrderedIsGrounded(CreatedIn(changes), changes, any);
    ParentsFirstIff(changes);
  }

  /** A batch taken from a directory tree is always ordered: depth grows from parent to child. */
  lemma TreesAreOrdered(changes: seq<Change>, depth: nat -> nat)
    requires forall c :: c in changes && Depends(CreatedIn(changes), c) ==> depth(c.parent) < depth(c.frs)
    ensures ParentsFirst(CreatedIn(changes), OrderOf(changes))
  {
    forall c | c in changes ensures exists n: nat :: Grounded(CreatedIn(changes), changes, c, n) {
      DeepIsGrounded(changes, depth, c);
      assert Grounded(CreatedIn(changes), changes, c, depth(c.frs));
    }
    ParentsFirstIff(changes);
  }

  lemma {:induction false} DeepIsGrounded(changes: seq<Change>, depth: nat -> nat, c: Change)
    requires forall x :: x in changes && Depends(CreatedIn(changes), x) ==> depth(x.parent) < depth(x.frs)
    requires c in changes
    ensures Grounded(CreatedIn(changes), changes, c, depth(c.frs))
    decreases depth(c.frs)
  {
    var creates := CreatedIn(changes);
    if Depends(creates, c) {
      CreatedHasChange(changes, c.parent);
      var p :| p in changes && p.created && p.frs == c.parent;
      assert IsParent(p, c);
      DeepIsGrounded(changes, depth, p);
      GroundedLonger(creates, changes, p, depth(p.frs), depth(c.frs) - 1);
    }
  }

  lemma {:induction false} GroundedLonger(creates: set<nat>, changes: seq<Change>, c: Change, m: nat, n: nat)
    requires Grounded(creates, changes, c, m) && m <= n
    ensures Grounded(creates, changes, c, n)
    decreases m
  {
    if Depends(creates, c) {
      var p :| p in changes && IsParent(p, c) && Grounded(creates, changes, p, m - 1);
      GroundedLonger(creates, changes, p, m - 1, n - 1);
    }
  }

  // ---- what the order of the batch decides, and what it does not ----

  ghost predicate IsGrounded(creates: set<nat>, changes: seq<Change>, c: Change) {
    exists n: nat :: Grounded(creates, changes, c, n)
  }

  /** A grounded change is emitted after a create of the parent it needs. */
  lemma GroundedDoesNotWait(changes: seq<Change>, c: Change)
    requires c in changes && IsGrounded(CreatedIn(changes), changes, c)
    ensures exists i :: 0 <= i < |OrderOf(changes)| && OrderOf(changes)[i] == c &&
                        !Waits(CreatedIn(changes), OrderOf(changes)[..i], c)
  {
    var creates := CreatedIn(changes);
    OrderSplits(changes);
    var out, stuck :| Splits(creates, changes, OrderOf(changes), out, stuck);
    SameMembers(changes, out, stuck);
    var n: nat :| Grounded(creates, changes, c, n);
    if c in stuck {
      StuckIsNotGrounded(creates, changes, out, stuck, c, n);
    }
    var i :| 0 <= i < |out| && out[i] == c;
    assert out == out[..i] + out[i..];
    PrefixParentsFirst(creates, out[..i], out[i..]);
    assert OrderOf(changes)[..i] == out[..i] && OrderOf(changes)[i] == c;
  }

  ghost function Circular(creates: set<nat>, changes: seq<Change>): Change -> bool {
    c => !IsGrounded(creates, changes, c)
  }

  lemma {:induction false} NoneCircular(creates: set<nat>, changes: seq<Change>, s: seq<Change>)
    requires AllGrounded(creates, changes, s)
    ensures Filter(Circular(creates, changes), s) == []
  {
    if s != [] {
      var n := |s| - 1;
      assert s[n] in s && forall c :: c in s[..n] ==> c in s;
      NoneCircular(creates, changes, s[..n]);
    }
  }

  lemma {:induction false} PassKeepsCircular(creates: set<nat>, changes: seq<Change>, out: seq<Change>, items: seq<Change>)
    requires ParentsFirst(creates, out) && (forall c :: c in out ==> c in changes) && (forall c :: c in items ==> c in changes)
    ensures var p := Pass(creates, out, items);
            Filter(Circular(creates, changes), p.deferred) == Filter(Circular(creates, changes), items) &&
            (forall c :: c in p.out ==> c in changes) && (forall c :: c in p.deferred ==> c in changes)
  {
    if items != [] {
      var n := |items| - 1;
      var front, c := items[..n], items[n];
      assert items == front + [c];
      PassKeepsCircular(creates, changes, out, front);
      var p := Pass(creates, out, front);
      FilterSnoc(Circular(creates, changes), front, c);
      if Waits(creates, p.out, c) {
        FilterSnoc(Circular(creates, changes), p.deferred, c);
      } else {
        PassOrders(creates, out, front);
        OrderedIsGrounded(creates, changes, p.out);
        LastIsGrounded(creates, changes, p.out, c);
      }
    }
  }

  lemma {:induction false} SettleKeepsCircular(creates: set<nat>, changes: seq<Change>, p: Passed)
    requires ParentsFirst(creates, p.out)
    requires (forall c :: c in p.out ==> c in changes) && (forall c :: c in p.deferred ==> c in changes)
    ensures Filter(Circular(creates, changes), Settle(creates, p)) == Filter(Circular(creates, changes), p.deferred)
    decreases |p.deferred|
  {
    OrderedIsGrounded(creates, changes, p.out);
    NoneCircular(creates, changes, p.out);
    if p.deferred != [] {
      PassShrinks(creates, p.out, p.deferred);
      PassKeepsCircular(creates, changes, p.out, p.deferred);
      PassOrders(creates, p.out, p.deferred);
      var next := Pass(creates, p.out, p.deferred);
      if |next.deferred| < |p.deferred| {
        SettleKeepsCircular(creates, changes, next);
      } else {
        NoProgressIsStuck(creates, p.out, p.deferred);
        FilterAppend(Circular(creates, changes), next.out, next.deferred);
      }
    }
  }

  lemma CircularKeepOrder(changes: seq<Change>)
    ensures var q := Circular(CreatedIn(changes), changes); Filter(q, OrderOf(changes)) == Filter(q, changes)
  {
    var creates := CreatedIn(changes);
    PassKeepsCircular(creates, changes, [], changes);
    PassOrders(creates, [], changes);
    SettleKeepsCircular(creates, changes, Pass(creates, [], changes));
  }

  /** Of two changes that need nothing from the batch, or that both go in a circle, the one that comes first in the
      batch comes first. */
  lemma SameOrderAsBatch(changes: seq<Change>, x: Change, y: Change)
    requires var creates := CreatedIn(changes);
             (!Depends(creates, x) && !Depends(creates, y)) ||
             (!IsGrounded(creates, changes, x) && !IsGrounded(creates, changes, y))
    ensures ComesBefore(OrderOf(changes), x, y) <==> ComesBefore(changes, x, y)
  {
    var creates := CreatedIn(changes);
    if !Depends(creates, x) && !Depends(creates, y) {
      OthersKeepTheirOrder(changes);
      FilterComesBefore(c => !Depends(creates, c), changes, x, y);
      FilterComesBefore(c => !Depends(creates, c), OrderOf(changes), x, y);
    } else {
      var q := Circular(creates, changes);
      CircularKeepOrder(changes);
      FilterComesBefore(q, changes, x, y);
      FilterComesBefore(q, OrderOf(changes), x, y);
    }
  }
}
