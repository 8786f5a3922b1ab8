/** A greedy one-sided pairing of two lists, for an arbitrary acceptance test `ok`.

    It is always a sound and maximal matching; when acceptance is equality of
    classes it is also a maximum one, and what it leaves over does not depend on
    the order of the rows. */
module GreedyMatching {
  import opened Seqs

  const NO_PARTNER: int := -1

  /** For each baseline row its Rust row or NO_PARTNER; for each Rust row whether it is taken. */
  datatype Matching = Matching(partner: seq<int>, used: seq<bool>)

  /** The first free, acceptable Rust row from `from` on. */
  function FirstFree<T>(ok: (T, T) -> bool, b: T, rs: seq<T>, used: seq<bool>, from: nat): (j: nat)
    requires |used| == |rs| && from <= |rs|
    ensures from <= j <= |rs|
    ensures j < |rs| ==> !used[j] && ok(b, rs[j])
    ensures forall i :: from <= i < j ==> used[i] || !ok(b, rs[i])
    decreases |rs| - from
  {
    if from == |rs| || (!used[from] && ok(b, rs[from])) then from else FirstFree(ok, b, rs, used, from + 1)
  }

  /** Each baseline row in turn takes the first row it may. */
  function Greedy<T>(ok: (T, T) -> bool, bs: seq<T>, rs: seq<T>): (m: Matching)
    ensures |m.partner| == |bs| && |m.used| == |rs|
  {
    if bs == [] then Matching([], seq(|rs|, _ => false))
    else
      var m := Greedy(ok, bs[..|bs| - 1], rs);
      var j := FirstFree(ok, bs[|bs| - 1], rs, m.used, 0);
      if j < |rs| then Matching(m.partner + [j], m.used[j := true])
      else Matching(m.partner + [NO_PARTNER], m.used)
  }

  lemma GreedySnoc<T>(ok: (T, T) -> bool, bs: seq<T>, b: T, rs: seq<T>)
    ensures var m := Greedy(ok, bs, rs);
            var j := FirstFree(ok, b, rs, m.used, 0);
            Greedy(ok, bs + [b], rs) ==
            if j < |rs| then Matching(m.partner + [j], m.used[j := true]) else Matching(m.partner + [NO_PARTNER], m.used)
  {
    assert (bs + [b])[..|bs|] == bs;
  }

  // ---- soundness and maximality, for every acceptance test ----

  /** Paired rows are acceptable and taken. */
  ghost predicate PairsAccepted<T>(ok: (T, T) -> bool, bs: seq<T>, rs: seq<T>, m: Matching) {
    |m.partner| == |bs| && |m.used| == |rs| &&
    forall i :: 0 <= i < |bs| && m.partner[i] != NO_PARTNER ==>
      0 <= m.partner[i] < |rs| && m.used[m.partner[i]] && ok(bs[i], rs[m.partner[i]])
  }

  /** No right row serves two left rows. */
  ghost predicate PairsDistinct(m: Matching) {
    forall i, k :: 0 <= i < k < |m.partner| && m.partner[i] == m.partner[k] ==> m.partner[i] == NO_PARTNER
  }

  /** Only paired right rows are taken. */
  ghost predicate TakenArePaired(m: Matching) {
    forall j :: 0 <= j < |m.used| && m.used[j] ==> j in m.partner
  }

  ghost predicate IsMatching<T>(ok: (T, T) -> bool, bs: seq<T>, rs: seq<T>, m: Matching) {
    PairsAccepted(ok, bs, rs, m) && PairsDistinct(m) && TakenArePaired(m)
  }

  /** No two rows left over could still be paired. */
  ghost predicate IsMaximal<T>(ok: (T, T) -> bool, bs: seq<T>, rs: seq<T>, m: Matching)
    requires |m.partner| == |bs| && |m.used| == |rs|
  {
    forall i, j :: 0 <= i < |bs| && 0 <= j < |rs| && m.partner[i] == NO_PARTNER && !m.used[j] ==> !ok(bs[i], rs[j])
  }

  lemma ExtendPair<T>(ok: (T, T) -> bool, bs: seq<T>, b: T, rs: seq<T>, m: Matching, j: nat)
    requires IsMatching(ok, bs, rs, m)
    requires j < |rs| && !m.used[j] && ok(b, rs[j])
    ensures IsMatching(ok, bs + [b], rs, Matching(m.partner + [j], m.used[j := true]))
  {
    var m' := Matching(m.partner + [j], m.used[j := true]);
    assert forall i :: 0 <= i < |bs| ==> m.partner[i] != j;
    assert PairsAccepted(ok, bs + [b], rs, m');
    assert TakenArePaired(m') by {
      assert m'.partner[|bs|] == j;
      assert forall k :: k in m.partner ==> k in m'.partner;
    }
  }

  lemma ExtendUnpaired<T>(ok: (T, T) -> bool, bs: seq<T>, b: T, rs: seq<T>, m: Matching)
    requires IsMatching(ok, bs, rs, m)
    ensures IsMatching(ok, bs + [b], rs, Matching(m.partner + [NO_PARTNER], m.used))
  {
    var m' := Matching(m.partner + [NO_PARTNER], m.used);
    assert forall k :: k in m.partner ==> k in m'.partner;
  }

  lemma {:induction false} GreedyIsMatching<T>(ok: (T, T) -> bool, bs: seq<T>, rs: seq<T>)
    ensures IsMatching(ok, bs, rs, Greedy(ok, bs, rs))
  {
    if bs != [] {
      var n := |bs| - 1;
      GreedyIsMatching(ok, bs[..n], rs);
      var m := Greedy(ok, bs[..n], rs);
      var j := FirstFree(ok, bs[n], rs, m.used, 0);
      assert bs == bs[..n] + [bs[n]];
      if j < |rs| {
        ExtendPair(ok, bs[..n], bs[n], rs, m, j);
      } else {
        ExtendUnpaired(ok, bs[..n], bs[n], rs, m);
      }
    }
  }

  lemma {:induction false} GreedyIsMaximal<T>(ok: (T, T) -> bool, bs: seq<T>, rs: seq<T>)
    ensures IsMaximal(ok, bs, rs, Greedy(ok, bs, rs))
  {
    if bs != [] {
      var n := |bs| - 1;
      GreedyIsMaximal(ok, bs[..n], rs);
      var m := Greedy(ok, bs[..n], rs);
      var m' := Greedy(ok, bs, rs);
      assert forall j :: 0 <= j < |rs| && !m'.used[j] ==> !m.used[j];
      forall i, j | 0 <= i < |bs| && 0 <= j < |rs| && m'.partner[i] == NO_PARTNER && !m'.used[j]
        ensures !ok(bs[i], rs[j])
      {
        if i < n {
          assert m.partner[i] == NO_PARTNER && bs[..n][i] == bs[i];
        }
      }
    }
  }

  // ---- survivors ----

  /** The rows whose flag is off. */
  function Retain<T>(s: seq<T>, drop: seq<bool>): seq<T>
    requires |drop| == |s|
  {
    if s == [] then []
    else
      var rest := Retain(s[..|s| - 1], drop[..|s| - 1]);
      if drop[|s| - 1] then rest else rest + [s[|s| - 1]]
  }

  function Dropped(partner: seq<int>): (drop: seq<bool>)
    ensures |drop| == |partner|
  {
    seq(|partner|, i requires 0 <= i < |partner| => partner[i] != NO_PARTNER)
  }

  function SurvivorsB<T>(bs: seq<T>, m: Matching): seq<T>
    requires |m.partner| == |bs|
  {
    Retain(bs, Dropped(m.partner))
  }

  function SurvivorsR<T>(rs: seq<T>, m: Matching): seq<T>
    requires |m.used| == |rs|
  {
    Retain(rs, m.used)
  }

  function Flags(flags: seq<bool>): nat {
    if flags == [] then 0 else Flags(flags[..|flags| - 1]) + if flags[|flags| - 1] then 1 else 0
  }

  /** How many pairs were dropped. */
  function PairCount(m: Matching): nat {
    Flags(Dropped(m.partner))
  }

  lemma {:induction false} RetainLength<T>(s: seq<T>, drop: seq<bool>)
    requires |drop| == |s|
    ensures |Retain(s, drop)| + Flags(drop) == |s|
    ensures Flags(drop) == 0 ==> Retain(s, drop) == s
  {
    if s != [] {
      RetainLength(s[..|s| - 1], drop[..|s| - 1]);
      assert s == s[..|s| - 1] + [s[|s| - 1]];
    }
  }

  lemma {:induction false} RetainMembers<T>(s: seq<T>, drop: seq<bool>)
    requires |drop| == |s|
    ensures forall x :: x in Retain(s, drop) ==> exists i :: 0 <= i < |s| && !drop[i] && s[i] == x
  {
    if s != [] {
      var n := |s| - 1;
      RetainMembers(s[..n], drop[..n]);
      forall x | x in Retain(s, drop) ensures exists i :: 0 <= i < |s| && !drop[i] && s[i] == x {
        if x in Retain(s[..n], drop[..n]) {
          var i :| 0 <= i < n && !drop[..n][i] && s[..n][i] == x;
          assert !drop[i] && s[i] == x;
        } else {
          assert !drop[n] && s[n] == x;
        }
      }
    }
  }

  lemma {:induction false} FlagsSet(flags: seq<bool>, j: nat)
    requires j < |flags| && !flags[j]
    ensures Flags(flags[j := true]) == Flags(flags) + 1
  {
    var n := |flags| - 1;
    if j == n {
      assert flags[j := true][..n] == flags[..n];
    } else {
      assert flags[j := true][..n] == flags[..n][j := true];
      FlagsSet(flags[..n], j);
    }
  }

  lemma {:induction false} FlagsNone(n: nat)
    ensures Flags(seq(n, _ => false)) == 0
  {
    if n > 0 {
      var s: seq<bool> := seq(n, _ => false);
      assert s[..n - 1] == seq(n - 1, _ => false);
      FlagsNone(n - 1);
    }
  }

  lemma DroppedSnoc(partner: seq<int>, p: int)
    ensures Dropped(partner + [p]) == Dropped(partner) + [p != NO_PARTNER]
    ensures Flags(Dropped(partner + [p])) == Flags(Dropped(partner)) + if p != NO_PARTNER then 1 else 0
  {
    var d := Dropped(partner) + [p != NO_PARTNER];
    assert Dropped(partner + [p]) == d;
    assert d[..|d| - 1] == Dropped(partner);
  }

  /** As many Rust rows are taken as baseline rows are paired. */
  lemma {:induction false} GreedyTakesPairs<T>(ok: (T, T) -> bool, bs: seq<T>, rs: seq<T>)
    ensures Flags(Greedy(ok, bs, rs).used) == PairCount(Greedy(ok, bs, rs))
  {
    if bs == [] {
      FlagsNone(|rs|);
    } else {
      var n := |bs| - 1;
      GreedyTakesPairs(ok, bs[..n], rs);
      var m := Greedy(ok, bs[..n], rs);
      var j := FirstFree(ok, bs[n], rs, m.used, 0);
      if j < |rs| {
        DroppedSnoc(m.partner, j);
        FlagsSet(m.used, j);
      } else {
        DroppedSnoc(m.partner, NO_PARTNER);
      }
    }
  }

  /** Both lists shrink by exactly the tolerated count. */
  lemma SurvivorsShrink<T>(ok: (T, T) -> bool, bs: seq<T>, rs: seq<T>)
    ensures var m := Greedy(ok, bs, rs);
            |SurvivorsB(bs, m)| + PairCount(m) == |bs| && |SurvivorsR(rs, m)| + PairCount(m) == |rs|
  {
    var m := Greedy(ok, bs, rs);
    GreedyTakesPairs(ok, bs, rs);
    RetainLength(bs, Dropped(m.partner));
    RetainLength(rs, m.used);
  }

  /** No surviving pair is acceptable any more. */
  lemma NothingLeftToPair<T>(ok: (T, T) -> bool, bs: seq<T>, rs: seq<T>, b: T, r: T)
    requires var m := Greedy(ok, bs, rs); b in SurvivorsB(bs, m) && r in SurvivorsR(rs, m)
    ensures !ok(b, r)
  {
    var m := Greedy(ok, bs, rs);
    GreedyIsMaximal(ok, bs, rs);
    RetainMembers(bs, Dropped(m.partner));
    RetainMembers(rs, m.used);
    var i :| 0 <= i < |bs| && !Dropped(m.partner)[i] && bs[i] == b;
    var j :| 0 <= j < |rs| && !m.used[j] && rs[j] == r;
    assert m.partner[i] == NO_PARTNER;
  }

  /** When nothing is acceptable nothing is dropped. */
  lemma {:induction false} NothingAcceptable<T>(ok: (T, T) -> bool, bs: seq<T>, rs: seq<T>)
    requires forall b, r :: b in bs && r in rs ==> !ok(b, r)
    ensures PairCount(Greedy(ok, bs, rs)) == 0
  {
    if bs != [] {
      var n := |bs| - 1;
      assert forall b :: b in bs[..n] ==> b in bs;
      NothingAcceptable(ok, bs[..n], rs);
      var m := Greedy(ok, bs[..n], rs);
      var j := FirstFree(ok, bs[n], rs, m.used, 0);
      assert bs[n] in bs && forall i :: 0 <= i < |rs| ==> rs[i] in rs;
      DroppedSnoc(m.partner, NO_PARTNER);
    }
  }

  /** Running the reconciliation on its own result tolerates nothing and changes nothing. */
  lemma SecondRunIsIdle<T>(ok: (T, T) -> bool, bs: seq<T>, rs: seq<T>)
    ensures var m := Greedy(ok, bs, rs);
            var bs', rs' := SurvivorsB(bs, m), SurvivorsR(rs, m);
            var m' := Greedy(ok, bs', rs');
            PairCount(m') == 0 && SurvivorsB(bs', m') == bs' && SurvivorsR(rs', m') == rs'
  {
    var m := Greedy(ok, bs, rs);
    var bs', rs' := SurvivorsB(bs, m), SurvivorsR(rs, m);
    forall b, r | b in bs' && r in rs' ensures !ok(b, r) {
      NothingLeftToPair(ok, bs, rs, b, r);
    }
    NothingAcceptable(ok, bs', rs');
    var m' := Greedy(ok, bs', rs');
    GreedyTakesPairs(ok, bs', rs');
    RetainLength(bs', Dropped(m'.partner));
    RetainLength(rs', m'.used);
  }

  // ---- computing it with drop flags ----

  /** Flags and count show a matching of the first `n` baseline rows. */
  ghost predicate Shows(m: Matching, n: nat, db: seq<bool>, dr: seq<bool>, tolerated: nat) {
    n <= |db| && (forall i :: n <= i < |db| ==> !db[i]) &&
    db[..n] == Dropped(m.partner) && dr == m.used && tolerated == PairCount(m)
  }

  lemma ShowsPaired(m: Matching, n: nat, db: seq<bool>, dr: seq<bool>, tolerated: nat, j: nat)
    requires Shows(m, n, db, dr, tolerated) && n < |db| && j < |dr|
    ensures Shows(Matching(m.partner + [j], m.used[j := true]), n + 1, db[n := true], dr[j := true], tolerated + 1)
  {
    DroppedSnoc(m.partner, j);
    assert db[n := true][..n + 1] == db[..n] + [true];
  }

  lemma ShowsUnpaired(m: Matching, n: nat, db: seq<bool>, dr: seq<bool>, tolerated: nat)
    requires Shows(m, n, db, dr, tolerated) && n < |db|
    ensures Shows(Matching(m.partner + [NO_PARTNER], m.used), n + 1, db, dr, tolerated)
  {
    DroppedSnoc(m.partner, NO_PARTNER);
    assert db[..n + 1] == db[..n] + [false];
  }

  /** Flags and count after the first `n` baseline rows. */
  ghost predicate PairedTo<T>(ok: (T, T) -> bool, bs: seq<T>, rs: seq<T>, n: nat, db: seq<bool>, dr: seq<bool>, tolerated: nat) {
    n <= |bs| == |db| && |dr| == |rs| && Shows(Greedy(ok, bs[..n], rs), n, db, dr, tolerated)
  }

  lemma PairedNone<T>(ok: (T, T) -> bool, bs: seq<T>, rs: seq<T>, db: seq<bool>, dr: seq<bool>)
    requires |db| == |bs| && |dr| == |rs|
    requires (forall i :: 0 <= i < |db| ==> !db[i]) && (forall i :: 0 <= i < |dr| ==> !dr[i])
    ensures PairedTo(ok, bs, rs, 0, db, dr, 0)
  {
    assert bs[..0] == [] && dr == seq(|rs|, _ => false);
  }

  lemma PairedNext<T>(ok: (T, T) -> bool, bs: seq<T>, rs: seq<T>, n: nat, db: seq<bool>, dr: seq<bool>, tolerated: nat)
    requires PairedTo(ok, bs, rs, n, db, dr, tolerated) && n < |bs|
    ensures var j := FirstFree(ok, bs[n], rs, dr, 0);
            if j < |rs| then PairedTo(ok, bs, rs, n + 1, db[n := true], dr[j := true], tolerated + 1)
            else PairedTo(ok, bs, rs, n + 1, db, dr, tolerated)
  {
    var m := Greedy(ok, bs[..n], rs);
    GreedySnoc(ok, bs[..n], bs[n], rs);
    assert bs[..n + 1] == bs[..n] + [bs[n]];
    var j := FirstFree(ok, bs[n], rs, dr, 0);
    if j < |rs| {
      ShowsPaired(m, n, db, dr, tolerated, j);
    } else {
      ShowsUnpaired(m, n, db, dr, tolerated);
    }
  }

  // ---- optimality, when acceptance is equality of classes ----

  /** How many rows each class has. */
  function Classes<T, K>(cls: T -> K, rows: seq<T>): multiset<K> {
    if rows == [] then multiset{} else Classes(cls, rows[..|rows| - 1]) + multiset{cls(rows[|rows| - 1])}
  }

  ghost predicate ByClass<T(!new), K>(ok: (T, T) -> bool, cls: T -> K, bs: seq<T>, rs: seq<T>) {
    forall b, r :: b in bs && r in rs ==> (ok(b, r) <==> cls(b) == cls(r))
  }

  lemma ClassesSnoc<T, K>(cls: T -> K, rows: seq<T>, x: T)
    ensures Classes(cls, rows + [x]) == Classes(cls, rows) + multiset{cls(x)}
  {
    assert (rows + [x])[..|rows|] == rows;
  }

  lemma {:induction false} ClassesIsImage<T, K>(cls: T -> K, rows: seq<T>)
    ensures Classes(cls, rows) == multiset(Map(cls, rows))
    ensures |Classes(cls, rows)| == |rows|
  {
    if rows == [] {
      assert Map(cls, rows) == [];
    } else {
      var n := |rows| - 1;
      assert rows == rows[..n] + [rows[n]];
      ClassesIsImage(cls, rows[..n]);
      MapSnoc(cls, rows[..n], rows[n]);
    }
  }

  /** Taking one more row removes its class from those left over. */
  lemma {:induction false} RetainSet<T, K>(cls: T -> K, s: seq<T>, drop: seq<bool>, j: nat)
    requires |drop| == |s| && j < |s| && !drop[j]
    ensures Classes(cls, Retain(s, drop)) == Classes(cls, Retain(s, drop[j := true])) + multiset{cls(s[j])}
  {
    var n := |s| - 1;
    var kept := Retain(s[..n], drop[..n]);
    if j == n {
      assert drop[j := true][..n] == drop[..n];
      ClassesSnoc(cls, kept, s[n]);
    } else {
      RetainSet(cls, s[..n], drop[..n], j);
      var fewer := Retain(s[..n], drop[..n][j := true]);
      assert drop[j := true][..n] == drop[..n][j := true];
      assert Retain(s, drop[j := true]) == if drop[n] then fewer else fewer + [s[n]];
      ClassesSnoc(cls, kept, s[n]);
      ClassesSnoc(cls, fewer, s[n]);
    }
  }

  /** A class with no free row is not among the classes left over. */
  lemma {:induction false} NoFreeRow<T, K>(cls: T -> K, rs: seq<T>, used: seq<bool>, k: K)
    requires |used| == |rs|
    requires forall j :: 0 <= j < |rs| && !used[j] ==> cls(rs[j]) != k
    ensures k !in Classes(cls, Retain(rs, used))
  {
    if rs != [] {
      var n := |rs| - 1;
      NoFreeRow(cls, rs[..n], used[..n], k);
      if !used[n] {
        ClassesSnoc(cls, Retain(rs[..n], used[..n]), rs[n]);
      }
    }
  }

  /** One more row of class `k` on the left: it meets one on the right or it is left over. */
  lemma DifferenceStep<K>(b: multiset<K>, r: multiset<K>, k: K)
    ensures k in r - b ==> r - (b + multiset{k}) == (r - b) - multiset{k} && (b + multiset{k}) - r == b - r
    ensures k !in r - b ==> r - (b + multiset{k}) == r - b && (b + multiset{k}) - r == (b - r) + multiset{k}
  {
  }

  lemma RetainSnoc<T>(s: seq<T>, drop: seq<bool>, x: T, d: bool)
    requires |drop| == |s|
    ensures Retain(s + [x], drop + [d]) == if d then Retain(s, drop) else Retain(s, drop) + [x]
  {
    assert (s + [x])[..|s|] == s && (drop + [d])[..|s|] == drop;
  }

  ghost predicate LeavesDifference<T, K>(cls: T -> K, bs: seq<T>, rs: seq<T>, m: Matching)
    requires |m.partner| == |bs| && |m.used| == |rs|
  {
    Classes(cls, SurvivorsB(bs, m)) == Classes(cls, bs) - Classes(cls, rs) &&
    Classes(cls, SurvivorsR(rs, m)) == Classes(cls, rs) - Classes(cls, bs)
  }

  /** The step when the new row finds a partner. */
  lemma PairedStep<T, K>(cls: T -> K, bs: seq<T>, b: T, rs: seq<T>, m: Matching, j: nat)
    requires |m.partner| == |bs| && |m.used| == |rs| && LeavesDifference(cls, bs, rs, m)
    requires j < |rs| && !m.used[j] && cls(rs[j]) == cls(b)
    ensures LeavesDifference(cls, bs + [b], rs, Matching(m.partner + [j], m.used[j := true]))
  {
    DroppedSnoc(m.partner, j);
    RetainSnoc(bs, Dropped(m.partner), b, true);
    ClassesSnoc(cls, bs, b);
    RetainSet(cls, rs, m.used, j);
    assert cls(b) in Classes(cls, rs) - Classes(cls, bs);
    DifferenceStep(Classes(cls, bs), Classes(cls, rs), cls(b));
  }

  /** The step when it does not. */
  lemma UnpairedStep<T, K>(cls: T -> K, bs: seq<T>, b: T, rs: seq<T>, m: Matching)
    requires |m.partner| == |bs| && |m.used| == |rs| && LeavesDifference(cls, bs, rs, m)
    requires forall j :: 0 <= j < |rs| && !m.used[j] ==> cls(rs[j]) != cls(b)
    ensures LeavesDifference(cls, bs + [b], rs, Matching(m.partner + [NO_PARTNER], m.used))
  {
    DroppedSnoc(m.partner, NO_PARTNER);
    RetainSnoc(bs, Dropped(m.partner), b, false);
    ClassesSnoc(cls, bs, b);
    ClassesSnoc(cls, SurvivorsB(bs, m), b);
    NoFreeRow(cls, rs, m.used, cls(b));
    DifferenceStep(Classes(cls, bs), Classes(cls, rs), cls(b));
  }

  lemma ClassTest<T(!new), K>(ok: (T, T) -> bool, cls: T -> K, bs: seq<T>, b: T, rs: seq<T>)
    requires ByClass(ok, cls, bs, rs) && b in bs
    ensures TestsClass(ok, r => cls(r) == cls(b), b, rs)
  {
    assert forall i :: 0 <= i < |rs| ==> rs[i] in rs;
  }

  /** The rows a baseline row may be paired with are those of its class. */
  ghost predicate TestsClass<T>(ok: (T, T) -> bool, k: T -> bool, b: T, rs: seq<T>) {
    forall i :: 0 <= i < |rs| ==> (ok(b, rs[i]) <==> k(rs[i]))
  }

  lemma NoFreeInClass<T, K>(ok: (T, T) -> bool, cls: T -> K, b: T, rs: seq<T>, used: seq<bool>)
    requires |used| == |rs| && TestsClass(ok, r => cls(r) == cls(b), b, rs)
    ensures var j := FirstFree(ok, b, rs, used, 0);
            if j < |rs| then !used[j] && cls(rs[j]) == cls(b)
            else forall i :: 0 <= i < |rs| && !used[i] ==> cls(rs[i]) != cls(b)
  {
  }

  lemma SurvivingStep<T, K>(ok: (T, T) -> bool, cls: T -> K, bs: seq<T>, b: T, rs: seq<T>)
    requires TestsClass(ok, r => cls(r) == cls(b), b, rs)
    requires LeavesDifference(cls, bs, rs, Greedy(ok, bs, rs))
    ensures LeavesDifference(cls, bs + [b], rs, Greedy(ok, bs + [b], rs))
  {
    var m := Greedy(ok, bs, rs);
    var j := FirstFree(ok, b, rs, m.used, 0);
    NoFreeInClass(ok, cls, b, rs, m.used);
    GreedySnoc(ok, bs, b, rs);
    if j < |rs| {
      PairedStep(cls, bs, b, rs, m, j);
    } else {
      UnpairedStep(cls, bs, b, rs, m);
    }
  }

  lemma NothingPaired<T, K>(ok: (T, T) -> bool, cls: T -> K, rs: seq<T>)
    ensures LeavesDifference(cls, [], rs, Greedy(ok, [], rs))
  {
    FlagsNone(|rs|);
    RetainLength(rs, Greedy(ok, [], rs).used);
  }

  /** Whatever the order of the rows, what survives is the difference of the class counts on each side. */
  lemma {:induction false} SurvivingClasses<T(!new), K>(ok: (T, T) -> bool, cls: T -> K, bs: seq<T>, rs: seq<T>)
    requires ByClass(ok, cls, bs, rs)
    ensures LeavesDifference(cls, bs, rs, Greedy(ok, bs, rs))
  {
    if bs == [] {
      NothingPaired(ok, cls, rs);
    } else {
      var n := |bs| - 1;
      assert bs == bs[..n] + [bs[n]];
      ClassTest(ok, cls, bs, bs[n], rs);
      SurvivingClasses(ok, cls, bs[..n], rs);
      SurvivingStep(ok, cls, bs[..n], bs[n], rs);
    }
  }

  lemma CommonSize<K>(a: multiset<K>, b: multiset<K>)
    ensures |a * b| == |a| - |a - b|
  {
    assert a == (a * b) + (a - b);
  }

  /** The tolerated count is the sum over the classes of the smaller of the two row counts. */
  lemma GreedyCountsClasses<T(!new), K>(ok: (T, T) -> bool, cls: T -> K, bs: seq<T>, rs: seq<T>)
    requires ByClass(ok, cls, bs, rs)
    ensures PairCount(Greedy(ok, bs, rs)) == |Classes(cls, bs) * Classes(cls, rs)|
  {
    SurvivingClasses(ok, cls, bs, rs);
    SurvivorsShrink(ok, bs, rs);
    ClassesIsImage(cls, bs);
    ClassesIsImage(cls, SurvivorsB(bs, Greedy(ok, bs, rs)));
    CommonSize(Classes(cls, bs), Classes(cls, rs));
  }

  /** Any pairing of rows, given as index pairs. */
  ghost predicate IsPairing<T>(ok: (T, T) -> bool, bs: seq<T>, rs: seq<T>, pairs: seq<(nat, nat)>) {
    (forall i :: 0 <= i < |pairs| ==> pairs[i].0 < |bs| && pairs[i].1 < |rs| && ok(bs[pairs[i].0], rs[pairs[i].1])) &&
    (forall i, k :: 0 <= i < k < |pairs| ==> pairs[i].0 != pairs[k].0 && pairs[i].1 != pairs[k].1)
  }

  ghost predicate DistinctBelow(idx: seq<nat>, n: nat) {
    (forall i :: 0 <= i < |idx| ==> idx[i] < n) && (forall i, k :: 0 <= i < k < |idx| ==> idx[i] != idx[k])
  }

  ghost function Pick<T>(rows: seq<T>, idx: seq<nat>): seq<T>
    requires forall i :: 0 <= i < |idx| ==> idx[i] < |rows|
  {
    seq(|idx|, i requires 0 <= i < |idx| => rows[idx[i]])
  }

  lemma PickSplit<T>(rows: seq<T>, idx: seq<nat>, i: nat)
    requires forall k :: 0 <= k < |idx| ==> idx[k] < |rows|
    requires i < |idx|
    ensures multiset(Pick(rows, idx)) == multiset(Pick(rows, idx[..i] + idx[i + 1..])) + multiset{rows[idx[i]]}
  {
    assert Pick(rows, idx) == Pick(rows, idx[..i]) + [rows[idx[i]]] + Pick(rows, idx[i + 1..]);
    assert Pick(rows, idx[..i] + idx[i + 1..]) == Pick(rows, idx[..i]) + Pick(rows, idx[i + 1..]);
  }

  /** Without the position of the last row the others are picked from the rows before it. */
  lemma PickedWithoutLast<T>(rows: seq<T>, idx: seq<nat>, i: nat)
    requires DistinctBelow(idx, |rows|) && i < |idx| && idx[i] == |rows| - 1
    ensures var rest := idx[..i] + idx[i + 1..];
            var front := rows[..|rows| - 1];
            DistinctBelow(rest, |front|) &&
            multiset(Pick(rows, idx)) == multiset(Pick(front, rest)) + multiset{rows[|rows| - 1]}
  {
    var rest := idx[..i] + idx[i + 1..];
    PickSplit(rows, idx, i);
    assert Pick(rows[..|rows| - 1], rest) == Pick(rows, rest);
  }

  /** Rows picked at distinct positions are some of the rows, counting copies. */
  lemma {:induction false} PickedRows<T>(rows: seq<T>, idx: seq<nat>)
    requires DistinctBelow(idx, |rows|)
    ensures multiset(Pick(rows, idx)) <= multiset(rows)
    decreases |rows|
  {
    if idx == [] {
      assert Pick(rows, idx) == [];
    } else {
      assert idx[0] < |rows|;
      var n := |rows| - 1;
      assert rows == rows[..n] + [rows[n]];
      if i :| 0 <= i < |idx| && idx[i] == n {
        PickedWithoutLast(rows, idx, i);
        PickedRows(rows[..n], idx[..i] + idx[i + 1..]);
      } else {
        PickedRows(rows[..n], idx);
        assert Pick(rows[..n], idx) == Pick(rows, idx);
      }
    }
  }

  lemma PickedClasses<T, K>(cls: T -> K, rows: seq<T>, idx: seq<nat>)
    requires DistinctBelow(idx, |rows|)
    ensures multiset(Map(cls, Pick(rows, idx))) <= Classes(cls, rows)
  {
    PickedRows(rows, idx);
    MapMonotone(cls, Pick(rows, idx), rows);
    ClassesIsImage(cls, rows);
  }

  lemma SubBagSize<K>(a: multiset<K>, b: multiset<K>, c: multiset<K>)
    requires a <= b && a <= c
    ensures |a| <= |b * c|
  {
    assert a <= b * c;
    assert b * c == a + (b * c - a);
  }

  /** No pairing whatever has more pairs than the greedy one. */
  lemma GreedyIsMaximum<T(!new), K>(ok: (T, T) -> bool, cls: T -> K, bs: seq<T>, rs: seq<T>, pairs: seq<(nat, nat)>)
    requires ByClass(ok, cls, bs, rs)
    requires IsPairing(ok, bs, rs, pairs)
    ensures |pairs| <= PairCount(Greedy(ok, bs, rs))
  {
    var left: seq<nat> := seq(|pairs|, i requires 0 <= i < |pairs| => pairs[i].0);
    var right: seq<nat> := seq(|pairs|, i requires 0 <= i < |pairs| => pairs[i].1);
    var pb, pr := Map(cls, Pick(bs, left)), Map(cls, Pick(rs, right));
    assert pb == pr by {
      forall i | 0 <= i < |pairs| ensures pb[i] == pr[i] {
        assert ok(bs[pairs[i].0], rs[pairs[i].1]);
        assert bs[pairs[i].0] in bs && rs[pairs[i].1] in rs;
      }
    }
    PickedClasses(cls, bs, left);
    PickedClasses(cls, rs, right);
    SubBagSize(multiset(pb), Classes(cls, bs), Classes(cls, rs));
    GreedyCountsClasses(ok, cls, bs, rs);
  }

  // ---- which row is taken ----

  /** Rust row `j` is acceptable for baseline row `i` and no earlier baseline row has it. */
  ghost predicate IsFree<T>(ok: (T, T) -> bool, bs: seq<T>, rs: seq<T>, m: Matching, i: nat, j: nat)
    requires i < |bs| == |m.partner|
  {
    j < |rs| && ok(bs[i], rs[j]) && forall k :: 0 <= k < i ==> m.partner[k] != j
  }

  /** Row `i` has the first row that is free for it, and none when none is. */
  ghost predicate HasFirstFree<T>(ok: (T, T) -> bool, bs: seq<T>, rs: seq<T>, m: Matching, i: nat)
    requires i < |bs| == |m.partner|
  {
    (m.partner[i] == NO_PARTNER <==> forall j: nat :: !IsFree(ok, bs, rs, m, i, j)) &&
    (m.partner[i] != NO_PARTNER ==>
       m.partner[i] >= 0 && IsFree(ok, bs, rs, m, i, m.partner[i]) &&
       forall j: nat :: j < m.partner[i] ==> !IsFree(ok, bs, rs, m, i, j))
  }

  /** This determines the matching. */
  lemma {:induction false} TakesFirstFree<T>(ok: (T, T) -> bool, bs: seq<T>, rs: seq<T>, i: nat)
    requires i < |bs|
    ensures HasFirstFree(ok, bs, rs, Greedy(ok, bs, rs), i)
    decreases |bs|
  {
    var n := |bs| - 1;
    if i < n {
      TakesFirstFree(ok, bs[..n], rs, i);
      StillFirstFree(ok, bs, rs, i, Greedy(ok, bs[..n], rs), Greedy(ok, bs, rs));
    } else {
      GreedyIsMatching(ok, bs[..n], rs);
      LastTakesFirst(ok, bs, rs, Greedy(ok, bs[..n], rs), Greedy(ok, bs, rs));
    }
  }

  lemma StillFirstFree<T>(ok: (T, T) -> bool, bs: seq<T>, rs: seq<T>, i: nat, before: Matching, m: Matching)
    requires |before.partner| == |bs| - 1 && |m.partner| == |bs| && before.partner <= m.partner
    requires i < |bs| - 1 && HasFirstFree(ok, bs[..|bs| - 1], rs, before, i)
    ensures HasFirstFree(ok, bs, rs, m, i)
  {
    var front := bs[..|bs| - 1];
    assert forall k :: 0 <= k <= i ==> m.partner[k] == before.partner[k];
    assert forall j: nat :: IsFree(ok, bs, rs, m, i, j) <==> IsFree(ok, front, rs, before, i, j);
  }

  lemma LastTakesFirst<T>(ok: (T, T) -> bool, bs: seq<T>, rs: seq<T>, before: Matching, m: Matching)
    requires bs != [] && IsMatching(ok, bs[..|bs| - 1], rs, before)
    requires var j := FirstFree(ok, bs[|bs| - 1], rs, before.used, 0);
             m.partner == before.partner + [if j < |rs| then j else NO_PARTNER]
    ensures HasFirstFree(ok, bs, rs, m, |bs| - 1)
  {
    var n := |bs| - 1;
    assert forall k :: 0 <= k < n ==> m.partner[k] == before.partner[k];
    forall j: nat ensures IsFree(ok, bs, rs, m, n, j) <==> j < |rs| && ok(bs[n], rs[j]) && !before.used[j] {
      UsedIffPaired(ok, bs[..n], rs, before, j);
    }
  }

  lemma UsedIffPaired<T>(ok: (T, T) -> bool, bs: seq<T>, rs: seq<T>, m: Matching, j: nat)
    requires IsMatching(ok, bs, rs, m)
    ensures j < |rs| ==> (m.used[j] <==> exists k :: 0 <= k < |bs| && m.partner[k] == j)
  {
    if j < |rs| && m.used[j] {
      assert j in m.partner;
    }
  }
}
