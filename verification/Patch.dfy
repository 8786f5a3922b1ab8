/** A whole journal patch: the net changes, in whatever order the map of changes iterates, are put parents first and
    applied. Exactly when does this leave the tree that applying the records one at a time leaves? */
module Patch {
  import opened Seqs
  import opened ParentFirst
  import opened Journal

  function NetOf(records: seq<UsnRecord>, f: nat): Change { Net(f, Of(records, f)) }

  // ---- batches ----

  function FrsOf(c: Change): nat { c.frs }

  /** One change per record number. */
  predicate Distinct(batch: seq<Change>) { NoDuplicates(Map(FrsOf, batch)) }

  lemma DistinctPrefix(batch: seq<Change>, i: nat)
    requires Distinct(batch) && i < |batch|
    ensures Distinct(batch[..i]) && forall x :: x in batch[..i] ==> x.frs != batch[i].frs
  {
    var keys := Map(FrsOf, batch);
    assert Map(FrsOf, batch[..i]) == keys[..i];
    forall x | x in batch[..i] ensures x.frs != batch[i].frs {
      var k :| 0 <= k < i && batch[k] == x;
      assert keys[k] != keys[i];
    }
  }

  /** The change is the net change of its file. */
  predicate IsNet(records: seq<UsnRecord>, c: Change) { Of(records, c.frs) != [] && c == NetOf(records, c.frs) }

  /** The batch lists the net changes of the records, each once. */
  ghost predicate IsBatch(records: seq<UsnRecord>, batch: seq<Change>) {
    Distinct(batch) && forall c :: c in batch <==> IsNet(records, c)
  }

  lemma NetOfBatch(records: seq<UsnRecord>, batch: seq<Change>, f: nat)
    requires IsBatch(records, batch)
    ensures NetOf(records, f).frs == f
    ensures NetOf(records, f) in batch <==> Of(records, f) != []
    ensures NetOf(records, f) !in batch ==> NetOf(records, f) == Fresh(f)
    ensures forall c :: c in batch && c.frs == f ==> c == NetOf(records, f)
  {
    NetFacts(f, Of(records, f));
    assert NetOf(records, f) in batch <==> IsNet(records, NetOf(records, f));
    assert forall c :: c in batch ==> IsNet(records, c);
  }

  lemma PermutedIsBatch(records: seq<UsnRecord>, batch: seq<Change>, order: seq<Change>)
    requires IsBatch(records, batch) && multiset(order) == multiset(batch)
    ensures IsBatch(records, order)
  {
    MapMonotone(FrsOf, order, batch);
    MapMonotone(FrsOf, batch, order);
    PermutedNoDuplicates(Map(FrsOf, batch), Map(FrsOf, order));
    forall c ensures c in order <==> c in batch {
      assert c in multiset(order) <==> c in multiset(batch);
    }
  }

  // ---- what applying a batch leaves ----

  /** Each name is set by its own change, once that has been applied. */
  lemma {:induction false} NameInBatch(ns: Names, records: seq<UsnRecord>, batch: seq<Change>, k: nat, f: nat)
    requires IsBatch(records, batch) && k <= |batch|
    ensures NameAfter(ns, batch[..k], f) ==
            if NetOf(records, f) in batch[..k] then NameStep(NameOf(ns, f), NetOf(records, f)) else NameOf(ns, f)
  {
    if k > 0 {
      var c := batch[k - 1];
      NameInBatch(ns, records, batch, k - 1, f);
      assert batch[..k] == batch[..k - 1] + [c];
      assert batch[..k][..k - 1] == batch[..k - 1];
      NetOfBatch(records, batch, f);
      DistinctPrefix(batch, k - 1);
      assert c in batch;
    }
  }

  /** The file is there after the batch. */
  predicate EndsLive(ns: Names, records: seq<UsnRecord>, f: nat) {
    NameStep(NameOf(ns, f), NetOf(records, f)).Some?
  }

  lemma NameAfterBatch(ns: Names, records: seq<UsnRecord>, batch: seq<Change>, f: nat)
    requires IsBatch(records, batch)
    ensures NameAfter(ns, batch, f) == NameStep(NameOf(ns, f), NetOf(records, f))
  {
    NameInBatch(ns, records, batch, |batch|, f);
    assert batch[..|batch|] == batch;
    NetOfBatch(records, batch, f);
  }

  lemma {:induction false} DeletedHasChange(s: seq<Change>, p: nat)
    ensures DeletedIn(s, p) <==> exists c :: c in s && c.frs == p && c.deleted
  {
    if s != [] {
      DeletedHasChange(s[..|s| - 1], p);
      assert s == s[..|s| - 1] + [s[|s| - 1]];
    }
  }

  lemma DeletedInBatch(records: seq<UsnRecord>, batch: seq<Change>, i: nat, p: nat)
    requires IsBatch(records, batch) && i <= |batch|
    ensures DeletedIn(batch[i..], p) <==> NetOf(records, p) in batch[i..] && NetOf(records, p).deleted
  {
    DeletedHasChange(batch[i..], p);
    NetOfBatch(records, batch, p);
    assert forall c :: c in batch[i..] ==> c in batch;
  }

  lemma {:induction false} LastSetInBatch(ns: Names, records: seq<UsnRecord>, batch: seq<Change>, i: nat, k: nat, f: nat)
    requires IsBatch(records, batch) && i < k <= |batch|
    requires batch[i] == NetOf(records, f) && Sets(f in ns, batch[i])
    ensures LastSet(ns, batch[..k], f) == Some(i)
    decreases k
  {
    NetOfBatch(records, batch, f);
    assert batch[..k][..k - 1] == batch[..k - 1];
    DistinctPrefix(batch, k - 1);
    if i == k - 1 {
      NameInBatch(ns, records, batch, i, f);
      assert NetOf(records, f) !in batch[..i];
    } else {
      LastSetInBatch(ns, records, batch, i, k - 1, f);
      assert batch[..k - 1][i] == batch[i];
    }
  }

  lemma {:induction false} NotSetInBatch(ns: Names, records: seq<UsnRecord>, batch: seq<Change>, k: nat, f: nat)
    requires IsBatch(records, batch) && k <= |batch| && !Sets(f in ns, NetOf(records, f))
    ensures LastSet(ns, batch[..k], f).None?
  {
    if k > 0 {
      NotSetInBatch(ns, records, batch, k - 1, f);
      assert batch[..k][..k - 1] == batch[..k - 1];
      NetOfBatch(records, batch, f);
      DistinctPrefix(batch, k - 1);
      NameInBatch(ns, records, batch, k - 1, f);
      assert batch[k - 1] in batch;
    }
  }

  /** The place of a file that the batch sets: was the parent there when its own change came, and is it deleted by a
      later one. */
  lemma LinkInBatch(ns: Names, records: seq<UsnRecord>, batch: seq<Change>, i: nat, f: nat)
    requires IsBatch(records, batch) && i < |batch| && batch[i] == NetOf(records, f) && Sets(f in ns, batch[i])
    ensures var p := batch[i].parent;
            var known := if NetOf(records, p) in batch[..i] then EndsLive(ns, records, p) else p in ns;
            LinkAfter(ns, batch, f) == Place(known, NetOf(records, p) in batch[i..] && NetOf(records, p).deleted, p)
  {
    var p := batch[i].parent;
    assert batch[..|batch|] == batch;
    LastSetInBatch(ns, records, batch, i, |batch|, f);
    NameInBatch(ns, records, batch, i, p);
    DeletedInBatch(records, batch, i, p);
  }

  /** The place of one that it does not set. */
  lemma LinkOffBatch(ns: Names, records: seq<UsnRecord>, batch: seq<Change>, f: nat)
    requires IsBatch(records, batch) && f in ns && !Sets(true, NetOf(records, f))
    ensures LinkAfter(ns, batch, f) == OldLink(records, ns[f].link)
  {
    assert batch[..|batch|] == batch;
    NotSetInBatch(ns, records, batch, |batch|, f);
    if ns[f].link.In? {
      DeletedInBatch(records, batch, 0, ns[f].link.frs);
      assert batch[0..] == batch;
      NetOfBatch(records, batch, ns[f].link.frs);
    }
  }

  function OldLink(records: seq<UsnRecord>, link: Link): Link {
    if link.In? && NetOf(records, link.frs).deleted then Dangling else link
  }

  // ---- the place that does not depend on the order of the batch ----

  /** The file's net change needs a parent that the records create. */
  predicate NeedsCreate(records: seq<UsnRecord>, f: nat) {
    var c := NetOf(records, f);
    (c.created || c.renamed) && c.parent != f && NetOf(records, c.parent).created
  }

  /** Following the parents that the records create comes to an end. */
  predicate ChainEnds(records: seq<UsnRecord>, f: nat, n: nat)
    decreases n
  {
    !NeedsCreate(records, f) || (n > 0 && ChainEnds(records, NetOf(records, f).parent, n - 1))
  }

  /** None when it depends on the order in which the changes come. */
  ghost function SureLink(ns: Names, records: seq<UsnRecord>, f: nat): Option<Link> {
    var c := NetOf(records, f);
    var p := c.parent;
    if !Sets(f in ns, c) then (if f in ns then Some(OldLink(records, ns[f].link)) else Some(Unknown))
    else if p == f then Some(Resolve(ns, f))
    else if NetOf(records, p).deleted then (if p in ns then None else Some(Unknown))
    else if !EndsLive(ns, records, p) then Some(Unknown)
    else if p in ns || (exists n: nat :: ChainEnds(records, f, n)) then Some(In(p))
    else None
  }

  lemma CreatesOfBatch(records: seq<UsnRecord>, batch: seq<Change>, p: nat)
    requires IsBatch(records, batch)
    ensures p in CreatedIn(batch) <==> NetOf(records, p).created
  {
    CreatedHasChange(batch, p);
    NetOfBatch(records, batch, p);
  }

  lemma {:induction false} ChainIsGrounded(records: seq<UsnRecord>, batch: seq<Change>, f: nat, n: nat)
    requires IsBatch(records, batch)
    ensures Grounded(CreatedIn(batch), batch, NetOf(records, f), n) <==> ChainEnds(records, f, n)
    decreases n
  {
    var c := NetOf(records, f);
    NetOfBatch(records, batch, f);
    CreatesOfBatch(records, batch, c.parent);
    assert Depends(CreatedIn(batch), c) <==> NeedsCreate(records, f);
    if NeedsCreate(records, f) && n > 0 {
      NetOfBatch(records, batch, c.parent);
      ChainIsGrounded(records, batch, c.parent, n - 1);
      assert IsParent(NetOf(records, c.parent), c);
    }
  }

  /** In the order computed from any batch, a sure place is the place. */
  lemma SureLinkIsLink(ns: Names, records: seq<UsnRecord>, batch: seq<Change>, f: nat)
    requires IsBatch(records, batch) && EndsLive(ns, records, f) && SureLink(ns, records, f).Some?
    ensures LinkAfter(ns, OrderOf(batch), f) == SureLink(ns, records, f).value
  {
    var order := OrderOf(batch);
    OrderIsPermutation(batch);
    PermutedIsBatch(records, batch, order);
    if !Sets(f in ns, NetOf(records, f)) {
      LinkOffBatch(ns, records, order, f);
    } else {
      SetLinkIsSure(ns, records, batch, f);
    }
  }

  /** A file whose chain of parents ends comes after the create of its parent. */
  lemma AfterItsParent(ns: Names, records: seq<UsnRecord>, batch: seq<Change>, f: nat, n: nat)
    requires IsBatch(records, batch) && IsBatch(records, OrderOf(batch))
    requires NeedsCreate(records, f) && ChainEnds(records, f, n)
    ensures var order, c := OrderOf(batch), NetOf(records, f);
            exists i: nat :: i < |order| && order[i] == c && NetOf(records, c.parent) in order[..i]
  {
    var order, c := OrderOf(batch), NetOf(records, f);
    NetOfBatch(records, batch, f);
    ChainIsGrounded(records, batch, f, n);
    GroundedDoesNotWait(batch, c);
    var i :| 0 <= i < |order| && order[i] == c && !Waits(CreatedIn(batch), order[..i], c);
    CreatesOfBatch(records, batch, c.parent);
    CreatedHasChange(order[..i], c.parent);
    var d :| d in order[..i] && d.created && d.frs == c.parent;
    NetOfBatch(records, order, c.parent);
    assert d in order;
  }

  lemma SetLinkIsSure(ns: Names, records: seq<UsnRecord>, batch: seq<Change>, f: nat)
    requires IsBatch(records, batch) && IsBatch(records, OrderOf(batch))
    requires Sets(f in ns, NetOf(records, f)) && SureLink(ns, records, f).Some?
    ensures LinkAfter(ns, OrderOf(batch), f) == SureLink(ns, records, f).value
  {
    var order, c := OrderOf(batch), NetOf(records, f);
    NetOfBatch(records, order, f);
    assert c in order;
    if c.parent != f && c.parent !in ns && EndsLive(ns, records, c.parent) {
      var n: nat :| ChainEnds(records, f, n);
      AfterItsParent(ns, records, batch, f, n);
      var i: nat :| i < |order| && order[i] == c && NetOf(records, c.parent) in order[..i];
      PlacedAt(ns, records, order, i, f);
    } else {
      var i: nat :| i < |order| && order[i] == c;
      PlacedAt(ns, records, order, i, f);
    }
  }

  lemma PlacedAt(ns: Names, records: seq<UsnRecord>, order: seq<Change>, i: nat, f: nat)
    requires IsBatch(records, order) && i < |order| && order[i] == NetOf(records, f) && Sets(f in ns, order[i])
    requires SureLink(ns, records, f).Some?
    requires var p := order[i].parent;
             p != f && p !in ns && EndsLive(ns, records, p) ==> NetOf(records, p) in order[..i]
    ensures LinkAfter(ns, order, f) == SureLink(ns, records, f).value
  {
    var p := order[i].parent;
    NetOfBatch(records, order, f);
    NetOfBatch(records, order, p);
    DistinctPrefix(order, i);
    LinkInBatch(ns, records, order, i, f);
    assert order == order[..i] + order[i..];
  }

  // ---- where it does depend on it ----

  lemma OneInFront<T>(s: seq<T>, i: nat)
    requires i < |s|
    ensures multiset([s[i]] + Without(s, i)) == multiset(s)
  {
    assert s == s[..i] + [s[i]] + s[i + 1..];
  }

  lemma PutFirst(records: seq<UsnRecord>, batch: seq<Change>, x: Change)
    requires IsBatch(records, batch) && x in batch
    ensures exists other: seq<Change> :: IsBatch(records, other) && other != [] && other[0] == x
  {
    var i :| 0 <= i < |batch| && batch[i] == x;
    var other := [x] + Without(batch, i);
    OneInFront(batch, i);
    PermutedIsBatch(records, batch, other);
  }

  lemma FirstComesBefore(s: seq<Change>, y: Change)
    requires s != [] && y in s && y != s[0]
    ensures ComesBefore(s, s[0], y)
  {
    var j :| 0 <= j < |s| && s[j] == y;
    assert s[0] == s[0] && s[j] == y;
  }

  /** The change of the file and that of its parent keep the order they have in the batch. */
  predicate Unordered(ns: Names, records: seq<UsnRecord>, f: nat) {
    var c := NetOf(records, f);
    Sets(f in ns, c) && c.parent != f &&
    (if NetOf(records, c.parent).deleted then c.parent in ns
     else c.parent !in ns && EndsLive(ns, records, c.parent))
  }

  lemma UnsureIsUnordered(ns: Names, records: seq<UsnRecord>, batch: seq<Change>, f: nat)
    requires IsBatch(records, batch) && SureLink(ns, records, f).None?
    ensures var c := NetOf(records, f);
            var d := NetOf(records, c.parent);
            Unordered(ns, records, f) && c in batch && d in batch && c != d &&
            (ComesBefore(OrderOf(batch), c, d) <==> ComesBefore(batch, c, d)) &&
            (ComesBefore(OrderOf(batch), d, c) <==> ComesBefore(batch, d, c))
  {
    var c := NetOf(records, f);
    var p := c.parent;
    var d := NetOf(records, p);
    NetOfBatch(records, batch, f);
    NetOfBatch(records, batch, p);
    CreatesOfBatch(records, batch, p);
    NetFacts(p, Of(records, p));
    if !d.deleted {
      BothCircular(records, batch, f);
    }
    SameOrderAsBatch(batch, c, d);
    SameOrderAsBatch(batch, d, c);
  }

  lemma BothCircular(records: seq<UsnRecord>, batch: seq<Change>, f: nat)
    requires IsBatch(records, batch) && NeedsCreate(records, f) && forall n: nat :: !ChainEnds(records, f, n)
    ensures !IsGrounded(CreatedIn(batch), batch, NetOf(records, f))
    ensures !IsGrounded(CreatedIn(batch), batch, NetOf(records, NetOf(records, f).parent))
  {
    var p := NetOf(records, f).parent;
    forall n: nat ensures !Grounded(CreatedIn(batch), batch, NetOf(records, f), n) {
      ChainIsGrounded(records, batch, f, n);
    }
    forall n: nat ensures !Grounded(CreatedIn(batch), batch, NetOf(records, p), n) {
      ChainIsGrounded(records, batch, p, n);
      assert !ChainEnds(records, f, n + 1);
    }
  }

  /** With the file's change before its parent's the place is one, after it it is another. */
  lemma PlaceByOrder(ns: Names, records: seq<UsnRecord>, order: seq<Change>, f: nat)
    requires IsBatch(records, order) && Unordered(ns, records, f)
    ensures var c := NetOf(records, f);
            var d := NetOf(records, c.parent);
            (ComesBefore(order, c, d) ==> LinkAfter(ns, order, f) == if d.deleted then Dangling else Unknown) &&
            (ComesBefore(order, d, c) ==> LinkAfter(ns, order, f) == if d.deleted then Unknown else In(c.parent))
  {
    var c := NetOf(records, f);
    var d := NetOf(records, c.parent);
    NetOfBatch(records, order, f);
    NetOfBatch(records, order, c.parent);
    if ComesBefore(order, c, d) {
      var i, j :| 0 <= i < j < |order| && order[i] == c && order[j] == d;
      LinkInBatch(ns, records, order, i, f);
      DistinctPrefix(order, j);
      assert order[i..][j - i] == d;
      assert forall x :: x in order[..i] ==> x in order[..j];
    }
    if ComesBefore(order, d, c) {
      var j, i :| 0 <= j < i < |order| && order[j] == d && order[i] == c;
      LinkInBatch(ns, records, order, i, f);
      assert order[..i][j] == d;
      NotTwice(order, j, i);
    }
  }

  lemma NotTwice(order: seq<Change>, j: nat, i: nat)
    requires Distinct(order) && j < i < |order|
    ensures order[j] !in order[i..]
  {
    var keys := Map(FrsOf, order);
    forall k | 0 <= k < |order[i..]| ensures order[i..][k] != order[j] {
      assert keys[j] != keys[i + k];
    }
  }

  /** A place that is not sure differs between two iterations of the same changes. */
  lemma UnsureDiffers(ns: Names, records: seq<UsnRecord>, batch: seq<Change>, f: nat)
    requires IsBatch(records, batch) && SureLink(ns, records, f).None?
    ensures exists a, b :: IsBatch(records, a) && IsBatch(records, b) &&
                           LinkAfter(ns, OrderOf(a), f) != LinkAfter(ns, OrderOf(b), f)
  {
    var c := NetOf(records, f);
    var d := NetOf(records, c.parent);
    UnsureIsUnordered(ns, records, batch, f);
    PutFirst(records, batch, c);
    var a: seq<Change> :| IsBatch(records, a) && a != [] && a[0] == c;
    PutFirst(records, batch, d);
    var b: seq<Change> :| IsBatch(records, b) && b != [] && b[0] == d;
    LinkInFirst(ns, records, a, f);
    LinkInFirst(ns, records, b, f);
  }

  lemma LinkInFirst(ns: Names, records: seq<UsnRecord>, batch: seq<Change>, f: nat)
    requires IsBatch(records, batch) && SureLink(ns, records, f).None? && batch != []
    ensures var c := NetOf(records, f);
            var d := NetOf(records, c.parent);
            (batch[0] == c ==> LinkAfter(ns, OrderOf(batch), f) == if d.deleted then Dangling else Unknown) &&
            (batch[0] == d ==> LinkAfter(ns, OrderOf(batch), f) == if d.deleted then Unknown else In(c.parent))
  {
    var c := NetOf(records, f);
    var d := NetOf(records, c.parent);
    UnsureIsUnordered(ns, records, batch, f);
    OrderIsPermutation(batch);
    PermutedIsBatch(records, batch, OrderOf(batch));
    PlaceByOrder(ns, records, OrderOf(batch), f);
    if batch[0] == c {
      FirstComesBefore(batch, d);
    }
    if batch[0] == d {
      FirstComesBefore(batch, c);
    }
  }

  // ---- a batch exists ----

  lemma {:induction false} BatchOver(records: seq<UsnRecord>, files: set<nat>)
    requires forall f :: f in files ==> Of(records, f) != []
    ensures exists batch :: Distinct(batch) && forall c :: c in batch <==> IsNet(records, c) && c.frs in files
  {
    if files == {} {
      var batch: seq<Change> := [];
      assert Distinct(batch);
    } else {
      var f :| f in files;
      BatchOver(records, files - {f});
      var rest :| Distinct(rest) && forall c :: c in rest <==> IsNet(records, c) && c.frs in files - {f};
      var batch := rest + [NetOf(records, f)];
      NetFacts(f, Of(records, f));
      MapSnoc(FrsOf, rest, NetOf(records, f));
      forall i | 0 <= i < |rest| ensures rest[i].frs != f {
        assert rest[i] in rest;
      }
      assert Distinct(batch);
    }
  }

  lemma BatchExists(records: seq<UsnRecord>)
    ensures exists batch :: IsBatch(records, batch)
  {
    var files := set r | r in records :: r.frs;
    forall f: nat ensures f in files <==> Of(records, f) != [] {
      FilterMembers((r: UsnRecord) => r.frs == f, records);
      if f in files {
        var r :| r in records && r.frs == f;
        assert r in Of(records, f);
      }
      assert Of(records, f) != [] ==> Of(records, f)[0] in records && Of(records, f)[0].frs == f;
    }
    BatchOver(records, files);
    var batch :| Distinct(batch) && forall c :: c in batch <==> IsNet(records, c) && c.frs in files;
    assert IsBatch(records, batch);
  }

  // ---- the exact condition ----

  /** The records of one file are coherent, and its place is sure and the one the records give it. */
  ghost predicate Agrees(ns: Names, records: seq<UsnRecord>, f: nat) {
    Coherent(NameOf(ns, f), Of(records, f)) &&
    (EndsLive(ns, records, f) ==> SureLink(ns, records, f) == Some(LinkAfter(ns, Singles(records), f)))
  }

  /** Whatever the order in which the map of changes iterates, the patch leaves the tree of the replay. */
  ghost predicate AlwaysReplays(ns: Names, records: seq<UsnRecord>) {
    forall batch :: IsBatch(records, batch) ==> ApplyAll(ns, OrderOf(batch)) == Replay(ns, records)
  }

  lemma SameNames(a: Names, b: Names)
    requires forall f: nat :: Get(a, f) == Get(b, f)
    ensures a == b
  {
    forall f ensures f in a <==> f in b {
      assert Get(a, f) == Get(b, f);
    }
    forall f | f in a ensures a[f] == b[f] {
      assert Get(a, f) == Get(b, f);
    }
  }

  /** The two sides, file by file. */
  lemma SidesAt(ns: Names, records: seq<UsnRecord>, batch: seq<Change>, f: nat)
    requires Closed(ns) && IsBatch(records, batch)
    ensures Get(ApplyAll(ns, OrderOf(batch)), f) == EntryAfter(ns, OrderOf(batch), f)
    ensures Get(Replay(ns, records), f) == EntryAfter(ns, Singles(records), f)
    ensures NameAfter(ns, OrderOf(batch), f) == NameStep(NameOf(ns, f), NetOf(records, f))
    ensures NameAfter(ns, OrderOf(batch), f) == NameAfter(ns, Singles(records), f) <==>
            Coherent(NameOf(ns, f), Of(records, f))
  {
    OrderIsPermutation(batch);
    PermutedIsBatch(records, batch, OrderOf(batch));
    EntryIsAfter(ns, OrderOf(batch), f);
    EntryIsAfter(ns, Singles(records), f);
    NameAfterBatch(ns, records, OrderOf(batch), f);
    ReplayNameAt(ns, records, f);
    NetIsReplayIff(NameOf(ns, f), f, Of(records, f));
  }

  lemma AgreementReplays(ns: Names, records: seq<UsnRecord>, batch: seq<Change>)
    requires Closed(ns) && IsBatch(records, batch) && forall f: nat :: Agrees(ns, records, f)
    ensures ApplyAll(ns, OrderOf(batch)) == Replay(ns, records)
  {
    forall f: nat ensures Get(ApplyAll(ns, OrderOf(batch)), f) == Get(Replay(ns, records), f) {
      SidesAt(ns, records, batch, f);
      assert Agrees(ns, records, f);
      if EndsLive(ns, records, f) {
        SureLinkIsLink(ns, records, batch, f);
      }
    }
    SameNames(ApplyAll(ns, OrderOf(batch)), Replay(ns, records));
  }

  lemma ReplayAgrees(ns: Names, records: seq<UsnRecord>, f: nat)
    requires Closed(ns) && AlwaysReplays(ns, records)
    ensures Agrees(ns, records, f)
  {
    BatchExists(records);
    var batch :| IsBatch(records, batch);
    SidesAt(ns, records, batch, f);
    if EndsLive(ns, records, f) {
      if SureLink(ns, records, f).None? {
        UnsureDiffers(ns, records, batch, f);
        var a, b :| IsBatch(records, a) && IsBatch(records, b) &&
                    LinkAfter(ns, OrderOf(a), f) != LinkAfter(ns, OrderOf(b), f);
        SidesAt(ns, records, a, f);
        SidesAt(ns, records, b, f);
        assert false;
      } else {
        SureLinkIsLink(ns, records, batch, f);
      }
    }
  }

  /** Coalescing, reordering and applying a batch leaves names and tree as applying its records one at a time, for
      every order in which the changes may come, if and only if the records of every file are coherent and every
      place is sure and the one the records give. */
  lemma PatchIsReplayIff(ns: Names, records: seq<UsnRecord>)
    requires Closed(ns)
    ensures AlwaysReplays(ns, records) <==> forall f: nat :: Agrees(ns, records, f)
  {
    if AlwaysReplays(ns, records) {
      forall f: nat ensures Agrees(ns, records, f) {
        ReplayAgrees(ns, records, f);
      }
    }
    if forall f: nat :: Agrees(ns, records, f) {
      forall batch | IsBatch(records, batch) ensures ApplyAll(ns, OrderOf(batch)) == Replay(ns, records) {
        AgreementReplays(ns, records, batch);
      }
    }
  }

  // ---- journals as a file system writes them ----

  /** The file's last record agrees with its last create or rename, and the directory named then was there and has not
      been deleted since; a directory deleted under a file that the journal does not move is not created again. */
  predicate IsOrdinary(ns: Names, records: seq<UsnRecord>, f: nat) {
    var s, c := Singles(records), NetOf(records, f);
    Coherent(NameOf(ns, f), Of(records, f)) &&
    (EndsLive(ns, records, f) ==>
       if Sets(f in ns, c) then
         var t := LastSet(ns, s, f);
         t.Some? && c.parent != f && s[t.value].parent == c.parent &&
         Live(ns, s[..t.value], c.parent) && !DeletedIn(s[t.value..], c.parent)
       else
         f in ns && LastSet(ns, s, f).None? &&
         (ns[f].link.In? ==> (DeletedIn(s, ns[f].link.frs) ==> NetOf(records, ns[f].link.frs).deleted)))
  }

  lemma {:induction false} StaysLive(ns: Names, s: seq<Change>, t: nat, p: nat)
    requires t <= |s| && Live(ns, s[..t], p) && !DeletedIn(s[t..], p)
    ensures Live(ns, s, p)
    decreases |s|
  {
    if t == |s| {
      assert s[..t] == s;
    } else {
      var n := |s| - 1;
      assert s[..n][..t] == s[..t];
      assert s[t..][..|s[t..]| - 1] == s[..n][t..] && s[t..][|s[t..]| - 1] == s[n];
      StaysLive(ns, s[..n], t, p);
    }
  }

  lemma {:induction false} DeletedRecord(records: seq<UsnRecord>, f: nat)
    requires NetOf(records, f).deleted
    ensures DeletedIn(Singles(records), f)
  {
    NetFacts(f, Of(records, f));
    LastEventIsRecord(Of(records, f));
    var r := LastEvent(Of(records, f)).value;
    FilterMembers((x: UsnRecord) => x.frs == f, records);
    var i :| 0 <= i < |records| && records[i] == r;
    assert Singles(records)[i] == Single(r) && Single(r).deleted && Single(r).frs == f;
    DeletedHasChange(Singles(records), f);
  }

  lemma {:induction false} LastEventIsRecord(recs: seq<UsnRecord>)
    ensures LastEvent(recs).Some? ==> LastEvent(recs).value in recs
  {
    if recs != [] {
      LastEventIsRecord(recs[..|recs| - 1]);
    }
  }

  lemma {:induction false} DeepChainEnds(records: seq<UsnRecord>, depth: nat -> nat, f: nat)
    requires forall g: nat :: NeedsCreate(records, g) ==> depth(NetOf(records, g).parent) < depth(g)
    ensures ChainEnds(records, f, depth(f))
    decreases depth(f)
  {
    if NeedsCreate(records, f) {
      var p := NetOf(records, f).parent;
      DeepChainEnds(records, depth, p);
      LongerChainEnds(records, p, depth(p), depth(f) - 1);
    }
  }

  lemma {:induction false} LongerChainEnds(records: seq<UsnRecord>, f: nat, m: nat, n: nat)
    requires ChainEnds(records, f, m) && m <= n
    ensures ChainEnds(records, f, n)
    decreases m
  {
    if NeedsCreate(records, f) {
      LongerChainEnds(records, NetOf(records, f).parent, m - 1, n - 1);
    }
  }

  lemma OrdinaryAgrees(ns: Names, records: seq<UsnRecord>, depth: nat -> nat, f: nat)
    requires Closed(ns) && forall g: nat :: IsOrdinary(ns, records, g)
    requires forall g: nat :: NeedsCreate(records, g) ==> depth(NetOf(records, g).parent) < depth(g)
    ensures Agrees(ns, records, f)
  {
    assert IsOrdinary(ns, records, f);
    if EndsLive(ns, records, f) {
      var s, c := Singles(records), NetOf(records, f);
      if Sets(f in ns, c) {
        StaysLive(ns, s, LastSet(ns, s, f).value, c.parent);
        assert IsOrdinary(ns, records, c.parent);
        ReplayNameAt(ns, records, c.parent);
        NetIsReplayIff(NameOf(ns, c.parent), c.parent, Of(records, c.parent));
        DeepChainEnds(records, depth, f);
      } else if ns[f].link.In? && NetOf(records, ns[f].link.frs).deleted {
        DeletedRecord(records, ns[f].link.frs);
      }
    }
  }

  /** For such a journal of a directory tree the patch is the replay, whatever the order of the changes. */
  lemma OrdinaryPatchIsReplay(ns: Names, records: seq<UsnRecord>, depth: nat -> nat, batch: seq<Change>)
    requires Closed(ns) && IsBatch(records, batch) && forall f: nat :: IsOrdinary(ns, records, f)
    requires forall f: nat :: NeedsCreate(records, f) ==> depth(NetOf(records, f).parent) < depth(f)
    ensures ApplyAll(ns, OrderOf(batch)) == Replay(ns, records)
  {
    forall f: nat ensures Agrees(ns, records, f) {
      OrdinaryAgrees(ns, records, depth, f);
    }
    AgreementReplays(ns, records, batch);
  }

  // ---- the order of application matters ----

  /** A directory and a file in it, created in one batch: applied as they come, the file first, its place is unknown;
      replayed, or put parents first, it is in the directory. */
  lemma UnorderedLosesParent(dir: nat, file: nat, root: nat, a: string, b: string)
    requires dir != file && dir != root && file != root && a != "" && b != ""
    ensures var records := [UsnRecord(dir, root, a, Created), UsnRecord(file, dir, b, Created)];
            var first, second := Single(records[1]), Single(records[0]);
            Get(ApplyAll(map[], [first, second]), file) == Some(Entry(b, Unknown)) &&
            Get(Replay(map[], records), file) == Some(Entry(b, In(dir))) &&
            OrderOf([first, second]) == [second, first]
  {
    var d, f := UsnRecord(dir, root, a, Created), UsnRecord(file, dir, b, Created);
    var x, y := Single(f), Single(d);
    assert Singles([d, f]) == [y, x];
    TwoApplied(map[], x, y);
    TwoApplied(map[], y, x);
    TwoOrdered(x, y);
  }

  lemma TwoApplied(ns: Names, x: Change, y: Change)
    ensures ApplyAll(ns, [x, y]) == Apply(Apply(ns, x), y)
  {
    assert [x, y][..1] == [x] && [x][..0] == [];
    assert ApplyAll(ns, [x]) == Apply(ns, x);
  }

  lemma TwoOrdered(x: Change, y: Change)
    requires x.created && y.created && x.parent == y.frs && x.frs != y.frs && y.parent != y.frs && y.parent != x.frs
    ensures OrderOf([x, y]) == [y, x]
  {
    var creates := CreatedIn([x, y]);
    assert [] + [x] == [x] && [] + [y] == [y] && [x] + [y] == [x, y] && [y] + [x] == [y, x];
    CreatedSnoc([], x);
    CreatedSnoc([], y);
    CreatedSnoc([x], y);
    PassSnoc(creates, [], [], x);
    PassSnoc(creates, [], [x], y);
    OneReleased(creates, [y], x);
  }

  // ---- the program ----

  /** Every change is stored under its own record number. */
  predicate Keyed(changes: map<nat, Change>) { forall frs :: frs in changes ==> changes[frs].frs == frs }

  /** An iteration over the map: every value once, in some order. */
  ghost predicate Iterates(changes: map<nat, Change>, batch: seq<Change>) {
    Distinct(batch) && forall c :: c in batch <==> c.frs in changes && changes[c.frs] == c
  }

  lemma AggregateIsKeyed(records: seq<UsnRecord>, changes: map<nat, Change>)
    requires IsAggregate(records, changes)
    ensures Keyed(changes)
  {
    forall frs | frs in changes ensures changes[frs].frs == frs {
      assert HoldsNet(records, changes, frs);
      NetFacts(frs, Of(records, frs));
    }
  }

  lemma IterationIsBatch(records: seq<UsnRecord>, changes: map<nat, Change>, batch: seq<Change>)
    requires IsAggregate(records, changes) && Iterates(changes, batch)
    ensures IsBatch(records, batch)
  {
    forall c ensures c in batch <==> IsNet(records, c) {
      assert HoldsNet(records, changes, c.frs);
    }
  }

  /** Iteration over a hash map. */
  ghost predicate IsIteration(iteration: map<nat, Change> -> seq<Change>) {
    forall changes :: Keyed(changes) ==> Iterates(changes, iteration(changes))
  }

  /** Aggregate, and iterate over the map in whatever order it has. */
  method ListChanges(records: seq<UsnRecord>, iteration: map<nat, Change> -> seq<Change>) returns (batch: seq<Change>)
    requires IsIteration(iteration)
    ensures IsBatch(records, batch)
  {
    var changes := AggregateChanges(records);
    AggregateIsKeyed(records, changes);
    batch := iteration(changes);
    IterationIsBatch(records, changes, batch);
  }
}
