/** The searchable index of one drive under journal updates: each batch of creates,
    renames and deletes is put parents first, written to the slots and overlaid on
    the index, and compaction folds the overlay into a new base. */
module DriveIndex {
  import opened Seqs
  import opened Postings
  import opened CsrBuild
  import opened CsrSearch
  import opened Overlay
  import opened Trigram
  import opened ParentFirst
  import opened Journal
  import opened SlotTable
  import Patch

  const COMPACT_THRESHOLD := 50_000

  /** The trigrams of every slot's name. */
  function KeyLists(fold: Folding, names: seq<string>): seq<Record> { Map(name => KeysOf(fold, name), names) }

  /** The slot holds a file. */
  function InUse(names: seq<string>): nat -> bool { (s: nat) => s < |names| && names[s] != "" }

  /** What a batch reports about names it reports about trigrams. */
  lemma KeysAreReported(fold: Folding, before: seq<string>, b: Batch)
    requires Reported(before, b)
    ensures Reports(KeyLists(fold, before), KeyLists(fold, b.table.names), b.adds, b.stale)
    ensures LiveIfKeyed(KeyLists(fold, b.table.names), InUse(b.table.names))
  {
    assert KeysOf(fold, "") == [];
  }

  method OverlayBatch(d: Delta, records: seq<Record>, live: nat -> bool, adds: seq<nat>, stale: seq<nat>)
    returns (d': Delta)
    ensures d' == DeltaAfter(d, records, live, adds, stale)
  {
    d' := d;
    for i := 0 to |stale|
      invariant d' == TombstoneAll(d, stale[..i])
    {
      assert stale[..i + 1][..i] == stale[..i];
      d' := Tombstone(d', stale[i]);
    }
    assert stale[..|stale|] == stale;
    ghost var marked := d';
    for i := 0 to |adds|
      invariant d' == AddAll(marked, records, live, adds[..i])
    {
      assert adds[..i + 1][..i] == adds[..i];
      if adds[i] < |records| && live(adds[i]) {
        var keys := Deduplicate(records[adds[i]]);
        d' := AddRecord(d', adds[i], keys);
      }
    }
    assert adds[..|adds|] == adds;
  }

  /** A schedule that runs every chunk. */
  method InOrder(n: nat) returns (schedule: seq<nat>)
    ensures forall c: nat :: c in schedule <==> c < n
  {
    schedule := [];
    for i := 0 to n
      invariant forall c: nat :: c in schedule <==> c < i
    {
      schedule := schedule + [i];
    }
  }

  method BuildIndex(records: seq<Record>) returns (idx: CsrIndex)
    ensures Indexes(idx, records)
  {
    var schedule := InOrder(ChunkCount(|records|));
    idx := Build(records, schedule);
  }

  function Pending(delta: Option<Delta>): nat { if delta.Some? then delta.value.touched else 0 }

  function DeltaOf(delta: Option<Delta>): Delta { if delta.Some? then delta.value else EMPTY_DELTA }

  /** Base and delta together describe the records. */
  ghost predicate Describes(base: seq<Record>, delta: Option<Delta>, records: seq<Record>) {
    match delta
    case None => base == records
    case Some(d) => Overlays(base, d, records)
  }

  lemma DescribesByDelta(base: seq<Record>, delta: Option<Delta>, records: seq<Record>)
    requires Describes(base, delta, records)
    ensures Overlays(base, DeltaOf(delta), records)
  {
  }

  class Drive {
    const fold: Folding
    var table: Table
    var idx: CsrIndex
    var delta: Option<Delta>
    ghost var base: seq<Record>

    ghost predicate Valid()
      reads this
    {
      IsTable(table) && Indexes(idx, base) && Describes(base, delta, KeyLists(fold, table.names))
    }

    /** The candidates of a search in the current state. */
    ghost predicate Finds(needle: seq<Key>, r: nat)
      reads this
    {
      match delta
      case None => IsCandidate(base, needle, r)
      case Some(d) => IsOverlayCandidate(base, d, needle, r)
    }

    constructor (fold: Folding, table: Table)
      requires IsTable(table)
      ensures Valid() && this.fold == fold && this.table == table && delta == None
    {
      var built := BuildIndex(KeyLists(fold, table.names));
      this.fold, this.table, idx, delta, base := fold, table, built, None, KeyLists(fold, table.names);
    }

    method TrigramSearch(needle: seq<Key>) returns (result: seq<nat>)
      requires Valid()
      ensures Ascending(result) && forall r: nat :: r in result <==> Finds(needle, r)
    {
      match delta {
        case None =>
          result := Search(idx, needle, base);
        case Some(d) =>
          result := OverlaySearch(idx, needle, d, base, |table.names|);
      }
    }

    /** Fold everything into a fresh base. */
    method CompactBase()
      requires Valid()
      modifies this
      ensures Valid() && table == old(table) && delta == None
    {
      idx := BuildIndex(KeyLists(fold, table.names));
      delta := None;
      base := KeyLists(fold, table.names);
    }

    /** Overlay the changed slots, or compact when too much is pending. */
    method ApplyIndexDelta(b: Batch) returns (compacted: bool)
      requires Valid() && IsTable(b.table) && Reported(table.names, b)
      modifies this
      ensures Valid() && table == b.table
      ensures compacted <==> (if old(delta).Some? then old(delta).value.touched else 0) + |b.adds| + |b.stale| > 50_000
      ensures delta ==
              if compacted then None
              else Some(DeltaAfter(DeltaOf(old(delta)), KeyLists(fold, b.table.names), InUse(b.table.names), b.adds, b.stale))
    {
      var d, records, live := DeltaOf(delta), KeyLists(fold, b.table.names), InUse(b.table.names);
      KeysAreReported(fold, table.names, b);
      DescribesByDelta(base, delta, KeyLists(fold, table.names));
      OverlayStep(base, d, KeyLists(fold, table.names), records, live, b.adds, b.stale);
      var pending := Pending(delta);
      table := b.table;
      if pending + |b.adds| + |b.stale| > COMPACT_THRESHOLD {
        idx := BuildIndex(records);
        base, delta := records, None;
        return true;
      }
      var d' := OverlayBatch(d, records, live, b.adds, b.stale);
      delta := Some(d');
      return false;
    }

    /** One batch of net changes: parents first, each written to its slot, then the index is told. */
    method ApplyUsnPatch(changes: seq<Change>)
      requires Valid()
      modifies this
      ensures Valid() && table == ApplyBatch(old(table), OrderOf(changes)).table
      ensures NamesIn(table) == ApplyAll(NamesIn(old(table)), OrderOf(changes))
    {
      var order := OrderParentFirst(changes);
      var b := Batch(table, [], []);
      for i := 0 to |order|
        invariant b == ApplyBatch(table, order[..i])
      {
        assert order[..i + 1][..i] == order[..i];
        b := ApplyChange(b, order[i]);
      }
      assert order[..|order|] == order;
      BatchIsReported(table, order);
      BatchIsApplied(table, order);
      var _ := ApplyIndexDelta(b);
    }

    /** One poll of the journal: whatever order the map of changes iterates in, the drive goes on being searchable,
        and where the records agree its names and tree are those of applying the records one at a time. */
    method ApplyJournal(records: seq<UsnRecord>, iteration: map<nat, Change> -> seq<Change>)
      requires Valid() && Patch.IsIteration(iteration)
      modifies this
      ensures Valid()
      ensures (forall f: nat :: Patch.Agrees(NamesIn(old(table)), records, f)) ==>
              NamesIn(table) == Replay(NamesIn(old(table)), records)
    {
      var changes := Patch.ListChanges(records, iteration);
      NamesInIsClosed(table);
      ghost var before := NamesIn(table);
      ApplyUsnPatch(changes);
      if forall f: nat :: Patch.Agrees(before, records, f) {
        Patch.AgreementReplays(before, records, changes);
      }
    }
  }
}
