/** The records of a drive: slots with a name and a parent slot, and the table from file record numbers to slots.

    A delete empties the slot and unmaps its number; a create appends a slot or, when the number is still mapped,
    overwrites its slot; parents are stored as the slot their number is mapped to at that moment. Seen through the
    table this is the namespace machine. */
module SlotTable {
  import opened Seqs
  import opened ParentFirst
  import opened Journal

  datatype Table = Table(names: seq<string>, parents: seq<Option<nat>>, slotOf: map<nat, nat>)

  /** Every mapped number has a slot of its own, and parents are slots. */
  ghost predicate IsTable(t: Table) {
    |t.names| == |t.parents| &&
    (forall f :: f in t.slotOf ==> t.slotOf[f] < |t.names|) &&
    (forall f, g :: f in t.slotOf && g in t.slotOf && t.slotOf[f] == t.slotOf[g] ==> f == g) &&
    (forall s :: 0 <= s < |t.parents| && t.parents[s].Some? ==> t.parents[s].value < |t.parents|)
  }

  function Lookup(t: Table, f: nat): Option<nat> { if f in t.slotOf then Some(t.slotOf[f]) else None }

  function Clear(t: Table, f: nat, s: nat): Table
    requires |t.names| == |t.parents| && s < |t.names|
  {
    Table(t.names[s := ""], t.parents[s := None], t.slotOf - {f})
  }

  function Overwrite(t: Table, s: nat, c: Change): Table
    requires |t.names| == |t.parents| && s < |t.names|
  {
    Table(t.names[s := c.name], t.parents[s := Lookup(t, c.parent)], t.slotOf)
  }

  function Append(t: Table, c: Change): Table {
    Table(t.names + [c.name], t.parents + [Lookup(t, c.parent)], t.slotOf[c.frs := |t.names|])
  }

  /** The table in the middle of a batch, with the slots to index again and the slots whose postings are stale. */
  datatype Batch = Batch(table: Table, adds: seq<nat>, stale: seq<nat>)

  function ApplyDelete(b: Batch, c: Change): Batch
    requires IsTable(b.table)
  {
    match Lookup(b.table, c.frs)
    case None => b
    case Some(s) => Batch(Clear(b.table, c.frs, s), b.adds, b.stale + [s])
  }

  function ApplyCreate(b: Batch, c: Change): Batch
    requires IsTable(b.table)
  {
    if c.name == "" then b
    else
      match Lookup(b.table, c.frs)
      case None => Batch(Append(b.table, c), b.adds + [|b.table.names|], b.stale)
      case Some(s) => Batch(Overwrite(b.table, s, c), b.adds + [s], b.stale + [s])
  }

  function ApplyRename(b: Batch, c: Change): Batch
    requires IsTable(b.table)
  {
    match Lookup(b.table, c.frs)
    case None => b
    case Some(s) => if c.name == "" then b else Batch(Overwrite(b.table, s, c), b.adds + [s], b.stale + [s])
  }

  function ApplyChange(b: Batch, c: Change): Batch
    requires IsTable(b.table)
  {
    if c.deleted then ApplyDelete(b, c)
    else if c.created then ApplyCreate(b, c)
    else if c.renamed then ApplyRename(b, c)
    else b
  }

  // ---- seen through the table ----

  ghost predicate Owns(slotOf: map<nat, nat>, f: nat, s: nat) { f in slotOf && slotOf[f] == s }

  /** A parent slot stands for the number mapped to it, or for a directory that is gone. */
  ghost function LinkTo(slotOf: map<nat, nat>, parent: Option<nat>): Link {
    if parent.None? then Unknown
    else if f :| Owns(slotOf, f, parent.value) then In(f)
    else Dangling
  }

  ghost function EntryIn(t: Table, f: nat): Entry
    requires IsTable(t) && f in t.slotOf
  {
    Entry(t.names[t.slotOf[f]], LinkTo(t.slotOf, t.parents[t.slotOf[f]]))
  }

  ghost function NamesIn(t: Table): Names
    requires IsTable(t)
  {
    map f | f in t.slotOf :: EntryIn(t, f)
  }

  lemma NamesMatch(t: Table, ns: Names)
    requires IsTable(t) && (forall g: nat :: g in ns <==> g in t.slotOf) && forall g: nat :: g in ns ==> ns[g] == EntryIn(t, g)
    ensures NamesIn(t) == ns
  {
  }

  lemma LinkToOwner(t: Table, f: nat)
    requires IsTable(t) && f in t.slotOf
    ensures LinkTo(t.slotOf, Some(t.slotOf[f])) == In(f)
  {
    assert Owns(t.slotOf, f, t.slotOf[f]);
  }

  lemma LookupResolves(t: Table, p: nat)
    requires IsTable(t)
    ensures LinkTo(t.slotOf, Lookup(t, p)) == Resolve(NamesIn(t), p)
  {
    if p in t.slotOf {
      LinkToOwner(t, p);
    }
  }

  lemma NamesInIsClosed(t: Table)
    requires IsTable(t)
    ensures Closed(NamesIn(t))
  {
  }

  // ---- each step is a step of the namespace ----

  lemma ClearCutsLinks(t: Table, f: nat, s: nat, parent: Option<nat>)
    requires IsTable(t) && Owns(t.slotOf, f, s)
    ensures LinkTo(Clear(t, f, s).slotOf, parent) == CutLink(LinkTo(t.slotOf, parent), f)
  {
    var t' := Clear(t, f, s);
    assert forall g, x :: Owns(t'.slotOf, g, x) <==> Owns(t.slotOf, g, x) && g != f;
    if parent.Some? && LinkTo(t.slotOf, parent).In? {
      var g := LinkTo(t.slotOf, parent).frs;
      assert Owns(t.slotOf, g, parent.value);
      if g != f {
        assert Owns(t'.slotOf, g, parent.value);
      }
    }
  }

  lemma ClearIsTable(t: Table, f: nat, s: nat)
    requires IsTable(t) && Owns(t.slotOf, f, s)
    ensures IsTable(Clear(t, f, s))
  {
  }

  lemma ClearDeletes(t: Table, f: nat, s: nat)
    requires IsTable(t) && Owns(t.slotOf, f, s) && IsTable(Clear(t, f, s))
    ensures NamesIn(Clear(t, f, s)) == Delete(NamesIn(t), f)
  {
    var t' := Clear(t, f, s);
    var ns := Delete(NamesIn(t), f);
    forall g: nat | g in ns ensures ns[g] == EntryIn(t', g) {
      assert t.slotOf[g] != s;
      ClearCutsLinks(t, f, s, t.parents[t.slotOf[g]]);
    }
    NamesMatch(t', ns);
  }

  lemma OverwriteIsTable(t: Table, s: nat, c: Change)
    requires IsTable(t) && s < |t.names|
    ensures IsTable(Overwrite(t, s, c))
  {
  }

  lemma OverwriteSets(t: Table, s: nat, c: Change)
    requires IsTable(t) && Owns(t.slotOf, c.frs, s) && IsTable(Overwrite(t, s, c))
    ensures NamesIn(Overwrite(t, s, c)) == NamesIn(t)[c.frs := Entry(c.name, Resolve(NamesIn(t), c.parent))]
  {
    var t' := Overwrite(t, s, c);
    var ns := NamesIn(t)[c.frs := Entry(c.name, Resolve(NamesIn(t), c.parent))];
    LookupResolves(t, c.parent);
    forall g: nat | g in ns ensures ns[g] == EntryIn(t', g) {
      assert g != c.frs ==> t.slotOf[g] != s;
    }
    NamesMatch(t', ns);
  }

  lemma AppendIsTable(t: Table, c: Change)
    requires IsTable(t) && c.frs !in t.slotOf
    ensures IsTable(Append(t, c))
  {
  }

  lemma AppendKeepsLinks(t: Table, c: Change, parent: Option<nat>)
    requires IsTable(t) && c.frs !in t.slotOf && (parent.Some? ==> parent.value < |t.names|)
    ensures LinkTo(Append(t, c).slotOf, parent) == LinkTo(t.slotOf, parent)
  {
    var t' := Append(t, c);
    assert forall g, x :: Owns(t'.slotOf, g, x) <==> Owns(t.slotOf, g, x) || (g == c.frs && x == |t.names|);
    if parent.Some? && LinkTo(t.slotOf, parent).In? {
      assert Owns(t'.slotOf, LinkTo(t.slotOf, parent).frs, parent.value);
    }
    if parent.Some? && LinkTo(t'.slotOf, parent).In? {
      assert Owns(t.slotOf, LinkTo(t'.slotOf, parent).frs, parent.value);
    }
  }

  lemma AppendedEntry(t: Table, c: Change, g: nat)
    requires IsTable(t) && c.frs !in t.slotOf && IsTable(Append(t, c)) && g in Append(t, c).slotOf
    ensures EntryIn(Append(t, c), g) ==
            if g == c.frs then Entry(c.name, Resolve(NamesIn(t), c.parent)) else EntryIn(t, g)
  {
    if g == c.frs {
      LookupResolves(t, c.parent);
      AppendKeepsLinks(t, c, Lookup(t, c.parent));
    } else {
      AppendKeepsLinks(t, c, t.parents[t.slotOf[g]]);
    }
  }

  lemma AppendSets(t: Table, c: Change)
    requires IsTable(t) && c.frs !in t.slotOf && IsTable(Append(t, c))
    ensures NamesIn(Append(t, c)) == NamesIn(t)[c.frs := Entry(c.name, Resolve(NamesIn(t), c.parent))]
  {
    var ns := NamesIn(t)[c.frs := Entry(c.name, Resolve(NamesIn(t), c.parent))];
    forall g: nat | g in ns ensures ns[g] == EntryIn(Append(t, c), g) {
      AppendedEntry(t, c, g);
    }
    NamesMatch(Append(t, c), ns);
  }

  lemma DeleteIsApplied(b: Batch, c: Change)
    requires IsTable(b.table) && c.deleted
    ensures IsTable(ApplyDelete(b, c).table) && NamesIn(ApplyDelete(b, c).table) == Apply(NamesIn(b.table), c)
  {
    if c.frs in b.table.slotOf {
      ClearIsTable(b.table, c.frs, b.table.slotOf[c.frs]);
      ClearDeletes(b.table, c.frs, b.table.slotOf[c.frs]);
    }
  }

  lemma SetIsApplied(t: Table, c: Change)
    requires IsTable(t) && Sets(c.frs in t.slotOf, c)
    ensures var t' := if c.frs in t.slotOf then Overwrite(t, t.slotOf[c.frs], c) else Append(t, c);
            IsTable(t') && NamesIn(t') == Apply(NamesIn(t), c)
  {
    if c.frs in t.slotOf {
      OverwriteIsTable(t, t.slotOf[c.frs], c);
      OverwriteSets(t, t.slotOf[c.frs], c);
    } else {
      AppendIsTable(t, c);
      AppendSets(t, c);
    }
  }

  /** Changing the slots is changing the namespace. */
  lemma ChangeIsApplied(b: Batch, c: Change)
    requires IsTable(b.table)
    ensures IsTable(ApplyChange(b, c).table) && NamesIn(ApplyChange(b, c).table) == Apply(NamesIn(b.table), c)
  {
    if c.deleted {
      DeleteIsApplied(b, c);
    } else if Sets(c.frs in b.table.slotOf, c) {
      SetIsApplied(b.table, c);
    }
  }

  function ApplyBatch(t: Table, changes: seq<Change>): (b: Batch)
    requires IsTable(t)
    ensures IsTable(b.table)
  {
    if changes == [] then Batch(t, [], [])
    else
      var before := ApplyBatch(t, changes[..|changes| - 1]);
      ChangeIsApplied(before, changes[|changes| - 1]);
      ApplyChange(before, changes[|changes| - 1])
  }

  /** A whole batch on the slots is the batch on the namespace. */
  lemma {:induction false} BatchIsApplied(t: Table, changes: seq<Change>)
    requires IsTable(t)
    ensures NamesIn(ApplyBatch(t, changes).table) == ApplyAll(NamesIn(t), changes)
  {
    if changes != [] {
      BatchIsApplied(t, changes[..|changes| - 1]);
      ChangeIsApplied(ApplyBatch(t, changes[..|changes| - 1]), changes[|changes| - 1]);
    }
  }

  // ---- the batch reports what it changed ----

  /** Every slot that is not as before is stale or new; those still in use are indexed again, and no others. */
  ghost predicate Reported(before: seq<string>, b: Batch) {
    |before| <= |b.table.names| &&
    (forall s :: 0 <= s < |before| && b.table.names[s] != before[s] ==> s in b.stale) &&
    (forall s :: |before| <= s < |b.table.names| && b.table.names[s] != "" ==> s in b.adds) &&
    (forall s :: s in b.stale && s < |b.table.names| && b.table.names[s] != "" ==> s in b.adds) &&
    (forall s :: s in b.adds ==> s in b.stale || s >= |before|)
  }

  lemma ReportedNext(before: seq<string>, b: Batch, c: Change)
    requires IsTable(b.table) && Reported(before, b)
    ensures Reported(before, ApplyChange(b, c))
  {
    var b' := ApplyChange(b, c);
    assert forall s :: s in b.adds ==> s in b'.adds;
    assert forall s :: s in b.stale ==> s in b'.stale;
    if c.frs in b.table.slotOf {
      var s := b.table.slotOf[c.frs];
      assert b'.table.names != b.table.names ==> s in b'.stale && (b'.table.names[s] != "" ==> s in b'.adds);
    } else {
      assert b'.table.names != b.table.names ==> |b.table.names| in b'.adds;
    }
  }

  lemma {:induction false} BatchIsReported(t: Table, changes: seq<Change>)
    requires IsTable(t)
    ensures Reported(t.names, ApplyBatch(t, changes))
  {
    if changes != [] {
      BatchIsReported(t, changes[..|changes| - 1]);
      ReportedNext(t.names, ApplyBatch(t, changes[..|changes| - 1]), changes[|changes| - 1]);
    }
  }

  /** What a change tells the index: a delete that its slot is stale, a create of an unmapped number its new slot, an
      overwrite both, and anything else nothing. */
  lemma ChangeReports(b: Batch, c: Change)
    requires IsTable(b.table)
    ensures var after, known := ApplyChange(b, c), c.frs in b.table.slotOf;
            if c.deleted then
              after.adds == b.adds && after.stale == b.stale + if known then [b.table.slotOf[c.frs]] else []
            else if c.name != "" && known && (c.created || c.renamed) then
              after.adds == b.adds + [b.table.slotOf[c.frs]] && after.stale == b.stale + [b.table.slotOf[c.frs]]
            else if c.name != "" && c.created then
              after.adds == b.adds + [|b.table.names|] && after.stale == b.stale
            else after == b
  {
  }
}
