/** A change journal and the namespace it changes: records are coalesced into one net change per file, and changes
    are applied one after the other.

    A file's parent is looked up when its change is applied. Its place is the directory found then, none when the
    directory is not known yet, and a dead end once that directory is deleted. */
module Journal {
  import opened Seqs
  import opened ParentFirst

  datatype Kind = Created | Deleted | Renamed | SizeChanged | MetadataChanged | Other

  datatype UsnRecord = UsnRecord(frs: nat, parent: nat, name: string, kind: Kind)

  // ---- aggregation ----

  function Fresh(frs: nat): Change { Change(frs, 0, "", false, false, false) }

  function Merge(c: Change, r: UsnRecord): Change {
    var named := c.(parent := r.parent, name := if r.name == "" then c.name else r.name);
    match r.kind
    case Created => named.(created := true, deleted := false, renamed := false)
    case Deleted => named.(deleted := true, created := false, renamed := false)
    case Renamed => named.(renamed := true, deleted := false)
    case _ => named
  }

  /** The records of one file, in time order. */
  function Of(records: seq<UsnRecord>, frs: nat): seq<UsnRecord> { Filter((r: UsnRecord) => r.frs == frs, records) }

  function Net(frs: nat, recs: seq<UsnRecord>): Change {
    if recs == [] then Fresh(frs) else Merge(Net(frs, recs[..|recs| - 1]), recs[|recs| - 1])
  }

  /** The map holds the file's net change, if the records mention it. */
  predicate HoldsNet(records: seq<UsnRecord>, changes: map<nat, Change>, frs: nat) {
    (frs in changes <==> Of(records, frs) != []) && (frs in changes ==> changes[frs] == Net(frs, Of(records, frs)))
  }

  ghost predicate IsAggregate(records: seq<UsnRecord>, changes: map<nat, Change>) {
    forall frs: nat :: HoldsNet(records, changes, frs)
  }

  lemma OfSnoc(records: seq<UsnRecord>, r: UsnRecord, frs: nat)
    ensures Of(records + [r], frs) == Of(records, frs) + if r.frs == frs then [r] else []
  {
    FilterSnoc((x: UsnRecord) => x.frs == frs, records, r);
  }

  lemma NetSnoc(frs: nat, recs: seq<UsnRecord>, r: UsnRecord)
    ensures Net(frs, recs + [r]) == Merge(Net(frs, recs), r)
  {
    assert (recs + [r])[..|recs|] == recs;
  }

  function EntryFor(changes: map<nat, Change>, frs: nat): Change {
    if frs in changes then changes[frs] else Fresh(frs)
  }

  lemma HoldsNext(records: seq<UsnRecord>, changes: map<nat, Change>, r: UsnRecord, frs: nat)
    requires HoldsNet(records, changes, frs)
    ensures HoldsNet(records + [r], changes[r.frs := Merge(EntryFor(changes, r.frs), r)], frs)
  {
    OfSnoc(records, r, frs);
    if r.frs == frs {
      NetSnoc(frs, Of(records, frs), r);
    } else {
      assert Of(records + [r], frs) == Of(records, frs);
    }
  }

  lemma AggregateNext(records: seq<UsnRecord>, changes: map<nat, Change>, r: UsnRecord)
    requires IsAggregate(records, changes)
    ensures IsAggregate(records + [r], changes[r.frs := Merge(EntryFor(changes, r.frs), r)])
  {
    var longer, next := records + [r], changes[r.frs := Merge(EntryFor(changes, r.frs), r)];
    forall frs: nat ensures HoldsNet(longer, next, frs) {
      assert HoldsNet(records, changes, frs);
      HoldsNext(records, changes, r, frs);
    }
  }

  method AggregateChanges(records: seq<UsnRecord>) returns (changes: map<nat, Change>)
    ensures IsAggregate(records, changes)
    ensures forall f: nat :: f in changes ==>
              Of(records, f) != [] && changes[f].parent == Of(records, f)[|Of(records, f)| - 1].parent
  {
    changes := map[];
    for i := 0 to |records|
      invariant IsAggregate(records[..i], changes)
    {
      var r := records[i];
      assert records[..i + 1] == records[..i] + [r];
      AggregateNext(records[..i], changes, r);
      changes := changes[r.frs := Merge(EntryFor(changes, r.frs), r)];
    }
    assert records[..|records|] == records;
    forall f: nat | f in changes
      ensures Of(records, f) != [] && changes[f].parent == Of(records, f)[|Of(records, f)| - 1].parent
    {
      assert HoldsNet(records, changes, f);
      NetParent(f, Of(records, f));
    }
  }

  // ---- applying changes ----

  /** Where a file hangs in the tree: nowhere known, in a directory, or in one that has been deleted. */
  datatype Link = Unknown | In(frs: nat) | Dangling

  datatype Entry = Entry(name: string, link: Link)

  type Names = map<nat, Entry>

  function Get(ns: Names, frs: nat): Option<Entry> { if frs in ns then Some(ns[frs]) else None }

  /** The lookup of a parent. */
  function Resolve(ns: Names, parent: nat): Link { if parent in ns then In(parent) else Unknown }

  /** What becomes of a link when `gone` is deleted. */
  function CutLink(link: Link, gone: nat): Link { if link == In(gone) then Dangling else link }

  function CutEntry(e: Entry, gone: nat): Entry { Entry(e.name, CutLink(e.link, gone)) }

  function Delete(ns: Names, gone: nat): Names {
    map f | f in ns && f != gone :: CutEntry(ns[f], gone)
  }

  /** A create with a name, or a rename with a name of a file that is there. */
  predicate Sets(live: bool, c: Change) {
    !c.deleted && c.name != "" && (c.created || (c.renamed && live))
  }

  function Apply(ns: Names, c: Change): Names {
    if c.deleted then (if c.frs in ns then Delete(ns, c.frs) else ns)
    else if Sets(c.frs in ns, c) then ns[c.frs := Entry(c.name, Resolve(ns, c.parent))]
    else ns
  }

  function ApplyAll(ns: Names, changes: seq<Change>): Names {
    if changes == [] then ns else Apply(ApplyAll(ns, changes[..|changes| - 1]), changes[|changes| - 1])
  }

  /** The dispatch: a net change is a delete, a create or a rename, in this priority. */
  method ApplyChanges(start: Names, changes: seq<Change>) returns (ns: Names)
    ensures ns == ApplyAll(start, changes)
  {
    ns := start;
    for i := 0 to |changes|
      invariant ns == ApplyAll(start, changes[..i])
    {
      var c := changes[i];
      assert changes[..i + 1][..i] == changes[..i];
      if c.deleted {
        if c.frs in ns {
          ns := Delete(ns, c.frs);
        }
      } else if c.created {
        if c.name != "" {
          ns := ns[c.frs := Entry(c.name, Resolve(ns, c.parent))];
        }
      } else if c.renamed {
        if c.frs in ns && c.name != "" {
          ns := ns[c.frs := Entry(c.name, Resolve(ns, c.parent))];
        }
      }
    }
    assert changes[..|changes|] == changes;
  }

  /** Directories that files hang in are there. */
  predicate Closed(ns: Names) { forall f :: f in ns && ns[f].link.In? ==> ns[f].link.frs in ns }

  lemma ApplyKeepsClosed(ns: Names, c: Change)
    requires Closed(ns)
    ensures Closed(Apply(ns, c))
  {
  }

  lemma {:induction false} AllKeepClosed(ns: Names, s: seq<Change>)
    requires Closed(ns)
    ensures Closed(ApplyAll(ns, s))
  {
    if s != [] {
      AllKeepClosed(ns, s[..|s| - 1]);
      ApplyKeepsClosed(ApplyAll(ns, s[..|s| - 1]), s[|s| - 1]);
    }
  }

  // ---- what a sequence of changes leaves, file by file ----

  function NameOf(ns: Names, f: nat): Option<string> { if f in ns then Some(ns[f].name) else None }

  function NameStep(st: Option<string>, c: Change): Option<string> {
    if c.deleted then None else if Sets(st.Some?, c) then Some(c.name) else st
  }

  /** The file's name after the changes, if it is there. */
  function NameAfter(ns: Names, s: seq<Change>, f: nat): Option<string> {
    if s == [] then NameOf(ns, f)
    else
      var st, c := NameAfter(ns, s[..|s| - 1], f), s[|s| - 1];
      if c.frs == f then NameStep(st, c) else st
  }

  predicate Live(ns: Names, s: seq<Change>, f: nat) { NameAfter(ns, s, f).Some? }

  lemma ApplyNames(ns: Names, c: Change, f: nat)
    ensures NameOf(Apply(ns, c), f) == if c.frs == f then NameStep(NameOf(ns, f), c) else NameOf(ns, f)
  {
  }

  lemma {:induction false} NameIsAfter(ns: Names, s: seq<Change>, f: nat)
    ensures NameOf(ApplyAll(ns, s), f) == NameAfter(ns, s, f)
  {
    if s != [] {
      NameIsAfter(ns, s[..|s| - 1], f);
      ApplyNames(ApplyAll(ns, s[..|s| - 1]), s[|s| - 1], f);
    }
  }

  /** The last change that gave the file its name and place, unless it was deleted since. */
  function LastSet(ns: Names, s: seq<Change>, f: nat): (t: Option<nat>)
    ensures t.Some? ==> t.value < |s|
  {
    if s == [] then None
    else
      var n := |s| - 1;
      if s[n].frs == f && s[n].deleted then None
      else if s[n].frs == f && Sets(Live(ns, s[..n], f), s[n]) then Some(n)
      else LastSet(ns, s[..n], f)
  }

  predicate DeletedIn(s: seq<Change>, p: nat) {
    s != [] && ((s[|s| - 1].frs == p && s[|s| - 1].deleted) || DeletedIn(s[..|s| - 1], p))
  }

  /** The place of a file whose parent was known or not when it was looked up, and deleted or not since. */
  function Place(known: bool, gone: bool, p: nat): Link {
    if !known then Unknown else if gone then Dangling else In(p)
  }

  function CutBy(link: Link, s: seq<Change>): Link {
    if link.In? && DeletedIn(s, link.frs) then Dangling else link
  }

  /** The file's place after the changes: who put it there last, was the parent known then, is it gone since. */
  function LinkAfter(ns: Names, s: seq<Change>, f: nat): Link {
    match LastSet(ns, s, f)
    case Some(t) => Place(Live(ns, s[..t], s[t].parent), DeletedIn(s[t..], s[t].parent), s[t].parent)
    case None => if f in ns then CutBy(ns[f].link, s) else Unknown
  }

  /** The last change, seen from the index at which something happened. */
  lemma TailSnoc(s: seq<Change>, t: nat)
    requires t < |s| - 1
    ensures s[..|s| - 1][..t] == s[..t] && s[..|s| - 1][t] == s[t]
    ensures s[t..] != [] && s[t..][..|s[t..]| - 1] == s[..|s| - 1][t..] && s[t..][|s[t..]| - 1] == s[|s| - 1]
  {
  }

  /** A change of another kind or file leaves the place; a delete cuts it off. */
  lemma LinkNext(ns: Names, s: seq<Change>, f: nat)
    requires s != []
    requires var c := s[|s| - 1]; !(c.frs == f && (c.deleted || Sets(Live(ns, s[..|s| - 1], f), c)))
    requires f in ns || LastSet(ns, s[..|s| - 1], f).Some?
    ensures var c, before := s[|s| - 1], LinkAfter(ns, s[..|s| - 1], f);
            LinkAfter(ns, s, f) == if c.deleted then CutLink(before, c.frs) else before
  {
    var n := |s| - 1;
    var last := LastSet(ns, s[..n], f);
    assert LastSet(ns, s, f) == last;
    if last.Some? {
      TailSnoc(s, last.value);
    }
  }

  lemma LinkSet(ns: Names, s: seq<Change>, f: nat)
    requires s != []
    requires var c := s[|s| - 1]; c.frs == f && Sets(Live(ns, s[..|s| - 1], f), c)
    ensures LinkAfter(ns, s, f) == Place(Live(ns, s[..|s| - 1], s[|s| - 1].parent), false, s[|s| - 1].parent)
  {
    var n := |s| - 1;
    assert s[n..] == [s[n]] && [s[n]][..0] == [];
    assert !DeletedIn([s[n]], s[n].parent);
    assert LastSet(ns, s, f) == Some(n);
  }

  lemma {:induction false} SetOrThere(ns: Names, s: seq<Change>, f: nat)
    requires Live(ns, s, f)
    ensures f in ns || LastSet(ns, s, f).Some?
  {
    if s != [] && !(s[|s| - 1].frs == f && Sets(Live(ns, s[..|s| - 1], f), s[|s| - 1])) {
      SetOrThere(ns, s[..|s| - 1], f);
    }
  }

  function EntryAfter(ns: Names, s: seq<Change>, f: nat): Option<Entry> {
    match NameAfter(ns, s, f)
    case None => None
    case Some(name) => Some(Entry(name, LinkAfter(ns, s, f)))
  }

  /** Applying changes leaves for every file exactly what its own changes and those of its parent say. */
  lemma {:induction false} EntryIsAfter(ns: Names, s: seq<Change>, f: nat)
    requires Closed(ns)
    ensures Get(ApplyAll(ns, s), f) == EntryAfter(ns, s, f)
  {
    if s != [] {
      EntryIsAfter(ns, s[..|s| - 1], f);
      EntryNext(ns, s, f);
    }
  }

  /** The last change puts the file somewhere. */
  lemma EntrySet(ns: Names, s: seq<Change>, f: nat)
    requires Closed(ns) && s != [] && s[|s| - 1].frs == f && Sets(Live(ns, s[..|s| - 1], f), s[|s| - 1])
    ensures Get(ApplyAll(ns, s), f) == EntryAfter(ns, s, f)
  {
    var front, c := s[..|s| - 1], s[|s| - 1];
    NameIsAfter(ns, front, f);
    NameIsAfter(ns, s, f);
    LinkSet(ns, s, f);
    NameIsAfter(ns, front, c.parent);
  }

  /** The last change leaves the file where it is. */
  lemma EntryKept(ns: Names, s: seq<Change>, f: nat)
    requires Closed(ns) && s != [] && Live(ns, s[..|s| - 1], f)
    requires var c := s[|s| - 1]; !(c.frs == f && (c.deleted || Sets(Live(ns, s[..|s| - 1], f), c)))
    requires Get(ApplyAll(ns, s[..|s| - 1]), f) == EntryAfter(ns, s[..|s| - 1], f)
    ensures Get(ApplyAll(ns, s), f) == EntryAfter(ns, s, f)
  {
    var front, c := s[..|s| - 1], s[|s| - 1];
    AllKeepClosed(ns, front);
    NameIsAfter(ns, front, f);
    NameIsAfter(ns, front, c.frs);
    NameIsAfter(ns, s, f);
    SetOrThere(ns, front, f);
    LinkNext(ns, s, f);
  }

  lemma EntryNext(ns: Names, s: seq<Change>, f: nat)
    requires Closed(ns) && s != []
    requires Get(ApplyAll(ns, s[..|s| - 1]), f) == EntryAfter(ns, s[..|s| - 1], f)
    ensures Get(ApplyAll(ns, s), f) == EntryAfter(ns, s, f)
  {
    var front, c := s[..|s| - 1], s[|s| - 1];
    NameIsAfter(ns, s, f);
    if c.frs == f && Sets(Live(ns, front, f), c) {
      EntrySet(ns, s, f);
    } else if !(c.frs == f && c.deleted) && Live(ns, front, f) {
      EntryKept(ns, s, f);
    }
  }

  // ---- one record at a time ----

  /** The batch of a single record. */
  function Single(r: UsnRecord): Change { Merge(Fresh(r.frs), r) }

  function Singles(records: seq<UsnRecord>): seq<Change> { Map(Single, records) }

  function Replay(ns: Names, records: seq<UsnRecord>): Names { ApplyAll(ns, Singles(records)) }

  /** The file's name after its own records. */
  function ReplayName(st: Option<string>, recs: seq<UsnRecord>): Option<string> {
    if recs == [] then st else NameStep(ReplayName(st, recs[..|recs| - 1]), Single(recs[|recs| - 1]))
  }

  lemma SingleIsItsOwn(r: UsnRecord)
    ensures Single(r).frs == r.frs
  {
  }

  lemma {:induction false} ReplayNameAt(ns: Names, records: seq<UsnRecord>, f: nat)
    ensures NameAfter(ns, Singles(records), f) == ReplayName(NameOf(ns, f), Of(records, f))
  {
    if records != [] {
      var n := |records| - 1;
      var front, r := records[..n], records[n];
      ReplayNameAt(ns, front, f);
      assert records == front + [r];
      MapSnoc(Single, front, r);
      assert Singles(records)[..n] == Singles(front);
      OfSnoc(front, r, f);
      SingleIsItsOwn(r);
      if r.frs == f {
        assert (Of(front, f) + [r])[..|Of(front, f)|] == Of(front, f);
      } else {
        assert Of(records, f) == Of(front, f);
      }
    }
  }

  // ---- one file: exactly when its net change names it as its records do ----

  predicate IsEvent(r: UsnRecord) { r.kind == Created || r.kind == Deleted || r.kind == Renamed }

  /** The last create, delete or rename. */
  function LastEvent(recs: seq<UsnRecord>): Option<UsnRecord> {
    if recs == [] then None
    else if IsEvent(recs[|recs| - 1]) then Some(recs[|recs| - 1])
    else LastEvent(recs[..|recs| - 1])
  }

  /** A create with no delete after it. */
  predicate CreatedSince(recs: seq<UsnRecord>) {
    recs != [] &&
    (var last := recs[|recs| - 1];
     last.kind == Created || (last.kind != Deleted && CreatedSince(recs[..|recs| - 1])))
  }

  /** A create that carries a name, with no delete after it. */
  predicate NamedCreate(recs: seq<UsnRecord>) {
    recs != [] &&
    (var last := recs[|recs| - 1];
     (last.kind == Created && last.name != "") || (last.kind != Deleted && NamedCreate(recs[..|recs| - 1])))
  }

  predicate DeletedSeen(recs: seq<UsnRecord>) {
    recs != [] && (recs[|recs| - 1].kind == Deleted || DeletedSeen(recs[..|recs| - 1]))
  }

  /** The last name any record carries. */
  function LastName(recs: seq<UsnRecord>): string {
    if recs == [] then ""
    else if recs[|recs| - 1].name != "" then recs[|recs| - 1].name
    else LastName(recs[..|recs| - 1])
  }

  /** The last name a create or rename gave since the last delete. */
  function LastGiven(recs: seq<UsnRecord>): Option<string> {
    if recs == [] then None
    else
      var last := recs[|recs| - 1];
      if last.kind == Deleted then None
      else if (last.kind == Created || last.kind == Renamed) && last.name != "" then Some(last.name)
      else LastGiven(recs[..|recs| - 1])
  }

  lemma {:induction false} NetFacts(frs: nat, recs: seq<UsnRecord>)
    ensures var c := Net(frs, recs);
            (c.deleted <==> LastEvent(recs).Some? && LastEvent(recs).value.kind == Deleted) &&
            (c.created || c.renamed <==> LastEvent(recs).Some? && LastEvent(recs).value.kind != Deleted) &&
            (c.created <==> CreatedSince(recs)) && c.frs == frs && c.name == LastName(recs)
  {
    if recs != [] {
      NetFacts(frs, recs[..|recs| - 1]);
    }
  }

  predicate LiveAfter(live: bool, recs: seq<UsnRecord>) {
    NamedCreate(recs) || (live && !DeletedSeen(recs))
  }

  function GivenOr(st: Option<string>, recs: seq<UsnRecord>): Option<string> {
    if LastGiven(recs).Some? then LastGiven(recs) else st
  }

  lemma {:induction false} ReplayFacts(st: Option<string>, recs: seq<UsnRecord>)
    ensures ReplayName(st, recs) == if LiveAfter(st.Some?, recs) then GivenOr(st, recs) else None
  {
    if recs != [] {
      ReplayFacts(st, recs[..|recs| - 1]);
      CreateGives(recs[..|recs| - 1]);
    }
  }

  lemma {:induction false} CreateGives(recs: seq<UsnRecord>)
    ensures NamedCreate(recs) ==> LastGiven(recs).Some?
  {
    if recs != [] {
      CreateGives(recs[..|recs| - 1]);
    }
  }

  lemma {:induction false} EventFacts(recs: seq<UsnRecord>)
    ensures LastEvent(recs).None? ==> !NamedCreate(recs) && !DeletedSeen(recs) && LastGiven(recs).None?
    ensures LastEvent(recs).Some? && LastEvent(recs).value.kind == Deleted ==> !NamedCreate(recs) && DeletedSeen(recs)
    ensures LastName(recs) == "" ==> !NamedCreate(recs) && LastGiven(recs).None?
  {
    if recs != [] {
      EventFacts(recs[..|recs| - 1]);
    }
  }

  /** The file is there in the end exactly if it was or a create followed its last delete, and then the last name any
      record carries is the last one a create or rename gave it. */
  predicate Coherent(st: Option<string>, recs: seq<UsnRecord>) {
    var e := LastEvent(recs);
    e.None? || e.value.kind == Deleted ||
    (if LastName(recs) == "" then st.None? || !DeletedSeen(recs)
     else (LiveAfter(st.Some?, recs) <==> CreatedSince(recs) || st.Some?) &&
          (LiveAfter(st.Some?, recs) ==> GivenOr(st, recs) == Some(LastName(recs))))
  }

  /** One net change leaves the file, and its name, as its records do one at a time, exactly for coherent records. */
  lemma NetIsReplayIff(st: Option<string>, frs: nat, recs: seq<UsnRecord>)
    ensures NameStep(st, Net(frs, recs)) == ReplayName(st, recs) <==> Coherent(st, recs)
  {
    NetFacts(frs, recs);
    ReplayFacts(st, recs);
    EventFacts(recs);
    CreateGives(recs);
  }

  /** A record of another kind that carries another name, as a new hard link does: in one batch with the create it
      renames the file, in a batch of its own it does not. */
  lemma LaterNameWins(frs: nat, p: nat, q: nat, a: string, b: string)
    requires a != "" && b != "" && a != b
    ensures var records := [UsnRecord(frs, p, a, Created), UsnRecord(frs, q, b, Other)];
            NameStep(None, Net(frs, records)) == Some(b) && ReplayName(None, records) == Some(a)
  {
    var first, second := UsnRecord(frs, p, a, Created), UsnRecord(frs, q, b, Other);
    var records := [first, second];
    assert records[..1] == [first] && [first][..0] == [];
    assert Net(frs, [first]) == Merge(Fresh(frs), first);
    assert ReplayName(None, [first]) == Some(a);
  }

  // ---- what a record says, and where its file ends up ----

  /** A net change carries the parent of the last record. */
  lemma NetParent(frs: nat, recs: seq<UsnRecord>)
    requires recs != []
    ensures Net(frs, recs).parent == recs[|recs| - 1].parent
  {
  }

  /** Record `t` is of this kind and none after it is of a kind that overrides it. */
  predicate Stands(recs: seq<UsnRecord>, kind: Kind, overrides: set<Kind>, t: nat) {
    t < |recs| && recs[t].kind == kind && forall u :: t < u < |recs| ==> recs[u].kind !in overrides
  }

  lemma StandsSnoc(recs: seq<UsnRecord>, r: UsnRecord, kind: Kind, overrides: set<Kind>)
    requires kind !in overrides
    ensures (exists t: nat :: Stands(recs + [r], kind, overrides, t)) <==>
            r.kind == kind || (r.kind !in overrides && exists t: nat :: Stands(recs, kind, overrides, t))
  {
    var longer := recs + [r];
    assert longer[|recs|] == r && forall u :: 0 <= u < |recs| ==> longer[u] == recs[u];
    assert Stands(longer, kind, overrides, |recs|) <==> r.kind == kind;
    assert forall t: nat :: t < |recs| ==>
        (Stands(longer, kind, overrides, t) <==> Stands(recs, kind, overrides, t) && r.kind !in overrides);
  }

  /** Each flag of a net change, by the records: a delete is overridden by a create or rename, a create by a delete, a
      rename by a create or delete; other kinds override nothing. */
  lemma {:induction false} NetFlags(frs: nat, recs: seq<UsnRecord>)
    ensures var c := Net(frs, recs);
            (c.deleted <==> exists t: nat :: Stands(recs, Deleted, {Created, Renamed}, t)) &&
            (c.created <==> exists t: nat :: Stands(recs, Created, {Deleted}, t)) &&
            (c.renamed <==> exists t: nat :: Stands(recs, Renamed, {Created, Deleted}, t))
  {
    if recs != [] {
      var front, r := recs[..|recs| - 1], recs[|recs| - 1];
      NetFlags(frs, front);
      assert recs == front + [r];
      StandsSnoc(front, r, Deleted, {Created, Renamed});
      StandsSnoc(front, r, Created, {Deleted});
      StandsSnoc(front, r, Renamed, {Created, Deleted});
    }
  }

  /** Record `t` carries the name and none after it carries any. */
  predicate NamesLast(recs: seq<UsnRecord>, t: nat) {
    t < |recs| && recs[t].name != "" && forall u :: t < u < |recs| ==> recs[u].name == ""
  }

  /** The name of a net change is the last one any of its records carries. */
  lemma {:induction false} NetName(frs: nat, recs: seq<UsnRecord>, t: nat)
    requires NamesLast(recs, t)
    ensures Net(frs, recs).name == recs[t].name
  {
    if t < |recs| - 1 {
      NetName(frs, recs[..|recs| - 1], t);
    }
  }

  /** A batch of one record says what the record says. */
  lemma SingleSays(r: UsnRecord)
    ensures Single(r).frs == r.frs && Single(r).parent == r.parent && Single(r).name == r.name
    ensures (Single(r).created <==> r.kind == Created) && (Single(r).deleted <==> r.kind == Deleted)
    ensures Single(r).renamed <==> r.kind == Renamed
  {
  }

  /** The file is there after these records, by its own creates and deletes. */
  predicate There(ns: Names, records: seq<UsnRecord>, f: nat) { LiveAfter(f in ns, Of(records, f)) }

  lemma ThereIsLive(ns: Names, records: seq<UsnRecord>, f: nat)
    ensures There(ns, records, f) <==> Live(ns, Singles(records), f)
  {
    ReplayNameAt(ns, records, f);
    ReplayFacts(NameOf(ns, f), Of(records, f));
    CreateGives(Of(records, f));
  }

  lemma DeletedInSnoc(s: seq<Change>, c: Change, p: nat)
    ensures DeletedIn(s + [c], p) <==> DeletedIn(s, p) || (c.frs == p && c.deleted)
  {
    assert (s + [c])[..|s|] == s;
  }

  lemma DeletedSeenSnoc(records: seq<UsnRecord>, r: UsnRecord, p: nat)
    ensures DeletedSeen(Of(records + [r], p)) <==> DeletedSeen(Of(records, p)) || (r.frs == p && r.kind == Deleted)
  {
    OfSnoc(records, r, p);
    var recs := Of(records, p);
    if r.frs == p {
      assert (recs + [r])[..|recs|] == recs;
    } else {
      assert Of(records + [r], p) == recs;
    }
  }

  lemma {:induction false} DeletedSingles(records: seq<UsnRecord>, p: nat)
    ensures DeletedIn(Singles(records), p) <==> DeletedSeen(Of(records, p))
  {
    if records != [] {
      var n := |records| - 1;
      var front, r := records[..n], records[n];
      DeletedSingles(front, p);
      assert records == front + [r] && Singles(records) == Singles(front) + [Single(r)];
      DeletedInSnoc(Singles(front), Single(r), p);
      SingleSays(r);
      DeletedSeenSnoc(front, r, p);
    }
  }

  /** Record `t` gave the file its name and place: it is a create with a name, or a rename with one of a file that was
      there. */
  predicate GivesPlace(ns: Names, records: seq<UsnRecord>, t: nat)
    requires t < |records|
  {
    var r := records[t];
    r.name != "" && (r.kind == Created || (r.kind == Renamed && There(ns, records[..t], r.frs)))
  }

  /** No later record deletes the file or gives it another name and place. */
  predicate LeftAlone(records: seq<UsnRecord>, t: nat)
    requires t < |records|
  {
    forall u :: t < u < |records| && records[u].frs == records[t].frs ==>
      records[u].kind != Deleted && (records[u].name == "" || (records[u].kind != Created && records[u].kind != Renamed))
  }

  /** A change of another file, or one that neither deletes nor names, leaves name and place. */
  lemma KeepsPlace(ns: Names, s: seq<Change>, f: nat)
    requires s != []
    requires var c := s[|s| - 1]; c.frs != f || (!c.deleted && (c.name == "" || (!c.created && !c.renamed)))
    ensures LastSet(ns, s, f) == LastSet(ns, s[..|s| - 1], f) && NameAfter(ns, s, f) == NameAfter(ns, s[..|s| - 1], f)
  {
  }

  lemma {:induction false} PlaceGiven(ns: Names, records: seq<UsnRecord>, t: nat)
    requires t < |records| && GivesPlace(ns, records, t) && LeftAlone(records, t)
    ensures LastSet(ns, Singles(records), records[t].frs) == Some(t)
    ensures NameAfter(ns, Singles(records), records[t].frs) == Some(records[t].name)
  {
    var n := |records| - 1;
    var s, front, r := Singles(records), records[..n], records[n];
    assert s[..n] == Singles(front) && s[n] == Single(r);
    SingleSays(r);
    if t == n {
      ThereIsLive(ns, front, r.frs);
    } else {
      assert front[..t] == records[..t];
      PlaceGiven(ns, front, t);
      KeepsPlace(ns, s, records[t].frs);
    }
  }

  /** After a replay a file that record `t` placed last has that record's name, and hangs in the directory the record
      names exactly when the directory was there then and has not been deleted since. */
  lemma ReplayPlaces(ns: Names, records: seq<UsnRecord>, t: nat)
    requires Closed(ns) && t < |records| && GivesPlace(ns, records, t) && LeftAlone(records, t)
    ensures var r := records[t];
            var known, gone := There(ns, records[..t], r.parent), DeletedSeen(Of(records[t..], r.parent));
            var after := Replay(ns, records);
            r.frs in after && after[r.frs].name == r.name &&
            (after[r.frs].link == In(r.parent) <==> known && !gone) &&
            (after[r.frs].link == Dangling <==> known && gone) &&
            (after[r.frs].link == Unknown <==> !known)
  {
    var s, r := Singles(records), records[t];
    PlaceGiven(ns, records, t);
    EntryIsAfter(ns, s, r.frs);
    assert s[..t] == Singles(records[..t]) && s[t..] == Singles(records[t..]) && s[t] == Single(r);
    SingleSays(r);
    ThereIsLive(ns, records[..t], r.parent);
    DeletedSingles(records[t..], r.parent);
  }

  /** The file is there after the records exactly when some record creates it with a name and none later deletes it, or
      it was there and none deletes it. */
  lemma ReplayThereIff(ns: Names, records: seq<UsnRecord>, f: nat)
    ensures f in Replay(ns, records) <==>
            (exists t: nat :: CreatesLast(records, f, t)) || (f in ns && !DeletesFrom(records, f, 0))
  {
    ThereIsLive(ns, records, f);
    LiveIsIn(ns, Singles(records), f);
    CreatedOrStayed(f in ns, records, f);
  }

  /** Record `t` creates the file with a name, and no later one deletes it. */
  predicate CreatesLast(records: seq<UsnRecord>, f: nat, t: nat) {
    t < |records| && records[t].frs == f && records[t].kind == Created && records[t].name != "" &&
    !DeletesFrom(records, f, t + 1)
  }

  /** Some record from `from` on deletes the file. */
  predicate DeletesFrom(records: seq<UsnRecord>, f: nat, from: nat) {
    exists u: nat :: from <= u < |records| && records[u].frs == f && records[u].kind == Deleted
  }

  lemma LiveIsIn(ns: Names, s: seq<Change>, f: nat)
    ensures Live(ns, s, f) <==> f in ApplyAll(ns, s)
  {
  }

  lemma DeletesSnoc(records: seq<UsnRecord>, r: UsnRecord, f: nat, from: nat)
    requires from <= |records|
    ensures DeletesFrom(records + [r], f, from) <==> DeletesFrom(records, f, from) || (r.frs == f && r.kind == Deleted)
  {
    var longer := records + [r];
    assert longer[|records|] == r && forall u :: 0 <= u < |records| ==> longer[u] == records[u];
  }

  lemma CreatesSnoc(records: seq<UsnRecord>, r: UsnRecord, f: nat)
    ensures (exists t: nat :: CreatesLast(records + [r], f, t)) <==>
            (r.frs == f && r.kind == Created && r.name != "") ||
            ((exists t: nat :: CreatesLast(records, f, t)) && !(r.frs == f && r.kind == Deleted))
  {
    var longer := records + [r];
    assert longer[|records|] == r && forall u :: 0 <= u < |records| ==> longer[u] == records[u];
    forall t: nat | t < |records|
      ensures CreatesLast(longer, f, t) <==> CreatesLast(records, f, t) && !(r.frs == f && r.kind == Deleted)
    {
      DeletesSnoc(records, r, f, t + 1);
    }
    assert CreatesLast(longer, f, |records|) <==> r.frs == f && r.kind == Created && r.name != "";
  }

  lemma {:induction false} CreatedOrStayed(live: bool, records: seq<UsnRecord>, f: nat)
    ensures NamedCreate(Of(records, f)) <==> exists t: nat :: CreatesLast(records, f, t)
    ensures DeletedSeen(Of(records, f)) <==> DeletesFrom(records, f, 0)
    ensures LiveAfter(live, Of(records, f)) <==>
            (exists t: nat :: CreatesLast(records, f, t)) || (live && !DeletesFrom(records, f, 0))
  {
    if records != [] {
      var n := |records| - 1;
      var front, r := records[..n], records[n];
      assert records == front + [r];
      CreatedOrStayed(live, front, f);
      CreatesSnoc(front, r, f);
      DeletesSnoc(front, r, f, 0);
      DeletedSeenSnoc(front, r, f);
      NamedCreateSnoc(front, r, f);
    }
  }

  lemma NamedCreateSnoc(records: seq<UsnRecord>, r: UsnRecord, f: nat)
    ensures NamedCreate(Of(records + [r], f)) <==>
            (r.frs == f && r.kind == Created && r.name != "") ||
            (NamedCreate(Of(records, f)) && !(r.frs == f && r.kind == Deleted))
  {
    OfSnoc(records, r, f);
    var recs := Of(records, f);
    if r.frs == f {
      assert (recs + [r])[..|recs|] == recs;
    } else {
      assert Of(records + [r], f) == recs;
    }
  }

  /** A file that was there and that no record deletes or names keeps its name, and its place unless its directory was
      deleted. */
  lemma ReplayLeavesAlone(ns: Names, records: seq<UsnRecord>, f: nat)
    requires Closed(ns) && f in ns
    requires forall u :: 0 <= u < |records| && records[u].frs == f ==>
               records[u].kind != Deleted && (records[u].name == "" || (records[u].kind != Created && records[u].kind != Renamed))
    ensures var after, link := Replay(ns, records), ns[f].link;
            f in after && after[f].name == ns[f].name &&
            after[f].link == if link.In? && DeletedSeen(Of(records, link.frs)) then Dangling else link
  {
    var s := Singles(records);
    NothingSets(ns, records, f);
    EntryIsAfter(ns, s, f);
    if ns[f].link.In? {
      DeletedSingles(records, ns[f].link.frs);
    }
  }

  lemma {:induction false} NothingSets(ns: Names, records: seq<UsnRecord>, f: nat)
    requires f in ns
    requires forall u :: 0 <= u < |records| && records[u].frs == f ==>
               records[u].kind != Deleted && (records[u].name == "" || (records[u].kind != Created && records[u].kind != Renamed))
    ensures LastSet(ns, Singles(records), f) == None && NameAfter(ns, Singles(records), f) == Some(ns[f].name)
  {
    if records != [] {
      var n := |records| - 1;
      var s := Singles(records);
      NothingSets(ns, records[..n], f);
      assert s[..n] == Singles(records[..n]) && s[n] == Single(records[n]);
      SingleSays(records[n]);
      KeepsPlace(ns, s, f);
    }
  }
}
