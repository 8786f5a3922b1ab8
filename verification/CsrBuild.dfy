/** Building the trigram index: a two-pass counting sort over chunks of records.

    Pass 1 counts keys per chunk; frequent keys are pruned; a prefix sum lays out
    one region per kept key; pass 2 lets every chunk write its records into its
    own part of each region. The chunks may finish in any order. */
module CsrBuild {
  import opened Seqs
  import opened Postings

  /** Sorted keys, region starts, and all posting lists one after the other. */
  datatype CsrIndex = CsrIndex(keys: seq<Key>, offsets: seq<nat>, values: seq<nat>)

  /** Region `k` holds the posting list of key `k`. */
  predicate RegionIs(idx: CsrIndex, records: seq<Record>, k: nat) {
    k < |idx.keys| && k + 1 < |idx.offsets| &&
    idx.offsets[k] <= idx.offsets[k + 1] <= |idx.values| &&
    idx.values[idx.offsets[k]..idx.offsets[k + 1]] == PostingList(records, idx.keys[k])
  }

  /** The index of the given records: exactly the kept keys, each with its posting list. */
  ghost predicate Indexes(idx: CsrIndex, records: seq<Record>) {
    Ascending(idx.keys) && |idx.offsets| == |idx.keys| + 1 &&
    (forall t :: t in idx.keys <==> Kept(records, t)) &&
    (forall k :: 0 <= k < |idx.keys| ==> RegionIs(idx, records, k))
  }

  const CHUNK_SIZE := 65536

  /** Where chunk `c` of `n` records starts. */
  function ChunkStart(n: nat, c: nat): (r: nat)
    ensures r <= n
  {
    if c * CHUNK_SIZE < n then c * CHUNK_SIZE else n
  }

  function ChunkCount(n: nat): nat { (n + CHUNK_SIZE - 1) / CHUNK_SIZE }

  lemma ChunksCover(n: nat)
    ensures ChunkStart(n, 0) == 0 && ChunkStart(n, ChunkCount(n)) == n
    ensures forall c :: 0 <= c < ChunkCount(n) ==> ChunkStart(n, c) <= ChunkStart(n, c + 1)
  {
  }

  // ---- pass 1: counting ----

  type Counts = map<Key, nat>

  function Tally(counts: Counts, t: Key): nat {
    if t in counts then counts[t] else 0
  }

  method CountKeys(counts: Counts, keys: seq<Key>) returns (next: Counts)
    requires NoDuplicates(keys)
    ensures forall t :: Tally(next, t) == Tally(counts, t) + if t in keys then 1 else 0
  {
    next := counts;
    for q := 0 to |keys|
      invariant forall t :: Tally(next, t) == Tally(counts, t) + if t in keys[..q] then 1 else 0
    {
      assert keys[..q + 1] == keys[..q] + [keys[q]];
      next := next[keys[q] := Tally(next, keys[q]) + 1];
    }
    assert keys[..|keys|] == keys;
  }

  /** The counts of the records from `lo` up to `hi`. */
  ghost predicate CountsRange(counts: Counts, records: seq<Record>, lo: nat, hi: nat) {
    lo <= hi <= |records| && forall t :: Rank(records, lo, t) + Tally(counts, t) == Rank(records, hi, t)
  }

  method CountChunk(records: seq<Record>, lo: nat, hi: nat) returns (counts: Counts)
    requires lo <= hi <= |records|
    ensures CountsRange(counts, records, lo, hi)
  {
    counts := map[];
    for r := lo to hi
      invariant CountsRange(counts, records, lo, r)
    {
      var keys := Deduplicate(records[r]);
      counts := CountKeys(counts, keys);
    }
  }

  ghost predicate CountsChunks(chunks: seq<Counts>, records: seq<Record>) {
    forall c :: 0 <= c < |chunks| ==>
      CountsRange(chunks[c], records, ChunkStart(|records|, c), ChunkStart(|records|, c + 1))
  }

  method CountChunks(records: seq<Record>) returns (chunks: seq<Counts>)
    ensures |chunks| == ChunkCount(|records|) && CountsChunks(chunks, records)
  {
    chunks := [];
    ChunksCover(|records|);
    for c := 0 to ChunkCount(|records|)
      invariant |chunks| == c && CountsChunks(chunks, records)
    {
      var counts := CountChunk(records, ChunkStart(|records|, c), ChunkStart(|records|, c + 1));
      chunks := chunks + [counts];
    }
  }

  method AddCounts(counts: Counts, chunk: Counts) returns (sum: Counts)
    ensures forall t :: Tally(sum, t) == Tally(counts, t) + Tally(chunk, t)
  {
    sum := counts;
    var rest := chunk.Keys;
    while rest != {}
      invariant rest <= chunk.Keys
      invariant forall t :: Tally(sum, t) == Tally(counts, t) + if t in chunk && t !in rest then chunk[t] else 0
    {
      var t :| t in rest;
      sum := sum[t := Tally(sum, t) + chunk[t]];
      rest := rest - {t};
    }
  }

  method MergeCounts(chunks: seq<Counts>, ghost records: seq<Record>) returns (counts: Counts)
    requires |chunks| == ChunkCount(|records|) && CountsChunks(chunks, records)
    ensures forall t :: Tally(counts, t) == Frequency(records, t)
  {
    counts := map[];
    ChunksCover(|records|);
    for c := 0 to |chunks|
      invariant forall t :: Tally(counts, t) == Rank(records, ChunkStart(|records|, c), t)
    {
      counts := AddCounts(counts, chunks[c]);
    }
  }

  // ---- layout ----

  method InsertKey(keys: seq<Key>, t: Key) returns (r: seq<Key>)
    requires Ascending(keys) && t !in keys
    ensures Ascending(r) && forall x :: x in r <==> x == t || x in keys
  {
    if keys == [] || keys[|keys| - 1] < t {
      r := keys + [t];
      assert r[..|keys|] == keys;
    } else {
      var n := |keys| - 1;
      var front := InsertKey(keys[..n], t);
      r := front + [keys[n]];
      assert r[..|front|] == front && keys == keys[..n] + [keys[n]];
      var last := front[|front| - 1];
      assert last in front;
      if last != t {
        var i :| 0 <= i < n && keys[i] == last;
        AscendingPair(keys, i, n);
      }
    }
  }

  method SortKeys(keys: set<Key>) returns (sorted: seq<Key>)
    ensures Ascending(sorted) && forall t :: t in sorted <==> t in keys
  {
    sorted := [];
    var rest := keys;
    while rest != {}
      invariant rest <= keys && Ascending(sorted)
      invariant forall t :: t in sorted <==> t in keys && t !in rest
    {
      var t :| t in rest;
      sorted := InsertKey(sorted, t);
      rest := rest - {t};
    }
  }

  /** One region per key, as long as the key is frequent. */
  ghost predicate Layout(records: seq<Record>, keys: seq<Key>, offsets: seq<nat>) {
    |offsets| == |keys| + 1 && offsets[0] == 0 && Ascending(keys) &&
    forall k :: 0 <= k < |keys| ==> offsets[k + 1] == offsets[k] + Frequency(records, keys[k])
  }

  ghost predicate LutFor(lut: map<Key, nat>, keys: seq<Key>) {
    (forall t :: t in lut <==> t in keys) &&
    (forall t :: t in lut ==> lut[t] < |keys| && keys[lut[t]] == t)
  }

  /** The regions of the first `n` keys. */
  ghost predicate Regions(records: seq<Record>, keys: seq<Key>, offsets: seq<nat>, n: nat) {
    n <= |keys| && |offsets| == n + 1 && offsets[0] == 0 &&
    forall k :: 0 <= k < n ==> offsets[k + 1] == offsets[k] + Frequency(records, keys[k])
  }

  lemma RegionsNext(records: seq<Record>, keys: seq<Key>, offsets: seq<nat>, n: nat)
    requires Regions(records, keys, offsets, n) && n < |keys|
    ensures Regions(records, keys, offsets + [offsets[n] + Frequency(records, keys[n])], n + 1)
  {
  }

  lemma LutNext(lut: map<Key, nat>, keys: seq<Key>, t: Key)
    requires LutFor(lut, keys)
    ensures LutFor(lut[t := |keys|], keys + [t])
  {
  }

  method LayOut(keys: seq<Key>, counts: Counts, ghost records: seq<Record>)
    returns (offsets: seq<nat>, lut: map<Key, nat>)
    requires Ascending(keys)
    requires forall t :: t in keys ==> Tally(counts, t) == Frequency(records, t)
    ensures Layout(records, keys, offsets) && LutFor(lut, keys)
  {
    offsets, lut := [0], map[];
    for k := 0 to |keys|
      invariant Regions(records, keys, offsets, k) && LutFor(lut, keys[..k])
    {
      RegionsNext(records, keys, offsets, k);
      LutNext(lut, keys[..k], keys[k]);
      assert keys[..k + 1] == keys[..k] + [keys[k]];
      offsets := offsets + [offsets[k] + Tally(counts, keys[k])];
      lut := lut[keys[k] := k];
    }
    assert keys[..|keys|] == keys;
  }

  // ---- pass 2: the places ----

  /** The place of record `r` in the region of key number `k`. */
  ghost function Place(records: seq<Record>, keys: seq<Key>, offsets: seq<nat>, k: nat, r: nat): nat
    requires |offsets| == |keys| + 1 && k < |keys| && r <= |records|
  {
    offsets[k] + Rank(records, r, keys[k])
  }

  /** Record `r` has key number `k`. */
  ghost predicate Posts(records: seq<Record>, keys: seq<Key>, k: int, r: int) {
    0 <= k < |keys| && 0 <= r < |records| && keys[k] in records[r]
  }

  lemma {:induction false} OffsetsMonotone(records: seq<Record>, keys: seq<Key>, offsets: seq<nat>, i: nat, j: nat)
    requires Layout(records, keys, offsets) && i <= j < |offsets|
    ensures offsets[i] <= offsets[j]
  {
    if i < j {
      OffsetsMonotone(records, keys, offsets, i, j - 1);
    }
  }

  lemma PlaceInRegion(records: seq<Record>, keys: seq<Key>, offsets: seq<nat>, k: nat, r: nat)
    requires Layout(records, keys, offsets) && Posts(records, keys, k, r)
    ensures offsets[k] <= Place(records, keys, offsets, k, r) < offsets[k + 1] <= offsets[|keys|]
  {
    RankMonotone(records, r, |records|, keys[k]);
    OffsetsMonotone(records, keys, offsets, k + 1, |keys|);
  }

  /** No two postings share a place, so writes of different chunks never meet. */
  lemma PlacesDiffer(records: seq<Record>, keys: seq<Key>, offsets: seq<nat>, k: nat, r: nat, k': nat, r': nat)
    requires Layout(records, keys, offsets) && Posts(records, keys, k, r) && Posts(records, keys, k', r')
    requires k != k' || r != r'
    ensures Place(records, keys, offsets, k, r) != Place(records, keys, offsets, k', r')
  {
    PlaceInRegion(records, keys, offsets, k, r);
    PlaceInRegion(records, keys, offsets, k', r');
    if k < k' {
      OffsetsMonotone(records, keys, offsets, k + 1, k');
    } else if k' < k {
      OffsetsMonotone(records, keys, offsets, k' + 1, k);
    } else if r < r' {
      RankMonotone(records, r, r', keys[k]);
    } else {
      RankMonotone(records, r', r, keys[k]);
    }
  }

  /** Writing one posting leaves every other posting alone. */
  lemma WriteKeepsOthers(values: seq<nat>, records: seq<Record>, keys: seq<Key>, offsets: seq<nat>, k: nat, r: nat)
    requires Layout(records, keys, offsets) && Posts(records, keys, k, r) && |values| == offsets[|keys|]
    ensures var p := Place(records, keys, offsets, k, r);
            p < |values| &&
            forall k', r' :: Posts(records, keys, k', r') && (k' != k || r' != r) ==>
              Place(records, keys, offsets, k', r') < |values| &&
              values[p := r][Place(records, keys, offsets, k', r')] == values[Place(records, keys, offsets, k', r')]
  {
    PlaceInRegion(records, keys, offsets, k, r);
    forall k', r' | Posts(records, keys, k', r') && (k' != k || r' != r)
      ensures Place(records, keys, offsets, k', r') < |values| &&
              Place(records, keys, offsets, k', r') != Place(records, keys, offsets, k, r)
    {
      PlaceInRegion(records, keys, offsets, k', r');
      PlacesDiffer(records, keys, offsets, k, r, k', r');
    }
  }

  // ---- pass 2: the writes ----

  /** The postings of record `r` for the keys in `done` are written, all others are as before. */
  ghost predicate WroteRecord(
    before: seq<nat>, after: seq<nat>, records: seq<Record>, keys: seq<Key>, offsets: seq<nat>, r: nat, done: seq<Key>)
    requires |offsets| == |keys| + 1
  {
    |after| == |before| &&
    forall k, r' :: Posts(records, keys, k, r') && Place(records, keys, offsets, k, r') < |before| ==>
      after[Place(records, keys, offsets, k, r')] ==
      if r' == r && keys[k] in done then r else before[Place(records, keys, offsets, k, r')]
  }

  /** Next write position of every key after the keys in `done` of record `r`. */
  ghost predicate Positions(
    pos: seq<nat>, records: seq<Record>, keys: seq<Key>, offsets: seq<nat>, r: nat, done: seq<Key>)
    requires |offsets| == |keys| + 1 && r <= |records|
  {
    |pos| == |keys| &&
    forall k :: 0 <= k < |keys| ==>
      pos[k] == Place(records, keys, offsets, k, r) + if keys[k] in done then 1 else 0
  }

  lemma WroteOne(
    before: seq<nat>, after: seq<nat>, records: seq<Record>, keys: seq<Key>, offsets: seq<nat>, r: nat,
    done: seq<Key>, t: Key, k: nat)
    requires Layout(records, keys, offsets) && |before| == offsets[|keys|]
    requires WroteRecord(before, after, records, keys, offsets, r, done)
    requires Posts(records, keys, k, r) && keys[k] == t
    ensures var p := Place(records, keys, offsets, k, r);
            p < |after| && WroteRecord(before, after[p := r], records, keys, offsets, r, done + [t])
  {
    WriteKeepsOthers(after, records, keys, offsets, k, r);
    forall i | 0 <= i < |keys| && keys[i] == t ensures i == k {
      if i < k { AscendingPair(keys, i, k); } else if k < i { AscendingPair(keys, k, i); }
    }
  }

  lemma SkippedOne(
    before: seq<nat>, after: seq<nat>, records: seq<Record>, keys: seq<Key>, offsets: seq<nat>, r: nat,
    done: seq<Key>, t: Key)
    requires |offsets| == |keys| + 1
    requires WroteRecord(before, after, records, keys, offsets, r, done) && t !in keys
    ensures WroteRecord(before, after, records, keys, offsets, r, done + [t])
  {
  }

  method ScatterRecord(
    values: array<nat>, pos: seq<nat>, r: nat, tris: seq<Key>, lut: map<Key, nat>,
    ghost records: seq<Record>, ghost keys: seq<Key>, ghost offsets: seq<nat>)
    returns (next: seq<nat>)
    requires Layout(records, keys, offsets) && LutFor(lut, keys) && values.Length == offsets[|keys|]
    requires r < |records| && NoDuplicates(tris) && forall t :: t in tris <==> t in records[r]
    requires Positions(pos, records, keys, offsets, r, [])
    modifies values
    ensures Positions(next, records, keys, offsets, r, tris)
    ensures WroteRecord(old(values[..]), values[..], records, keys, offsets, r, tris)
  {
    next := pos;
    for q := 0 to |tris|
      invariant Positions(next, records, keys, offsets, r, tris[..q])
      invariant WroteRecord(old(values[..]), values[..], records, keys, offsets, r, tris[..q])
    {
      var t := tris[q];
      assert t in tris && tris[..q + 1] == tris[..q] + [t];
      if t in lut {
        var k := lut[t];
        WroteOne(old(values[..]), values[..], records, keys, offsets, r, tris[..q], t, k);
        ghost var before := values[..];
        values[next[k]] := r;
        assert values[..] == before[next[k] := r];
        AdvanceOne(next, records, keys, offsets, r, tris[..q], t, k);
        next := next[k := next[k] + 1];
      } else {
        SkippedOne(old(values[..]), values[..], records, keys, offsets, r, tris[..q], t);
        assert Positions(next, records, keys, offsets, r, tris[..q] + [t]);
      }
    }
    assert tris[..|tris|] == tris;
  }

  lemma AdvanceOne(
    pos: seq<nat>, records: seq<Record>, keys: seq<Key>, offsets: seq<nat>, r: nat, done: seq<Key>, t: Key, k: nat)
    requires Layout(records, keys, offsets) && r <= |records|
    requires Positions(pos, records, keys, offsets, r, done)
    requires k < |keys| && keys[k] == t && t !in done
    ensures Positions(pos[k := pos[k] + 1], records, keys, offsets, r, done + [t])
  {
    forall i | 0 <= i < |keys| && keys[i] == t ensures i == k {
      if i < k { AscendingPair(keys, i, k); } else if k < i { AscendingPair(keys, k, i); }
    }
  }

  /** The postings of the records from `lo` up to `hi` are written, all others are as before. */
  ghost predicate WroteRange(
    before: seq<nat>, after: seq<nat>, records: seq<Record>, keys: seq<Key>, offsets: seq<nat>, lo: nat, hi: nat)
    requires |offsets| == |keys| + 1
  {
    |after| == |before| &&
    forall k, r :: Posts(records, keys, k, r) && Place(records, keys, offsets, k, r) < |before| ==>
      after[Place(records, keys, offsets, k, r)] ==
      if lo <= r < hi then r else before[Place(records, keys, offsets, k, r)]
  }

  lemma NextRecord(pos: seq<nat>, records: seq<Record>, keys: seq<Key>, offsets: seq<nat>, r: nat, tris: seq<Key>)
    requires |offsets| == |keys| + 1 && r < |records|
    requires Positions(pos, records, keys, offsets, r, tris) && forall t :: t in tris <==> t in records[r]
    ensures Positions(pos, records, keys, offsets, r + 1, [])
  {
  }

  lemma WroteOneMore(
    before: seq<nat>, middle: seq<nat>, after: seq<nat>, records: seq<Record>, keys: seq<Key>, offsets: seq<nat>,
    lo: nat, r: nat, tris: seq<Key>)
    requires |offsets| == |keys| + 1 && lo <= r < |records|
    requires WroteRange(before, middle, records, keys, offsets, lo, r)
    requires WroteRecord(middle, after, records, keys, offsets, r, tris) && forall t :: t in tris <==> t in records[r]
    ensures WroteRange(before, after, records, keys, offsets, lo, r + 1)
  {
  }

  /** One chunk's writes, starting from its own copy of the write positions. */
  method ScatterChunk(
    values: array<nat>, start: seq<nat>, lo: nat, hi: nat, records: seq<Record>, lut: map<Key, nat>,
    ghost keys: seq<Key>, ghost offsets: seq<nat>)
    requires Layout(records, keys, offsets) && LutFor(lut, keys) && values.Length == offsets[|keys|]
    requires lo <= hi <= |records| && Positions(start, records, keys, offsets, lo, [])
    modifies values
    ensures WroteRange(old(values[..]), values[..], records, keys, offsets, lo, hi)
  {
    var pos := start;
    for r := lo to hi
      invariant Positions(pos, records, keys, offsets, r, [])
      invariant WroteRange(old(values[..]), values[..], records, keys, offsets, lo, r)
    {
      ghost var middle := values[..];
      var tris := Deduplicate(records[r]);
      pos := ScatterRecord(values, pos, r, tris, lut, records, keys, offsets);
      NextRecord(pos, records, keys, offsets, r, tris);
      WroteOneMore(old(values[..]), middle, values[..], records, keys, offsets, lo, r, tris);
    }
  }

  /** Write positions after one more chunk, from that chunk's counts. */
  method AdvanceOffsets(pos: seq<nat>, chunk: Counts, lut: map<Key, nat>, ghost keys: seq<Key>) returns (next: seq<nat>)
    requires |pos| == |keys| && LutFor(lut, keys) && Ascending(keys)
    ensures |next| == |keys| && forall k :: 0 <= k < |keys| ==> next[k] == pos[k] + Tally(chunk, keys[k])
  {
    next := pos;
    var rest := chunk.Keys;
    while rest != {}
      invariant rest <= chunk.Keys && |next| == |keys|
      invariant forall k :: 0 <= k < |keys| ==>
                  next[k] == pos[k] + if keys[k] in chunk && keys[k] !in rest then chunk[keys[k]] else 0
    {
      var t :| t in rest;
      if t in lut {
        forall i | 0 <= i < |keys| && keys[i] == t ensures i == lut[t] {
          if i < lut[t] { AscendingPair(keys, i, lut[t]); } else if lut[t] < i { AscendingPair(keys, lut[t], i); }
        }
        next := next[lut[t] := next[lut[t]] + chunk[t]];
      }
      rest := rest - {t};
    }
  }

  /** The write positions each chunk starts from. */
  method WriteStarts(
    chunks: seq<Counts>, lut: map<Key, nat>, records: seq<Record>, keys: seq<Key>, offsets: seq<nat>)
    returns (starts: seq<seq<nat>>)
    requires Layout(records, keys, offsets) && LutFor(lut, keys)
    requires |chunks| == ChunkCount(|records|) && CountsChunks(chunks, records)
    ensures |starts| == |chunks|
    ensures forall c :: 0 <= c < |starts| ==>
              Positions(starts[c], records, keys, offsets, ChunkStart(|records|, c), [])
  {
    starts := [];
    var pos := offsets[..|keys|];
    ChunksCover(|records|);
    for c := 0 to |chunks|
      invariant |starts| == c && Positions(pos, records, keys, offsets, ChunkStart(|records|, c), [])
      invariant forall i :: 0 <= i < c ==>
                  Positions(starts[i], records, keys, offsets, ChunkStart(|records|, i), [])
    {
      starts := starts + [pos];
      pos := AdvanceOffsets(pos, chunks[c], lut, keys);
    }
  }

  /** Which chunk a record belongs to. */
  function ChunkOf(r: nat): nat { r / CHUNK_SIZE }

  lemma ChunkOfRecord(n: nat, r: nat, c: nat)
    requires r < n
    ensures ChunkOf(r) < ChunkCount(n)
    ensures ChunkStart(n, c) <= r < ChunkStart(n, c + 1) <==> c == ChunkOf(r)
  {
  }

  /** The postings of the chunks in `done` are in their places. */
  ghost predicate ChunksPlaced(
    values: seq<nat>, records: seq<Record>, keys: seq<Key>, offsets: seq<nat>, done: seq<nat>)
    requires |offsets| == |keys| + 1
  {
    forall k, r :: Posts(records, keys, k, r) && ChunkOf(r) in done ==>
      Place(records, keys, offsets, k, r) < |values| && values[Place(records, keys, offsets, k, r)] == r
  }

  lemma OneMoreChunk(
    before: seq<nat>, after: seq<nat>, records: seq<Record>, keys: seq<Key>, offsets: seq<nat>, done: seq<nat>, c: nat)
    requires Layout(records, keys, offsets) && |before| == offsets[|keys|]
    requires ChunksPlaced(before, records, keys, offsets, done)
    requires WroteRange(before, after, records, keys, offsets,
                        ChunkStart(|records|, c), ChunkStart(|records|, c + 1))
    ensures ChunksPlaced(after, records, keys, offsets, done + [c])
  {
    forall k, r | Posts(records, keys, k, r) && ChunkOf(r) in done + [c]
      ensures Place(records, keys, offsets, k, r) < |after| && after[Place(records, keys, offsets, k, r)] == r
    {
      PlaceInRegion(records, keys, offsets, k, r);
      ChunkOfRecord(|records|, r, c);
    }
  }

  /** Pass 2: the chunks write in whatever order they are scheduled. */
  method ScatterPostings(
    records: seq<Record>, lut: map<Key, nat>, keys: seq<Key>, offsets: seq<nat>, chunks: seq<Counts>, schedule: seq<nat>)
    returns (result: seq<nat>)
    requires Layout(records, keys, offsets) && LutFor(lut, keys)
    requires |chunks| == ChunkCount(|records|) && CountsChunks(chunks, records)
    requires forall c: nat :: c in schedule <==> c < |chunks|
    ensures |result| == offsets[|keys|]
    ensures forall k, r :: Posts(records, keys, k, r) ==>
              Place(records, keys, offsets, k, r) < |result| && result[Place(records, keys, offsets, k, r)] == r
  {
    var starts := WriteStarts(chunks, lut, records, keys, offsets);
    var values := new nat[offsets[|keys|]](_ => 0);
    for i := 0 to |schedule|
      invariant fresh(values) && values.Length == offsets[|keys|]
      invariant ChunksPlaced(values[..], records, keys, offsets, schedule[..i])
    {
      var c := schedule[i];
      assert c in schedule && schedule[..i + 1] == schedule[..i] + [c];
      ghost var before := values[..];
      ChunksCover(|records|);
      ScatterChunk(values, starts[c], ChunkStart(|records|, c), ChunkStart(|records|, c + 1),
                   records, lut, keys, offsets);
      OneMoreChunk(before, values[..], records, keys, offsets, schedule[..i], c);
    }
    assert schedule[..|schedule|] == schedule;
    result := values[..];
    forall r | 0 <= r < |records| ensures ChunkOf(r) in schedule {
      ChunkOfRecord(|records|, r, 0);
    }
  }

  /** Places that are all filled make the posting lists. */
  lemma FilledIsIndex(idx: CsrIndex, records: seq<Record>, k: nat)
    requires Layout(records, idx.keys, idx.offsets) && |idx.values| == idx.offsets[|idx.keys|] && k < |idx.keys|
    requires forall k', r :: Posts(records, idx.keys, k', r) ==>
               Place(records, idx.keys, idx.offsets, k', r) < |idx.values| &&
               idx.values[Place(records, idx.keys, idx.offsets, k', r)] == r
    ensures RegionIs(idx, records, k)
  {
    var list := PostingList(records, idx.keys[k]);
    OffsetsMonotone(records, idx.keys, idx.offsets, k + 1, |idx.keys|);
    var slice := idx.values[idx.offsets[k]..idx.offsets[k + 1]];
    forall p | 0 <= p < |list| ensures slice[p] == list[p] {
      PostingIsRecord(records, |records|, idx.keys[k], p);
      assert Posts(records, idx.keys, k, list[p]);
      assert Place(records, idx.keys, idx.offsets, k, list[p]) == idx.offsets[k] + p;
    }
    assert slice == list;
  }

  /** The whole build. Whatever the schedule, the result is the index of the records. */
  method Build(records: seq<Record>, schedule: seq<nat>) returns (idx: CsrIndex)
    requires forall c: nat :: c in schedule <==> c < ChunkCount(|records|)
    ensures Indexes(idx, records)
  {
    if records == [] {
      idx := CsrIndex([], [0], []);
      return;
    }
    var chunks := CountChunks(records);
    var counts := MergeCounts(chunks, records);
    var cap := FrequencyCap(|records|);
    var kept := set t | t in counts && 0 < counts[t] <= cap;
    assert forall t :: t in kept <==> Kept(records, t) by {
      assert forall t :: Tally(counts, t) == Frequency(records, t);
    }
    var keys := SortKeys(kept);
    var offsets, lut := LayOut(keys, counts, records);
    var values := ScatterPostings(records, lut, keys, offsets, chunks, schedule);
    idx := CsrIndex(keys, offsets, values);
    forall k | 0 <= k < |idx.keys| ensures RegionIs(idx, records, k) {
      FilledIsIndex(idx, records, k);
    }
  }
}
