/** The streaming hash-count diff: three passes over two files that keep one
    counter per line hash and never the lines themselves.

    The line hash is a parameter. Statements about hashes hold for every hash;
    statements about lines ask that no two different lines present collide. */
module StreamingDiff {
  import opened Seqs
  import opened Lines

  /** A 64-bit line hash. */
  type Hash = h: nat | h < 0x1_0000_0000_0000_0000

  type Hasher = Line -> Hash

  datatype DiffResult = DiffResult(
    onlyInBaseline: seq<Line>,
    onlyInRust: seq<Line>,
    baselineDataLines: nat,
    rustDataLines: nat,
    baselineFiltered: nat,
    rustFiltered: nat)

  /** How often each hash occurs among the data lines. */
  function HashBag(H: Hasher, lines: seq<Line>): multiset<Hash> {
    if lines == [] then multiset{}
    else
      var last := lines[|lines| - 1];
      HashBag(H, lines[..|lines| - 1]) + if IsData(last) then multiset{H(last)} else multiset{}
  }

  lemma {:induction false} HashBagIsImage(H: Hasher, lines: seq<Line>)
    ensures HashBag(H, lines) == multiset(Map(H, DataLines(lines)))
  {
    if lines == [] {
      assert Map(H, DataLines(lines)) == [];
    } else {
      var n := |lines| - 1;
      assert lines == lines[..n] + [lines[n]];
      HashBagIsImage(H, lines[..n]);
      FilterSnoc(IsData, lines[..n], lines[n]);
      MapSnoc(H, DataLines(lines[..n]), lines[n]);
    }
  }

  /** Data lines of `mine` whose hash occurs more often in `mine` than in `other`. */
  predicate Surplus(H: Hasher, mine: seq<Line>, other: seq<Line>, line: Line) {
    IsData(line) && HashBag(H, mine)[H(line)] > HashBag(H, other)[H(line)]
  }

  function SurplusLines(H: Hasher, mine: seq<Line>, other: seq<Line>): seq<Line> {
    Filter(line => Surplus(H, mine, other, line), mine)
  }

  function Tally(counts: map<Hash, int>, h: Hash): int {
    if h in counts then counts[h] else 0
  }

  lemma HashBagSnoc(H: Hasher, lines: seq<Line>, x: Line)
    ensures HashBag(H, lines + [x]) == HashBag(H, lines) + if IsData(x) then multiset{H(x)} else multiset{}
  {
    assert (lines + [x])[..|lines|] == lines;
  }

  /** Reading one more line. */
  lemma NextLine(H: Hasher, lines: seq<Line>, i: nat)
    requires i < |lines|
    ensures HashBag(H, lines[..i + 1]) ==
            if IsData(lines[i]) then HashBag(H, lines[..i]) + multiset{H(lines[i])} else HashBag(H, lines[..i])
    ensures |DataLines(lines[..i + 1])| == |DataLines(lines[..i])| + if IsData(lines[i]) then 1 else 0
  {
    assert lines[..i + 1] == lines[..i] + [lines[i]];
    HashBagSnoc(H, lines[..i], lines[i]);
    FilterSnoc(IsData, lines[..i], lines[i]);
  }

  /** The counters after `used` of the hashes counted in `bag` have been used up. */
  ghost predicate Counted(counts: map<Hash, int>, bag: multiset<Hash>, used: multiset<Hash>) {
    forall h :: Tally(counts, h) == Left(bag[h], used[h])
  }

  /** The hashes that were used more often than they were counted. */
  ghost predicate Overdrawn(unmatched: set<Hash>, bag: multiset<Hash>, used: multiset<Hash>) {
    forall h :: h in unmatched <==> used[h] > bag[h]
  }

  /** Pass 1: count the baseline hashes. */
  method CountBaseline(H: Hasher, baseline: seq<Line>)
    returns (counts: map<Hash, int>, dataLines: nat, filtered: nat)
    ensures Counted(counts, HashBag(H, baseline), multiset{})
    ensures dataLines == |DataLines(baseline)| && filtered == |baseline| - dataLines
  {
    counts, dataLines, filtered := map[], 0, 0;
    ghost var bag: multiset<Hash> := multiset{};
    for i := 0 to |baseline|
      invariant bag == HashBag(H, baseline[..i])
      invariant Counted(counts, bag, multiset{})
      invariant dataLines == |DataLines(baseline[..i])| && filtered == i - dataLines
    {
      var line := baseline[i];
      NextLine(H, baseline, i);
      if IsFooterOrHeader(line) {
        filtered := filtered + 1;
      } else {
        dataLines := dataLines + 1;
        var h := H(line);
        CountOne(counts, bag, h);
        counts := counts[h := Tally(counts, h) + 1];
        bag := bag + multiset{h};
      }
    }
    assert baseline[..|baseline|] == baseline;
  }

  /** Pass 2: let every Rust line use up one baseline count, and note the hashes that find none left. */
  method UseUp(H: Hasher, rust: seq<Line>, start: map<Hash, int>, ghost bag: multiset<Hash>)
    returns (counts: map<Hash, int>, unmatched: set<Hash>, dataLines: nat, filtered: nat)
    requires Counted(start, bag, multiset{})
    ensures Counted(counts, bag, HashBag(H, rust))
    ensures Overdrawn(unmatched, bag, HashBag(H, rust))
    ensures dataLines == |DataLines(rust)| && filtered == |rust| - dataLines
  {
    counts, unmatched, dataLines, filtered := start, {}, 0, 0;
    ghost var used: multiset<Hash> := multiset{};
    for i := 0 to |rust|
      invariant used == HashBag(H, rust[..i])
      invariant Counted(counts, bag, used)
      invariant Overdrawn(unmatched, bag, used)
      invariant dataLines == |DataLines(rust[..i])| && filtered == i - dataLines
    {
      var line := rust[i];
      NextLine(H, rust, i);
      if IsFooterOrHeader(line) {
        filtered := filtered + 1;
      } else {
        dataLines := dataLines + 1;
        counts, unmatched := UseOne(counts, unmatched, H(line), bag, used);
        used := used + multiset{H(line)};
      }
    }
    assert rust[..|rust|] == rust;
  }

  /** One more occurrence of a hash. */
  lemma CountOne(counts: map<Hash, int>, bag: multiset<Hash>, h: Hash)
    requires Counted(counts, bag, multiset{})
    ensures Counted(counts[h := Tally(counts, h) + 1], bag + multiset{h}, multiset{})
  {
    assert Tally(counts, h) == Left(bag[h], multiset{}[h]);
  }

  /** One more use of a hash. */
  method UseOne(counts: map<Hash, int>, unmatched: set<Hash>, h: Hash, ghost bag: multiset<Hash>, ghost used: multiset<Hash>)
    returns (counts': map<Hash, int>, unmatched': set<Hash>)
    requires Counted(counts, bag, used) && Overdrawn(unmatched, bag, used)
    ensures Counted(counts', bag, used + multiset{h}) && Overdrawn(unmatched', bag, used + multiset{h})
  {
    var count := Tally(counts, h);
    assert count == Left(bag[h], used[h]);
    if count > 0 {
      counts', unmatched' := counts[h := count - 1], unmatched;
    } else {
      counts', unmatched' := counts[h := count], unmatched + {h};
    }
  }

  /** Pass 3: read a file again and keep the data lines whose hash was noted. */
  method Collect(H: Hasher, lines: seq<Line>, wanted: set<Hash>) returns (r: seq<Line>)
    ensures r == Filter((line: Line) => IsData(line) && H(line) in wanted, lines)
  {
    ghost var p := (line: Line) => IsData(line) && H(line) in wanted;
    r := [];
    for i := 0 to |lines|
      invariant r == Filter(p, lines[..i])
    {
      FilterSnoc(p, lines[..i], lines[i]);
      assert lines[..i + 1] == lines[..i] + [lines[i]];
      if !IsFooterOrHeader(lines[i]) && H(lines[i]) in wanted {
        r := r + [lines[i]];
      }
    }
    assert lines[..|lines|] == lines;
  }

  /** The diff returns exactly the surplus lines of each side, all copies included. */
  method ComputeStreamingDiff(H: Hasher, baseline: seq<Line>, rust: seq<Line>) returns (d: DiffResult)
    ensures d.onlyInBaseline == SurplusLines(H, baseline, rust)
    ensures d.onlyInRust == SurplusLines(H, rust, baseline)
    ensures d.baselineDataLines == |DataLines(baseline)| && d.rustDataLines == |DataLines(rust)|
    ensures d.baselineDataLines + d.baselineFiltered == |baseline|
    ensures d.rustDataLines + d.rustFiltered == |rust|
  {
    ghost var bag := HashBag(H, baseline);
    var counts, bData, bFiltered := CountBaseline(H, baseline);
    var left, rustHashes, rData, rFiltered := UseUp(H, rust, counts, bag);
    var baselineHashes := set h | h in left && left[h] > 0;
    assert forall h :: h in baselineHashes <==> Tally(left, h) > 0;
    assert Overdrawn(baselineHashes, HashBag(H, rust), bag);

    var onlyInBaseline := [];
    if baselineHashes != {} {
      onlyInBaseline := Collect(H, baseline, baselineHashes);
    }
    var onlyInRust := [];
    if rustHashes != {} {
      onlyInRust := Collect(H, rust, rustHashes);
    }
    CollectedIsSurplus(H, baseline, rust, baselineHashes);
    CollectedIsSurplus(H, rust, baseline, rustHashes);
    d := DiffResult(onlyInBaseline, onlyInRust, bData, rData, bFiltered, rFiltered);
  }

  /** Collecting by the hashes in surplus is collecting the surplus lines. */
  lemma CollectedIsSurplus(H: Hasher, mine: seq<Line>, other: seq<Line>, wanted: set<Hash>)
    requires Overdrawn(wanted, HashBag(H, other), HashBag(H, mine))
    ensures Filter((line: Line) => IsData(line) && H(line) in wanted, mine) == SurplusLines(H, mine, other)
    ensures wanted == {} ==> SurplusLines(H, mine, other) == []
  {
    FilterAgree((line: Line) => IsData(line) && H(line) in wanted, line => Surplus(H, mine, other, line), mine);
    var surplus := SurplusLines(H, mine, other);
    FilterMembers(line => Surplus(H, mine, other, line), mine);
    assert surplus != [] ==> surplus[0] in surplus;
  }

  // ---- what the two lists mean ----

  /** The two lists share no hash, hence no line. */
  lemma SurplusDisjoint(H: Hasher, baseline: seq<Line>, rust: seq<Line>, b: Line, r: Line)
    requires b in SurplusLines(H, baseline, rust)
    requires r in SurplusLines(H, rust, baseline)
    ensures H(b) != H(r) && b != r
  {
    FilterMembers(line => Surplus(H, baseline, rust, line), baseline);
    FilterMembers(line => Surplus(H, rust, baseline, line), rust);
    assert Surplus(H, baseline, rust, b) && Surplus(H, rust, baseline, r);
  }

  /** No two different data lines of the two files collide. */
  ghost predicate InjectiveOn(H: Hasher, baseline: seq<Line>, rust: seq<Line>) {
    forall x, y :: (x in baseline || x in rust) && (y in baseline || y in rust) && H(x) == H(y) ==> x == y
  }

  /** Without collisions the hash of a line occurs as often as the line. */
  lemma {:induction false} BagCountsLines(H: Hasher, lines: seq<Line>, x: Line)
    requires forall y :: y in lines && H(y) == H(x) ==> y == x
    ensures HashBag(H, lines)[H(x)] == multiset(DataLines(lines))[x]
  {
    if lines != [] {
      var n := |lines| - 1;
      assert lines == lines[..n] + [lines[n]];
      BagCountsLines(H, lines[..n], x);
      HashBagSnoc(H, lines[..n], lines[n]);
      FilterSnoc(IsData, lines[..n], lines[n]);
    }
  }

  /** Without collisions a line is reported exactly when it occurs more often on its side,
      and then in all its copies. */
  lemma SurplusIsDifference(H: Hasher, mine: seq<Line>, other: seq<Line>, x: Line)
    requires InjectiveOn(H, mine, other)
    ensures multiset(SurplusLines(H, mine, other))[x] ==
            if multiset(DataLines(mine))[x] > multiset(DataLines(other))[x] then multiset(DataLines(mine))[x] else 0
  {
    var p := line => Surplus(H, mine, other, line);
    FilterCount(p, mine, x);
    FilterCount(IsData, mine, x);
    if x in mine {
      BagCountsLines(H, mine, x);
      BagCountsLines(H, other, x);
      FilterCount(IsData, other, x);
    } else {
      assert multiset(mine)[x] == 0;
    }
  }

  /** Each list is empty exactly when the sorted merge of the filtered files leaves nothing on
      that side; and line by line, the lists name the same lines. */
  lemma SurplusMatchesSortedMerge(H: Hasher, mine: seq<Line>, other: seq<Line>, merged: seq<Line>)
    requires InjectiveOn(H, mine, other)
    requires multiset(merged) == multiset(DataLines(mine)) - multiset(DataLines(other))
    ensures forall x :: x in SurplusLines(H, mine, other) <==> x in merged
    ensures SurplusLines(H, mine, other) == [] <==> merged == []
  {
    var surplus := SurplusLines(H, mine, other);
    forall x ensures x in surplus <==> x in merged {
      SurplusIsDifference(H, mine, other, x);
      assert x in surplus <==> x in multiset(surplus);
      assert x in merged <==> x in multiset(merged);
    }
    assert merged != [] ==> merged[0] in surplus;
    assert surplus != [] ==> surplus[0] in merged;
  }

  /** The fast diff against the slow one, end to end. */
  method CompareWithSortedMerge(H: Hasher, baseline: seq<Line>, rust: seq<Line>)
    returns (d: DiffResult, missing: seq<Line>, extra: seq<Line>)
    requires InjectiveOn(H, baseline, rust)
    ensures d.onlyInBaseline == SurplusLines(H, baseline, rust) && d.onlyInRust == SurplusLines(H, rust, baseline)
    ensures multiset(missing) == multiset(DataLines(baseline)) - multiset(DataLines(rust))
    ensures multiset(extra) == multiset(DataLines(rust)) - multiset(DataLines(baseline))
    ensures d.onlyInBaseline == [] <==> missing == []
    ensures d.onlyInRust == [] <==> extra == []
  {
    d := ComputeStreamingDiff(H, baseline, rust);
    var b := FilterDataLines(baseline);
    var r := FilterDataLines(rust);
    missing, extra := CheckSortedSubset(b, r);
    SurplusMatchesSortedMerge(H, baseline, rust, missing);
    SurplusMatchesSortedMerge(H, rust, baseline, extra);
  }

  /** For every hash: nothing is reported missing if and only if the baseline hashes are contained
      in the Rust hashes, counting copies. */
  lemma NothingMissing(H: Hasher, baseline: seq<Line>, rust: seq<Line>)
    ensures SurplusLines(H, baseline, rust) == [] <==> HashBag(H, baseline) <= HashBag(H, rust)
  {
    FilterMembers(line => Surplus(H, baseline, rust, line), baseline);
    FilterMembers(IsData, baseline);
    if SurplusLines(H, baseline, rust) == [] {
      forall h ensures HashBag(H, baseline)[h] <= HashBag(H, rust)[h] {
        if h in HashBag(H, baseline) {
          var lines := DataLines(baseline);
          HashBagIsImage(H, baseline);
          assert h in Map(H, lines);
          var i :| 0 <= i < |lines| && Map(H, lines)[i] == h;
          assert lines[i] in lines;
          assert !Surplus(H, baseline, rust, lines[i]);
        }
      }
    } else {
      var x := SurplusLines(H, baseline, rust)[0];
      assert x in SurplusLines(H, baseline, rust);
      assert Surplus(H, baseline, rust, x);
    }
  }

  /** Containment of the data lines empties the list, whatever collides. */
  lemma InclusionIsNeverReported(H: Hasher, baseline: seq<Line>, rust: seq<Line>)
    requires multiset(DataLines(baseline)) <= multiset(DataLines(rust))
    ensures SurplusLines(H, baseline, rust) == []
  {
    MapMonotone(H, DataLines(baseline), DataLines(rust));
    HashBagIsImage(H, baseline);
    HashBagIsImage(H, rust);
    NothingMissing(H, baseline, rust);
  }

  /** Without collisions an empty list does mean inclusion. */
  lemma EmptyMeansInclusion(H: Hasher, baseline: seq<Line>, rust: seq<Line>)
    requires InjectiveOn(H, baseline, rust)
    ensures SurplusLines(H, baseline, rust) == [] <==> multiset(DataLines(baseline)) <= multiset(DataLines(rust))
  {
    if SurplusLines(H, baseline, rust) == [] {
      forall x ensures multiset(DataLines(baseline))[x] <= multiset(DataLines(rust))[x] {
        SurplusIsDifference(H, baseline, rust, x);
      }
    } else if multiset(DataLines(baseline)) <= multiset(DataLines(rust)) {
      InclusionIsNeverReported(H, baseline, rust);
    }
  }

  // ---- when a line is listed ----

  /** The data lines with this hash. */
  function WithHash(H: Hasher, lines: seq<Line>, h: Hash): seq<Line> {
    Filter(line => IsData(line) && H(line) == h, lines)
  }

  lemma {:induction false} BagCounts(H: Hasher, lines: seq<Line>, h: Hash)
    ensures HashBag(H, lines)[h] == |WithHash(H, lines, h)|
  {
    if lines != [] {
      BagCounts(H, lines[..|lines| - 1], h);
    }
  }

  /** A line is listed exactly when it is a data line of its file and more data lines there have its hash than in the
      other file. */
  lemma ListedIff(H: Hasher, mine: seq<Line>, other: seq<Line>, line: Line)
    ensures line in SurplusLines(H, mine, other) <==>
            line in mine && IsData(line) && |WithHash(H, mine, H(line))| > |WithHash(H, other, H(line))|
  {
    FilterMembers(x => Surplus(H, mine, other, x), mine);
    BagCounts(H, mine, H(line));
    BagCounts(H, other, H(line));
  }
}
