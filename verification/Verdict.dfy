/** The offline verdict: ordered hash, then order-independent fingerprint, then
    the streaming diff. The ordered digest and the line hash are parameters. */
module Verdict {
  import opened Seqs
  import opened Lines
  import opened StreamingDiff

  const TWO_128: nat := 0x1_0000_0000_0000_0000_0000_0000_0000_0000

  /** Line count, XOR and wrapping 128-bit sum of the line hashes. */
  datatype Fingerprint = Fingerprint(lineCount: nat, xor: nat, sum: nat)

  datatype FileStats = FileStats(orderedHash: string, fingerprint: Fingerprint)

  datatype VerifyResult = StrictMatch | SortedMatch | SupersetMatch | Mismatch

  type Digest = seq<Line> -> string

  /** Bitwise exclusive or. */
  function Xor(a: nat, b: nat): nat {
    if a == 0 && b == 0 then 0 else 2 * Xor(a / 2, b / 2) + if a % 2 == b % 2 then 0 else 1
  }

  function WrappingAdd(a: nat, b: nat): nat { (a + b) % TWO_128 }

  function AddLine(H: Hasher, fp: Fingerprint, line: Line): Fingerprint {
    Fingerprint(fp.lineCount + 1, Xor(fp.xor, H(line)), WrappingAdd(fp.sum, H(line)))
  }

  const EMPTY := Fingerprint(0, 0, 0)

  function FingerprintOf(H: Hasher, lines: seq<Line>): Fingerprint {
    Fold((fp, line) => AddLine(H, fp, line), EMPTY, lines)
  }

  function StatsOf(D: Digest, H: Hasher, lines: seq<Line>): FileStats {
    FileStats(D(lines), FingerprintOf(H, lines))
  }

  method ComputeStreamingStats(D: Digest, H: Hasher, lines: seq<Line>) returns (stats: FileStats)
    ensures stats == StatsOf(D, H, lines)
  {
    var lineCount: nat, xor: nat, sum: nat := 0, 0, 0;
    for i := 0 to |lines|
      invariant Fingerprint(lineCount, xor, sum) == FingerprintOf(H, lines[..i])
    {
      assert lines[..i + 1] == lines[..i] + [lines[i]];
      FoldSnoc((fp, line) => AddLine(H, fp, line), EMPTY, lines[..i], lines[i]);
      var h := H(lines[i]);
      xor := Xor(xor, h);
      sum := WrappingAdd(sum, h);
      lineCount := lineCount + 1;
    }
    assert lines[..|lines|] == lines;
    stats := FileStats(D(lines), Fingerprint(lineCount, xor, sum));
  }

  lemma {:induction false} XorCommutes(a: nat, x: nat, y: nat)
    ensures Xor(Xor(a, x), y) == Xor(Xor(a, y), x)
    decreases a + x + y
  {
    if a + x + y > 0 {
      XorHalves(a, x);
      XorHalves(a, y);
      XorHalves(Xor(a, x), y);
      XorHalves(Xor(a, y), x);
      XorCommutes(a / 2, x / 2, y / 2);
    }
  }

  lemma XorHalves(a: nat, b: nat)
    ensures Xor(a, b) / 2 == Xor(a / 2, b / 2)
    ensures Xor(a, b) % 2 == if a % 2 == b % 2 then 0 else 1
    ensures Xor(a, b) == 2 * (Xor(a, b) / 2) + Xor(a, b) % 2
  {
  }

  lemma WrappingAddCommutes(a: nat, x: nat, y: nat)
    ensures WrappingAdd(WrappingAdd(a, x), y) == WrappingAdd(WrappingAdd(a, y), x)
  {
    WrapOnce(a + x, y);
    WrapOnce(a + y, x);
  }

  lemma WrapOnce(a: nat, b: nat)
    ensures (a % TWO_128 + b) % TWO_128 == (a + b) % TWO_128
  {
    var q := a / TWO_128;
    assert a == q * TWO_128 + a % TWO_128;
    var c := a % TWO_128 + b;
    assert a + b == q * TWO_128 + c;
    assert c == (c / TWO_128) * TWO_128 + c % TWO_128;
    assert a + b == (q + c / TWO_128) * TWO_128 + c % TWO_128;
  }

  lemma AddLineCommutes(H: Hasher)
    ensures Commutes((fp: Fingerprint, line: Line) => AddLine(H, fp, line))
  {
    forall fp: Fingerprint, x: Line, y: Line
      ensures AddLine(H, AddLine(H, fp, x), y) == AddLine(H, AddLine(H, fp, y), x)
    {
      XorCommutes(fp.xor, H(x), H(y));
      WrappingAddCommutes(fp.sum, H(x), H(y));
    }
  }

  /** Reordering a file does not change its fingerprint. */
  lemma FingerprintIgnoresOrder(H: Hasher, a: seq<Line>, b: seq<Line>)
    requires multiset(a) == multiset(b)
    ensures FingerprintOf(H, a) == FingerprintOf(H, b)
  {
    AddLineCommutes(H);
    FoldPermutation((fp: Fingerprint, line: Line) => AddLine(H, fp, line), EMPTY, a, b);
  }

  predicate IsSortedMatch(a: FileStats, b: FileStats) {
    a.fingerprint.lineCount == b.fingerprint.lineCount &&
    a.fingerprint.xor == b.fingerprint.xor &&
    a.fingerprint.sum == b.fingerprint.sum
  }

  /** The verdict as a function of the two files. */
  function VerdictOf(D: Digest, H: Hasher, baseline: seq<Line>, rust: seq<Line>): VerifyResult {
    if D(baseline) == D(rust) then StrictMatch
    else if FingerprintOf(H, baseline) == FingerprintOf(H, rust) then SortedMatch
    else if SurplusLines(H, baseline, rust) == [] then SupersetMatch
    else Mismatch
  }

  /** `goldenStats` may come from the sidecar cache; it is the baseline's either way. */
  method VerifySingleDrive(D: Digest, H: Hasher, baseline: seq<Line>, rust: seq<Line>, goldenStats: FileStats)
    returns (result: VerifyResult, extraRustLines: nat)
    requires goldenStats == StatsOf(D, H, baseline)
    ensures result == VerdictOf(D, H, baseline, rust)
    ensures result == StrictMatch <==> D(baseline) == D(rust)
    ensures result == SortedMatch <==> D(baseline) != D(rust) && LookPermuted(H, baseline, rust)
    ensures extraRustLines == if result.SupersetMatch? || result.Mismatch? then |SurplusLines(H, rust, baseline)| else 0
  {
    FingerprintsAgreeIff(H, baseline, rust);
    var rustStats := ComputeStreamingStats(D, H, rust);
    if goldenStats.orderedHash == rustStats.orderedHash {
      return StrictMatch, 0;
    }
    if IsSortedMatch(goldenStats, rustStats) {
      return SortedMatch, 0;
    }
    var diff := ComputeStreamingDiff(H, baseline, rust);
    if diff.onlyInBaseline == [] {
      return SupersetMatch, |diff.onlyInRust|;
    }
    return Mismatch, |diff.onlyInRust|;
  }

  // ---- what the verdicts mean ----

  /** For every digest and every hash: an identical output is a strict match, a permuted one at
      least a sorted match, and an output that contains the baseline's data lines is never a mismatch. */
  lemma VerdictIsComplete(D: Digest, H: Hasher, baseline: seq<Line>, rust: seq<Line>)
    ensures baseline == rust ==> VerdictOf(D, H, baseline, rust) == StrictMatch
    ensures multiset(baseline) == multiset(rust) ==>
              VerdictOf(D, H, baseline, rust) in {StrictMatch, SortedMatch}
    ensures multiset(DataLines(baseline)) <= multiset(DataLines(rust)) ==>
              VerdictOf(D, H, baseline, rust) != Mismatch
  {
    if multiset(baseline) == multiset(rust) {
      FingerprintIgnoresOrder(H, baseline, rust);
    }
    if multiset(DataLines(baseline)) <= multiset(DataLines(rust)) {
      InclusionIsNeverReported(H, baseline, rust);
    }
  }

  /** Without collisions the third tier decides inclusion: a superset match has every baseline data
      line in the Rust output, as often, and a mismatch does not. */
  lemma ThirdTierDecidesInclusion(D: Digest, H: Hasher, baseline: seq<Line>, rust: seq<Line>)
    requires InjectiveOn(H, baseline, rust)
    ensures VerdictOf(D, H, baseline, rust) == SupersetMatch ==>
              multiset(DataLines(baseline)) <= multiset(DataLines(rust))
    ensures VerdictOf(D, H, baseline, rust) == Mismatch ==>
              !(multiset(DataLines(baseline)) <= multiset(DataLines(rust)))
  {
    EmptyMeansInclusion(H, baseline, rust);
  }

  // ---- what the fingerprint says about the hashes of the lines ----

  /** Bit `k` of a number. */
  function Bit(n: nat, k: nat): nat {
    if k == 0 then n % 2 else Bit(n / 2, k - 1)
  }

  lemma {:induction false} XorBits(a: nat, b: nat, k: nat)
    ensures Bit(Xor(a, b), k) == if Bit(a, k) == Bit(b, k) then 0 else 1
  {
    XorHalves(a, b);
    if k > 0 {
      XorBits(a / 2, b / 2, k - 1);
    }
  }

  /** Numbers with the same bits are equal. */
  lemma {:induction false} BitsDecide(a: nat, b: nat)
    requires forall k: nat :: Bit(a, k) == Bit(b, k)
    ensures a == b
    decreases a + b
  {
    if a + b > 0 {
      assert Bit(a, 0) == Bit(b, 0);
      forall k: nat ensures Bit(a / 2, k) == Bit(b / 2, k) {
        assert Bit(a, k + 1) == Bit(b, k + 1);
      }
      BitsDecide(a / 2, b / 2);
    }
  }

  function SumOfHashes(H: Hasher, lines: seq<Line>): nat {
    if lines == [] then 0 else SumOfHashes(H, lines[..|lines| - 1]) + H(lines[|lines| - 1])
  }

  /** The lines whose hash has bit `k`. */
  function WithBit(H: Hasher, lines: seq<Line>, k: nat): seq<Line> {
    Filter(line => Bit(H(line), k) == 1, lines)
  }

  lemma BitIsBit(n: nat, k: nat)
    ensures Bit(n, k) == 0 || Bit(n, k) == 1
  {
  }

  /** The number of lines, the sum of their hashes modulo 2^128, and in each bit the parity of the hashes that have
      it. */
  lemma {:induction false} FingerprintSays(H: Hasher, lines: seq<Line>)
    ensures var fp := FingerprintOf(H, lines);
            fp.lineCount == |lines| &&
            fp.sum == SumOfHashes(H, lines) % 0x1_0000_0000_0000_0000_0000_0000_0000_0000 &&
            forall k: nat :: Bit(fp.xor, k) == |WithBit(H, lines, k)| % 2
  {
    if lines == [] {
      forall k: nat ensures Bit(0, k) == 0 {
        ZeroHasNoBits(k);
      }
    } else {
      var front, last := lines[..|lines| - 1], lines[|lines| - 1];
      FingerprintSays(H, front);
      WrapOnce(SumOfHashes(H, front), H(last));
      forall k: nat ensures Bit(FingerprintOf(H, lines).xor, k) == |WithBit(H, lines, k)| % 2 {
        XorBits(FingerprintOf(H, front).xor, H(last), k);
        BitIsBit(H(last), k);
        assert |WithBit(H, lines, k)| == |WithBit(H, front, k)| + if Bit(H(last), k) == 1 then 1 else 0;
      }
    }
  }

  lemma {:induction false} ZeroHasNoBits(k: nat)
    ensures Bit(0, k) == 0
  {
    if k > 0 {
      ZeroHasNoBits(k - 1);
    }
  }

  /** The two files cannot be told apart by count, sum and parities of their line hashes. */
  ghost predicate LookPermuted(H: Hasher, a: seq<Line>, b: seq<Line>) {
    |a| == |b| &&
    SumOfHashes(H, a) % 0x1_0000_0000_0000_0000_0000_0000_0000_0000 ==
    SumOfHashes(H, b) % 0x1_0000_0000_0000_0000_0000_0000_0000_0000 &&
    forall k: nat :: |WithBit(H, a, k)| % 2 == |WithBit(H, b, k)| % 2
  }

  lemma FingerprintsAgreeIff(H: Hasher, a: seq<Line>, b: seq<Line>)
    ensures FingerprintOf(H, a) == FingerprintOf(H, b) <==> LookPermuted(H, a, b)
  {
    FingerprintSays(H, a);
    FingerprintSays(H, b);
    if LookPermuted(H, a, b) {
      BitsDecide(FingerprintOf(H, a).xor, FingerprintOf(H, b).xor);
    }
  }

  /** Every verdict exactly: equal digests; else count, sum and parities of the line hashes agree; else the hashes of
      the baseline's data lines are included, counting copies; else none of these. */
  lemma VerdictIff(D: Digest, H: Hasher, baseline: seq<Line>, rust: seq<Line>)
    ensures var included := multiset(Map(H, DataLines(baseline))) <= multiset(Map(H, DataLines(rust)));
            VerdictOf(D, H, baseline, rust) ==
            if D(baseline) == D(rust) then StrictMatch
            else if LookPermuted(H, baseline, rust) then SortedMatch
            else if included then SupersetMatch
            else Mismatch
  {
    FingerprintsAgreeIff(H, baseline, rust);
    NothingMissing(H, baseline, rust);
    HashBagIsImage(H, baseline);
    HashBagIsImage(H, rust);
  }
}
