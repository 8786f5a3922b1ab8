/** The text of a `.parityhash` sidecar: what is stored for a baseline and how it is read back. */
module SidecarText {
  import opened Seqs
  import opened Lines
  import opened Decimal
  import opened Verdict

  const TWO_64: nat := 0x1_0000_0000_0000_0000

  type U64 = n: nat | n < TWO_64
  type U128 = n: nat | n < TWO_128

  /** Size and modification time of a file. */
  datatype Identity = Identity(size: U64, mtime: U128)

  /** Printable text without spaces. */
  predicate IsToken(s: string) { forall i :: 0 <= i < |s| ==> s[i] > ' ' }

  /** Statistics as the program holds them: a one-word digest and counters of limited width. */
  predicate Storable(st: FileStats) {
    IsToken(st.orderedHash) && st.fingerprint.lineCount < TWO_64 && st.fingerprint.xor < TWO_64 &&
    st.fingerprint.sum < TWO_128
  }

  // ---- lines of a text ----

  /** Position of the first newline, or the length. */
  function LineEnd(s: string): (k: nat)
    ensures k <= |s| && (k < |s| ==> s[k] == '\n')
  {
    if s == [] || s[0] == '\n' then 0 else 1 + LineEnd(s[1..])
  }

  function DropCr(s: string): string {
    if s != [] && s[|s| - 1] == '\r' then s[..|s| - 1] else s
  }

  /** `str::lines`: lines end at newlines, an optional carriage return before it is dropped, and a final
      line without newline counts when it is not empty. */
  function LinesOf(s: string): seq<string>
    decreases |s|
  {
    if s == [] then []
    else
      var k := LineEnd(s);
      if k < |s| then [DropCr(s[..k])] + LinesOf(s[k + 1..]) else [s]
  }

  lemma {:induction false} LineEndAt(line: string, rest: string)
    requires '\n' !in line
    ensures LineEnd(line + "\n" + rest) == |line|
  {
    var s := line + "\n" + rest;
    if line != [] {
      assert s[1..] == line[1..] + "\n" + rest;
      assert s[0] == line[0];
      LineEndAt(line[1..], rest);
    }
  }

  lemma FirstLine(line: string, rest: string)
    requires IsLine(line)
    ensures LinesOf(line + "\n" + rest) == [line] + LinesOf(rest)
  {
    LineEndAt(line, rest);
    var s := line + "\n" + rest;
    assert s[..|line|] == line && s[|line| + 1..] == rest;
    assert DropCr(line) == line;
  }

  predicate IsLine(s: string) { '\n' !in s && '\r' !in s }

  // ---- keys and values ----

  /** `splitn(2, ' ')`: the word before the first space and all that follows it. */
  function KeyOf(line: string): string {
    if line == [] || line[0] == ' ' then [] else [line[0]] + KeyOf(line[1..])
  }

  function ValueOf(line: string): string {
    if line == [] then [] else if line[0] == ' ' then line[1..] else ValueOf(line[1..])
  }

  lemma {:induction false} KeyValue(key: string, value: string)
    requires ' ' !in key
    ensures KeyOf(key + " " + value) == key && ValueOf(key + " " + value) == value
  {
    var s := key + " " + value;
    if key == [] {
      assert s[1..] == value;
    } else {
      assert s[1..] == key[1..] + " " + value;
      assert s[0] == key[0];
      KeyValue(key[1..], value);
    }
  }

  datatype Key = Size | Mtime | OrderedHash | LineCount | XorFingerprint | SumFingerprint | Unknown

  function NameOf(key: Key): string {
    match key
    case Size => "size"
    case Mtime => "mtime_ns"
    case OrderedHash => "ordered_hash"
    case LineCount => "line_count"
    case XorFingerprint => "xor_fingerprint"
    case SumFingerprint => "sum_fingerprint"
    case Unknown => "parityhash"
  }

  function KeyNamed(name: string): Key {
    if name == NameOf(Size) then Size
    else if name == NameOf(Mtime) then Mtime
    else if name == NameOf(OrderedHash) then OrderedHash
    else if name == NameOf(LineCount) then LineCount
    else if name == NameOf(XorFingerprint) then XorFingerprint
    else if name == NameOf(SumFingerprint) then SumFingerprint
    else Unknown
  }

  lemma NamesAreTokens(key: Key)
    ensures IsToken(NameOf(key))
  {
  }

  lemma NamesDiffer(key: Key)
    ensures KeyNamed(NameOf(key)) == key
  {
    match key
    case Size =>
    case Mtime =>
    case OrderedHash =>
    case LineCount =>
    case XorFingerprint =>
    case SumFingerprint => assert NameOf(XorFingerprint)[0] == 'x' && NameOf(SumFingerprint)[0] == 's';
    case Unknown => assert NameOf(LineCount)[0] == 'l' && NameOf(Unknown)[0] == 'p';
  }

  /** What has been read so far. */
  datatype Fields = Fields(
    size: Option<nat>, mtime: Option<nat>, orderedHash: Option<string>,
    lineCount: Option<nat>, xor: Option<nat>, sum: Option<nat>)

  const NOTHING := Fields(None, None, None, None, None, None)

  function Absorb(f: Fields, key: Key, value: string): Fields {
    match key
    case Size => f.(size := Parse(value, TWO_64))
    case Mtime => f.(mtime := Parse(value, TWO_128))
    case OrderedHash => f.(orderedHash := Some(value))
    case LineCount => f.(lineCount := Parse(value, TWO_64))
    case XorFingerprint => f.(xor := Parse(value, TWO_64))
    case SumFingerprint => f.(sum := Parse(value, TWO_128))
    case Unknown => f
  }

  function AbsorbLine(f: Fields, line: string): Fields {
    Absorb(f, KeyNamed(KeyOf(line)), ValueOf(line))
  }

  function AbsorbLines(f: Fields, lines: seq<string>): Fields
    decreases |lines|
  {
    if lines == [] then f else AbsorbLines(AbsorbLine(f, lines[0]), lines[1..])
  }

  function Recorded(f: Fields, identity: Identity): Option<FileStats> {
    if f.size != Some(identity.size) || f.mtime != Some(identity.mtime) then None
    else if f.orderedHash.None? || f.lineCount.None? || f.xor.None? || f.sum.None? then None
    else Some(FileStats(f.orderedHash.value, Fingerprint(f.lineCount.value, f.xor.value, f.sum.value)))
  }

  /** The statistics a sidecar text records for an identity. */
  function Load(text: string, identity: Identity): Option<FileStats> {
    Recorded(AbsorbLines(NOTHING, LinesOf(text)), identity)
  }

  method LoadCachedStats(sidecar: Option<string>, identity: Identity) returns (r: Option<FileStats>)
    ensures r == if sidecar.None? then None else Load(sidecar.value, identity)
  {
    if sidecar.None? {
      return None;
    }
    var lines := LinesOf(sidecar.value);
    var f := NOTHING;
    for i := 0 to |lines|
      invariant AbsorbLines(f, lines[i..]) == AbsorbLines(NOTHING, lines)
    {
      assert lines[i..][1..] == lines[i + 1..];
      f := AbsorbLine(f, lines[i]);
    }
    r := Recorded(f, identity);
  }

  // ---- storing ----

  function Entry(key: Key, value: string, rest: string): string { NameOf(key) + " " + value + "\n" + rest }

  function SidecarOf(identity: Identity, st: FileStats): string {
    IdentityOf(identity, Entry(OrderedHash, st.orderedHash, CountersOf(st.fingerprint)))
  }

  function IdentityOf(identity: Identity, rest: string): string {
    Entry(Unknown, "v1",
      Entry(Size, Print(identity.size),
        Entry(Mtime, Print(identity.mtime), rest)))
  }

  function CountersOf(fp: Fingerprint): string {
    Entry(LineCount, Print(fp.lineCount),
      Entry(XorFingerprint, Print(fp.xor),
        Entry(SumFingerprint, Print(fp.sum), "")))
  }

  function Read(f: Fields, text: string): Fields { AbsorbLines(f, LinesOf(text)) }

  lemma PrintIsToken(n: nat)
    ensures IsToken(Print(n))
  {
    PrintIsDigits(n);
  }

  lemma EntryIsRead(f: Fields, key: Key, value: string, rest: string)
    requires IsToken(value)
    ensures Read(f, Entry(key, value, rest)) == Read(Absorb(f, key, value), rest)
  {
    NamesAreTokens(key);
    NamesDiffer(key);
    KeyValue(NameOf(key), value);
    var line := NameOf(key) + " " + value;
    FirstLine(line, rest);
    assert ([line] + LinesOf(rest))[1..] == LinesOf(rest);
  }

  function Width(key: Key): nat { if key == Mtime || key == SumFingerprint then TWO_128 else TWO_64 }

  lemma NumberIsRead(f: Fields, key: Key, n: nat, rest: string)
    requires n < Width(key)
    ensures Read(f, Entry(key, Print(n), rest)) == Read(Absorb(f, key, Print(n)), rest)
    ensures Parse(Print(n), Width(key)) == Some(n)
  {
    PrintIsToken(n);
    PrintParses(n, Width(key));
    EntryIsRead(f, key, Print(n), rest);
  }

  lemma CountersAreRead(f: Fields, fp: Fingerprint)
    requires fp.lineCount < TWO_64 && fp.xor < TWO_64 && fp.sum < TWO_128
    ensures Read(f, CountersOf(fp)) == f.(lineCount := Some(fp.lineCount), xor := Some(fp.xor), sum := Some(fp.sum))
  {
    var last := Entry(SumFingerprint, Print(fp.sum), "");
    NumberIsRead(f, LineCount, fp.lineCount, Entry(XorFingerprint, Print(fp.xor), last));
    var f1 := f.(lineCount := Some(fp.lineCount));
    NumberIsRead(f1, XorFingerprint, fp.xor, last);
    NumberIsRead(f1.(xor := Some(fp.xor)), SumFingerprint, fp.sum, "");
  }

  lemma IdentityIsRead(identity: Identity, rest: string)
    ensures Read(NOTHING, IdentityOf(identity, rest)) ==
            Read(NOTHING.(size := Some(identity.size), mtime := Some(identity.mtime)), rest)
  {
    var mtime := Entry(Mtime, Print(identity.mtime), rest);
    EntryIsRead(NOTHING, Unknown, "v1", Entry(Size, Print(identity.size), mtime));
    SizeIsRead(NOTHING, identity.size, mtime);
    MtimeIsRead(NOTHING.(size := Some(identity.size)), identity.mtime, rest);
  }

  lemma SizeIsRead(f: Fields, size: U64, rest: string)
    ensures Read(f, Entry(Size, Print(size), rest)) == Read(f.(size := Some(size)), rest)
  {
    NumberIsRead(f, Size, size, rest);
  }

  lemma MtimeIsRead(f: Fields, mtime: U128, rest: string)
    ensures Read(f, Entry(Mtime, Print(mtime), rest)) == Read(f.(mtime := Some(mtime)), rest)
  {
    NumberIsRead(f, Mtime, mtime, rest);
  }

  lemma SidecarIsRead(identity: Identity, st: FileStats)
    requires Storable(st)
    ensures Read(NOTHING, SidecarOf(identity, st)) ==
            Fields(Some(identity.size), Some(identity.mtime), Some(st.orderedHash), Some(st.fingerprint.lineCount),
                   Some(st.fingerprint.xor), Some(st.fingerprint.sum))
  {
    var counters := CountersOf(st.fingerprint);
    IdentityIsRead(identity, Entry(OrderedHash, st.orderedHash, counters));
    var f := NOTHING.(size := Some(identity.size), mtime := Some(identity.mtime));
    EntryIsRead(f, OrderedHash, st.orderedHash, counters);
    CountersAreRead(f.(orderedHash := Some(st.orderedHash)), st.fingerprint);
  }

  /** A stored sidecar reads back as the stored statistics, for the stored identity and for no other. */
  lemma StoredIsLoaded(identity: Identity, st: FileStats, other: Identity)
    requires Storable(st)
    ensures Load(SidecarOf(identity, st), other) == if other == identity then Some(st) else None
  {
    SidecarIsRead(identity, st);
  }

  // ---- the text, letter by letter ----

  function Row(word: string, value: string, rest: string): string { word + " " + value + "\n" + rest }

  /** The stored text, line after line. */
  lemma SidecarTextIs(identity: Identity, st: FileStats)
    ensures SidecarOf(identity, st) ==
            Row("parityhash", "v1",
              Row("size", Print(identity.size),
                Row("mtime_ns", Print(identity.mtime),
                  Row("ordered_hash", st.orderedHash,
                    Row("line_count", Print(st.fingerprint.lineCount),
                      Row("xor_fingerprint", Print(st.fingerprint.xor),
                        Row("sum_fingerprint", Print(st.fingerprint.sum), "")))))))
  {
    assert forall value, rest :: Entry(SumFingerprint, value, rest) == Row("sum_fingerprint", value, rest);
  }

  lemma SpacedNames()
    ensures NameOf(Size) + " " == "size " && NameOf(Mtime) + " " == "mtime_ns "
    ensures NameOf(OrderedHash) + " " == "ordered_hash " && NameOf(LineCount) + " " == "line_count "
    ensures NameOf(XorFingerprint) + " " == "xor_fingerprint " && NameOf(SumFingerprint) + " " == "sum_fingerprint "
  {
  }

  /** What each word at the start of a line sets; any other word sets nothing. */
  lemma LineSets(f: Fields, value: string)
    ensures AbsorbLine(f, "size " + value) == f.(size := Parse(value, 0x1_0000_0000_0000_0000))
    ensures AbsorbLine(f, "mtime_ns " + value) == f.(mtime := Parse(value, 0x1_0000_0000_0000_0000_0000_0000_0000_0000))
    ensures AbsorbLine(f, "ordered_hash " + value) == f.(orderedHash := Some(value))
    ensures AbsorbLine(f, "line_count " + value) == f.(lineCount := Parse(value, 0x1_0000_0000_0000_0000))
    ensures AbsorbLine(f, "xor_fingerprint " + value) == f.(xor := Parse(value, 0x1_0000_0000_0000_0000))
    ensures AbsorbLine(f, "sum_fingerprint " + value) == f.(sum := Parse(value, 0x1_0000_0000_0000_0000_0000_0000_0000_0000))
  {
    SpacedNames();
    NamedLine(f, Size, value);
    NamedLine(f, Mtime, value);
    NamedLine(f, OrderedHash, value);
    NamedLine(f, LineCount, value);
    NamedLine(f, XorFingerprint, value);
    NamedLine(f, SumFingerprint, value);
  }

  lemma NamedLine(f: Fields, key: Key, value: string)
    ensures AbsorbLine(f, NameOf(key) + " " + value) == Absorb(f, key, value)
  {
    NamesAreTokens(key);
    NamesDiffer(key);
    KeyValue(NameOf(key), value);
  }

  lemma OtherLinesSetNothing(f: Fields, line: string)
    requires KeyOf(line) !in
             {"size", "mtime_ns", "ordered_hash", "line_count", "xor_fingerprint", "sum_fingerprint"}
    ensures AbsorbLine(f, line) == f
  {
  }

  // ---- later lines win ----

  /** A carriage return before the newline belongs to the line end. */
  lemma FirstLineWithReturn(line: string, rest: string)
    requires IsLine(line)
    ensures LinesOf((line + "\r") + "\n" + rest) == [line] + LinesOf(rest)
  {
    var long := line + "\r";
    LineEndAt(long, rest);
    var s := long + "\n" + rest;
    assert s[..|long|] == long && s[|long| + 1..] == rest;
    assert DropCr(long) == line;
  }

  /** The last line may lack its newline. */
  lemma LastLine(line: string)
    requires IsLine(line) && line != ""
    ensures LinesOf(line) == [line] && LinesOf(line + "\n") == [line]
  {
    NoNewline(line);
    OneLine(line);
  }

  lemma OneLine(line: string)
    requires IsLine(line)
    ensures LinesOf(line + "\n") == [line]
  {
    FirstLine(line, "");
    assert line + "\n" + "" == line + "\n";
    assert LinesOf("") == [];
  }

  lemma {:induction false} NoNewline(line: string)
    requires '\n' !in line
    ensures LineEnd(line) == |line|
  {
    if line != "" {
      NoNewline(line[1..]);
    }
  }

  predicate AreLines(lines: seq<string>) { forall i :: 0 <= i < |lines| ==> IsLine(lines[i]) }

  /** A text of these lines. */
  function TextOf(lines: seq<string>): string {
    if lines == [] then "" else lines[0] + "\n" + TextOf(lines[1..])
  }

  lemma {:induction false} TextHasLines(lines: seq<string>)
    requires AreLines(lines)
    ensures LinesOf(TextOf(lines)) == lines
  {
    if lines != [] {
      TextHasLines(lines[1..]);
      assert IsLine(lines[0]);
      FirstLine(lines[0], TextOf(lines[1..]));
    }
  }

  lemma {:induction false} AbsorbSnoc(f: Fields, lines: seq<string>, line: string)
    ensures AbsorbLines(f, lines + [line]) == AbsorbLine(AbsorbLines(f, lines), line)
    decreases |lines|
  {
    if lines == [] {
      assert lines + [line] == [line] && [line][1..] == [];
    } else {
      assert (lines + [line])[1..] == lines[1..] + [line];
      AbsorbSnoc(AbsorbLine(f, lines[0]), lines[1..], line);
    }
  }

  /** Whatever a sidecar says, a line appended to it sets its field anew. */
  lemma LaterWins(lines: seq<string>, line: string)
    requires AreLines(lines) && IsLine(line)
    ensures Read(NOTHING, TextOf(lines + [line])) == AbsorbLine(Read(NOTHING, TextOf(lines)), line)
  {
    TextHasLines(lines);
    TextHasLines(lines + [line]);
    AbsorbSnoc(NOTHING, lines, line);
  }
}
