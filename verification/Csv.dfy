/** The two CSV readers of the tooling scripts and the row printer.

    `SplitCsvFields` cuts a line into raw slices (quotes kept), as the parity
    checker does; `ParseCsvLine` decodes the fields, as the trial analyser does.
    Both scan left to right and know one thing about the past: whether they
    stand inside quotes. */
module Csv {
  import opened Seqs
  import Decimal

  const QUOTE: char := '"'
  const COMMA: char := ','

  /** Put `s` in front of the first field. */
  function PrependTo(s: string, fields: seq<string>): (r: seq<string>)
    requires fields != []
    ensures |r| == |fields| && r[0] == s + fields[0]
    ensures forall i :: 1 <= i < |r| ==> r[i] == fields[i]
  {
    [s + fields[0]] + fields[1..]
  }

  lemma PrependNothing(fields: seq<string>)
    requires fields != []
    ensures PrependTo("", fields) == fields
  {
    assert "" + fields[0] == fields[0];
  }

  lemma PrependTwice(a: string, b: string, fields: seq<string>)
    requires fields != []
    ensures PrependTo(a, PrependTo(b, fields)) == PrependTo(a + b, fields)
  {
    assert a + (b + fields[0]) == (a + b) + fields[0];
    assert PrependTo(b, fields)[1..] == fields[1..];
  }

  lemma PrependToEmptyField(a: string, fields: seq<string>)
    ensures PrependTo(a, [""] + fields) == [a] + fields
  {
    assert a + "" == a;
    assert ([""] + fields)[1..] == fields;
  }

  /** The raw fields of `s`, when the scan enters it with the given quote state. */
  function RawFields(s: string, quoted: bool): (r: seq<string>)
    ensures r != []
  {
    if s == [] then [""]
    else if s[0] == QUOTE then PrependTo([s[0]], RawFields(s[1..], !quoted))
    else if s[0] == COMMA && !quoted then [""] + RawFields(s[1..], false)
    else PrependTo([s[0]], RawFields(s[1..], quoted))
  }

  /** The decoded fields of `s`: a doubled quote inside quotes stands for one quote. */
  function DecodedFields(s: string, quoted: bool): (r: seq<string>)
    ensures r != []
  {
    if s == [] then [""]
    else if s[0] == QUOTE then
      if quoted && |s| > 1 && s[1] == QUOTE then PrependTo([QUOTE], DecodedFields(s[2..], true))
      else DecodedFields(s[1..], !quoted)
    else if s[0] == COMMA && !quoted then [""] + DecodedFields(s[1..], false)
    else PrependTo([s[0]], DecodedFields(s[1..], quoted))
  }

  function Split(line: string): (r: seq<string>)
    ensures r != []
  {
    RawFields(line, false)
  }

  /** What one raw slice means, on its own. */
  function Unquote(raw: string, quoted: bool): string {
    if raw == [] then []
    else if raw[0] == QUOTE then
      if quoted && |raw| > 1 && raw[1] == QUOTE then [QUOTE] + Unquote(raw[2..], true)
      else Unquote(raw[1..], !quoted)
    else [raw[0]] + Unquote(raw[1..], quoted)
  }

  function Join(fields: seq<string>): string
    requires fields != []
  {
    if |fields| == 1 then fields[0] else fields[0] + [COMMA] + Join(fields[1..])
  }

  /** Does a scan of `s` entered with `quoted` leave it inside quotes? */
  predicate QuotedAfter(s: string, quoted: bool) {
    if s == [] then quoted
    else QuotedAfter(s[1..], if s[0] == QUOTE then !quoted else quoted)
  }

  /** No comma of `s` stands outside quotes. */
  predicate NoBareComma(s: string, quoted: bool) {
    s == [] ||
    (!(s[0] == COMMA && !quoted) && NoBareComma(s[1..], if s[0] == QUOTE then !quoted else quoted))
  }

  /** A cut of a line into fields: every separator was a bare comma and no field holds one. */
  predicate IsCut(fields: seq<string>, quoted: bool) {
    fields != [] &&
    NoBareComma(fields[0], quoted) &&
    (|fields| > 1 ==> !QuotedAfter(fields[0], quoted) && IsCut(fields[1..], false))
  }

  // ---- the raw splitter is the one cut of its line ----

  lemma {:induction false} JoinPrepend(s: string, fields: seq<string>)
    requires fields != []
    ensures Join(PrependTo(s, fields)) == s + Join(fields)
  {
    if |fields| == 1 {
    } else {
      assert PrependTo(s, fields)[1..] == fields[1..];
    }
  }

  /** Joining the raw slices with commas gives the line back. */
  lemma {:induction false} RawFieldsJoin(s: string, quoted: bool)
    ensures Join(RawFields(s, quoted)) == s
  {
    if s == [] {
    } else if s[0] == COMMA && !quoted {
      var rest := RawFields(s[1..], false);
      RawFieldsJoin(s[1..], false);
      assert ([""] + rest)[1..] == rest;
    } else {
      var q := if s[0] == QUOTE then !quoted else quoted;
      RawFieldsJoin(s[1..], q);
      JoinPrepend([s[0]], RawFields(s[1..], q));
    }
  }

  lemma {:induction false} RawFieldsCut(s: string, quoted: bool)
    ensures IsCut(RawFields(s, quoted), quoted)
  {
    if s == [] {
    } else if s[0] == COMMA && !quoted {
      var rest := RawFields(s[1..], false);
      RawFieldsCut(s[1..], false);
      assert ([""] + rest)[1..] == rest;
    } else {
      var q := if s[0] == QUOTE then !quoted else quoted;
      RawFieldsCut(s[1..], q);
      var rest := RawFields(s[1..], q);
      var whole := PrependTo([s[0]], rest);
      assert whole[0][1..] == rest[0] && whole[1..] == rest[1..];
    }
  }

  /** There is no other cut: the reader finds the fields of whatever was joined. */
  lemma {:induction false} CutIsUnique(fields: seq<string>, quoted: bool)
    requires IsCut(fields, quoted)
    ensures RawFields(Join(fields), quoted) == fields
    decreases |fields|, |fields[0]|
  {
    var line := Join(fields);
    var head := fields[0];
    if head == [] {
      if |fields| > 1 {
        assert line == [COMMA] + Join(fields[1..]);
        assert line[1..] == Join(fields[1..]);
        CutIsUnique(fields[1..], false);
      }
    } else {
      var q := if head[0] == QUOTE then !quoted else quoted;
      var shorter := [head[1..]] + fields[1..];
      assert shorter[1..] == fields[1..];
      CutIsUnique(shorter, q);
      assert [head[0]] + head[1..] == head;
      assert fields == [head] + fields[1..];
      JoinPrepend([head[0]], shorter);
      assert line[1..] == Join(shorter);
    }
  }

  /** Split is the inverse of Join on cuts, in both directions. */
  lemma SplitIsTheCut(line: string, fields: seq<string>)
    ensures fields == Split(line) <==> IsCut(fields, false) && Join(fields) == line
  {
    RawFieldsJoin(line, false);
    RawFieldsCut(line, false);
    if IsCut(fields, false) && Join(fields) == line {
      CutIsUnique(fields, false);
    }
  }

  /** Different lines have different fields. */
  lemma SplitInjective(a: string, b: string)
    ensures Split(a) == Split(b) ==> a == b
  {
    RawFieldsJoin(a, false);
    RawFieldsJoin(b, false);
  }

  // ---- the two readers agree ----

  /** How unquoting treats one more character in front. */
  lemma UnquoteCons(c: char, raw: string, quoted: bool)
    ensures c != QUOTE ==> Unquote([c] + raw, quoted) == [c] + Unquote(raw, quoted)
    ensures c == QUOTE && !(quoted && raw != [] && raw[0] == QUOTE) ==>
              Unquote([c] + raw, quoted) == Unquote(raw, !quoted)
    ensures Unquote([QUOTE] + ([QUOTE] + raw), true) == [QUOTE] + Unquote(raw, true)
  {
    assert ([c] + raw)[1..] == raw;
    assert ([QUOTE] + ([QUOTE] + raw))[2..] == raw;
  }

  /** The decoded fields are the raw ones, unquoted. */
  ghost predicate Agree(decoded: seq<string>, raw: seq<string>, quoted: bool) {
    |decoded| == |raw| > 0 && decoded[0] == Unquote(raw[0], quoted) &&
    forall i :: 1 <= i < |raw| ==> decoded[i] == Unquote(raw[i], false)
  }

  lemma FirstFieldStartsTheLine(s: string, quoted: bool)
    ensures var f := RawFields(s, quoted)[0]; f == [] || (s != [] && f[0] == s[0])
  {
  }

  lemma AgreeDoubled(decoded: seq<string>, raw: seq<string>)
    requires Agree(decoded, raw, true)
    ensures Agree(PrependTo([QUOTE], decoded), PrependTo([QUOTE], PrependTo([QUOTE], raw)), true)
  {
    UnquoteCons(QUOTE, raw[0], true);
  }

  lemma AgreeQuote(decoded: seq<string>, raw: seq<string>, quoted: bool)
    requires Agree(decoded, raw, !quoted) && !(quoted && raw[0] != [] && raw[0][0] == QUOTE)
    ensures Agree(decoded, PrependTo([QUOTE], raw), quoted)
  {
    UnquoteCons(QUOTE, raw[0], quoted);
  }

  lemma AgreeChar(c: char, decoded: seq<string>, raw: seq<string>, quoted: bool)
    requires Agree(decoded, raw, quoted) && c != QUOTE
    ensures Agree(PrependTo([c], decoded), PrependTo([c], raw), quoted)
  {
    UnquoteCons(c, raw[0], quoted);
  }

  /** On every string the decoder finds the splitter's boundaries, and each decoded
      field is the unquoting of the raw slice at the same place. */
  lemma {:induction false} ReadersAgree(s: string, quoted: bool)
    ensures Agree(DecodedFields(s, quoted), RawFields(s, quoted), quoted)
    decreases |s|
  {
    if s == [] {
    } else if s[0] == QUOTE && quoted && |s| > 1 && s[1] == QUOTE {
      ReadersAgree(s[2..], true);
      assert s[1..][1..] == s[2..];
      assert RawFields(s[1..], false) == PrependTo([QUOTE], RawFields(s[2..], true));
      AgreeDoubled(DecodedFields(s[2..], true), RawFields(s[2..], true));
    } else if s[0] == QUOTE {
      ReadersAgree(s[1..], !quoted);
      FirstFieldStartsTheLine(s[1..], !quoted);
      AgreeQuote(DecodedFields(s[1..], !quoted), RawFields(s[1..], !quoted), quoted);
    } else if s[0] == COMMA && !quoted {
      ReadersAgree(s[1..], false);
    } else {
      ReadersAgree(s[1..], quoted);
      AgreeChar(s[0], DecodedFields(s[1..], quoted), RawFields(s[1..], quoted), quoted);
    }
  }

  // ---- the scanning loops ----

  /** One step of the splitting loop: the scan stands before `c`. */
  lemma RawStep(done: seq<string>, current: string, c: char, s: string, quoted: bool)
    ensures c == COMMA && !quoted ==>
              done + PrependTo(current, RawFields([c] + s, quoted)) ==
              (done + [current]) + PrependTo("", RawFields(s, false))
    ensures !(c == COMMA && !quoted) ==>
              done + PrependTo(current, RawFields([c] + s, quoted)) ==
              done + PrependTo(current + [c], RawFields(s, if c == QUOTE then !quoted else quoted))
  {
    assert ([c] + s)[1..] == s;
    if c == COMMA && !quoted {
      PrependToEmptyField(current, RawFields(s, false));
      PrependNothing(RawFields(s, false));
    } else {
      PrependTwice(current, [c], RawFields(s, if c == QUOTE then !quoted else quoted));
    }
  }

  /** One step of the decoding loop. */
  lemma DecodedStep(done: seq<string>, current: string, s: string, quoted: bool)
    requires s != []
    ensures done + PrependTo(current, DecodedFields(s, quoted)) ==
            if s[0] == QUOTE then
              if quoted && |s| > 1 && s[1] == QUOTE
              then done + PrependTo(current + [QUOTE], DecodedFields(s[2..], true))
              else done + PrependTo(current, DecodedFields(s[1..], !quoted))
            else if s[0] == COMMA && !quoted
            then (done + [current]) + PrependTo("", DecodedFields(s[1..], false))
            else done + PrependTo(current + [s[0]], DecodedFields(s[1..], quoted))
  {
    if s[0] == QUOTE {
      if quoted && |s| > 1 && s[1] == QUOTE {
        PrependTwice(current, [QUOTE], DecodedFields(s[2..], true));
      }
    } else if s[0] == COMMA && !quoted {
      PrependToEmptyField(current, DecodedFields(s[1..], false));
      PrependNothing(DecodedFields(s[1..], false));
    } else {
      PrependTwice(current, [s[0]], DecodedFields(s[1..], quoted));
    }
  }

  /** Moving one character from what is to come to what is open. */
  lemma Advance(line: string, start: nat, i: nat)
    requires start <= i < |line|
    ensures line[i..] == [line[i]] + line[i + 1..]
    ensures line[start..i] + [line[i]] == line[start..i + 1]
  {
  }

  /** The splitter while it scans: fields found, the open one, and the rest of the line. */
  ghost predicate Splitting(line: string, fields: seq<string>, current: string, rest: string, inQuotes: bool) {
    Split(line) == fields + PrependTo(current, RawFields(rest, inQuotes))
  }

  lemma SplittingNext(line: string, fields: seq<string>, start: nat, i: nat, inQuotes: bool)
    requires start <= i < |line| && Splitting(line, fields, line[start..i], line[i..], inQuotes)
    ensures line[i] == COMMA && !inQuotes ==>
              Splitting(line, fields + [line[start..i]], line[i + 1..i + 1], line[i + 1..], inQuotes)
    ensures !(line[i] == COMMA && !inQuotes) ==>
              Splitting(line, fields, line[start..i + 1], line[i + 1..], if line[i] == QUOTE then !inQuotes else inQuotes)
  {
    Advance(line, start, i);
    RawStep(fields, line[start..i], line[i], line[i + 1..], inQuotes);
    assert line[i + 1..i + 1] == "";
  }

  lemma SplittingLast(line: string, fields: seq<string>, start: nat, inQuotes: bool)
    requires start <= |line| && Splitting(line, fields, line[start..|line|], line[|line|..], inQuotes)
    ensures Split(line) == fields + [line[start..]]
  {
    assert line[|line|..] == "" && line[start..|line|] == line[start..];
    assert line[start..] + "" == line[start..];
  }

  method SplitCsvFields(line: string) returns (fields: seq<string>)
    ensures fields == Split(line)
    ensures Join(fields) == line
  {
    fields := [];
    var start: nat := 0;
    var inQuotes := false;
    assert line[0..0] == "" && line[0..] == line;
    PrependNothing(Split(line));
    for i := 0 to |line|
      invariant start <= i
      invariant Splitting(line, fields, line[start..i], line[i..], inQuotes)
    {
      SplittingNext(line, fields, start, i, inQuotes);
      if line[i] == QUOTE {
        inQuotes := !inQuotes;
      } else if line[i] == COMMA && !inQuotes {
        fields := fields + [line[start..i]];
        start := i + 1;
      }
    }
    SplittingLast(line, fields, start, inQuotes);
    fields := fields + [line[start..]];
    RawFieldsJoin(line, false);
  }

  method ParseCsvLine(line: string) returns (fields: seq<string>)
    ensures fields == DecodedFields(line, false)
    ensures |fields| == |Split(line)|
    ensures forall i :: 0 <= i < |fields| ==> fields[i] == Unquote(Split(line)[i], false)
  {
    fields := [];
    var current := "";
    var inQuotes := false;
    var i := 0;
    assert line[0..] == line;
    PrependNothing(DecodedFields(line, false));
    while i < |line|
      invariant i <= |line|
      invariant DecodedFields(line, false) == fields + PrependTo(current, DecodedFields(line[i..], inQuotes))
    {
      DecodedStep(fields, current, line[i..], inQuotes);
      assert line[i..][1..] == line[i + 1..];
      var c := line[i];
      i := i + 1;
      if c == QUOTE {
        if inQuotes {
          if i < |line| && line[i] == QUOTE {
            assert line[i - 1..][2..] == line[i + 1..];
            current := current + [QUOTE];
            i := i + 1;
          } else {
            inQuotes := false;
          }
        } else {
          inQuotes := true;
        }
      } else if c == COMMA && !inQuotes {
        fields := fields + [current];
        current := "";
      } else {
        current := current + [c];
      }
    }
    assert current + "" == current;
    fields := fields + [current];
    ReadersAgree(line, false);
  }

  // ---- printing a row ----

  function Escape(path: string): string {
    if path == [] then []
    else if path[0] == QUOTE then [QUOTE, QUOTE] + Escape(path[1..])
    else [path[0]] + Escape(path[1..])
  }

  /** The unquoted columns after the first one. */
  function Columns(values: seq<string>): string {
    if values == [] then [] else [COMMA] + values[0] + Columns(values[1..])
  }

  /** A sample row: the quoted, escaped path and then the numeric columns. */
  function PrintRow(path: string, numbers: seq<nat>): string {
    [QUOTE] + (Escape(path) + ([QUOTE] + Columns(Map(Decimal.Print, numbers))))
  }

  predicate Plain(s: string) {
    forall i :: 0 <= i < |s| ==> s[i] != QUOTE && s[i] != COMMA
  }

  /** How decoding treats one more character in front. */
  lemma DecodeCons(c: char, s: string, quoted: bool)
    ensures c != QUOTE && !(c == COMMA && !quoted) ==>
              DecodedFields([c] + s, quoted) == PrependTo([c], DecodedFields(s, quoted))
    ensures c == COMMA && !quoted ==> DecodedFields([c] + s, quoted) == [""] + DecodedFields(s, false)
    ensures c == QUOTE && !(quoted && s != [] && s[0] == QUOTE) ==>
              DecodedFields([c] + s, quoted) == DecodedFields(s, !quoted)
  {
    assert ([c] + s)[1..] == s;
  }

  lemma DecodeDoubled(s: string)
    ensures DecodedFields([QUOTE, QUOTE] + s, true) == PrependTo([QUOTE], DecodedFields(s, true))
  {
    assert ([QUOTE, QUOTE] + s)[2..] == s;
  }

  lemma {:induction false} PlainFieldDecodes(s: string, rest: string)
    requires Plain(s)
    ensures DecodedFields(s + rest, false) == PrependTo(s, DecodedFields(rest, false))
  {
    if s == [] {
      assert s + rest == rest;
      PrependNothing(DecodedFields(rest, false));
    } else {
      PlainFieldDecodes(s[1..], rest);
      assert s + rest == [s[0]] + (s[1..] + rest);
      DecodeCons(s[0], s[1..] + rest, false);
      PrependTwice([s[0]], s[1..], DecodedFields(rest, false));
      assert [s[0]] + s[1..] == s;
    }
  }

  lemma {:induction false} EscapedDecodes(path: string, rest: string)
    requires rest == [] || rest[0] != QUOTE
    ensures DecodedFields(Escape(path) + ([QUOTE] + rest), true) == PrependTo(path, DecodedFields(rest, false))
  {
    var tail := [QUOTE] + rest;
    if path == [] {
      assert Escape(path) + tail == tail;
      DecodeCons(QUOTE, rest, true);
      PrependNothing(DecodedFields(rest, false));
    } else {
      var inner := Escape(path[1..]) + tail;
      EscapedDecodes(path[1..], rest);
      EscapeStep(path, tail);
      if path[0] == QUOTE {
        DecodeDoubled(inner);
      } else {
        DecodeCons(path[0], inner, true);
      }
      PrependTwice([path[0]], path[1..], DecodedFields(rest, false));
      assert [path[0]] + path[1..] == path;
    }
  }

  lemma EscapeStep(path: string, tail: string)
    requires path != []
    ensures Escape(path) + tail ==
            (if path[0] == QUOTE then [QUOTE, QUOTE] else [path[0]]) + (Escape(path[1..]) + tail)
  {
  }

  lemma {:induction false} ColumnsDecode(values: seq<string>)
    requires forall i :: 0 <= i < |values| ==> Plain(values[i])
    ensures DecodedFields(Columns(values), false) == [""] + values
  {
    if values != [] {
      var rest := Columns(values[1..]);
      ColumnsDecode(values[1..]);
      PlainFieldDecodes(values[0], rest);
      PrependToEmptyField(values[0], values[1..]);
      assert Columns(values) == [COMMA] + (values[0] + rest);
      DecodeCons(COMMA, values[0] + rest, false);
      assert [values[0]] + values[1..] == values;
    }
  }

  /** Parsing a printed row returns the path, whatever it contains, and the numbers. */
  lemma PrintedRowParses(path: string, numbers: seq<nat>)
    ensures DecodedFields(PrintRow(path, numbers), false) == [path] + Map(Decimal.Print, numbers)
  {
    var values := Map(Decimal.Print, numbers);
    forall i | 0 <= i < |values| ensures Plain(values[i]) {
      Decimal.PrintIsDigits(numbers[i]);
    }
    RowDecodes(path, values);
  }

  lemma RowDecodes(path: string, values: seq<string>)
    requires forall i :: 0 <= i < |values| ==> Plain(values[i])
    ensures DecodedFields([QUOTE] + (Escape(path) + ([QUOTE] + Columns(values))), false) == [path] + values
  {
    ColumnsDecode(values);
    EscapedDecodes(path, Columns(values));
    DecodeCons(QUOTE, Escape(path) + ([QUOTE] + Columns(values)), false);
    PrependToEmptyField(path, values);
  }

  // ---- quotes, counted ----

  /** Number of quotes. */
  function Quotes(s: string): nat { |Filter(c => c == '"', s)| }

  lemma QuotesCons(s: string)
    requires s != []
    ensures Quotes(s) == Quotes(s[1..]) + if s[0] == '"' then 1 else 0
  {
    FilterAppend(c => c == '"', s[..1], s[1..]);
    assert s == s[..1] + s[1..] && s[..1][..0] == [];
  }

  lemma {:induction false} QuotedAfterIff(s: string, quoted: bool)
    ensures QuotedAfter(s, quoted) <==> (if quoted then Quotes(s) % 2 == 0 else Quotes(s) % 2 == 1)
  {
    if s != [] {
      QuotesCons(s);
      QuotedAfterIff(s[1..], if s[0] == QUOTE then !quoted else quoted);
    }
  }

  /** The comma stands outside quotes: an even number of quotes precedes it. */
  predicate IsBare(s: string, i: nat, quoted: bool) {
    i < |s| && s[i] == ',' && (Quotes(s[..i]) % 2 == 0 <==> !quoted)
  }

  lemma BareNext(s: string, i: nat, quoted: bool)
    requires s != []
    ensures IsBare(s, i + 1, quoted) <==> IsBare(s[1..], i, if s[0] == QUOTE then !quoted else quoted)
  {
    if i + 1 < |s| {
      QuotesCons(s[..i + 1]);
      assert s[..i + 1][1..] == s[1..][..i];
    }
  }

  lemma {:induction false} NoBareCommaIff(s: string, quoted: bool)
    ensures NoBareComma(s, quoted) <==> forall i: nat :: !IsBare(s, i, quoted)
  {
    if s != [] {
      var q := if s[0] == QUOTE then !quoted else quoted;
      NoBareCommaIff(s[1..], q);
      assert s[..0] == [];
      assert IsBare(s, 0, quoted) <==> s[0] == COMMA && !quoted;
      forall i: nat ensures IsBare(s, i + 1, quoted) <==> IsBare(s[1..], i, q) {
        BareNext(s, i, quoted);
      }
      if forall i: nat :: !IsBare(s, i, quoted) {
        forall i: nat ensures !IsBare(s[1..], i, q) {
          assert !IsBare(s, i + 1, quoted);
        }
      }
      if forall i: nat :: !IsBare(s[1..], i, q) {
        forall i: nat | i > 0 ensures !IsBare(s, i, quoted) {
          assert !IsBare(s[1..], i - 1, q);
          assert IsBare(s, (i - 1) + 1, quoted) <==> IsBare(s[1..], i - 1, q);
        }
      }
    }
  }

  /** Every comma of the field is inside quotes and, in all fields but the last, the quotes pair up. */
  ghost predicate Balanced(field: string, quoted: bool, last: bool) {
    (forall i: nat :: !IsBare(field, i, quoted)) && (last || (Quotes(field) % 2 == 0 <==> !quoted))
  }

  /** The fields of a line are balanced. */
  lemma FieldsBalance(line: string, k: nat)
    requires k < |Split(line)|
    ensures Balanced(Split(line)[k], false, k + 1 == |Split(line)|)
  {
    RawFieldsCut(line, false);
    CutBalances(Split(line), k);
  }

  lemma {:induction false} CutBalances(fields: seq<string>, k: nat)
    requires IsCut(fields, false) && k < |fields|
    ensures Balanced(fields[k], false, k + 1 == |fields|)
  {
    if k == 0 {
      NoBareCommaIff(fields[0], false);
      QuotedAfterIff(fields[0], false);
    } else {
      CutBalances(fields[1..], k - 1);
    }
  }

  // ---- what a raw slice means, part by part ----

  /** Outside quotes characters stand for themselves. */
  lemma {:induction false} UnquotePlain(a: string, rest: string)
    requires QUOTE !in a
    ensures Unquote(a + rest, false) == a + Unquote(rest, false)
  {
    if a == [] {
      assert a + rest == rest;
    } else {
      UnquotePlain(a[1..], rest);
      assert a + rest == [a[0]] + (a[1..] + rest);
      UnquoteCons(a[0], a[1..] + rest, false);
      assert [a[0]] + (a[1..] + Unquote(rest, false)) == a + Unquote(rest, false);
    }
  }

  lemma EscapedTail(text: string, tail: string)
    requires text != []
    ensures Unquote(Escape(text) + tail, true) == [text[0]] + Unquote(Escape(text[1..]) + tail, true)
  {
    EscapeStep(text, tail);
    UnquoteOne(text[0], Escape(text[1..]) + tail);
  }

  /** Inside quotes an escaped text stands for the text, up to the closing quote. */
  lemma {:induction false} UnquoteEscaped(text: string, rest: string)
    requires rest == [] || rest[0] != QUOTE
    ensures Unquote(Escape(text) + ([QUOTE] + rest), true) == text + Unquote(rest, false)
  {
    var tail := [QUOTE] + rest;
    if text == [] {
      assert Escape(text) + tail == tail;
      UnquoteCons(QUOTE, rest, true);
    } else {
      UnquoteEscaped(text[1..], rest);
      EscapedTail(text, tail);
      assert [text[0]] + (text[1..] + Unquote(rest, false)) == text + Unquote(rest, false);
    }
  }

  /** Without one it goes on to the end. */
  lemma {:induction false} UnquoteUnclosed(text: string)
    ensures Unquote(Escape(text), true) == text
  {
    if text != [] {
      UnquoteUnclosed(text[1..]);
      EscapedTail(text, []);
      assert Escape(text) + [] == Escape(text) && Escape(text[1..]) + [] == Escape(text[1..]);
    }
  }

  lemma UnquoteOne(c: char, rest: string)
    ensures Unquote((if c == QUOTE then [QUOTE, QUOTE] else [c]) + rest, true) == [c] + Unquote(rest, true)
  {
    if c == QUOTE {
      assert [QUOTE, QUOTE] + rest == [QUOTE] + ([QUOTE] + rest);
    }
    UnquoteCons(c, rest, true);
  }

  /** A quoted part between plain ones. */
  lemma UnquoteQuoted(a: string, text: string, rest: string)
    requires QUOTE !in a && (rest == [] || rest[0] != QUOTE)
    ensures Unquote(a + ([QUOTE] + (Escape(text) + ([QUOTE] + rest))), false) == a + (text + Unquote(rest, false))
  {
    UnquotePlain(a, [QUOTE] + (Escape(text) + ([QUOTE] + rest)));
    UnquoteCons(QUOTE, Escape(text) + ([QUOTE] + rest), false);
    UnquoteEscaped(text, rest);
  }

  // ---- the printed row, as text ----

  lemma {:induction false} EscapedStaysQuoted(path: string, tail: string)
    ensures QuotedAfter(Escape(path) + tail, true) == QuotedAfter(tail, true)
    ensures NoBareComma(Escape(path) + tail, true) == NoBareComma(tail, true)
  {
    if path == [] {
      assert Escape(path) + tail == tail;
    } else {
      EscapedStaysQuoted(path[1..], tail);
      EscapeStep(path, tail);
      InsideQuotes(path[0], Escape(path[1..]) + tail);
    }
  }

  lemma InsideQuotes(c: char, rest: string)
    ensures var unit := if c == QUOTE then [QUOTE, QUOTE] else [c];
            QuotedAfter(unit + rest, true) == QuotedAfter(rest, true) && NoBareComma(unit + rest, true) == NoBareComma(rest, true)
  {
    assert ([c] + rest)[1..] == rest;
    if c == QUOTE {
      var s := [QUOTE, QUOTE] + rest;
      assert s[1..][1..] == rest;
    }
  }

  lemma {:induction false} PlainIsOutside(s: string)
    requires Plain(s)
    ensures !QuotedAfter(s, false) && NoBareComma(s, false)
  {
    if s != [] {
      PlainIsOutside(s[1..]);
    }
  }

  lemma QuotedField(path: string)
    ensures var field := [QUOTE] + (Escape(path) + [QUOTE]); !QuotedAfter(field, false) && NoBareComma(field, false)
  {
    var field := [QUOTE] + (Escape(path) + [QUOTE]);
    EscapedStaysQuoted(path, [QUOTE]);
    assert field[1..] == Escape(path) + [QUOTE];
    assert [QUOTE][1..] == [];
  }

  lemma JoinMore(field: string, values: seq<string>)
    requires values != []
    ensures Join([field] + values) == field + [COMMA] + Join(values)
  {
    assert ([field] + values)[1..] == values;
  }

  lemma {:induction false} JoinColumns(field: string, values: seq<string>)
    ensures Join([field] + values) == field + Columns(values)
    decreases |values|
  {
    if values == [] {
      assert [field] + values == [field] && field + Columns(values) == field;
    } else {
      JoinMore(field, values);
      JoinColumns(values[0], values[1..]);
      assert [values[0]] + values[1..] == values;
      assert field + [COMMA] + (values[0] + Columns(values[1..])) == field + ([COMMA] + values[0] + Columns(values[1..]));
    }
  }

  lemma {:induction false} PlainCut(values: seq<string>)
    requires values != [] && forall i :: 0 <= i < |values| ==> Plain(values[i])
    ensures IsCut(values, false)
  {
    PlainIsOutside(values[0]);
    if |values| > 1 {
      PlainCut(values[1..]);
    }
  }

  /** The raw fields of a printed row: the quoted path with every quote doubled, and the bare numbers. */
  lemma PrintedRowRaw(path: string, numbers: seq<nat>)
    ensures Split(PrintRow(path, numbers)) == [[QUOTE] + (Escape(path) + [QUOTE])] + Map(Decimal.Print, numbers)
  {
    var field, values := [QUOTE] + (Escape(path) + [QUOTE]), Map(Decimal.Print, numbers);
    forall i | 0 <= i < |values| ensures Plain(values[i]) {
      Decimal.PrintIsDigits(numbers[i]);
    }
    RawRow(path, values);
    assert PrintRow(path, numbers) == field + Columns(values);
  }

  lemma RawRow(path: string, values: seq<string>)
    requires forall i :: 0 <= i < |values| ==> Plain(values[i])
    ensures var field := [QUOTE] + (Escape(path) + [QUOTE]); Split(field + Columns(values)) == [field] + values
  {
    var field := [QUOTE] + (Escape(path) + [QUOTE]);
    var fields := [field] + values;
    QuotedField(path);
    assert fields[1..] == values;
    if values != [] {
      PlainCut(values);
    }
    JoinColumns(field, values);
    CutIsUnique(fields, false);
  }

  /** Every quote of the path is doubled and every other character kept. */
  lemma {:induction false} EscapeDoubles(path: string)
    ensures |Escape(path)| == |path| + Quotes(path) && Quotes(Escape(path)) == 2 * Quotes(path)
  {
    if path != [] {
      EscapeDoubles(path[1..]);
      QuotesCons(path);
      var rest := Escape(path[1..]);
      QuotesCons(Escape(path));
      if path[0] == QUOTE {
        assert Escape(path)[1..] == [QUOTE] + rest;
        QuotesCons([QUOTE] + rest);
        assert ([QUOTE] + rest)[1..] == rest;
      } else {
        assert Escape(path)[1..] == rest;
      }
    }
  }
}
