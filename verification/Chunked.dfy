/** The chunked transfer coding of section 7.1 of RFC 9112 and its decoder.

    Text is a sequence of Unicode scalar values; chunk sizes count the bytes of its UTF-8
    form, so a size can point into the middle of a character. Slicing there aborts the
    program, which is the result None. */
module Chunked {
  import opened Seqs
  import opened Lines

  const CRLF := "\r\n"
  const USIZE_LIMIT: nat := 0x1_0000_0000_0000_0000

  // ---- text measured in bytes ----

  /** Length of the character in UTF-8. */
  function Width(c: char): nat {
    if c < '\U{80}' then 1 else if c < '\U{800}' then 2 else if c < '\U{10000}' then 3 else 4
  }

  function Bytes(s: string): nat {
    if s == [] then 0 else Width(s[0]) + Bytes(s[1..])
  }

  /** How many characters the first `n` bytes hold; None when they end inside a character. */
  function CharsIn(s: string, n: nat): (k: Option<nat>)
    requires n <= Bytes(s)
    ensures k.Some? ==> k.value <= |s|
  {
    if n == 0 then Some(0)
    else if n < Width(s[0]) then None
    else
      match CharsIn(s[1..], n - Width(s[0]))
      case None => None
      case Some(k) => Some(k + 1)
  }

  lemma {:induction false} CharsInPrefix(a: string, b: string)
    ensures Bytes(a) <= Bytes(a + b)
    ensures CharsIn(a + b, Bytes(a)) == Some(|a|)
    ensures b != [] ==> Bytes(a) < Bytes(a + b)
  {
    if a == [] {
      assert a + b == b;
    } else {
      assert (a + b)[1..] == a[1..] + b;
      CharsInPrefix(a[1..], b);
    }
  }

  // ---- the size line ----

  /** Position of the first line end. */
  function CrLf(s: string): (i: Option<nat>)
    ensures i.Some? ==> i.value + 2 <= |s|
  {
    if |s| < 2 then None
    else if s[0] == '\r' && s[1] == '\n' then Some(0)
    else
      match CrLf(s[1..])
      case None => None
      case Some(i) => Some(i + 1)
  }

  function BeforeSemicolon(s: string): string {
    if s == [] || s[0] == ';' then [] else [s[0]] + BeforeSemicolon(s[1..])
  }

  predicate IsHexDigit(c: char) { '0' <= c <= '9' || 'a' <= c <= 'f' || 'A' <= c <= 'F' }

  function HexDigitValue(c: char): nat
    requires IsHexDigit(c)
  {
    if c <= '9' then c as int - '0' as int
    else if c <= 'F' then c as int - 'A' as int + 10
    else c as int - 'a' as int + 10
  }

  predicate AllHex(s: string) { forall i :: 0 <= i < |s| ==> IsHexDigit(s[i]) }

  function HexValue(s: string): nat
    requires AllHex(s)
  {
    if s == [] then 0 else 16 * HexValue(s[..|s| - 1]) + HexDigitValue(s[|s| - 1])
  }

  /** `usize::from_str_radix(_, 16)`: an optional plus sign, at least one digit, no overflow. */
  function ParseHex(s: string): Option<nat> {
    var digits := if s != [] && s[0] == '+' then s[1..] else s;
    if digits == [] || !AllHex(digits) || HexValue(digits) >= USIZE_LIMIT then None
    else Some(HexValue(digits))
  }

  function SizeOf(line: string): Option<nat> { ParseHex(Trim(BeforeSemicolon(line))) }

  // ---- the decoder ----

  /** What one turn of the loop does. */
  datatype Turn = Stop(data: string) | Abort | Continue(data: string, rest: string)

  function StripCrLf(s: string): string { if CRLF <= s then s[2..] else s }

  function TakeChunk(rest: string, size: nat): Turn {
    if Bytes(rest) < size then Stop(rest)
    else
      match CharsIn(rest, size)
      case None => Abort
      case Some(k) => Continue(rest[..k], StripCrLf(rest[k..]))
  }

  /** What follows a size line. */
  function ReadChunk(line: string, rest: string): (t: Turn)
    ensures t.Continue? ==> |t.rest| <= |rest|
  {
    match SizeOf(line)
    case None => Stop([])
    case Some(size) => if size == 0 then Stop([]) else TakeChunk(rest, size)
  }

  /** A turn that goes on has used up input. */
  function NextChunk(remaining: string): (t: Turn)
    ensures t.Continue? ==> |t.rest| < |remaining|
  {
    TrimStartShrinks(remaining);
    var s := TrimStart(remaining);
    match CrLf(s)
    case None => Stop([])
    case Some(i) => ReadChunk(s[..i], s[i + 2..])
  }

  lemma TrimStartShrinks(s: string)
    ensures |TrimStart(s)| <= |s|
  {
  }

  function Prepend(data: string, tail: Option<string>): Option<string> {
    match tail
    case None => None
    case Some(t) => Some(data + t)
  }

  function Decode(raw: string): Option<string>
    decreases |raw|
  {
    match NextChunk(raw)
    case Stop(data) => Some(data)
    case Abort => None
    case Continue(data, rest) => Prepend(data, Decode(rest))
  }

  lemma PrependTwice(a: string, b: string, t: Option<string>)
    ensures Prepend(a, Prepend(b, t)) == Prepend(a + b, t)
  {
    if t.Some? {
      assert a + (b + t.value) == a + b + t.value;
    }
  }

  lemma PrependNothing(t: Option<string>)
    ensures Prepend([], t) == t
  {
    if t.Some? {
      assert [] + t.value == t.value;
    }
  }

  method DecodeChunked(raw: string) returns (decoded: Option<string>)
    ensures decoded == Decode(raw)
  {
    var result, remaining := [], raw;
    PrependNothing(Decode(raw));
    while true
      invariant Decode(raw) == Prepend(result, Decode(remaining))
      decreases |remaining|
    {
      match NextChunk(remaining)
      case Stop(data) =>
        return Some(result + data);
      case Abort =>
        return None;
      case Continue(data, rest) =>
        PrependTwice(result, data, Decode(rest));
        result := result + data;
        remaining := rest;
    }
  }

  // ---- the encoding ----

  /** One chunk: its size in hexadecimal, in either case and with any leading zeros, and its extension. */
  datatype Chunk = Chunk(size: string, ext: string, data: string)

  /** The chunk of size zero and whatever trailer follows it. */
  datatype Last = Last(size: string, ext: string, trailer: string)

  predicate IsSizeLine(size: string, ext: string) {
    size != [] && AllHex(size) && HexValue(size) < USIZE_LIMIT && Blank(BeforeSemicolon(ext)) && CrLf(size + ext).None?
  }

  predicate IsChunk(c: Chunk) {
    c.data != [] && IsSizeLine(c.size, c.ext) && HexValue(c.size) == Bytes(c.data)
  }

  predicate IsLast(last: Last) { IsSizeLine(last.size, last.ext) && HexValue(last.size) == 0 }

  predicate AreChunks(chunks: seq<Chunk>) { chunks == [] || (IsChunk(chunks[0]) && AreChunks(chunks[1..])) }

  function Head(size: string, ext: string): string { size + ext + CRLF }

  function Encode(chunks: seq<Chunk>, last: Last): string {
    if chunks == [] then Head(last.size, last.ext) + last.trailer
    else Head(chunks[0].size, chunks[0].ext) + chunks[0].data + (CRLF + Encode(chunks[1..], last))
  }

  function Body(chunks: seq<Chunk>): string {
    if chunks == [] then [] else chunks[0].data + Body(chunks[1..])
  }

  /** The part of the body that `k` characters of its encoding carry. */
  function Received(chunks: seq<Chunk>, k: int): string {
    if chunks == [] then []
    else
      var left := k - |Head(chunks[0].size, chunks[0].ext)|;
      if left < 0 then []
      else if left < |chunks[0].data| then chunks[0].data[..left]
      else chunks[0].data + Received(chunks[1..], left - |chunks[0].data| - 2)
  }

  // ---- size lines are found and read ----

  /** The line end put after a line is its first. */
  lemma {:induction false} FirstLineEnd(line: string, rest: string)
    requires CrLf(line).None?
    ensures CrLf(line + CRLF + rest) == Some(|line|)
  {
    var s := line + CRLF + rest;
    if line == [] {
      assert s == CRLF + rest;
    } else {
      assert s[1..] == line[1..] + CRLF + rest;
      if |line| >= 2 {
        assert s[1] == line[1];
      } else {
        assert s[1] == '\r';
        assert CrLf(line[1..]).None?;
      }
      FirstLineEnd(line[1..], rest);
    }
  }

  /** Cutting the text before the line end is complete leaves no line end. */
  lemma {:induction false} NoLineEnd(s: string, k: nat)
    requires k <= |s|
    requires CrLf(s).Some? ==> k < CrLf(s).value + 2
    ensures CrLf(s[..k]).None?
  {
    if k >= 2 {
      assert s[..k][1..] == s[1..][..k - 1];
      NoLineEnd(s[1..], k - 1);
    }
  }

  lemma {:induction false} SizeBeforeSemicolon(size: string, ext: string)
    requires AllHex(size)
    ensures BeforeSemicolon(size + ext) == size + BeforeSemicolon(ext)
  {
    if size == [] {
      assert size + ext == ext;
    } else {
      assert (size + ext)[1..] == size[1..] + ext;
      SizeBeforeSemicolon(size[1..], ext);
      assert IsHexDigit(size[0]);
    }
  }

  lemma {:induction false} TrimBlank(size: string, blank: string)
    requires size != [] && AllHex(size) && Blank(blank)
    ensures TrimEnd(size + blank) == size
    decreases |blank|
  {
    var s := size + blank;
    if blank == [] {
      assert s == size;
      assert IsHexDigit(size[|size| - 1]);
    } else {
      assert s[..|s| - 1] == size + blank[..|blank| - 1];
      TrimBlank(size, blank[..|blank| - 1]);
    }
  }

  lemma SizeIsTrimmed(size: string, blank: string)
    requires size != [] && AllHex(size) && Blank(blank)
    ensures Trim(size + blank) == size
  {
    assert IsHexDigit((size + blank)[0]);
    TrimBlank(size, blank);
  }

  lemma HexParses(size: string)
    requires size != [] && AllHex(size) && HexValue(size) < USIZE_LIMIT
    ensures ParseHex(size) == Some(HexValue(size))
  {
    assert IsHexDigit(size[0]);
  }

  lemma SizeIsRead(size: string, ext: string)
    requires IsSizeLine(size, ext)
    ensures SizeOf(size + ext) == Some(HexValue(size))
  {
    SizeBeforeSemicolon(size, ext);
    SizeIsTrimmed(size, BeforeSemicolon(ext));
    HexParses(size);
  }

  // ---- one turn over the encoding ----

  /** A line that starts with a digit is not trimmed. */
  lemma DigitFirst(s: string)
    requires s == [] || IsHexDigit(s[0])
    ensures TrimStart(s) == s
  {
  }

  lemma HeadLine(size: string, ext: string, more: string)
    requires IsSizeLine(size, ext)
    ensures var s := Head(size, ext) + more;
            s != [] && IsHexDigit(s[0]) && CrLf(s) == Some(|size + ext|) &&
            s[..|size + ext|] == size + ext && s[|size + ext| + 2..] == more
  {
    var s := Head(size, ext) + more;
    assert s == size + ext + CRLF + more;
    FirstLineEnd(size + ext, more);
    assert IsHexDigit(size[0]) && s[0] == size[0];
  }

  /** Nothing is decoded from an incomplete size line. */
  lemma CutHead(size: string, ext: string, more: string, k: nat)
    requires IsSizeLine(size, ext) && k < |Head(size, ext)|
    ensures k <= |Head(size, ext) + more| && NextChunk((Head(size, ext) + more)[..k]) == Stop([])
  {
    var s := Head(size, ext) + more;
    HeadLine(size, ext, more);
    NoLineEnd(s, k);
    DigitFirst(s[..k]);
  }

  lemma HeadIsRead(size: string, ext: string, more: string)
    requires IsSizeLine(size, ext)
    ensures var n := HexValue(size);
            NextChunk(Head(size, ext) + more) == if n == 0 then Stop([]) else TakeChunk(more, n)
  {
    HeadLine(size, ext, more);
    DigitFirst(Head(size, ext) + more);
    SizeIsRead(size, ext);
  }

  lemma CutData(c: Chunk, k: nat)
    requires IsChunk(c) && k < |c.data|
    ensures NextChunk(Head(c.size, c.ext) + c.data[..k]) == Stop(c.data[..k])
  {
    HeadIsRead(c.size, c.ext, c.data[..k]);
    PartIsShorter(c.data, k);
  }

  lemma PartIsShorter(data: string, k: nat)
    requires k < |data|
    ensures Bytes(data[..k]) < Bytes(data)
  {
    CharsInPrefix(data[..k], data[k..]);
    assert data[..k] + data[k..] == data;
  }

  lemma WholeIsTaken(data: string, more: string)
    requires data != []
    ensures Bytes(data) > 0 && TakeChunk(data + more, Bytes(data)) == Continue(data, StripCrLf(more))
  {
    CharsInPrefix(data, more);
    PartIsShorter(data, 0);
    assert (data + more)[..|data|] == data && (data + more)[|data|..] == more;
  }

  lemma WholeChunk(c: Chunk, more: string)
    requires IsChunk(c)
    ensures NextChunk(Head(c.size, c.ext) + c.data + more) == Continue(c.data, StripCrLf(more))
  {
    assert Head(c.size, c.ext) + c.data + more == Head(c.size, c.ext) + (c.data + more);
    HeadIsRead(c.size, c.ext, c.data + more);
    WholeIsTaken(c.data, more);
  }

  /** Whatever is left of the line end after the data, the next turn starts at the next chunk. */
  lemma AfterData(next: string, k: nat)
    requires k <= 2 + |next|
    ensures var cut := (CRLF + next)[..k];
            if k < 2 then Decode(StripCrLf(cut)) == Some([]) else StripCrLf(cut) == next[..k - 2]
  {
    var cut := (CRLF + next)[..k];
    if k == 0 {
      assert cut == [];
    } else if k == 1 {
      assert cut == "\r";
      assert TrimStart("\r") == "";
      assert CrLf("").None?;
    } else {
      assert CRLF <= cut;
      assert cut[2..] == next[..k - 2];
    }
  }

  // ---- main results ----

  /** Decoding any prefix of an encoding gives exactly the part of the body received so far:
      never an abort, never a byte of framing. */
  lemma {:induction false} TruncatedDecodes(chunks: seq<Chunk>, last: Last, k: nat)
    requires AreChunks(chunks) && IsLast(last) && k <= |Encode(chunks, last)|
    ensures Decode(Encode(chunks, last)[..k]) == Some(Received(chunks, k))
    decreases |chunks|, 2
  {
    var whole := Encode(chunks, last);
    if chunks == [] {
      var head := Head(last.size, last.ext);
      if k < |head| {
        CutHead(last.size, last.ext, last.trailer, k);
      } else {
        assert whole[..k] == head + last.trailer[..k - |head|];
        HeadIsRead(last.size, last.ext, last.trailer[..k - |head|]);
      }
    } else {
      TruncatedInChunk(chunks, last, k);
    }
  }

  lemma StopDecodes(s: string, data: string)
    requires NextChunk(s) == Stop(data)
    ensures Decode(s) == Some(data)
  {
  }

  lemma ContinueDecodes(s: string, data: string, rest: string, tail: string)
    requires NextChunk(s) == Continue(data, rest) && Decode(rest) == Some(tail)
    ensures Decode(s) == Some(data + tail)
  {
  }

  /** The cut is in the size line or in the data. */
  lemma CutInChunk(c: Chunk, more: string, k: nat)
    requires IsChunk(c) && k < |Head(c.size, c.ext)| + |c.data|
    ensures var whole := Head(c.size, c.ext) + c.data + more;
            var left := k - |Head(c.size, c.ext)|;
            Decode(whole[..k]) == Some(if left < 0 then [] else c.data[..left])
  {
    var head := Head(c.size, c.ext);
    var whole := head + c.data + more;
    var left := k - |head|;
    if left < 0 {
      assert whole == head + (c.data + more);
      CutHead(c.size, c.ext, c.data + more, k);
      StopDecodes(whole[..k], []);
    } else {
      assert whole[..k] == head + c.data[..left];
      CutData(c, left);
      StopDecodes(whole[..k], c.data[..left]);
    }
  }

  /** The cut is behind the data. */
  lemma CutAfterChunk(c: Chunk, next: string, after: nat, tail: string)
    requires IsChunk(c) && after <= 2 + |next|
    requires if after < 2 then tail == [] else Decode(next[..after - 2]) == Some(tail)
    ensures Decode(Head(c.size, c.ext) + c.data + (CRLF + next)[..after]) == Some(c.data + tail)
  {
    var rest := (CRLF + next)[..after];
    WholeChunk(c, rest);
    AfterData(next, after);
    ContinueDecodes(Head(c.size, c.ext) + c.data + rest, c.data, StripCrLf(rest), tail);
  }

  lemma CutAppend(a: string, b: string, k: nat)
    requires |a| <= k <= |a| + |b|
    ensures (a + b)[..k] == a + b[..k - |a|]
  {
  }

  /** The chunk's data has been received completely. */
  lemma BehindChunk(c: Chunk, next: string, k: nat, tail: string)
    requires IsChunk(c)
    requires |Head(c.size, c.ext)| + |c.data| <= k <= |Head(c.size, c.ext) + c.data + (CRLF + next)|
    requires var after := k - |Head(c.size, c.ext)| - |c.data|;
             if after < 2 then tail == [] else Decode(next[..after - 2]) == Some(tail)
    ensures Decode((Head(c.size, c.ext) + c.data + (CRLF + next))[..k]) == Some(c.data + tail)
  {
    var whole := Head(c.size, c.ext) + c.data;
    CutAppend(whole, CRLF + next, k);
    CutAfterChunk(c, next, k - |whole|, tail);
  }

  lemma {:induction false} TruncatedInChunk(chunks: seq<Chunk>, last: Last, k: nat)
    requires AreChunks(chunks) && IsLast(last) && k <= |Encode(chunks, last)| && chunks != []
    ensures Decode(Encode(chunks, last)[..k]) == Some(Received(chunks, k))
    decreases |chunks|, 0
  {
    var c, next := chunks[0], Encode(chunks[1..], last);
    var after := k - |Head(c.size, c.ext)| - |c.data|;
    if after < 0 {
      EncodeStep(chunks, last);
      CutInChunk(c, CRLF + next, k);
    } else {
      if after >= 2 {
        TruncatedDecodes(chunks[1..], last, after - 2);
      } else {
        NothingReceived(chunks[1..], after - 2);
      }
      EncodeStep(chunks, last);
      BehindChunk(c, next, k, Received(chunks[1..], after - 2));
    }
  }

  lemma EncodeStep(chunks: seq<Chunk>, last: Last)
    requires chunks != []
    ensures Encode(chunks, last) == Head(chunks[0].size, chunks[0].ext) + chunks[0].data + (CRLF + Encode(chunks[1..], last))
  {
  }

  lemma NothingReceived(chunks: seq<Chunk>, k: int)
    requires k <= 0
    ensures Received(chunks, k) == []
  {
  }

  /** Decoding undoes encoding, for every body, every split into chunks, every extension and trailer. */
  lemma EncodingDecodes(chunks: seq<Chunk>, last: Last)
    requires AreChunks(chunks) && IsLast(last)
    ensures Decode(Encode(chunks, last)) == Some(Body(chunks))
  {
    var whole := Encode(chunks, last);
    assert whole[..|whole|] == whole;
    TruncatedDecodes(chunks, last, |whole|);
    AllReceived(chunks, last);
  }

  lemma {:induction false} AllReceived(chunks: seq<Chunk>, last: Last)
    ensures Received(chunks, |Encode(chunks, last)|) == Body(chunks)
  {
    if chunks != [] {
      AllReceived(chunks[1..], last);
    }
  }

  /** Receiving more only ever extends what was decoded, up to the body. */
  lemma {:induction false} ReceivedGrows(chunks: seq<Chunk>, j: int, k: int)
    requires j <= k
    ensures Received(chunks, j) <= Received(chunks, k) <= Body(chunks)
  {
    if chunks != [] {
      var c := chunks[0];
      var left := |Head(c.size, c.ext)| + |c.data| + 2;
      ReceivedGrows(chunks[1..], j - left, k - left);
    }
  }

  /** Decoding a truncated message gives a prefix of the body. */
  lemma TruncatedIsPrefix(chunks: seq<Chunk>, last: Last, k: nat)
    requires AreChunks(chunks) && IsLast(last) && k <= |Encode(chunks, last)|
    ensures var d := Decode(Encode(chunks, last)[..k]); d.Some? && d.value <= Body(chunks)
  {
    TruncatedDecodes(chunks, last, k);
    ReceivedGrows(chunks, k, k);
  }

  // ---- numbers, widths and line ends, on their own ----

  const LOWER_DIGITS := "0123456789abcdef"
  const UPPER_DIGITS := "0123456789ABCDEF"

  function HexDigit(d: nat, upper: bool): char
    requires d < 16
  {
    if upper then UPPER_DIGITS[d] else LOWER_DIGITS[d]
  }

  /** A number in hexadecimal. */
  function PrintHex(n: nat, upper: bool): string {
    if n < 16 then [HexDigit(n, upper)] else PrintHex(n / 16, upper) + [HexDigit(n % 16, upper)]
  }

  lemma DigitIsHex(d: nat, upper: bool)
    requires d < 16
    ensures IsHexDigit(HexDigit(d, upper)) && HexDigitValue(HexDigit(d, upper)) == d
  {
  }

  /** Reading a printed size gives it back, in either case. */
  lemma {:induction false} HexRoundTrip(n: nat, upper: bool)
    ensures AllHex(PrintHex(n, upper)) && HexValue(PrintHex(n, upper)) == n
  {
    if n < 16 {
      DigitIsHex(n, upper);
      HexSnoc([], HexDigit(n, upper));
      assert [] + [HexDigit(n, upper)] == [HexDigit(n, upper)];
    } else {
      var front, digit := PrintHex(n / 16, upper), HexDigit(n % 16, upper);
      HexRoundTrip(n / 16, upper);
      DigitIsHex(n % 16, upper);
      HexSnoc(front, digit);
      assert n == 16 * (n / 16) + n % 16;
    }
  }

  lemma HexSnoc(s: string, c: char)
    requires AllHex(s) && IsHexDigit(c)
    ensures AllHex(s + [c]) && HexValue(s + [c]) == 16 * HexValue(s) + HexDigitValue(c)
  {
    assert (s + [c])[..|s|] == s;
  }

  /** What reads as a size: an optional plus sign and hexadecimal digits of that value, which a 64-bit word holds. */
  lemma ParseHexIff(s: string, n: nat)
    ensures ParseHex(s) == Some(n) <==>
            n < 0x1_0000_0000_0000_0000 &&
            exists sign, digits :: (sign == "" || sign == "+") && digits != "" && AllHex(digits) && HexValue(digits) == n &&
                                   s == sign + digits
  {
    if ParseHex(s) == Some(n) {
      if s[0] == '+' {
        assert s == "+" + s[1..];
      } else {
        assert s == "" + s;
      }
    }
    if sign, digits :| (sign == "" || sign == "+") && digits != "" && AllHex(digits) && HexValue(digits) == n &&
                       s == sign + digits
    {
      assert IsHexDigit(digits[0]);
      assert sign == "" ==> s == digits;
      assert sign == "+" ==> s[1..] == digits;
    }
  }

  /** Bytes of a character in UTF-8, by its code point. */
  lemma WidthIs(c: char)
    ensures Width(c) == 1 <==> c as int < 0x80
    ensures Width(c) <= 2 <==> c as int < 0x800
    ensures Width(c) <= 3 <==> c as int < 0x1_0000
    ensures 1 <= Width(c) <= 4
  {
  }

  /** A number of bytes ends between characters exactly when it is the length of a prefix. */
  lemma {:induction false} CharsInIff(s: string, n: nat, k: nat)
    requires n <= Bytes(s)
    ensures CharsIn(s, n) == Some(k) <==> k <= |s| && Bytes(s[..k]) == n
  {
    if k == 0 {
      assert s[..0] == [];
    } else if s != [] && n >= Width(s[0]) {
      CharsInIff(s[1..], n - Width(s[0]), k - 1);
      if k <= |s| {
        assert s[..k][1..] == s[1..][..k - 1] && s[..k][0] == s[0];
      }
    } else if s != [] && k <= |s| {
      assert s[..k][0] == s[0];
    }
  }

  predicate LineEndAt(s: string, i: nat) { i + 1 < |s| && s[i] == '\r' && s[i + 1] == '\n' }

  /** The first line end. */
  lemma {:induction false} CrLfIff(s: string, i: nat)
    ensures CrLf(s) == Some(i) <==> LineEndAt(s, i) && forall j: nat :: j < i ==> !LineEndAt(s, j)
  {
    if |s| >= 2 {
      assert LineEndAt(s, 0) <==> s[0] == '\r' && s[1] == '\n';
      assert forall j: nat :: LineEndAt(s, j + 1) <==> LineEndAt(s[1..], j);
      if i > 0 && !LineEndAt(s, 0) {
        CrLfIff(s[1..], i - 1);
        assert LineEndAt(s, i) <==> LineEndAt(s[1..], i - 1);
        if forall j: nat :: j < i - 1 ==> !LineEndAt(s[1..], j) {
          forall j: nat | j < i ensures !LineEndAt(s, j) {
            assert j > 0 ==> !LineEndAt(s[1..], j - 1);
          }
        }
        if forall j: nat :: j < i ==> !LineEndAt(s, j) {
          forall j: nat | j < i - 1 ensures !LineEndAt(s[1..], j) {
            assert !LineEndAt(s, j + 1);
          }
        }
      }
    }
  }

  lemma {:induction false} SemicolonEnds(a: string, b: string)
    requires ';' !in a
    ensures BeforeSemicolon(a + (";" + b)) == a && BeforeSemicolon(a) == a
  {
    if a == [] {
      assert a + (";" + b) == ";" + b;
    } else {
      SemicolonEnds(a[1..], b);
      assert (a + (";" + b))[1..] == a[1..] + (";" + b);
    }
  }

  // ---- what ends the decoding ----

  /** Without a line end there is nothing more to decode. */
  lemma NoLineStops(raw: string)
    requires CrLf(TrimStart(raw)).None?
    ensures Decode(raw) == Some([])
  {
  }

  /** A line that is no size ends it too, whatever follows. */
  lemma UnreadableStops(line: string, rest: string)
    requires line != [] && !IsWhitespace(line[0]) && CrLf(line).None? && SizeOf(line).None?
    ensures Decode(line + CRLF + rest) == Some([])
  {
    FirstLineEnd(line, rest);
    var s := line + CRLF + rest;
    assert s[0] == line[0] && TrimStart(s) == s;
    assert s[..|line|] == line;
  }

  /** A size that ends inside a character aborts. */
  lemma InsideAborts(size: string, ext: string, rest: string)
    requires IsSizeLine(size, ext) && 0 < HexValue(size) <= Bytes(rest)
    requires forall k: nat :: k <= |rest| ==> Bytes(rest[..k]) != HexValue(size)
    ensures Decode(Head(size, ext) + rest) == None
  {
    HeadIsRead(size, ext, rest);
    var k := CharsIn(rest, HexValue(size));
    if k.Some? {
      CharsInIff(rest, HexValue(size), k.value);
    }
  }
}
