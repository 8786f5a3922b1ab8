/** Character trigrams of file names: three folded 16-bit codes packed into one key. */
module Trigram {
  import opened Seqs
  import opened Postings
  import opened CsrSearch

  type Code = c: int | 0 <= c < 0x1_0000

  /** The first code in the highest bits. */
  function Pack(a: Code, b: Code, c: Code): Key {
    a * 0x1_0000_0000 + b * 0x1_0000 + c
  }

  /** Keys are unique and ordered like their codes. */
  lemma PackIsLexicographic(a: Code, b: Code, c: Code, x: Code, y: Code, z: Code)
    ensures Pack(a, b, c) == Pack(x, y, z) <==> a == x && b == y && c == z
    ensures Pack(a, b, c) < Pack(x, y, z) <==> a < x || (a == x && (b < y || (b == y && c < z)))
  {
  }

  /** The trigram at every position. */
  function Windows(codes: seq<Code>): seq<Key> {
    if |codes| < 3 then []
    else Windows(codes[..|codes| - 1]) + [Pack(codes[|codes| - 3], codes[|codes| - 2], codes[|codes| - 1])]
  }

  lemma {:induction false} WindowsAt(codes: seq<Code>)
    ensures |Windows(codes)| == if |codes| < 3 then 0 else |codes| - 2
    ensures forall i :: 0 <= i < |Windows(codes)| ==> Windows(codes)[i] == Pack(codes[i], codes[i + 1], codes[i + 2])
  {
    if |codes| >= 3 {
      WindowsAt(codes[..|codes| - 1]);
    }
  }

  // ---- folding and matching ----

  /** Case folding of one character; the upper-case table is a parameter. */
  type Folding = char -> char

  /** The 16 bits of a folded character that go into a trigram. */
  function CodeOf(fold: Folding, c: char): Code {
    (fold(c) as int) % 0x1_0000
  }

  function CodesOf(fold: Folding, name: string): seq<Code> {
    Map(c => CodeOf(fold, c), name)
  }

  function KeysOf(fold: Folding, name: string): Record {
    Windows(CodesOf(fold, name))
  }

  predicate OccursAt(text: string, part: string, i: nat) {
    i + |part| <= |text| && text[i..i + |part|] == part
  }

  predicate Occurs(text: string, part: string) {
    exists i :: 0 <= i <= |text| && OccursAt(text, part, i)
  }

  /** Case-insensitive substring match. */
  predicate Matches(fold: Folding, name: string, needle: string) {
    name != "" && name != "." && Occurs(Map(fold, name), Map(fold, needle))
  }

  /** A window of a part is a window of the whole. */
  lemma WindowInside(whole: seq<Code>, part: seq<Code>, i: nat, k: nat)
    requires i + |part| <= |whole| && forall k :: 0 <= k < |part| ==> whole[i + k] == part[k]
    requires k + 3 <= |part|
    ensures |Windows(part)| == |part| - 2 && |Windows(whole)| == |whole| - 2 && Windows(whole)[i + k] == Windows(part)[k]
  {
    WindowsAt(whole);
    WindowsAt(part);
    assert whole[i + k] == part[k] && whole[i + (k + 1)] == part[k + 1] && whole[i + (k + 2)] == part[k + 2];
  }

  /** The trigrams of a part are trigrams of the whole. */
  lemma PartHasTrigrams(whole: seq<Code>, part: seq<Code>, i: nat)
    requires i + |part| <= |whole| && forall k :: 0 <= k < |part| ==> whole[i + k] == part[k]
    ensures HasAll(Windows(whole), Distinct(Windows(part)))
  {
    DistinctKeepsMembers(Windows(part));
    WindowsAt(part);
    forall t | t in Windows(part) ensures t in Windows(whole) {
      var k :| 0 <= k < |Windows(part)| && Windows(part)[k] == t;
      WindowInside(whole, part, i, k);
    }
  }

  /** A name that matches the needle has every trigram of the needle. */
  lemma MatchHasTrigrams(fold: Folding, name: string, needle: string)
    requires Matches(fold, name, needle)
    ensures HasAll(KeysOf(fold, name), Distinct(KeysOf(fold, needle)))
  {
    var text, part := Map(fold, name), Map(fold, needle);
    var i :| 0 <= i <= |text| && OccursAt(text, part, i);
    forall k | 0 <= k < |needle| ensures CodesOf(fold, name)[i + k] == CodesOf(fold, needle)[k] {
      assert text[i..i + |part|][k] == part[k];
    }
    PartHasTrigrams(CodesOf(fold, name), CodesOf(fold, needle), i);
  }

  /** The trigram of the three characters at `i`: 16 bits of each, folded, the first one highest. */
  predicate KeyAt(fold: Folding, name: string, i: nat, t: Key) {
    i + 2 < |name| &&
    t == fold(name[i]) as int % 0x1_0000 * 0x1_0000_0000 + fold(name[i + 1]) as int % 0x1_0000 * 0x1_0000 +
         fold(name[i + 2]) as int % 0x1_0000
  }

  /** The trigrams of a name are those at its positions. */
  lemma KeysOfIff(fold: Folding, name: string, t: Key)
    ensures t in KeysOf(fold, name) <==> exists i: nat :: KeyAt(fold, name, i, t)
  {
    WindowsAt(CodesOf(fold, name));
    var keys := KeysOf(fold, name);
    assert forall i: nat :: i < |keys| ==> (KeyAt(fold, name, i, t) <==> keys[i] == t);
  }
}
