/** Rewriting grouped imports: `use prefix::{A, B};` becomes one statement per submodule the items moved to.

    A statement is kept as the text between its braces, so that splitting, stripping and joining items is part
    of what is proved. Statements of other shapes are not touched. */
module GroupedUse {
  import opened Seqs
  import opened Lines

  type Mapping = map<string, string>

  /** `use prefix::{body};`, `use prefix::sub::{body};` and `use prefix::sub::item;` */
  datatype Statement = Group(body: string) | Nested(sub: string, body: string) | Single(sub: string, item: string)

  /** What an import names: the submodule, if any, and the item. */
  datatype Import = Import(sub: Option<string>, item: string)

  // ---- items of a body ----

  /** What `str.strip` removes. */
  predicate IsSpace(c: char) { IsWhitespace(c) || '\U{1C}' <= c <= '\U{1F}' }

  function StripLeft(s: string): string {
    if s != [] && IsSpace(s[0]) then StripLeft(s[1..]) else s
  }

  function StripRight(s: string): string {
    if s != [] && IsSpace(s[|s| - 1]) then StripRight(s[..|s| - 1]) else s
  }

  function Strip(s: string): string { StripRight(StripLeft(s)) }

  function FirstComma(s: string): (k: nat)
    ensures k <= |s| && (k < |s| ==> s[k] == ',') && forall i :: 0 <= i < k ==> s[i] != ','
  {
    if s == [] || s[0] == ',' then 0 else 1 + FirstComma(s[1..])
  }

  function Strips(part: string): seq<string> { if Strip(part) == [] then [] else [Strip(part)] }

  /** Split at commas, strip, and drop what is empty. */
  function ItemsOf(body: string): seq<string>
    decreases |body|
  {
    var k := FirstComma(body);
    if k == |body| then Strips(body) else Strips(body[..k]) + ItemsOf(body[k + 1..])
  }

  function JoinItems(items: seq<string>): string {
    if items == [] then []
    else if |items| == 1 then items[0]
    else items[0] + ("," + (" " + JoinItems(items[1..])))
  }

  /** An item as splitting and stripping leaves it. */
  predicate IsItem(x: string) { x != [] && ',' !in x && !IsSpace(x[0]) && !IsSpace(x[|x| - 1]) }

  predicate AreItems(items: seq<string>) { forall i :: 0 <= i < |items| ==> IsItem(items[i]) }

  lemma {:induction false} StripLeftPart(s: string)
    ensures var t := StripLeft(s); (t == [] || !IsSpace(t[0])) && exists k :: 0 <= k <= |s| && t == s[k..]
  {
    if s != [] && IsSpace(s[0]) {
      StripLeftPart(s[1..]);
      var k :| 0 <= k <= |s| - 1 && StripLeft(s[1..]) == s[1..][k..];
      assert s[1..][k..] == s[k + 1..];
    } else {
      assert s == s[0..];
    }
  }

  lemma {:induction false} StripRightPart(s: string)
    ensures var t := StripRight(s); t <= s && (t == [] || !IsSpace(t[|t| - 1]))
  {
    if s != [] && IsSpace(s[|s| - 1]) {
      StripRightPart(s[..|s| - 1]);
    }
  }

  lemma StrippedIsItem(part: string)
    requires ',' !in part
    ensures AreItems(Strips(part))
  {
    StripLeftPart(part);
    StripRightPart(StripLeft(part));
  }

  lemma {:induction false} ItemsAreItems(body: string)
    ensures AreItems(ItemsOf(body))
    decreases |body|
  {
    var k := FirstComma(body);
    StrippedIsItem(body[..k]);
    if k < |body| {
      ItemsAreItems(body[k + 1..]);
    } else {
      assert body[..k] == body;
    }
  }

  lemma StripItem(x: string, padded: bool)
    requires IsItem(x)
    ensures Strips(if padded then " " + x else x) == [x]
  {
    assert (" " + x)[1..] == x;
    assert StripLeft(x) == x && StripLeft(" " + x) == x;
  }

  lemma {:induction false} CommaAfter(x: string, rest: string)
    requires ',' !in x
    ensures FirstComma(x + "," + rest) == |x| && FirstComma(x) == |x|
  {
    var s := x + "," + rest;
    if x != [] {
      assert s[1..] == x[1..] + "," + rest;
      assert s[0] == x[0];
      CommaAfter(x[1..], rest);
    }
  }

  lemma SplitFirst(x: string, rest: string)
    requires ',' !in x
    ensures ItemsOf(x + "," + rest) == Strips(x) + ItemsOf(rest)
  {
    CommaAfter(x, rest);
    var s := x + "," + rest;
    assert s[..|x|] == x && s[|x| + 1..] == rest;
  }

  lemma SplitLast(x: string)
    requires ',' !in x
    ensures ItemsOf(x) == Strips(x)
  {
    CommaAfter(x, []);
  }

  function Padded(padded: bool, s: string): string { if padded then " " + s else s }

  lemma Regroup(a: string, b: string, c: string)
    ensures a + (b + c) == (a + b) + c
  {
  }

  lemma PaddedFirst(padded: bool, x: string, rest: string)
    ensures Padded(padded, x + ("," + rest)) == Padded(padded, x) + "," + rest
  {
    Regroup(x, ",", rest);
    if padded {
      Regroup(" ", x, "," + rest);
      Regroup(" " + x, ",", rest);
    }
  }

  lemma NothingJoined(padded: bool)
    ensures ItemsOf(Padded(padded, [])) == []
  {
    assert StripLeft(" ") == [];
    SplitLast(" ");
    SplitLast([]);
  }

  /** Joining and splitting again gives the items back. */
  lemma {:induction false} JoinedItems(items: seq<string>, padded: bool)
    requires AreItems(items)
    ensures ItemsOf(Padded(padded, JoinItems(items))) == items
    decreases |items|
  {
    if items == [] {
      NothingJoined(padded);
    } else {
      var x, px := items[0], Padded(padded, items[0]);
      assert IsItem(x);
      StripItem(x, padded);
      if |items| == 1 {
        SplitLast(px);
      } else {
        var rest := " " + JoinItems(items[1..]);
        PaddedFirst(padded, x, rest);
        SplitFirst(px, rest);
        JoinedItems(items[1..], true);
      }
    }
  }

  // ---- the rewrite of one group ----

  predicate Moves(mapping: Mapping, sub: string, item: string) { item in mapping && mapping[item] == sub }

  function Unmapped(mapping: Mapping, items: seq<string>): seq<string> { Filter(x => x !in mapping, items) }

  function GroupOf(mapping: Mapping, sub: string, items: seq<string>): seq<string> {
    Filter(x => Moves(mapping, sub, x), items)
  }

  /** The submodules in order of first appearance. */
  function Subs(mapping: Mapping, items: seq<string>): seq<string> {
    if items == [] then []
    else
      var before, x := Subs(mapping, items[..|items| - 1]), items[|items| - 1];
      if x in mapping && mapping[x] !in before then before + [mapping[x]] else before
  }

  function Emit(sub: string, items: seq<string>): Statement {
    if |items| == 1 then Single(sub, items[0]) else Nested(sub, JoinItems(items))
  }

  function EmitAll(mapping: Mapping, subs: seq<string>, items: seq<string>): seq<Statement> {
    if subs == [] then []
    else EmitAll(mapping, subs[..|subs| - 1], items) + [Emit(subs[|subs| - 1], GroupOf(mapping, subs[|subs| - 1], items))]
  }

  function Kept(mapping: Mapping, items: seq<string>): seq<Statement> {
    var rest := Unmapped(mapping, items);
    if rest == [] then [] else [Group(JoinItems(rest))]
  }

  function Replace(mapping: Mapping, body: string): seq<Statement> {
    var items := ItemsOf(body);
    var subs := Subs(mapping, items);
    if subs == [] then [Group(body)] else Kept(mapping, items) + EmitAll(mapping, Sort(subs), items)
  }

  function RewriteOne(mapping: Mapping, statement: Statement): seq<Statement> {
    if statement.Group? then Replace(mapping, statement.body) else [statement]
  }

  function Rewriter(mapping: Mapping): Statement -> seq<Statement> { st => RewriteOne(mapping, st) }

  function Rewrite(mapping: Mapping, statements: seq<Statement>): seq<Statement> {
    FlatMap(Rewriter(mapping), statements)
  }

  // ---- the loops of the replacer ----

  /** Items grouped by submodule, in one pass. */
  method GroupItems(mapping: Mapping, items: seq<string>)
      returns (subs: seq<string>, groups: map<string, seq<string>>, rest: seq<string>)
    ensures subs == Subs(mapping, items) && rest == Unmapped(mapping, items)
    ensures forall sub :: sub in groups <==> sub in subs
    ensures forall sub :: sub in groups ==> groups[sub] == GroupOf(mapping, sub, items)
  {
    subs, groups, rest := [], map[], [];
    for i := 0 to |items|
      invariant subs == Subs(mapping, items[..i]) && rest == Unmapped(mapping, items[..i])
      invariant forall sub :: sub in groups <==> sub in subs
      invariant forall sub :: sub in groups ==> groups[sub] == GroupOf(mapping, sub, items[..i])
    {
      var item := items[i];
      assert items[..i + 1] == items[..i] + [item];
      GroupsNext(mapping, items[..i], item);
      if item in mapping {
        var sub := mapping[item];
        if sub !in groups {
          groups := groups[sub := []];
          subs := subs + [sub];
        }
        groups := groups[sub := groups[sub] + [item]];
      } else {
        rest := rest + [item];
      }
    }
    assert items[..|items|] == items;
  }

  lemma GroupsNext(mapping: Mapping, items: seq<string>, item: string)
    ensures Unmapped(mapping, items + [item]) == Unmapped(mapping, items) + if item in mapping then [] else [item]
    ensures forall sub :: GroupOf(mapping, sub, items + [item]) ==
                          GroupOf(mapping, sub, items) + if Moves(mapping, sub, item) then [item] else []
    ensures forall sub :: sub !in Subs(mapping, items) ==> GroupOf(mapping, sub, items) == []
    ensures var subs := Subs(mapping, items);
            Subs(mapping, items + [item]) == if item in mapping && mapping[item] !in subs then subs + [mapping[item]] else subs
  {
    FilterSnoc(x => x !in mapping, items, item);
    forall sub ensures GroupOf(mapping, sub, items + [item]) ==
                       GroupOf(mapping, sub, items) + if Moves(mapping, sub, item) then [item] else []
    {
      FilterSnoc(x => Moves(mapping, sub, x), items, item);
    }
    forall sub | sub !in Subs(mapping, items) ensures GroupOf(mapping, sub, items) == [] {
      NoGroup(mapping, sub, items);
    }
    assert (items + [item])[..|items|] == items;
  }

  lemma {:induction false} NoGroup(mapping: Mapping, sub: string, items: seq<string>)
    ensures sub in Subs(mapping, items) <==> GroupOf(mapping, sub, items) != []
  {
    if items != [] {
      NoGroup(mapping, sub, items[..|items| - 1]);
    }
  }

  method EmitGroups(mapping: Mapping, subs: seq<string>, items: seq<string>, groups: map<string, seq<string>>)
      returns (statements: seq<Statement>)
    requires forall sub :: sub in subs ==> sub in groups && groups[sub] == GroupOf(mapping, sub, items)
    ensures statements == EmitAll(mapping, subs, items)
  {
    statements := [];
    for i := 0 to |subs|
      invariant statements == EmitAll(mapping, subs[..i], items)
    {
      assert subs[..i + 1][..i] == subs[..i];
      statements := statements + [Emit(subs[i], groups[subs[i]])];
    }
    assert subs[..|subs|] == subs;
  }

  method ReplaceGroup(mapping: Mapping, body: string) returns (statements: seq<Statement>)
    ensures statements == Replace(mapping, body)
  {
    var items := ItemsOf(body);
    var subs, groups, rest := GroupItems(mapping, items);
    if subs == [] {
      return [Group(body)];
    }
    SortKeepsMembers(subs);
    var emitted := EmitGroups(mapping, Sort(subs), items, groups);
    statements := (if rest == [] then [] else [Group(JoinItems(rest))]) + emitted;
  }

  lemma SortKeepsMembers(s: seq<string>)
    ensures forall x :: x in s <==> x in Sort(s)
  {
    SortSorts(s);
    forall x ensures x in s <==> x in Sort(s) {
      assert x in multiset(s) <==> x in multiset(Sort(s));
    }
  }

  // ---- meaning ----

  function Under(sub: Option<string>, items: seq<string>): seq<Import> { Map(x => Import(sub, x), items) }

  /** The imports a statement stands for. */
  function Expand(statement: Statement): seq<Import> {
    match statement
    case Group(body) => Under(None, ItemsOf(body))
    case Nested(sub, body) => Under(Some(sub), ItemsOf(body))
    case Single(sub, item) => [Import(Some(sub), item)]
  }

  function ExpandAll(statements: seq<Statement>): seq<Import> { FlatMap(Expand, statements) }

  /** Where an import now lives. */
  function Resolve(mapping: Mapping, i: Import): Import {
    if i.sub.None? && i.item in mapping then Import(Some(mapping[i.item]), i.item) else i
  }

  function Resolver(mapping: Mapping): Import -> Import { i => Resolve(mapping, i) }

  function ResolveAll(mapping: Mapping, imports: seq<Import>): seq<Import> { Map(Resolver(mapping), imports) }

  lemma {:induction false} CountUnder(sub: Option<string>, items: seq<string>, i: Import)
    ensures multiset(Under(sub, items))[i] == if i.sub == sub then multiset(items)[i.item] else 0
  {
    if items == [] {
      assert Under(sub, items) == [];
    } else {
      var n := |items| - 1;
      CountUnder(sub, items[..n], i);
      assert items == items[..n] + [items[n]];
      assert Under(sub, items) == Under(sub, items[..n]) + [Import(sub, items[n])];
    }
  }

  lemma {:induction false} CountResolved(mapping: Mapping, items: seq<string>, i: Import)
    ensures multiset(ResolveAll(mapping, Under(None, items)))[i] ==
            if Resolve(mapping, Import(None, i.item)) == i then multiset(items)[i.item] else 0
  {
    var imports := ResolveAll(mapping, Under(None, items));
    if items == [] {
      assert imports == [];
    } else {
      var n := |items| - 1;
      CountResolved(mapping, items[..n], i);
      assert items == items[..n] + [items[n]];
      assert imports == ResolveAll(mapping, Under(None, items[..n])) + [Resolve(mapping, Import(None, items[n]))];
    }
  }

  lemma ExpandEmitted(sub: string, items: seq<string>)
    requires AreItems(items)
    ensures Expand(Emit(sub, items)) == Under(Some(sub), items)
  {
    if |items| != 1 {
      JoinedItems(items, false);
    }
  }

  lemma FilteredAreItems(p: string -> bool, items: seq<string>)
    requires AreItems(items)
    ensures AreItems(Filter(p, items))
  {
    FilterMembers(p, items);
    forall i | 0 <= i < |Filter(p, items)| ensures IsItem(Filter(p, items)[i]) {
      assert Filter(p, items)[i] in items;
    }
  }

  lemma CountGroup(mapping: Mapping, sub: string, items: seq<string>, i: Import)
    requires AreItems(items)
    ensures multiset(Expand(Emit(sub, GroupOf(mapping, sub, items))))[i] ==
            if i.sub == Some(sub) && Moves(mapping, sub, i.item) then multiset(items)[i.item] else 0
  {
    FilteredAreItems(x => Moves(mapping, sub, x), items);
    ExpandEmitted(sub, GroupOf(mapping, sub, items));
    CountUnder(Some(sub), GroupOf(mapping, sub, items), i);
    FilterCount(x => Moves(mapping, sub, x), items, i.item);
  }

  lemma ExpandMore(statements: seq<Statement>, last: Statement, i: Import)
    ensures multiset(ExpandAll(statements + [last]))[i] == multiset(ExpandAll(statements))[i] + multiset(Expand(last))[i]
  {
    FlatMapSnoc(Expand, statements, last);
  }

  lemma LastIsNew(subs: seq<string>)
    requires NoDuplicates(subs) && subs != []
    ensures var n := |subs| - 1;
            NoDuplicates(subs[..n]) && subs[n] !in subs[..n] && forall x :: x in subs <==> x in subs[..n] || x == subs[n]
  {
    assert subs == subs[..|subs| - 1] + [subs[|subs| - 1]];
  }

  lemma {:induction false} CountEmitted(mapping: Mapping, subs: seq<string>, items: seq<string>, i: Import)
    requires AreItems(items) && NoDuplicates(subs)
    ensures multiset(ExpandAll(EmitAll(mapping, subs, items)))[i] ==
            if i.sub.Some? && i.sub.value in subs && Moves(mapping, i.sub.value, i.item) then multiset(items)[i.item] else 0
    decreases |subs|
  {
    if subs != [] {
      var n := |subs| - 1;
      var sub := subs[n];
      CountEmitted(mapping, subs[..n], items, i);
      ExpandMore(EmitAll(mapping, subs[..n], items), Emit(sub, GroupOf(mapping, sub, items)), i);
      CountGroup(mapping, sub, items, i);
      LastIsNew(subs);
    }
  }

  lemma CountKept(mapping: Mapping, items: seq<string>, i: Import)
    requires AreItems(items)
    ensures multiset(ExpandAll(Kept(mapping, items)))[i] ==
            if i.sub.None? && i.item !in mapping then multiset(items)[i.item] else 0
  {
    var rest := Unmapped(mapping, items);
    FilteredAreItems(x => x !in mapping, items);
    FilterCount(x => x !in mapping, items, i.item);
    if rest != [] {
      JoinedItems(rest, false);
      CountUnder(None, rest, i);
      FlatMapSnoc(Expand, [], Group(JoinItems(rest)));
      assert [] + [Group(JoinItems(rest))] == Kept(mapping, items);
    }
  }

  lemma {:induction false} SubsAreDistinct(mapping: Mapping, items: seq<string>)
    ensures NoDuplicates(Subs(mapping, items))
  {
    if items != [] {
      SubsAreDistinct(mapping, items[..|items| - 1]);
    }
  }

  lemma CountReplaced(mapping: Mapping, body: string, i: Import)
    ensures multiset(ExpandAll(Replace(mapping, body)))[i] == multiset(ResolveAll(mapping, Expand(Group(body))))[i]
  {
    var items := ItemsOf(body);
    var subs := Subs(mapping, items);
    ItemsAreItems(body);
    CountResolved(mapping, items, i);
    CountUnder(None, items, i);
    if subs == [] {
      FlatMapSnoc(Expand, [], Group(body));
      assert [] + [Group(body)] == [Group(body)];
      assert i.item in items ==> i.item !in mapping by {
        if i.item in items && i.item in mapping {
          MappedHasSub(mapping, items, i.item);
        }
      }
    } else {
      FlatMapAppend(Expand, Kept(mapping, items), EmitAll(mapping, Sort(subs), items));
      CountKept(mapping, items, i);
      SubsAreDistinct(mapping, items);
      SortSorts(subs);
      PermutedNoDuplicates(subs, Sort(subs));
      SortKeepsMembers(subs);
      CountEmitted(mapping, Sort(subs), items, i);
      if i.item in items && i.item in mapping {
        MappedHasSub(mapping, items, i.item);
      }
    }
  }

  lemma MappedHasSub(mapping: Mapping, items: seq<string>, item: string)
    requires item in items && item in mapping
    ensures mapping[item] in Subs(mapping, items)
  {
    NoGroup(mapping, mapping[item], items);
    FilterMembers(x => Moves(mapping, mapping[item], x), items);
  }

  /** Rewriting keeps every import exactly as often as it was, at the place it has moved to. */
  lemma ReplaceKeepsMeaning(mapping: Mapping, body: string)
    ensures multiset(ExpandAll(Replace(mapping, body))) == multiset(ResolveAll(mapping, Expand(Group(body))))
  {
    forall i ensures multiset(ExpandAll(Replace(mapping, body)))[i] == multiset(ResolveAll(mapping, Expand(Group(body))))[i] {
      CountReplaced(mapping, body, i);
    }
  }

  lemma OtherStatementsStay(mapping: Mapping, statement: Statement)
    requires !statement.Group?
    ensures ResolveAll(mapping, Expand(statement)) == Expand(statement)
    ensures ExpandAll([statement]) == Expand(statement)
  {
    FlatMapSnoc(Expand, [], statement);
    assert [] + [statement] == [statement];
    var imports := Expand(statement);
    assert forall i :: 0 <= i < |imports| ==> imports[i].sub.Some?;
  }

  lemma RewriteOneKeepsMeaning(mapping: Mapping, statement: Statement)
    ensures multiset(ExpandAll(RewriteOne(mapping, statement))) == multiset(ResolveAll(mapping, Expand(statement)))
  {
    if statement.Group? {
      ReplaceKeepsMeaning(mapping, statement.body);
    } else {
      OtherStatementsStay(mapping, statement);
    }
  }

  /** For a whole file of statements. */
  lemma RewriteKeepsMeaning(mapping: Mapping, statements: seq<Statement>)
    ensures multiset(ExpandAll(Rewrite(mapping, statements))) == multiset(ResolveAll(mapping, ExpandAll(statements)))
  {
    forall st ensures multiset(FlatMap(Expand, Rewriter(mapping)(st))) == multiset(Map(Resolver(mapping), Expand(st))) {
      RewriteOneKeepsMeaning(mapping, st);
    }
    FlatMapKeepsMeaning(Rewriter(mapping), Expand, Resolver(mapping), statements);
  }

  // ---- rewriting twice ----

  /** Nothing in the statement is left to move. */
  predicate IsDone(mapping: Mapping, statement: Statement) { RewriteOne(mapping, statement) == [statement] }

  predicate AllDone(mapping: Mapping, statements: seq<Statement>) {
    forall i :: 0 <= i < |statements| ==> IsDone(mapping, statements[i])
  }

  lemma {:induction false} NoSubs(mapping: Mapping, items: seq<string>)
    requires forall x :: x in items ==> x !in mapping
    ensures Subs(mapping, items) == []
  {
    if items != [] {
      NoSubs(mapping, items[..|items| - 1]);
    }
  }

  lemma GroupIsDone(mapping: Mapping, items: seq<string>)
    requires AreItems(items) && forall x :: x in items ==> x !in mapping
    ensures IsDone(mapping, Group(JoinItems(items)))
  {
    JoinedItems(items, false);
    NoSubs(mapping, items);
  }

  lemma KeptIsDone(mapping: Mapping, items: seq<string>)
    requires AreItems(items)
    ensures AllDone(mapping, Kept(mapping, items))
  {
    FilteredAreItems(x => x !in mapping, items);
    FilterMembers(x => x !in mapping, items);
    GroupIsDone(mapping, Unmapped(mapping, items));
  }

  lemma {:induction false} EmittedAreDone(mapping: Mapping, subs: seq<string>, items: seq<string>)
    ensures AllDone(mapping, EmitAll(mapping, subs, items))
  {
    if subs != [] {
      EmittedAreDone(mapping, subs[..|subs| - 1], items);
    }
  }

  lemma OneIsDone(mapping: Mapping, statement: Statement)
    ensures AllDone(mapping, RewriteOne(mapping, statement))
  {
    if statement.Group? {
      var items := ItemsOf(statement.body);
      ItemsAreItems(statement.body);
      KeptIsDone(mapping, items);
      EmittedAreDone(mapping, Sort(Subs(mapping, items)), items);
    }
  }

  lemma {:induction false} RewrittenIsDone(mapping: Mapping, statements: seq<Statement>)
    ensures AllDone(mapping, Rewrite(mapping, statements))
  {
    if statements != [] {
      RewrittenIsDone(mapping, statements[..|statements| - 1]);
      OneIsDone(mapping, statements[|statements| - 1]);
    }
  }

  lemma {:induction false} DoneStays(mapping: Mapping, statements: seq<Statement>)
    requires AllDone(mapping, statements)
    ensures Rewrite(mapping, statements) == statements
  {
    if statements != [] {
      var n := |statements| - 1;
      DoneStays(mapping, statements[..n]);
      assert IsDone(mapping, statements[n]);
      assert statements == statements[..n] + [statements[n]];
    }
  }

  /** Rewriting again changes nothing. */
  lemma RewriteIsIdempotent(mapping: Mapping, statements: seq<Statement>)
    ensures Rewrite(mapping, Rewrite(mapping, statements)) == Rewrite(mapping, statements)
  {
    RewrittenIsDone(mapping, statements);
    DoneStays(mapping, Rewrite(mapping, statements));
  }

  // ---- what is written, statement by statement ----

  /** The 29 code points stripping removes. */
  lemma SpaceIs(c: char)
    ensures IsSpace(c) <==>
            c in {'\U{9}', '\U{A}', '\U{B}', '\U{C}', '\U{D}', '\U{1C}', '\U{1D}', '\U{1E}', '\U{1F}', '\U{20}',
                  '\U{85}', '\U{A0}', '\U{1680}', '\U{2000}', '\U{2001}', '\U{2002}', '\U{2003}', '\U{2004}',
                  '\U{2005}', '\U{2006}', '\U{2007}', '\U{2008}', '\U{2009}', '\U{200A}', '\U{2028}', '\U{2029}',
                  '\U{202F}', '\U{205F}', '\U{3000}'}
  {
    WhitespaceIs(c);
  }

  /** Stripping takes away white space at both ends and nothing else. */
  lemma StripTakesSpace(s: string)
    ensures exists i: nat, j: nat :: i <= j <= |s| && Strip(s) == s[i..j] && AllSpace(s[..i]) && AllSpace(s[j..])
  {
    StripLeftSpace(s);
    var t := StripLeft(s);
    StripRightSpace(t);
    var i, r := |s| - |t|, StripRight(t);
    assert r == s[i..i + |r|] && s[i + |r|..] == t[|r|..];
  }

  predicate AllSpace(s: string) { forall i :: 0 <= i < |s| ==> IsSpace(s[i]) }

  lemma {:induction false} StripLeftSpace(s: string)
    ensures var t := StripLeft(s); |t| <= |s| && t == s[|s| - |t|..] && AllSpace(s[..|s| - |t|])
  {
    if s != [] && IsSpace(s[0]) {
      StripLeftSpace(s[1..]);
      var k := |s[1..]| - |StripLeft(s[1..])|;
      assert s[..k + 1] == [s[0]] + s[1..][..k] && s[k + 1..] == s[1..][k..];
    }
  }

  lemma {:induction false} StripRightSpace(s: string)
    ensures var t := StripRight(s); t <= s && AllSpace(s[|t|..])
  {
    if s != [] && IsSpace(s[|s| - 1]) {
      var front := s[..|s| - 1];
      StripRightSpace(front);
      var k := |StripRight(front)|;
      assert s[k..] == front[k..] + [s[|s| - 1]] && s[..k] == front[..k];
    }
  }

  lemma CommaBlank(a: string, b: string, x: string)
    ensures a + ("," + (" " + x)) == a + ", " + x
    ensures a + ("," + (" " + (b + ", " + x))) == a + ("," + (" " + b)) + ", " + x
  {
    assert "," + (" " + x) == ", " + x;
    assert " " + (b + ", " + x) == (" " + b) + ", " + x;
  }

  /** Items are joined by a comma and a blank. */
  lemma {:induction false} JoinSnoc(items: seq<string>, x: string)
    requires items != []
    ensures JoinItems([x]) == x && JoinItems(items + [x]) == JoinItems(items) + ", " + x
  {
    var longer := items + [x];
    assert longer[1..] == items[1..] + [x] && longer[0] == items[0];
    if |items| == 1 {
      assert items[1..] + [x] == [x];
      CommaBlank(items[0], "", x);
    } else {
      JoinSnoc(items[1..], x);
      CommaBlank(items[0], JoinItems(items[1..]), x);
    }
  }

  /** The items that move to a submodule, in their order. */
  lemma GroupIs(mapping: Mapping, sub: string, items: seq<string>)
    ensures GroupOf(mapping, sub, items) == Filter(x => x in mapping && mapping[x] == sub, items)
  {
    FilterAgree(x => Moves(mapping, sub, x), x => x in mapping && mapping[x] == sub, items);
  }

  /** The submodules some item moves to, each once, in order. */
  ghost predicate AreTargets(mapping: Mapping, items: seq<string>, subs: seq<string>) {
    (forall i, j :: 0 <= i < j < |subs| ==> Before(subs[i], subs[j])) &&
    forall sub :: sub in subs <==> exists x :: x in items && x in mapping && mapping[x] == sub
  }

  lemma {:induction false} SortedPairs(s: seq<string>, i: nat, j: nat)
    requires Sorted(s) && i < j < |s|
    ensures !Before(s[j], s[i])
  {
    if i == 0 {
      assert s[j] in s;
      HeadIsLeast(s, s[j]);
    } else {
      SortedPairs(s[1..], i - 1, j - 1);
    }
  }

  lemma SortedTargets(mapping: Mapping, items: seq<string>)
    ensures AreTargets(mapping, items, Sort(Subs(mapping, items)))
  {
    var subs := Subs(mapping, items);
    var sorted := Sort(subs);
    SortSorts(subs);
    SortKeepsMembers(subs);
    SubsAreDistinct(mapping, items);
    PermutedNoDuplicates(subs, sorted);
    forall i, j | 0 <= i < j < |sorted| ensures Before(sorted[i], sorted[j]) {
      SortedPairs(sorted, i, j);
      BeforeTotal(sorted[i], sorted[j]);
    }
    forall sub ensures sub in subs <==> exists x :: x in items && x in mapping && mapping[x] == sub {
      NoGroup(mapping, sub, items);
      FilterMembers(x => Moves(mapping, sub, x), items);
      var group := GroupOf(mapping, sub, items);
      if group != [] {
        assert group[0] in group && Moves(mapping, sub, group[0]);
      }
    }
  }

  /** A group of which nothing moves stays as it is. */
  lemma NothingMoves(mapping: Mapping, body: string)
    requires forall x :: x in ItemsOf(body) ==> x !in mapping
    ensures Replace(mapping, body) == [Group(body)]
  {
    NoSubs(mapping, ItemsOf(body));
  }

  /** The statement imports these items from the submodule. */
  predicate IsFor(statement: Statement, sub: string, items: seq<string>) {
    if |items| == 1 then statement == Single(sub, items[0]) else statement == Nested(sub, JoinItems(items))
  }

  /** One statement for each submodule, with the items that move there. */
  ghost predicate AreFor(mapping: Mapping, items: seq<string>, subs: seq<string>, out: seq<Statement>) {
    |out| == |subs| && forall k :: 0 <= k < |subs| ==> IsFor(out[k], subs[k], GroupOf(mapping, subs[k], items))
  }

  lemma {:induction false} EmittedAreFor(mapping: Mapping, items: seq<string>, subs: seq<string>)
    ensures AreFor(mapping, items, subs, EmitAll(mapping, subs, items))
  {
    if subs != [] {
      var n := |subs| - 1;
      EmittedAreFor(mapping, items, subs[..n]);
      var before, last := EmitAll(mapping, subs[..n], items), Emit(subs[n], GroupOf(mapping, subs[n], items));
      AreForNext(mapping, items, subs, before, last);
    }
  }

  lemma AreForNext(mapping: Mapping, items: seq<string>, subs: seq<string>, before: seq<Statement>, last: Statement)
    requires subs != [] && AreFor(mapping, items, subs[..|subs| - 1], before)
    requires IsFor(last, subs[|subs| - 1], GroupOf(mapping, subs[|subs| - 1], items))
    ensures AreFor(mapping, items, subs, before + [last])
  {
  }

  /** First one group of the items that stay, if there are any, then the statements for the submodules. */
  ghost predicate AreWritten(mapping: Mapping, items: seq<string>, rest: seq<string>, subs: seq<string>, out: seq<Statement>) {
    if rest == [] then AreFor(mapping, items, subs, out)
    else out != [] && out[0] == Group(JoinItems(rest)) && AreFor(mapping, items, subs, out[1..])
  }

  lemma EmittedAreWritten(mapping: Mapping, items: seq<string>, subs: seq<string>)
    ensures AreWritten(mapping, items, Unmapped(mapping, items), subs, Kept(mapping, items) + EmitAll(mapping, subs, items))
  {
    EmittedAreFor(mapping, items, subs);
    var kept, emitted := Kept(mapping, items), EmitAll(mapping, subs, items);
    if Unmapped(mapping, items) == [] {
      assert kept + emitted == emitted;
    } else {
      assert (kept + emitted)[1..] == emitted;
    }
  }

  /** Otherwise the submodules are those some item moves to, in order of name. */
  lemma ReplaceShape(mapping: Mapping, body: string, x: string)
    requires x in ItemsOf(body) && x in mapping
    ensures exists subs :: AreTargets(mapping, ItemsOf(body), subs) &&
              AreWritten(mapping, ItemsOf(body), Filter(y => y !in mapping, ItemsOf(body)), subs, Replace(mapping, body))
  {
    var items := ItemsOf(body);
    var subs := Sort(Subs(mapping, items));
    MappedHasSub(mapping, items, x);
    SortedTargets(mapping, items);
    FilterAgree(y => y !in mapping, y => y !in mapping, items);
    EmittedAreWritten(mapping, items, subs);
  }
}
