/** The edges of a package: add_split_dependencies of dpkg.c, which takes a line of a
    control file apart and adds an edge for each alternative it finds. */
module PackageEdges {
  import opened Options
  import opened Bits
  import opened DpkgVersions
  import opened Interning

  const EDGE_PRE_DEPENDS: nat := 1
  const EDGE_OR_PRE_DEPENDS: nat := 2
  const EDGE_DEPENDS: nat := 3
  const EDGE_OR_DEPENDS: nat := 4
  const EDGE_REPLACES: nat := 5
  const EDGE_PROVIDES: nat := 7
  const EDGE_CONFLICTS: nat := 9
  const EDGE_SUGGESTS: nat := 11
  const EDGE_RECOMMENDS: nat := 13
  const EDGE_ENHANCES: nat := 15

  /** name and version are slots of the name table. The version of an OR edge is the
      number of alternatives that follow it. */
  datatype Edge = Edge(op: Operator, kind: nat, name: nat, version: nat)

  const SPACE: byte := 32
  const OPEN: byte := 40
  const CLOSE: byte := 41
  const COMMA: byte := 44
  const LESS: byte := 60
  const EQUAL: byte := 61
  const MORE: byte := 62
  const BAR: byte := 124
  const ANY: Text := [65, 78, 89]

  // ---------- C strings ----------

  /** strspn and strcspn: how many characters in front are, or are not, among cs. */
  function Span(s: Text, cs: set<byte>): (n: nat)
    ensures n <= |s| && (forall i :: 0 <= i < n ==> s[i] in cs) && (n < |s| ==> s[n] !in cs)
  {
    if s == [] || s[0] !in cs then 0 else 1 + Span(s[1..], cs)
  }

  function CSpan(s: Text, cs: set<byte>): (n: nat)
    ensures n <= |s| && (forall i :: 0 <= i < n ==> s[i] !in cs) && (n < |s| ==> s[n] in cs)
  {
    if s == [] || s[0] in cs then 0 else 1 + CSpan(s[1..], cs)
  }

  function Skip(s: Text, cs: set<byte>): Text
  {
    s[Span(s, cs)..]
  }

  datatype Token = Token(text: Text, rest: Text)

  /** strtok_r with one separator: the next token, if there is one, and what is left
      behind the separator that ends it. */
  function StrTok(s: Text, sep: byte): (r: Option<Token>)
    ensures r.Some? ==> |r.value.text| + |r.value.rest| <= |s| && r.value.text != []
  {
    var t := Skip(s, {sep});
    var n := CSpan(t, {sep});
    if t == [] then None else Some(Token(t[..n], if n < |t| then t[n + 1..] else []))
  }

  function Tokens(s: Text, sep: byte): seq<Text>
    decreases |s|
  {
    match StrTok(s, sep)
    case None => []
    case Some(t) => [t.text] + Tokens(t.rest, sep)
  }

  // ---------- what a line says ----------

  /** A package name, with an operator and a version if they are asked for. */
  datatype Alternative = Alternative(name: Text, condition: Option<Condition>)

  datatype Condition = Condition(sign: Text, version: Text)

  function Cut(s: Text, cs: set<byte>): Text
  {
    s[..CSpan(s, cs)]
  }

  function ParseAlternative(s: Text): Alternative
  {
    var f := Skip(s, {SPACE});
    var v := f[CSpan(f, {OPEN})..];
    Alternative(Cut(f, {SPACE, OPEN}), if v == [] then None else Some(ParseCondition(Skip(v, {SPACE, OPEN}))))
  }

  function ParseCondition(v: Text): Condition
  {
    var n := Span(v, {LESS, EQUAL, MORE});
    Condition(v[..n], Cut(Skip(v[n..], {SPACE}), {SPACE, CLOSE}))
  }

  /** strncmp compares no more characters than there are in the sign. */
  function OperatorOf(sign: Text): Option<Operator>
  {
    if sign <= [EQUAL] then Some(VER_EQUAL)
    else if sign <= [LESS, LESS] then Some(VER_LESS)
    else if sign <= [LESS, EQUAL] then Some(VER_LESS_EQUAL)
    else if sign <= [MORE, MORE] then Some(VER_MORE)
    else if sign <= [MORE, EQUAL] then Some(VER_MORE_EQUAL)
    else None
  }

  function AltOperator(a: Alternative): Option<Operator>
  {
    if a.condition.None? then Some(VER_ANY) else OperatorOf(a.condition.value.sign)
  }

  function AltVersion(a: Alternative): Text
  {
    if a.condition.None? then ANY else a.condition.value.version
  }

  /** What stands between two commas. */
  datatype Clause = Clause(field: Text, alternatives: seq<Alternative>)

  function ParseAll(tokens: seq<Text>): (r: seq<Alternative>)
    ensures |r| == |tokens| && forall i :: 0 <= i < |r| ==> r[i] == ParseAlternative(tokens[i])
  {
    seq(|tokens|, i requires 0 <= i < |tokens| => ParseAlternative(tokens[i]))
  }

  function ClauseOf(field: Text): Clause
  {
    Clause(field, ParseAll(Tokens(field, BAR)))
  }

  /** A clause of a line of some kind. */
  datatype Item = Item(kind: nat, clause: Clause)

  function Items(kind: nat, fields: seq<Text>): (r: seq<Item>)
    ensures |r| == |fields| && forall i :: 0 <= i < |r| ==> r[i] == Item(kind, ClauseOf(Skip(fields[i], {SPACE})))
  {
    seq(|fields|, i requires 0 <= i < |fields| => Item(kind, ClauseOf(Skip(fields[i], {SPACE}))))
  }

  function LineItems(kind: nat, line: Text): seq<Item>
  {
    Items(kind, Tokens(line, COMMA))
  }

  predicate IsDepends(kind: nat)
  {
    kind == EDGE_PRE_DEPENDS || kind == EDGE_DEPENDS
  }

  /** Whether an OR edge comes before the alternatives: if the field is not just the
      first of them. */
  predicate IsOr(item: Item)
  {
    var tokens := Tokens(item.clause.field, BAR);
    IsDepends(item.kind) && tokens != [] && item.clause.field != tokens[0]
  }

  /** Without an OR edge there is one alternative only. */
  lemma OneAlternative(field: Text)
    requires Tokens(field, BAR) != [] && field == Tokens(field, BAR)[0]
    ensures |Tokens(field, BAR)| == 1
  {
    var t := StrTok(field, BAR).value;
    assert t.rest == [];
    assert StrTok([], BAR).None?;
  }

  // ---------- how edges say it ----------

  function OrCount(item: Item): nat
  {
    if IsOr(item) then 1 else 0
  }

  /** Where the edges of the mth item start. */
  function Offset(items: seq<Item>, m: nat): nat
    requires m <= |items|
  {
    if m == 0 then 0
    else Offset(items, m - 1) + OrCount(items[m - 1]) + |items[m - 1].clause.alternatives|
  }

  ghost predicate Stands(names: Names, k: nat, text: Text)
  {
    k < |names| && names[k] == Some(text)
  }

  ghost predicate EdgeIs(names: Names, e: Edge, kind: nat, a: Alternative)
  {
    && e.kind == kind && AltOperator(a) == Some(e.op)
    && Stands(names, e.name, a.name) && Stands(names, e.version, AltVersion(a))
  }

  /** The first n alternatives of an item have their edges from at on. */
  ghost predicate ItemAt(names: Names, edges: seq<Edge>, at: nat, item: Item, n: nat)
    requires n <= |item.clause.alternatives|
  {
    && at + OrCount(item) + n <= |edges|
    && (IsOr(item) ==> edges[at].kind == item.kind + 1 && edges[at].version == n)
    && (IsOr(item) ==> Stands(names, edges[at].name, item.clause.field))
    && forall i :: 0 <= i < n ==>
         EdgeIs(names, edges[at + OrCount(item) + i], item.kind, item.clause.alternatives[i])
  }

  ghost predicate Encodes(names: Names, edges: seq<Edge>, items: seq<Item>)
  {
    && |edges| == Offset(items, |items|)
    && forall m :: 0 <= m < |items| ==> ItemIs(names, edges, items, m)
  }

  ghost predicate ItemIs(names: Names, edges: seq<Edge>, items: seq<Item>, m: nat)
    requires m < |items|
  {
    ItemAt(names, edges, Offset(items, m), items[m], |items[m].clause.alternatives|)
  }

  lemma {:induction false} OffsetPrefix(items: seq<Item>, item: Item, m: nat)
    requires m <= |items|
    ensures Offset(items + [item], m) == Offset(items, m)
  {
    if m != 0 {
      OffsetPrefix(items, item, m - 1);
    }
  }

  lemma {:induction false} OffsetGrows(items: seq<Item>, m: nat, n: nat)
    requires m <= n <= |items|
    ensures Offset(items, m) <= Offset(items, n)
  {
    if m < n {
      OffsetGrows(items, m, n - 1);
    }
  }

  /** More names and more edges at the end do no harm. */
  lemma ItemStays(names: Names, edges: seq<Edge>, at: nat, item: Item, n: nat, names1: Names, edges1: seq<Edge>)
    requires n <= |item.clause.alternatives| && ItemAt(names, edges, at, item, n)
    requires Extends(names, names1) && edges <= edges1
    ensures ItemAt(names1, edges1, at, item, n)
  {
    forall i | 0 <= i < n
      ensures EdgeIs(names1, edges1[at + OrCount(item) + i], item.kind, item.clause.alternatives[i])
    {
      assert EdgeIs(names, edges[at + OrCount(item) + i], item.kind, item.clause.alternatives[i]);
    }
  }

  lemma EncodesStays(names: Names, edges: seq<Edge>, items: seq<Item>, names1: Names)
    requires Encodes(names, edges, items) && Extends(names, names1)
    ensures Encodes(names1, edges, items)
  {
    forall m | 0 <= m < |items| ensures ItemIs(names1, edges, items, m) {
      assert ItemIs(names, edges, items, m);
      ItemStays(names, edges, Offset(items, m), items[m], |items[m].clause.alternatives|, names1, edges);
    }
  }

  lemma EncodesMore(names: Names, edges: seq<Edge>, items: seq<Item>, item: Item, edges1: seq<Edge>)
    requires Encodes(names, edges, items) && edges <= edges1
    requires |edges1| == |edges| + OrCount(item) + |item.clause.alternatives|
    requires ItemAt(names, edges1, |edges|, item, |item.clause.alternatives|)
    ensures Encodes(names, edges1, items + [item])
  {
    var more := items + [item];
    OffsetPrefix(items, item, |items|);
    forall m | 0 <= m < |more| ensures ItemIs(names, edges1, more, m) {
      OffsetPrefix(items, item, m);
      if m < |items| {
        assert ItemIs(names, edges, items, m);
        ItemStays(names, edges, Offset(items, m), items[m], |items[m].clause.alternatives|, names, edges1);
      }
    }
  }

  // ---------- add_split_dependencies ----------

  /** What the code relies on: there is a token wherever it looks for one, and an
      operator in every condition. */
  predicate ClauseOk(c: Clause)
  {
    && |c.alternatives| > 0
    && forall i :: 0 <= i < |c.alternatives| ==> c.alternatives[i].condition.Some? ==> c.alternatives[i].condition.value.sign != []
  }

  /** The operators are all known. */
  predicate Legal(c: Clause, n: nat)
    requires n <= |c.alternatives|
  {
    forall i :: 0 <= i < n ==> AltOperator(c.alternatives[i]).Some?
  }

  /** All that is put into the name table for a clause. */
  ghost predicate Covers(words: set<Text>, c: Clause)
  {
    && c.field in words
    && forall i :: 0 <= i < |c.alternatives| ==> c.alternatives[i].name in words && AltVersion(c.alternatives[i]) in words
  }

  /** One more alternative. */
  lemma PartMore(names: Names, edges: seq<Edge>, at: nat, item: Item, n: nat, names1: Names, e: Edge, edges1: seq<Edge>)
    requires n < |item.clause.alternatives| && ItemAt(names, edges, at, item, n) && |edges| == at + OrCount(item) + n
    requires Extends(names, names1) && EdgeIs(names1, e, item.kind, item.clause.alternatives[n])
    requires edges1 == (if IsOr(item) then edges[at := edges[at].(version := edges[at].version + 1)] else edges) + [e]
    ensures ItemAt(names1, edges1, at, item, n + 1) && edges1[..at] == edges[..at]
  {
    hide EdgeIs;
    forall i | 0 <= i < n
      ensures EdgeIs(names1, edges1[at + OrCount(item) + i], item.kind, item.clause.alternatives[i])
    {
      assert edges1[at + OrCount(item) + i] == edges[at + OrCount(item) + i];
      EdgeStays(names, edges[at + OrCount(item) + i], item.kind, item.clause.alternatives[i], names1);
    }
  }

  lemma EdgeStays(names: Names, e: Edge, kind: nat, a: Alternative, names1: Names)
    requires EdgeIs(names, e, kind, a) && Extends(names, names1)
    ensures EdgeIs(names1, e, kind, a)
  {
  }

  lemma ExtendsMore(t: Names, u: Names, v: Names)
    requires Extends(t, u) && Extends(u, v)
    ensures Extends(t, v)
  {
  }

  lemma InternedExtends(t: Names, key: Text, u: Names, r: nat)
    requires Interned(t, key, u, r)
    ensures Extends(t, u) && Stands(u, r, key)
  {
  }

  /** The edge of one alternative, unless its operator is unknown. */
  method MakeEdge(table: NameTable, kind: nat, a: Alternative, ghost words: set<Text>) returns (ok: bool, e: Edge)
    requires table.Valid() && table.Room(words) && a.name in words && AltVersion(a) in words
    modifies table.table
    ensures table.Valid() && table.Room(words) && Extends(old(table.table[..]), table.table[..])
    ensures ok == AltOperator(a).Some?
    ensures ok ==> EdgeIs(table.table[..], e, kind, a)
  {
    hide OperatorOf;
    e := Edge(VER_NULL, kind, 0, 0);
    var op := AltOperator(a);
    if op.None? {
      return false, e;
    }
    ghost var t := table.table[..];
    var version := table.SearchNameHashtable(AltVersion(a), words);
    ghost var u := table.table[..];
    InternedExtends(t, AltVersion(a), u, version);
    var name := table.SearchNameHashtable(a.name, words);
    InternedExtends(u, a.name, table.table[..], name);
    ExtendsMore(t, u, table.table[..]);
    return true, Edge(op.value, kind, name, version);
  }

  /** The token at hand and those to come. */
  function Left(tok: Option<Token>, sep: byte): seq<Text>
  {
    if tok.None? then [] else [tok.value.text] + Tokens(tok.value.rest, sep)
  }

  lemma StepTokens(s: Text, sep: byte)
    ensures Left(StrTok(s, sep), sep) == Tokens(s, sep)
  {
  }

  lemma IsOrIs(item: Item)
    ensures IsOr(item) <==> var tokens := Tokens(item.clause.field, BAR); IsDepends(item.kind) && tokens != [] && item.clause.field != tokens[0]
  {
  }

  /** Nothing read of the field yet. */
  lemma FieldStart(names: Names, edges: seq<Edge>, item: Item, name: nat)
    requires IsOr(item) ==> Stands(names, name, item.clause.field)
    ensures IsOr(item) ==> ItemAt(names, edges + [Edge(VER_NULL, item.kind + 1, name, 0)], |edges|, item, 0)
    ensures !IsOr(item) ==> ItemAt(names, edges, |edges|, item, 0)
  {
  }

  /** The edges of one field: an OR edge, if there is more to the field than its first
      token, that counts the alternatives behind it. Fails on an unknown operator. */
  method AddField(table: NameTable, edges0: seq<Edge>, kind: nat, field: Text, ghost words: set<Text>)
    returns (ok: bool, edges: seq<Edge>)
    requires table.Valid() && table.Room(words) && Covers(words, ClauseOf(field)) && ClauseOk(ClauseOf(field))
    modifies table.table
    ensures table.Valid() && table.Room(words) && Extends(old(table.table[..]), table.table[..])
    ensures ok == Legal(ClauseOf(field), |ClauseOf(field).alternatives|)
    ensures ok ==> edges0 <= edges
    ensures ok ==> |edges| == |edges0| + OrCount(Item(kind, ClauseOf(field))) + |ClauseOf(field).alternatives|
    ensures ok ==> ItemAt(table.table[..], edges, |edges0|, Item(kind, ClauseOf(field)), |ClauseOf(field).alternatives|)
  {
    hide EdgeIs, ItemAt, AltOperator, StrTok, Extends, ParseAlternative, Tokens, IsOr, Consistent, Keys, IsDepends;
    ghost var item := Item(kind, ClauseOf(field));
    ghost var tokens := Tokens(field, BAR);
    ghost var t := table.table[..];
    var tok := StrTok(field, BAR);
    edges := edges0;
    StepTokens(field, BAR);
    var orEdge := IsDepends(kind) && tok.Some? && field != tok.value.text;
    IsOrIs(item);
    var name := 0;
    ExtendsSelf(t);
    if orEdge {
      name := table.SearchNameHashtable(field, words);
      InternedExtends(t, field, table.table[..], name);
      edges := edges + [Edge(VER_NULL, kind + 1, name, 0)];
    }
    FieldStart(table.table[..], edges0, item, name);
    ghost var n: nat := 0;
    while tok.Some?
      invariant table.Valid() && table.Room(words) && Extends(t, table.table[..])
      invariant n <= |tokens| && tokens[n..] == Left(tok, BAR)
      invariant edges0 <= edges && |edges| == |edges0| + OrCount(item) + n
      invariant ItemAt(table.table[..], edges, |edges0|, item, n) && Legal(item.clause, n)
      decreases |tokens| - n
    {
      var a := ParseAlternative(tok.value.text);
      assert tokens[n] == tok.value.text && a == item.clause.alternatives[n];
      ghost var u, before := table.table[..], edges;
      var e;
      ok, e := MakeEdge(table, kind, a, words);
      ExtendsMore(t, u, table.table[..]);
      if !ok {
        return;
      }
      if orEdge {
        edges := edges[|edges0| := edges[|edges0|].(version := edges[|edges0|].version + 1)];
      }
      edges := edges + [e];
      PartMore(u, before, |edges0|, item, n, table.table[..], e, edges);
      assert tokens[n + 1..] == tokens[n..][1..] == Tokens(tok.value.rest, BAR);
      StepTokens(tok.value.rest, BAR);
      tok := StrTok(tok.value.rest, BAR);
      n := n + 1;
    }
    ok := true;
  }

  lemma ExtendsSelf(t: Names)
    ensures Extends(t, t)
  {
  }

  /** What the code relies on in a whole line. */
  predicate LineOk(kind: nat, line: Text)
  {
    && LineItems(kind, line) != []
    && forall m :: 0 <= m < |LineItems(kind, line)| ==> ClauseOk(LineItems(kind, line)[m].clause)
  }

  predicate ItemLegal(item: Item)
  {
    Legal(item.clause, |item.clause.alternatives|)
  }

  lemma AppendOne<T>(a: seq<T>, b: seq<T>, n: nat)
    requires n < |b|
    ensures a + b[..n + 1] == a + b[..n] + [b[n]]
  {
  }

  /** The number of edges fits the 16 bits of num_of_edges. */
  predicate Fit(items: seq<Item>)
  {
    Offset(items, |items|) < 0x1_0000
  }

  /** Add the edges of a line. Each field becomes the edges of one more item; the only
      failure is an unknown operator. */
  method AddSplitDependencies(table: NameTable, edges0: seq<Edge>, line: Text, kind: nat, ghost items0: seq<Item>,
      ghost words: set<Text>)
    returns (ok: bool, edges: seq<Edge>)
    requires table.Valid() && table.Room(words) && LineOk(kind, line)
    requires forall m :: 0 <= m < |LineItems(kind, line)| ==> Covers(words, LineItems(kind, line)[m].clause)
    requires Encodes(table.table[..], edges0, items0) && Fit(items0 + LineItems(kind, line))
    modifies table.table
    ensures table.Valid() && table.Room(words) && Extends(old(table.table[..]), table.table[..])
    ensures ok == forall m :: 0 <= m < |LineItems(kind, line)| ==> ItemLegal(LineItems(kind, line)[m])
    ensures ok ==> Encodes(table.table[..], edges, items0 + LineItems(kind, line)) && |edges| < 0x1_0000
  {
    hide Encodes, Fit, ItemAt, StrTok, Extends, Tokens, Skip, ClauseOf, Consistent, Keys, ClauseOk, Covers, ItemLegal;
    ghost var all := LineItems(kind, line);
    ghost var fields := Tokens(line, COMMA);
    ghost var t := table.table[..];
    ExtendsSelf(t);
    edges := edges0;
    assert items0 + all[..0] == items0;
    var tok := StrTok(line, COMMA);
    StepTokens(line, COMMA);
    ghost var n: nat := 0;
    while tok.Some?
      invariant table.Valid() && table.Room(words) && Extends(t, table.table[..])
      invariant n <= |fields| && fields[n..] == Left(tok, COMMA)
      invariant Encodes(table.table[..], edges, items0 + all[..n])
      invariant forall m :: 0 <= m < n ==> ItemLegal(all[m])
      decreases |fields| - n
    {
      var field := Skip(tok.value.text, {SPACE});
      assert fields[n] == tok.value.text && all[n] == Item(kind, ClauseOf(field));
      ghost var u, before := table.table[..], edges;
      ok, edges := AddField(table, edges, kind, field, words);
      ExtendsMore(t, u, table.table[..]);
      FieldLegal(kind, field, ok);
      if !ok {
        return;
      }
      EncodesStays(u, before, items0 + all[..n], table.table[..]);
      EncodesMore(table.table[..], before, items0 + all[..n], all[n], edges);
      AppendOne(items0, all, n);
      assert fields[n + 1..] == fields[n..][1..] == Tokens(tok.value.rest, COMMA);
      StepTokens(tok.value.rest, COMMA);
      tok := StrTok(tok.value.rest, COMMA);
      n := n + 1;
    }
    assert all[..n] == all;
    FitLength(table.table[..], edges, items0 + all);
    ok := true;
  }

  lemma FieldLegal(kind: nat, field: Text, ok: bool)
    requires ok == Legal(ClauseOf(field), |ClauseOf(field).alternatives|)
    ensures ok == ItemLegal(Item(kind, ClauseOf(field)))
  {
  }

  lemma FitLength(names: Names, edges: seq<Edge>, items: seq<Item>)
    requires Encodes(names, edges, items) && Fit(items)
    ensures |edges| < 0x1_0000
  {
  }
}
