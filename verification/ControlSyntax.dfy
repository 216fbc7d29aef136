/** How dependencies are written in a control file, and that a line so written is read for what
    it says: section 7.1 of the Debian Policy Manual. */
module ControlSyntax {
  import opened Options
  import opened Bits
  import opened DpkgVersions
  import opened PackageEdges

  /** The five relations: "<<", "<=", "=", ">=" and ">>". */
  datatype Sign = Earlier | EarlierOrEqual | Equal | LaterOrEqual | Later

  function SignText(s: Sign): Text
  {
    match s
    case Earlier => [60, 60]
    case EarlierOrEqual => [60, 61]
    case Equal => [61]
    case LaterOrEqual => [62, 61]
    case Later => [62, 62]
  }

  /** A condition in parentheses, with blanks behind the open one, between sign and version, and
      before the closing one. */
  datatype Limit = Limit(sign: Sign, version: Text, open: nat, mid: nat, close: nat)

  /** An alternative with the blanks before the name, behind it, and at the end. */
  datatype Spelling = Spelling(name: Text, limit: Option<Limit>, before: nat, behind: nat, end: nat)

  function Blanks(n: nat): (t: Text)
    ensures |t| == n && forall i :: 0 <= i < n ==> t[i] == 32
  {
    seq(n, _ => 32)
  }

  /** Names and versions that can be told from what stands around them. */
  predicate Readable(a: Spelling)
  {
    && a.name != [] && NoneIn(a.name, {32, 40, 44, 124})
    && (a.limit.Some? ==>
          && NoneIn(a.limit.value.version, {32, 41, 44, 124})
          && (a.limit.value.mid == 0 && a.limit.value.version != [] ==> a.limit.value.version[0] !in {60, 61, 62}))
  }

  function WriteLimit(l: Limit): Text
  {
    [40] + Blanks(l.open) + SignText(l.sign) + Blanks(l.mid) + l.version + Blanks(l.close) + [41]
  }

  function WriteAlternative(a: Spelling): Text
  {
    Blanks(a.before) + a.name + Blanks(a.behind) + (if a.limit.Some? then WriteLimit(a.limit.value) else []) + Blanks(a.end)
  }

  /** Texts with a separator between them. */
  function Joined(parts: seq<Text>, sep: byte): Text
    requires sep != 0
  {
    if parts == [] then []
    else if |parts| == 1 then parts[0]
    else parts[0] + [sep] + Joined(parts[1..], sep)
  }

  function WriteField(field: seq<Spelling>): Text
  {
    Joined(seq(|field|, i requires 0 <= i < |field| => WriteAlternative(field[i])), 124)
  }

  function WriteLine(fields: seq<seq<Spelling>>): Text
  {
    Joined(seq(|fields|, i requires 0 <= i < |fields| => WriteField(fields[i])), 44)
  }

  // ---------- reading texts apart ----------

  predicate AllIn(s: Text, cs: set<byte>)
  {
    forall i :: 0 <= i < |s| ==> s[i] in cs
  }

  predicate NoneIn(s: Text, cs: set<byte>)
  {
    forall i :: 0 <= i < |s| ==> s[i] !in cs
  }

  /** Skipping what is among the characters, up to something that is not. */
  lemma SkipFront(a: Text, b: Text, cs: set<byte>)
    requires AllIn(a, cs) && (b != [] ==> b[0] !in cs)
    ensures Span(a + b, cs) == |a| && (a + b)[..|a|] == a && (a + b)[|a|..] == b && Skip(a + b, cs) == b
  {
    hide Span;
    var s := a + b;
    forall i | 0 <= i < |a| ensures s[i] in cs {
      assert s[i] == a[i];
    }
    assert b != [] ==> s[|a|] == b[0];
    assert s[..|a|] == a && s[|a|..] == b;
  }

  /** Cutting off in front of the first that is. */
  lemma CutFront(a: Text, b: Text, cs: set<byte>)
    requires NoneIn(a, cs) && (b != [] ==> b[0] in cs)
    ensures CSpan(a + b, cs) == |a| && Cut(a + b, cs) == a && (a + b)[|a|..] == b
  {
    hide CSpan;
    var s := a + b;
    forall i | 0 <= i < |a| ensures s[i] !in cs {
      assert s[i] == a[i];
    }
    assert b != [] ==> s[|a|] == b[0];
    assert s[..|a|] == a && s[|a|..] == b;
  }

  lemma {:induction false} TokensOf(parts: seq<Text>, sep: byte)
    requires sep != 0 && forall i :: 0 <= i < |parts| ==> parts[i] != [] && NoneIn(parts[i], {sep})
    ensures Tokens(Joined(parts, sep), sep) == parts
    decreases |parts|
  {
    hide StrTok;
    NoToken(sep);
    if parts != [] {
      var p, more := parts[0], parts[1..];
      var rest: Text := if more == [] then [] else [sep] + Joined(more, sep);
      assert Joined(parts, sep) == p + rest;
      FirstToken(p, rest, sep);
      assert more == [] ==> Joined(more, sep) == [];
      TokensOf(more, sep);
      assert parts == [p] + more;
    }
  }

  lemma NoToken(sep: byte)
    ensures StrTok([], sep) == None
  {
  }

  lemma FirstToken(p: Text, rest: Text, sep: byte)
    requires p != [] && NoneIn(p, {sep}) && (rest != [] ==> rest[0] == sep)
    ensures StrTok(p + rest, sep) == Some(Token(p, if rest == [] then [] else rest[1..]))
  {
    hide Span, CSpan, Cut;
    var s: Text := p + rest;
    NoneSkipped(s, sep);
    CutFront(p, rest, {sep});
    if rest != [] {
      BehindToken(p, rest);
    }
  }

  lemma BehindToken(p: Text, rest: Text)
    requires rest != []
    ensures (p + rest)[|p| + 1..] == rest[1..]
  {
  }

  lemma NoneSkipped(s: Text, sep: byte)
    requires s != [] && s[0] != sep
    ensures Skip(s, {sep}) == s
  {
  }

  // ---------- what is written is read ----------

  /** What a spelling says, whatever blanks it has. */
  function Meaning(a: Spelling): Alternative
  {
    Alternative(a.name, if a.limit.None? then None else Some(Condition(SignText(a.limit.value.sign), a.limit.value.version)))
  }

  lemma SignShape(s: Sign)
    ensures 1 <= |SignText(s)| <= 2 && forall i :: 0 <= i < |SignText(s)| ==> SignText(s)[i] in {60, 61, 62}
  {
  }

  lemma LimitShape(l: Limit, rest: Text)
    ensures WriteLimit(l) + rest
         == ([40] + Blanks(l.open)) + (SignText(l.sign) + (Blanks(l.mid) + (l.version + (Blanks(l.close) + ([41] + rest)))))
    ensures WriteLimit(l) + rest != [] && (WriteLimit(l) + rest)[0] == 40
  {
  }

  /** The version in front of blanks and a parenthesis. */
  lemma VersionRead(version: Text, mid: nat, close: nat, rest: Text)
    requires NoneIn(version, {32, 41, 44, 124})
    ensures Cut(Skip(Blanks(mid) + (version + (Blanks(close) + ([41] + rest))), {32}), {32, 41}) == version
  {
    hide Span, CSpan, Skip, Cut;
    var tail: Text := Blanks(close) + ([41] + rest);
    if version == [] {
      assert Blanks(mid) + (version + tail) == (Blanks(mid) + Blanks(close)) + ([41] + rest);
      SkipFront(Blanks(mid) + Blanks(close), [41] + rest, {32});
      CutFront([], [41] + rest, {32, 41});
      assert [] + ([41] + rest) == [41] + rest;
    } else {
      SkipFront(Blanks(mid), version + tail, {32});
      CutFront(version, tail, {32, 41});
    }
  }

  lemma ConditionIs(v: Text, sign: Text, d: Text)
    requires v == sign + d && Span(v, {60, 61, 62}) == |sign|
    ensures ParseCondition(v) == Condition(sign, Cut(Skip(d, {32}), {32, 41}))
  {
    hide Span, CSpan, Skip, Cut;
    assert v[..|sign|] == sign && v[|sign|..] == d;
  }

  /** A condition is read, whatever follows it. */
  lemma LimitRead(l: Limit, rest: Text)
    requires NoneIn(l.version, {32, 41, 44, 124})
    requires l.mid == 0 && l.version != [] ==> l.version[0] !in {60, 61, 62}
    ensures ParseCondition(Skip(WriteLimit(l) + rest, {32, 40})) == Condition(SignText(l.sign), l.version)
  {
    hide Span, CSpan, Skip, Cut, WriteLimit, SignText, ParseCondition;
    var sign, version := SignText(l.sign), l.version;
    var d: Text := Blanks(l.mid) + (version + (Blanks(l.close) + ([41] + rest)));
    SignShape(l.sign);
    LimitShape(l, rest);
    SkipFront([40] + Blanks(l.open), sign + d, {32, 40});
    NoSignBehind(l, rest);
    SkipFront(sign, d, {60, 61, 62});
    ConditionIs(sign + d, sign, d);
    VersionRead(version, l.mid, l.close, rest);
  }

  lemma NoSignBehind(l: Limit, rest: Text)
    requires l.mid == 0 && l.version != [] ==> l.version[0] !in {60, 61, 62}
    ensures var d: Text := Blanks(l.mid) + (l.version + (Blanks(l.close) + ([41] + rest)));
      d != [] && d[0] !in {60, 61, 62}
  {
    var d: Text := Blanks(l.mid) + (l.version + (Blanks(l.close) + ([41] + rest)));
    if l.mid == 0 {
      if l.version != [] {
        assert d[0] == l.version[0];
      } else if l.close == 0 {
        assert d[0] == 41;
      } else {
        assert d[0] == Blanks(l.close)[0];
      }
    } else {
      assert d[0] == Blanks(l.mid)[0];
    }
  }

  lemma AlternativeShape(a: Spelling)
    ensures WriteAlternative(a) == Blanks(a.before) + (a.name + (Blanks(a.behind)
         + ((if a.limit.Some? then WriteLimit(a.limit.value) else []) + Blanks(a.end))))
  {
  }

  lemma AlternativeRead(a: Spelling)
    requires Readable(a)
    ensures ParseAlternative(WriteAlternative(a)) == Meaning(a)
  {
    hide Span, CSpan, Skip, Cut, ParseCondition, WriteLimit, WriteAlternative;
    AlternativeShape(a);
    var limit: Text := (if a.limit.Some? then WriteLimit(a.limit.value) else []) + Blanks(a.end);
    if a.limit.Some? {
      LimitShape(a.limit.value, Blanks(a.end));
    } else {
      assert limit == Blanks(a.end);
    }
    var rest: Text := Blanks(a.behind) + limit;
    SkipFront(Blanks(a.before), a.name + rest, {32});
    CutFront(a.name, rest, {32, 40});
    if a.limit.None? {
      CutFront(a.name + rest, [], {40});
      assert (a.name + rest) + [] == a.name + rest;
    } else {
      assert (a.name + Blanks(a.behind)) + limit == a.name + rest;
      CutFront(a.name + Blanks(a.behind), limit, {40});
      LimitRead(a.limit.value, Blanks(a.end));
    }
  }

  // ---------- fields and lines ----------

  lemma NoneConcat(a: Text, b: Text, cs: set<byte>)
    requires NoneIn(a, cs) && NoneIn(b, cs)
    ensures NoneIn(a + b, cs)
  {
  }

  lemma NoneInLimit(l: Limit)
    requires NoneIn(l.version, {32, 41, 44, 124})
    ensures NoneIn(WriteLimit(l), {44, 124})
  {
    SignShape(l.sign);
    var s: Text := [40] + Blanks(l.open);
    NoneConcat(s, SignText(l.sign), {44, 124});
    NoneConcat(s + SignText(l.sign), Blanks(l.mid), {44, 124});
    NoneConcat(s + SignText(l.sign) + Blanks(l.mid), l.version, {44, 124});
    NoneConcat(s + SignText(l.sign) + Blanks(l.mid) + l.version, Blanks(l.close), {44, 124});
    NoneConcat(s + SignText(l.sign) + Blanks(l.mid) + l.version + Blanks(l.close), [41], {44, 124});
  }

  lemma NoSeparator(a: Spelling)
    requires Readable(a)
    ensures WriteAlternative(a) != [] && NoneIn(WriteAlternative(a), {44, 124})
    ensures NoneIn(WriteAlternative(a), {44}) && NoneIn(WriteAlternative(a), {124})
  {
    hide WriteLimit;
    var limit: Text := if a.limit.Some? then WriteLimit(a.limit.value) else [];
    if a.limit.Some? {
      NoneInLimit(a.limit.value);
    }
    NoneConcat(Blanks(a.before), a.name, {44, 124});
    NoneConcat(Blanks(a.before) + a.name, Blanks(a.behind), {44, 124});
    NoneConcat(Blanks(a.before) + a.name + Blanks(a.behind), limit, {44, 124});
    NoneConcat(Blanks(a.before) + a.name + Blanks(a.behind) + limit, Blanks(a.end), {44, 124});
  }

  function Parts(field: seq<Spelling>): (r: seq<Text>)
    ensures |r| == |field| && forall i :: 0 <= i < |field| ==> r[i] == WriteAlternative(field[i])
  {
    seq(|field|, i requires 0 <= i < |field| => WriteAlternative(field[i]))
  }

  lemma {:induction false} JoinedWithout(parts: seq<Text>, sep: byte, c: byte)
    requires sep != 0 && c != sep && forall i :: 0 <= i < |parts| ==> NoneIn(parts[i], {c})
    ensures NoneIn(Joined(parts, sep), {c})
    decreases |parts|
  {
    if |parts| > 1 {
      JoinedWithout(parts[1..], sep, c);
      NoneConcat(parts[0], [sep], {c});
      NoneConcat(parts[0] + [sep], Joined(parts[1..], sep), {c});
    }
  }

  /** The alternatives of a field are read in order. */
  lemma FieldRead(field: seq<Spelling>)
    requires forall i :: 0 <= i < |field| ==> Readable(field[i])
    ensures NoneIn(WriteField(field), {44}) && (field != [] ==> WriteField(field) != [])
    ensures |ClauseOf(WriteField(field)).alternatives| == |field|
    ensures forall i :: 0 <= i < |field| ==> ClauseOf(WriteField(field)).alternatives[i] == Meaning(field[i])
  {
    hide ParseAlternative, Tokens, WriteAlternative, Meaning;
    var parts := Parts(field);
    assert WriteField(field) == Joined(parts, 124);
    forall i | 0 <= i < |field| ensures parts[i] != [] && NoneIn(parts[i], {44}) && NoneIn(parts[i], {124}) {
      NoSeparator(field[i]);
    }
    TokensOf(parts, 124);
    JoinedWithout(parts, 124, 44);
    forall i | 0 <= i < |field| ensures ParseAlternative(parts[i]) == Meaning(field[i]) {
      AlternativeRead(field[i]);
    }
  }

  /** Blanks in front of a field are those in front of its first name. */
  function Flush(field: seq<Spelling>): seq<Spelling>
    requires field != []
  {
    field[0 := field[0].(before := 0)]
  }

  lemma FlushField(field: seq<Spelling>)
    requires field != [] && forall i :: 0 <= i < |field| ==> Readable(field[i])
    ensures Skip(WriteField(field), {32}) == WriteField(Flush(field))
    ensures forall i :: 0 <= i < |field| ==> Readable(Flush(field)[i]) && Meaning(Flush(field)[i]) == Meaning(field[i])
  {
    hide Skip, WriteLimit;
    var a, b := field[0], field[0].(before := 0);
    var p, q := Parts(field), Parts(Flush(field));
    assert p[0] == Blanks(a.before) + q[0];
    assert p[1..] == q[1..];
    assert Joined(p, 124) == Blanks(a.before) + Joined(q, 124);
    assert q[0][0] == a.name[0] && Joined(q, 124)[0] == q[0][0];
    SkipFront(Blanks(a.before), Joined(q, 124), {32});
  }

  /** A line is read for what it says: its fields in order, with their alternatives in order,
      however many blanks stand between. */
  lemma LineRead(kind: nat, fields: seq<seq<Spelling>>)
    requires forall m :: 0 <= m < |fields| ==> fields[m] != []
    requires forall m, i :: 0 <= m < |fields| && 0 <= i < |fields[m]| ==> Readable(fields[m][i])
    ensures var items := LineItems(kind, WriteLine(fields));
      && |items| == |fields|
      && (forall m :: 0 <= m < |fields| ==> items[m].kind == kind && |items[m].clause.alternatives| == |fields[m]|)
      && forall m, i :: 0 <= m < |fields| && 0 <= i < |fields[m]| ==> items[m].clause.alternatives[i] == Meaning(fields[m][i])
  {
    hide ClauseOf, Tokens, WriteField, Meaning, Readable;
    var parts := seq(|fields|, m requires 0 <= m < |fields| => WriteField(fields[m]));
    assert WriteLine(fields) == Joined(parts, 44);
    forall m | 0 <= m < |fields| ensures parts[m] != [] && NoneIn(parts[m], {44}) {
      FieldRead(fields[m]);
    }
    TokensOf(parts, 44);
    forall m | 0 <= m < |fields|
      ensures |ClauseOf(Skip(parts[m], {32})).alternatives| == |fields[m]|
      ensures forall i :: 0 <= i < |fields[m]| ==> ClauseOf(Skip(parts[m], {32})).alternatives[i] == Meaning(fields[m][i])
    {
      FlushField(fields[m]);
      FieldRead(Flush(fields[m]));
    }
  }

  /** The signs stand for the operators that decide these relations. */
  lemma SignsAre(s: Sign, c: int, r: bool)
    ensures OperatorOf(SignText(s)).Some?
    ensures Relation(OperatorOf(SignText(s)).value, c, r) <==>
      r == match s
           case Earlier => c < 0
           case EarlierOrEqual => c <= 0
           case Equal => c == 0
           case LaterOrEqual => c >= 0
           case Later => c > 0
  {
    var t := SignText(s);
    assert t[0] in {60, 61, 62} && (|t| == 2 ==> t[1] in {60, 61, 62});
    assert [EQUAL][0] == 61 && [LESS, LESS][1] == 60 && [LESS, EQUAL][1] == 61 && [MORE, MORE][1] == 62 && [MORE, EQUAL][1] == 61;
    assert [LESS, LESS][0] == 60 && [LESS, EQUAL][0] == 60 && [MORE, MORE][0] == 62 && [MORE, EQUAL][0] == 62;
  }

  /** A name without a condition asks for any version. */
  lemma NoSign(a: Spelling, c: int, r: bool)
    requires a.limit.None?
    ensures AltOperator(Meaning(a)).Some? && (Relation(AltOperator(Meaning(a)).value, c, r) <==> r)
  {
  }
}
