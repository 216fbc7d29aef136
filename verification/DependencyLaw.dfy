/** What check_deps decides, in the words of control files: fields by their names, states as the
    status file writes them, and the signs of conditions. */
module DependencyLaw {
  import opened Options
  import opened Bits
  import opened DpkgVersions
  import opened DoubleHashing
  import opened Interning
  import opened PackageEdges
  import opened PackageTable
  import opened PackageFields
  import opened DependencyCheck
  import opened ControlSyntax

  /** The fields that are looked at, in the order of the source's list. */
  const FIELDS: seq<string> :=
    ["Package", "Version", "Pre-Depends", "Depends", "Replaces", "Provides", "Conflicts", "Suggests", "Recommends", "Enhances"]

  function Ascii(s: string): (t: Text)
    requires forall i :: 0 <= i < |s| ==> 0 < s[i] as int < 256
    ensures |t| == |s|
  {
    seq(|s|, i requires 0 <= i < |s| => s[i] as int)
  }

  /** Each field about other packages has a kind of its own. */
  lemma KindsAre(x: nat, y: nat)
    ensures KindOf(x).Some? <==> 2 <= x < |FIELDS|
    ensures KindOf(x).Some? && KindOf(x) == KindOf(y) ==> x == y
    ensures KindOf(x).Some? ==> (IsDepends(KindOf(x).value) <==> FIELDS[x] in {"Pre-Depends", "Depends"})
  {
  }

  /** The last value of a field counts, and all lines of dependencies in turn. */
  lemma {:induction false} LastValueIs(fields: seq<Field>, n: nat, k: nat)
    requires k < n <= |fields| && forall i :: k < i < n ==> fields[i].num != fields[k].num
    ensures LastValue(fields, n, fields[k].num) == Some(fields[k].value)
    decreases n
  {
    if k < n - 1 {
      LastValueIs(fields, n - 1, k);
    }
  }

  /** The words of a status: what is wanted, whether it is in order, and the state. */
  lemma StatusRead(want: Text, flag: Text, state: Text, rest: Text, m: nat, n: nat)
    requires NoneIn(want, {32, 10}) && NoneIn(flag, {32, 10}) && NoneIn(state, {32, 10})
    requires flag != [] && state != [] && m >= 1 && n >= 1 && (rest == [] || rest[0] == 10)
    ensures var s := want + (Blanks(m) + (flag + (Blanks(n) + (state + rest))));
      Word(s, 1) == want && Word(s, 2) == flag && Word(s, 3) == state
  {
    hide Word, Blanks;
    var s3 := state + rest;
    var s2 := flag + (Blanks(n) + s3);
    OneWord(state, rest);
    NextWord(flag, n, s3, 2);
    NextWord(flag, n, s3, 1);
    NextWord(want, m, s2, 3);
    NextWord(want, m, s2, 2);
    NextWord(want, m, s2, 1);
  }

  lemma OneWord(word: Text, rest: Text)
    requires NoneIn(word, {32, 10}) && (rest == [] || rest[0] == 10)
    ensures Word(word + rest, 1) == word
  {
    hide Span, CSpan;
    CutFront(word, rest, {32, 10});
  }

  lemma NextWord(word: Text, m: nat, rest: Text, n: nat)
    requires NoneIn(word, {32, 10}) && m >= 1 && rest != [] && rest[0] != 32 && n >= 1
    ensures Word(word + (Blanks(m) + rest), n) == if n == 1 then word else Word(rest, n - 1)
  {
    hide Span, CSpan;
    var s := Blanks(m) + rest;
    assert s[0] == 32;
    CutFront(word, s, {32, 10});
    assert NoneIn(word, {32});
    CutFront(word, s, {32});
    SkipFront(Blanks(m), rest, {32});
  }

  /** A pre-depends wants the package installed; a depends only wants it to be wanted. */
  ghost predicate StateFits(v: View, name: Text, field: string)
    requires ViewOk(v)
  {
    || (field == "Pre-Depends" && StatusIs(v, name, 3, Ascii("installed")))
    || (field == "Depends" && StatusIs(v, name, 1, Ascii("install")))
  }

  lemma WordsAre()
    ensures INSTALL == Ascii("install") && INSTALLED == Ascii("installed")
  {
  }

  lemma ReadyIs(v: View, name: Text, num: nat)
    requires ViewOk(v) && num < |FIELDS| && KindOf(num).Some?
    ensures Ready(v, name, KindOf(num).value) <==> StateFits(v, name, FIELDS[num])
  {
    hide StatusIs, Encodes, ControlOk, Reached;
    WordsAre();
  }

  /** A package named so, of a fitting version, is there, and the name has the state asked for;
      or there is a package with that state which provides the name. */
  ghost predicate MetBy(v: View, field: string, a: Alternative)
    requires ViewOk(v)
  {
    || ((exists k: nat :: Named(v, k, a.name) && VersionMeets(v, k, a)) && StateFits(v, a.name, field))
    || exists k: nat :: Has(v.packages, k) && ProvidesName(v.controls[k], a.name) && StateFits(v, NameOf(v.names, v.packages, k), field)
  }

  predicate ProvidesName(control: Control, name: Text)
  {
    exists m, i :: 0 <= m < |control| && 0 <= i < |control[m].clause.alternatives|
      && Some(control[m].kind) == KindOf(5) && control[m].clause.alternatives[i].name == name
  }

  lemma AlternativeIs(v: View, num: nat, a: Alternative)
    requires ViewOk(v) && num < |FIELDS| && KindOf(num).Some?
    ensures AlternativeMet(v, KindOf(num).value, a) <==> MetBy(v, FIELDS[num], a)
  {
    hide Encodes, ControlOk, Reached, VersionMeets, Ready, StateFits;
    forall name: Text ensures Ready(v, name, KindOf(num).value) <==> StateFits(v, name, FIELDS[num]) {
      ReadyIs(v, name, num);
    }
    forall k: nat | Has(v.packages, k) ensures Provides(v.controls[k], a.name) <==> ProvidesName(v.controls[k], a.name) {
    }
    forall k: nat | Has(v.packages, k)
      ensures ProviderReady(v, KindOf(num).value, a.name, k)
         <==> ProvidesName(v.controls[k], a.name) && StateFits(v, NameOf(v.names, v.packages, k), FIELDS[num])
    {
    }
  }

  /** How a version compares, by the sign of a condition; one character of a doubled sign will do,
      and none means the same version. */
  predicate SignHolds(sign: Text, c: int)
  {
    || (sign in {Ascii(""), Ascii("=")} && c == 0)
    || (sign in {Ascii("<"), Ascii("<<")} && c < 0) || (sign == Ascii("<=") && c <= 0)
    || (sign in {Ascii(">"), Ascii(">>")} && c > 0) || (sign == Ascii(">=") && c >= 0)
  }

  lemma PrefixOfTwo(sign: Text, a: byte, b: byte)
    ensures sign <= [a, b] <==> sign in {[], [a], [a, b]}
  {
    if sign <= [a, b] && |sign| == 2 {
      assert sign == [a, b];
    } else if sign <= [a, b] && |sign| == 1 {
      assert sign == [a];
    }
  }

  lemma PrefixOfOne(sign: Text, a: byte)
    ensures sign <= [a] <==> sign in {[], [a]}
  {
    if sign <= [a] && |sign| == 1 {
      assert sign == [a];
    }
  }

  lemma SignsInBytes()
    ensures Ascii("") == [] && Ascii("=") == [61] && Ascii("<") == [60] && Ascii("<<") == [60, 60]
    ensures Ascii("<=") == [60, 61] && Ascii(">") == [62] && Ascii(">>") == [62, 62] && Ascii(">=") == [62, 61]
  {
  }

  lemma OperatorIs(sign: Text, c: int, r: bool)
    ensures OperatorOf(sign).None? ==> !SignHolds(sign, c)
    ensures OperatorOf(sign).Some? && Relation(OperatorOf(sign).value, c, r) ==> r == SignHolds(sign, c)
  {
    hide Ascii;
    SignsInBytes();
    PrefixOfOne(sign, 61);
    PrefixOfTwo(sign, 60, 60);
    PrefixOfTwo(sign, 60, 61);
    PrefixOfTwo(sign, 62, 62);
    PrefixOfTwo(sign, 62, 61);
    SignsApart();
  }

  lemma SignsApart()
    ensures [60, 60] != [60, 61] && [62, 62] != [62, 61] && [60] != [61] && [60] != [62] && [61] != [62]
    ensures [60, 60][0] == 60 && [60, 61][0] == 60 && [62, 62][0] == 62 && [62, 61][0] == 62
  {
    assert [60, 60][1] == 60 && [60, 61][1] == 61 && [62, 62][1] == 62 && [62, 61][1] == 61;
  }

  lemma VersionIs(v: View, k: nat, a: Alternative) returns (c: int)
    requires ViewOk(v) && Has(v.packages, k)
    ensures a.condition.None? ==> VersionMeets(v, k, a)
    ensures a.condition.Some? ==>
      VersionRules(Parse(VersionOf(v.names, v.packages, k)), Parse(a.condition.value.version), c)
      && (VersionMeets(v, k, a) <==> SignHolds(a.condition.value.sign, c))
  {
    hide Encodes, ControlOk, Reached, Meets, VersionRules, Parse;
    c := 0;
    NodeStored(v.names, v.packages, v.mix, v.controls, k);
    var version := VersionOf(v.names, v.packages, k);
    if a.condition.None? {
      c := MeetsIs(version, AltVersion(a), VER_ANY);
    } else {
      var cond := a.condition.value;
      if OperatorOf(cond.sign).Some? {
        c := MeetsIs(version, cond.version, OperatorOf(cond.sign).value);
      } else {
        c := MeetsIs(version, cond.version, VER_ANY);
      }
      OperatorIs(cond.sign, c, Meets(version, cond.version, if OperatorOf(cond.sign).Some? then OperatorOf(cond.sign).value else VER_ANY));
    }
  }

  /** All dependencies of all packages that are wanted, each by one of its alternatives. */
  ghost predicate AllMet(v: View)
    requires ViewOk(v)
  {
    forall k: nat :: Has(v.packages, k) && StatusIs(v, NameOf(v.names, v.packages, k), 1, Ascii("install")) ==> PackageMetBy(v, k)
  }

  ghost predicate SomeMet(v: View, field: string, c: Clause)
    requires ViewOk(v)
  {
    exists i :: 0 <= i < |c.alternatives| && MetBy(v, field, c.alternatives[i])
  }

  /** This is what the dependency phase decides. */
  lemma DependenciesAre(v: View)
    requires ViewOk(v)
    ensures DependenciesMet(v) <==> AllMet(v)
  {
    hide Encodes, ControlOk, Reached, StatusIs, AlternativeMet, MetBy;
    WordsAre();
    forall k: nat | Has(v.packages, k) ensures PackageMet(v, k) <==> PackageMetBy(v, k) {
      PackageIs(v, k);
    }
  }

  ghost predicate PackageMetBy(v: View, k: nat)
    requires ViewOk(v) && Has(v.packages, k)
  {
    forall m: nat, num: nat ::
      m < |v.controls[k]| && num < |FIELDS| && FIELDS[num] in {"Pre-Depends", "Depends"} && KindOf(num) == Some(v.controls[k][m].kind) ==>
        SomeMet(v, FIELDS[num], v.controls[k][m].clause)
  }

  lemma PackageIs(v: View, k: nat)
    requires ViewOk(v) && Has(v.packages, k)
    ensures PackageMet(v, k) <==> PackageMetBy(v, k)
  {
    hide Encodes, ControlOk, Reached, AlternativeMet, MetBy;
    forall m: nat, num: nat | m < |v.controls[k]| && num < |FIELDS| && KindOf(num) == Some(v.controls[k][m].kind)
      ensures ClauseMet(v, v.controls[k][m]) <==> SomeMet(v, FIELDS[num], v.controls[k][m].clause)
      ensures IsDepends(v.controls[k][m].kind) <==> FIELDS[num] in {"Pre-Depends", "Depends"}
    {
      KindsAre(num, num);
      forall i | 0 <= i < |v.controls[k][m].clause.alternatives|
        ensures AlternativeMet(v, v.controls[k][m].kind, v.controls[k][m].clause.alternatives[i])
           <==> MetBy(v, FIELDS[num], v.controls[k][m].clause.alternatives[i])
      {
        AlternativeIs(v, num, v.controls[k][m].clause.alternatives[i]);
      }
    }
    forall m: nat | m < |v.controls[k]| && IsDepends(v.controls[k][m].kind)
      ensures exists num: nat :: num < |FIELDS| && KindOf(num) == Some(v.controls[k][m].kind)
    {
      assert KindOf(2) == Some(EDGE_PRE_DEPENDS) && KindOf(3) == Some(EDGE_DEPENDS);
    }
  }
}
