/** What check_deps of dpkg.c decides, compared with what is in fact installed or wanted: the
    status of a package is found by its name alone, and a provider is never asked for a
    version. */
module InstalledVersions {
  import opened Options
  import opened DpkgVersions
  import opened DoubleHashing
  import opened Interning
  import opened PackageEdges
  import opened PackageTable
  import opened DependencyCheck

  // ---------- the package that a status is about ----------

  /** Status s has the word that a dependency of this kind asks for. */
  ghost predicate StatusReady(v: View, s: nat, kind: nat)
    requires ViewOk(v) && HasStatus(v.statuses, s)
  {
    || (kind == EDGE_PRE_DEPENDS && StatusWord(v, s, 3) == INSTALLED)
    || (kind == EDGE_DEPENDS && StatusWord(v, s, 1) == INSTALL)
  }

  function About(v: View, s: nat): nat
    requires HasStatus(v.statuses, s)
  {
    v.statuses[s].value.package
  }

  ghost function VersionIn(v: View, k: nat): Text
    requires ViewOk(v) && Has(v.packages, k)
  {
    VersionOf(v.names, v.packages, k)
  }

  ghost predicate ProvidesIn(v: View, k: nat, name: Text)
    requires ViewOk(v) && Has(v.packages, k)
  {
    Provides(v.controls[k], name)
  }

  /** The package that some status is about has the name and a version as asked for, and the
      status is right. */
  ghost predicate Installed(v: View, kind: nat, a: Alternative)
    requires ViewOk(v)
  {
    exists s: nat :: HasStatus(v.statuses, s) && StatusReady(v, s, kind)
      && Named(v, About(v, s), a.name) && VersionMeets(v, About(v, s), a)
  }

  /** The package that some status is about provides the name, and the status is right. */
  ghost predicate InstalledProvides(v: View, kind: nat, name: Text)
    requires ViewOk(v)
  {
    exists s: nat :: HasStatus(v.statuses, s) && StatusReady(v, s, kind)
      && Has(v.packages, About(v, s)) && ProvidesIn(v, About(v, s), name)
  }

  /** Package k is one that a ready status is taken for, as the two have the same name. */
  ghost predicate TakenFor(v: View, kind: nat, s: nat, k: nat)
    requires ViewOk(v)
  {
    && HasStatus(v.statuses, s) && StatusReady(v, s, kind) && Has(v.packages, About(v, s)) && Has(v.packages, k)
    && NameOf(v.names, v.packages, k) == NameOf(v.names, v.packages, About(v, s))
  }

  lemma StatusAbout(v: View, s: nat)
    requires ViewOk(v) && HasStatus(v.statuses, s)
    ensures Has(v.packages, About(v, s))
    ensures StatusName(v.names, v.packages, v.statuses, s) == NameOf(v.names, v.packages, About(v, s))
  {
    hide PackagesOk;
    assert StatusOk(v.names, v.packages, v.statuses, v.mix, s);
  }

  /** A name is ready exactly if a status says so of a package with this name. */
  lemma ReadyByStatus(v: View, kind: nat, k: nat)
    requires ViewOk(v) && Has(v.packages, k)
    ensures Ready(v, NameOf(v.names, v.packages, k), kind) <==> exists s: nat :: TakenFor(v, kind, s, k)
  {
    hide StatusWord, Reached, Encodes, ControlOk;
    var name := NameOf(v.names, v.packages, k);
    forall s: nat | HasStatus(v.statuses, s)
      ensures Has(v.packages, About(v, s))
      ensures StatusName(v.names, v.packages, v.statuses, s) == NameOf(v.names, v.packages, About(v, s))
    {
      StatusAbout(v, s);
    }
    if Ready(v, name, kind) {
      var num, word := if kind == EDGE_PRE_DEPENDS then 3 else 1, if kind == EDGE_PRE_DEPENDS then INSTALLED else INSTALL;
      var s: nat :| HasStatus(v.statuses, s) && StatusName(v.names, v.packages, v.statuses, s) == name && StatusWord(v, s, num) == word;
      assert TakenFor(v, kind, s, k);
    }
    if s: nat :| TakenFor(v, kind, s, k) {
      assert kind == EDGE_PRE_DEPENDS ==> StatusIs(v, name, 3, INSTALLED);
      assert kind == EDGE_DEPENDS ==> StatusIs(v, name, 1, INSTALL);
    }
  }

  // ---------- versions ----------

  /** What is installed is always accepted. */
  lemma InstalledIsMet(v: View, kind: nat, a: Alternative)
    requires ViewOk(v) && Installed(v, kind, a)
    ensures MetDirectly(v, kind, a)
  {
    hide StatusWord, PackagesOk, StatusesOk, Meets, Ready, ViewOk;
    var s: nat :| HasStatus(v.statuses, s) && StatusReady(v, s, kind)
      && Named(v, About(v, s), a.name) && VersionMeets(v, About(v, s), a);
    assert TakenFor(v, kind, s, About(v, s));
    ReadyByStatus(v, kind, About(v, s));
  }

  /** Each package that a ready status is taken for has the version that the status is about,
      or an equal one. */
  ghost predicate SameVersions(v: View, kind: nat)
    requires ViewOk(v)
  {
    forall s: nat, k: nat :: TakenFor(v, kind, s, k) ==> SameVersion(v, s, k)
  }

  ghost predicate SameVersion(v: View, s: nat, k: nat)
    requires ViewOk(v) && HasStatus(v.statuses, s) && Has(v.packages, About(v, s)) && Has(v.packages, k)
  {
    Meets(VersionIn(v, About(v, s)), VersionIn(v, k), VER_EQUAL)
  }

  /** The alternative that asks for exactly package k. */
  ghost function Exactly(v: View, k: nat): Alternative
    requires ViewOk(v) && Has(v.packages, k)
  {
    Alternative(NameOf(v.names, v.packages, k), Some(Condition([EQUAL], VersionIn(v, k))))
  }

  lemma ExactlyMeets(v: View, k: nat, l: nat)
    requires ViewOk(v) && Has(v.packages, k) && Has(v.packages, l)
    ensures VersionMeets(v, l, Exactly(v, k)) == Meets(VersionIn(v, l), VersionIn(v, k), VER_EQUAL)
  {
    hide Meets;
  }

  /** Versions that are equal meet the same conditions. */
  lemma EqualVersions(x: Text, y: Text, w: Text, op: Operator)
    requires Meets(x, y, VER_EQUAL)
    ensures Meets(x, w, op) == Meets(y, w, op)
  {
    hide Parse, Compare;
    CompareSwap(Parse(x), Parse(y));
    CompareSwap(Parse(x), Parse(w));
    CompareSwap(Parse(y), Parse(w));
    var a, b, c := Parse(x), Parse(y), Parse(w);
    if Compare(a, c) <= 0 {
      CompareTransitive(b, a, c);
    }
    if Compare(c, a) <= 0 {
      CompareTransitive(c, a, b);
    }
    if Compare(b, c) <= 0 {
      CompareTransitive(a, b, c);
    }
    if Compare(c, b) <= 0 {
      CompareTransitive(c, b, a);
    }
  }

  /** With the versions the same, what is accepted is installed. */
  lemma MetIsInstalled(v: View, kind: nat, a: Alternative)
    requires ViewOk(v) && SameVersions(v, kind) && MetDirectly(v, kind, a)
    ensures Installed(v, kind, a)
  {
    hide StatusWord, Meets, Ready, ViewOk, StatusReady;
    var k: nat :| Named(v, k, a.name) && VersionMeets(v, k, a);
    ReadyByStatus(v, kind, k);
    var s: nat :| TakenFor(v, kind, s, k);
    assert SameVersion(v, s, k);
    EqualVersions(VersionIn(v, About(v, s)), VersionIn(v, k), AltVersion(a), AltOperator(a).value);
  }

  /** check_deps accepts just what is installed, or wanted, exactly if no other version of
      such a package is in the table. */
  lemma ExactlyInstalled(v: View, kind: nat)
    requires ViewOk(v)
    ensures (forall a: Alternative :: MetDirectly(v, kind, a) <==> Installed(v, kind, a)) <==> SameVersions(v, kind)
  {
    hide StatusWord, Meets, Ready, ViewOk, StatusReady, MetDirectly, Installed, SameVersion;
    if SameVersions(v, kind) {
      forall a ensures MetDirectly(v, kind, a) <==> Installed(v, kind, a) {
        if MetDirectly(v, kind, a) {
          MetIsInstalled(v, kind, a);
        }
        if Installed(v, kind, a) {
          InstalledIsMet(v, kind, a);
        }
      }
    }
    if forall a: Alternative :: MetDirectly(v, kind, a) <==> Installed(v, kind, a) {
      forall s: nat, k: nat | TakenFor(v, kind, s, k) ensures SameVersion(v, s, k) {
        OtherVersionMet(v, kind, s, k);
        InstalledHere(v, kind, s, k);
      }
    }
  }

  /** A status is taken for any package of the name, whatever version it has. */
  lemma OtherVersionMet(v: View, kind: nat, s: nat, k: nat)
    requires ViewOk(v) && TakenFor(v, kind, s, k)
    ensures Has(v.packages, k) && MetDirectly(v, kind, Exactly(v, k))
  {
    hide StatusWord, Meets, Ready, ViewOk, StatusReady;
    ExactlyMeets(v, k, k);
    OperatorsAgree(VersionIn(v, k), VersionIn(v, k));
    assert Named(v, k, Exactly(v, k).name);
    ReadyByStatus(v, kind, k);
  }

  /** But it is about one of them. */
  lemma InstalledHere(v: View, kind: nat, s: nat, k: nat)
    requires ViewOk(v) && TakenFor(v, kind, s, k)
    ensures Installed(v, kind, Exactly(v, k)) <==> SameVersion(v, s, k)
  {
    hide StatusWord, Meets, StatusReady, PackagesOk;
    if Installed(v, kind, Exactly(v, k)) {
      var t: nat :| HasStatus(v.statuses, t) && StatusReady(v, t, kind)
        && Named(v, About(v, t), Exactly(v, k).name) && VersionMeets(v, About(v, t), Exactly(v, k));
      StatusAbout(v, s);
      StatusAbout(v, t);
      ExactlyMeets(v, k, About(v, t));
    }
    if SameVersion(v, s, k) {
      ExactlyMeets(v, k, About(v, s));
      assert Named(v, About(v, s), Exactly(v, k).name);
    }
  }

  // ---------- providers ----------

  lemma InstalledProviderCounts(v: View, kind: nat, name: Text)
    requires ViewOk(v) && InstalledProvides(v, kind, name)
    ensures ProvidedBy(v, kind, name)
  {
    hide StatusWord, PackagesOk, StatusesOk, Meets, Ready, ViewOk;
    var s: nat :| HasStatus(v.statuses, s) && StatusReady(v, s, kind)
      && Has(v.packages, About(v, s)) && ProvidesIn(v, About(v, s), name);
    assert TakenFor(v, kind, s, About(v, s));
    ReadyByStatus(v, kind, About(v, s));
    assert ProviderReady(v, kind, name, About(v, s));
  }

  /** Of the packages of a name, one has the highest version. */
  lemma {:induction false} Highest(v: View, name: Text, n: nat) returns (k: nat)
    requires ViewOk(v) && n <= PACKAGE_HASH_PRIME && exists l: nat :: l < n && Named(v, l, name)
    ensures Named(v, k, name)
    ensures forall l: nat :: l < n && Named(v, l, name) ==> !Later(v, l, k)
  {
    hide Meets, ViewOk;
    if exists l: nat :: l < n - 1 && Named(v, l, name) {
      k := Highest(v, name, n - 1);
      if Named(v, n - 1, name) && Later(v, n - 1, k) {
        forall l: nat | l < n && Named(v, l, name) ensures !Later(v, l, n - 1) {
          NotLater(v, l, k, n - 1);
        }
        k := n - 1;
      }
    } else {
      k := n - 1;
      NotLater(v, k, k, k);
    }
  }

  ghost predicate Later(v: View, l: nat, k: nat)
    requires ViewOk(v) && Has(v.packages, l) && Has(v.packages, k)
  {
    Meets(VersionIn(v, l), VersionIn(v, k), VER_MORE)
  }

  lemma NotLater(v: View, l: nat, k: nat, m: nat)
    requires ViewOk(v) && Has(v.packages, l) && Has(v.packages, k) && Has(v.packages, m)
    ensures !Later(v, l, k) && Later(v, m, k) ==> !Later(v, l, m)
    ensures !Later(v, m, m)
  {
    hide Parse, Compare, ViewOk;
    var a, b, c := VersionIn(v, l), VersionIn(v, k), VersionIn(v, m);
    CompareSwap(Parse(a), Parse(c));
    CompareSwap(Parse(b), Parse(c));
    if Later(v, m, k) && Later(v, l, m) {
      CompareSwap(Parse(a), Parse(b));
      CompareTransitive(Parse(b), Parse(c), Parse(a));
    }
    CompareSelf(Parse(c));
  }

  lemma Operators()
    ensures OperatorOf([MORE, MORE]) == Some(VER_MORE) && OperatorOf([MORE, EQUAL]) == Some(VER_MORE_EQUAL)
  {
    assert [MORE, MORE][0] == MORE && [MORE, EQUAL][0] == MORE && [MORE, EQUAL][1] == EQUAL;
    assert [LESS, LESS][0] == LESS && [LESS, EQUAL][0] == LESS && [MORE, MORE][1] == MORE;
  }

  /** An alternative that no package of its name can meet by itself. */
  lemma Unmeetable(v: View, name: Text) returns (a: Alternative)
    requires ViewOk(v)
    ensures a.name == name && AltOperator(a).Some?
    ensures forall kind: nat :: !MetDirectly(v, kind, a)
  {
    hide Meets, ViewOk, Ready;
    if exists l: nat :: l < PACKAGE_HASH_PRIME && Named(v, l, name) {
      var k := Highest(v, name, PACKAGE_HASH_PRIME);
      a := Alternative(name, Some(Condition([MORE, MORE], VersionIn(v, k))));
      Operators();
      assert AltOperator(a) == Some(VER_MORE);
      forall l: nat | Named(v, l, name) ensures !VersionMeets(v, l, a) {
        assert !Later(v, l, k);
      }
    } else {
      a := Alternative(name, None);
    }
  }

  /** That a version is asked for matters exactly if no package that is ready provides the
      name: otherwise any condition with a known operator is met. */
  lemma VersionsMatter(v: View, kind: nat, name: Text)
    requires ViewOk(v)
    ensures (forall a: Alternative :: a.name == name && AltOperator(a).Some? ==> (AlternativeMet(v, kind, a) <==> MetDirectly(v, kind, a)))
       <==> !ProvidedBy(v, kind, name)
  {
    hide Meets, ViewOk, MetDirectly, ProvidedBy, AltOperator;
    var a := Unmeetable(v, name);
  }

  /** What any package provides that a ready status is taken for, some package provides that a
      ready status is about. */
  ghost predicate SameProvides(v: View, kind: nat)
    requires ViewOk(v)
  {
    forall s: nat, k: nat, name: Text :: TakenFor(v, kind, s, k) && ProvidesIn(v, k, name) ==> InstalledProvides(v, kind, name)
  }

  ghost predicate ProviderTaken(v: View, kind: nat, name: Text)
    requires ViewOk(v)
  {
    exists s: nat, k: nat :: TakenFor(v, kind, s, k) && ProvidesIn(v, k, name)
  }

  lemma ProviderByStatus(v: View, kind: nat, name: Text)
    requires ViewOk(v)
    ensures ProvidedBy(v, kind, name) <==> ProviderTaken(v, kind, name)
  {
    hide StatusWord, Ready, ViewOk, StatusReady, Provides;
    if ProvidedBy(v, kind, name) {
      var k: nat :| ProviderReady(v, kind, name, k);
      ReadyByStatus(v, kind, k);
      var s: nat :| TakenFor(v, kind, s, k);
    }
    if s: nat, k: nat :| TakenFor(v, kind, s, k) && ProvidesIn(v, k, name) {
      ReadyByStatus(v, kind, k);
      assert ProviderReady(v, kind, name, k);
    }
  }

  /** check_deps accepts just the providers that are installed, or wanted, exactly if no other
      version of such a package in the table provides more. */
  lemma ExactlyProvided(v: View, kind: nat)
    requires ViewOk(v)
    ensures (forall name: Text :: ProvidedBy(v, kind, name) <==> InstalledProvides(v, kind, name)) <==> SameProvides(v, kind)
  {
    hide StatusWord, ViewOk, StatusReady, InstalledProvides, ProvidedBy, ProvidesIn;
    forall name: Text
      ensures InstalledProvides(v, kind, name) ==> ProvidedBy(v, kind, name)
      ensures ProvidedBy(v, kind, name) <==> ProviderTaken(v, kind, name)
    {
      if InstalledProvides(v, kind, name) {
        InstalledProviderCounts(v, kind, name);
      }
      ProviderByStatus(v, kind, name);
    }
    if forall name: Text :: ProvidedBy(v, kind, name) <==> InstalledProvides(v, kind, name) {
      forall s: nat, k: nat, name: Text | TakenFor(v, kind, s, k) && ProvidesIn(v, k, name)
        ensures InstalledProvides(v, kind, name)
      {
        assert ProviderTaken(v, kind, name);
      }
    }
  }

  // ---------- the whole check ----------

  /** An alternative is met by what is installed, or wanted. */
  ghost predicate TrulyMet(v: View, item: Item)
    requires ViewOk(v)
  {
    exists i :: 0 <= i < |item.clause.alternatives| && TrulyMetBy(v, item.kind, item.clause.alternatives[i])
  }

  ghost predicate TrulyMetBy(v: View, kind: nat, a: Alternative)
    requires ViewOk(v)
  {
    Installed(v, kind, a) || InstalledProvides(v, kind, a.name)
  }

  ghost predicate AllTrulyMet(v: View)
    requires ViewOk(v)
  {
    forall k: nat :: Has(v.packages, k) && Wanted(v, k) ==> PackageTrulyMet(v, k)
  }

  ghost predicate PackageTrulyMet(v: View, k: nat)
    requires ViewOk(v) && Has(v.packages, k)
  {
    forall m :: 0 <= m < |v.controls[k]| && IsDepends(v.controls[k][m].kind) ==> TrulyMet(v, v.controls[k][m])
  }

  /** What is in the table of a package that is installed, or wanted, says no more than what
      its status is about. */
  ghost predicate OneVersion(v: View, kind: nat)
    requires ViewOk(v)
  {
    SameVersions(v, kind) && SameProvides(v, kind)
  }

  lemma ItemTrulyMet(v: View, item: Item)
    requires ViewOk(v)
    ensures TrulyMet(v, item) ==> ClauseMet(v, item)
    ensures SameVersions(v, item.kind) && SameProvides(v, item.kind) && ClauseMet(v, item) ==> TrulyMet(v, item)
  {
    hide ViewOk, Installed, InstalledProvides, MetDirectly, ProvidedBy, SameVersions, SameProvides;
    var kind := item.kind;
    if i :| 0 <= i < |item.clause.alternatives| && TrulyMetBy(v, kind, item.clause.alternatives[i]) {
      var a := item.clause.alternatives[i];
      if Installed(v, kind, a) {
        InstalledIsMet(v, kind, a);
      } else {
        InstalledProviderCounts(v, kind, a.name);
      }
      assert AlternativeMet(v, kind, a);
    }
    if SameVersions(v, kind) && SameProvides(v, kind) && ClauseMet(v, item) {
      var i :| 0 <= i < |item.clause.alternatives| && AlternativeMet(v, kind, item.clause.alternatives[i]);
      var a := item.clause.alternatives[i];
      ExactlyProvided(v, kind);
      if MetDirectly(v, kind, a) {
        MetIsInstalled(v, kind, a);
      }
    }
  }

  /** The check never stops packages whose dependencies are met, and with no more than one
      version of each package that is installed or wanted it lets no others through. */
  lemma CheckIsSound(v: View)
    requires ViewOk(v)
    ensures AllTrulyMet(v) ==> DependenciesMet(v)
    ensures OneVersion(v, EDGE_PRE_DEPENDS) && OneVersion(v, EDGE_DEPENDS) ==> (DependenciesMet(v) <==> AllTrulyMet(v))
  {
    hide SameVersions, SameProvides, TrulyMet, ClauseMet, Wanted, NodeOk, StatusesOk;
    forall k: nat, m: nat | Has(v.packages, k) && m < |v.controls[k]| && IsDepends(v.controls[k][m].kind)
      ensures TrulyMet(v, v.controls[k][m]) ==> ClauseMet(v, v.controls[k][m])
      ensures SameVersions(v, v.controls[k][m].kind) && SameProvides(v, v.controls[k][m].kind) && ClauseMet(v, v.controls[k][m]) ==>
                TrulyMet(v, v.controls[k][m])
    {
      ItemTrulyMet(v, v.controls[k][m]);
    }
  }

  // ---------- a package that is installed in an older version ----------

  const FOO: Text := [102, 111, 111]
  const ONE: Text := [49]
  const TWO: Text := [50]
  const INSTALL_OK_INSTALLED: Text :=
    [105, 110, 115, 116, 97, 108, 108, 32, 111, 107, 32, 105, 110, 115, 116, 97, 108, 108, 101, 100]

  /** A table of p slots and one, with these entries at the first slots that are looked at
      for a key with sum 0. */
  function Table<T>(p: nat, entries: seq<T>): (t: seq<Option<T>>)
    requires 1 <= |entries| < p
    ensures |t| == p + 1 && forall i :: 0 <= i < |entries| ==> t[if i == 0 then 0 else p - i] == Some(entries[i])
    ensures forall k :: 1 <= k <= p - |entries| || k == p ==> t[k].None?
  {
    seq(p + 1, k requires 0 <= k <= p =>
      if k == 0 then Some(entries[0]) else if p - |entries| < k < p then Some(entries[p - k]) else None)
  }

  lemma {:induction false} ZeroSlot(p: nat, n: nat)
    requires 2 <= p && n < p
    ensures Slot(0, p, n) == if n == 0 then 0 else p - n
  {
    FirstSlot(0, p);
    if n != 0 {
      ZeroSlot(p, n - 1);
      NextSlot(0, p, n - 1);
    }
  }

  lemma TableReached<T>(p: nat, entries: seq<T>, i: nat)
    requires 1 <= |entries| < p && i < |entries|
    ensures Reached(Table(p, entries), 0, p, if i == 0 then 0 else p - i)
  {
    hide Table, Slot;
    var t := Table(p, entries);
    forall j: nat | j <= i ensures t[Slot(0, p, j)].Some? {
      ZeroSlot(p, j);
      assert t[if j == 0 then 0 else p - j] == Some(entries[j]);
    }
    ZeroSlot(p, i);
  }

  lemma {:induction false} SomeFree<T>(t: seq<Option<T>>, n: nat, k: nat)
    requires k < n <= |t| && t[k].None?
    ensures FreeSlots(t, n) > 0
  {
    if k < n - 1 {
      SomeFree(t, n - 1, k);
    }
  }

  /** foo 1 is installed, and the file of foo 2 has been read. */
  function OlderInstalled(): View
  {
    View(Table(NAME_HASH_PRIME, [FOO, ONE, TWO, INSTALL_OK_INSTALLED]),
      Table(PACKAGE_HASH_PRIME, [Node(0, NAME_HASH_PRIME - 1, []), Node(0, NAME_HASH_PRIME - 2, [])]),
      Table(STATUS_HASH_PRIME, [Status(0, NAME_HASH_PRIME - 3)]),
      seq(PACKAGE_HASH_PRIME, _ => []), _ => 0)
  }

  /** foo (>= 2) */
  const FOO_TWO := Alternative(FOO, Some(Condition([MORE, EQUAL], TWO)))

  lemma OlderTables(v: View)
    requires v == OlderInstalled()
    ensures |v.names| == NAME_HASH_PRIME + 1 && v.names[0] == Some(FOO) && v.names[NAME_HASH_PRIME - 1] == Some(ONE)
    ensures v.names[NAME_HASH_PRIME - 2] == Some(TWO) && v.names[NAME_HASH_PRIME - 3] == Some(INSTALL_OK_INSTALLED)
    ensures |v.packages| == PACKAGE_HASH_PRIME + 1 && |v.statuses| == STATUS_HASH_PRIME + 1
    ensures forall k: nat :: Has(v.packages, k) <==> k == 0 || k == PACKAGE_HASH_PRIME - 1
    ensures v.packages[0] == Some(Node(0, NAME_HASH_PRIME - 1, []))
    ensures v.packages[PACKAGE_HASH_PRIME - 1] == Some(Node(0, NAME_HASH_PRIME - 2, []))
    ensures forall k: nat :: HasStatus(v.statuses, k) <==> k == 0
    ensures v.statuses[0] == Some(Status(0, NAME_HASH_PRIME - 3))
    ensures Reached(v.packages, 0, PACKAGE_HASH_PRIME, 0)
    ensures Reached(v.packages, 0, PACKAGE_HASH_PRIME, PACKAGE_HASH_PRIME - 1)
    ensures Reached(v.statuses, 0, STATUS_HASH_PRIME, 0)
    ensures FreeSlots(v.packages, PACKAGE_HASH_PRIME) > 0 && FreeSlots(v.statuses, STATUS_HASH_PRIME) > 0
  {
    hide Reached, FreeSlots, Slot, Table;
    var names := [FOO, ONE, TWO, INSTALL_OK_INSTALLED];
    assert names[0] == FOO && names[1] == ONE && names[2] == TWO && names[3] == INSTALL_OK_INSTALLED;
    var nodes := [Node(0, NAME_HASH_PRIME - 1, []), Node(0, NAME_HASH_PRIME - 2, [])];
    assert nodes[0] == Node(0, NAME_HASH_PRIME - 1, []) && nodes[1] == Node(0, NAME_HASH_PRIME - 2, []);
    var status := [Status(0, NAME_HASH_PRIME - 3)];
    assert status[0] == Status(0, NAME_HASH_PRIME - 3);
    assert v.packages == Table(PACKAGE_HASH_PRIME, nodes) && v.statuses == Table(STATUS_HASH_PRIME, status);
    assert v.names == Table(NAME_HASH_PRIME, names);
    TableReached(PACKAGE_HASH_PRIME, nodes, 0);
    TableReached(PACKAGE_HASH_PRIME, nodes, 1);
    TableReached(STATUS_HASH_PRIME, status, 0);
    SomeFree(v.packages, PACKAGE_HASH_PRIME, 1);
    SomeFree(v.statuses, STATUS_HASH_PRIME, 1);
  }

  lemma OlderInstalledOk(v: View)
    requires v == OlderInstalled()
    ensures ViewOk(v)
  {
    hide Reached, FreeSlots, Slot, Table;
    OlderTables(v);
    forall k: nat | Has(v.packages, k) ensures NodeOk(v.names, v.packages, v.mix, k, v.controls[k]) {
      assert k == 0 || k == PACKAGE_HASH_PRIME - 1;
    }
    assert PackagesOk(v.names, v.packages, v.mix, v.controls);
    assert StatusOk(v.names, v.packages, v.statuses, v.mix, 0);
  }

  lemma OlderNames(v: View)
    requires v == OlderInstalled()
    ensures Consistent(v.names, v.mix, NAME_HASH_PRIME)
  {
    hide Reached, Slot;
    var names := [FOO, ONE, TWO, INSTALL_OK_INSTALLED];
    assert |FOO| == 3 && ONE[0] == 49 && TWO[0] == 50 && |INSTALL_OK_INSTALLED| == 20;
    forall k | 0 <= k < NAME_HASH_PRIME && v.names[k].Some? ensures Reached(v.names, 0, NAME_HASH_PRIME, k) {
      TableReached(NAME_HASH_PRIME, names, if k == 0 then 0 else NAME_HASH_PRIME - k);
    }
  }

  lemma OneIsLess()
    ensures !Meets(ONE, TWO, VER_MORE_EQUAL) && Meets(TWO, TWO, VER_MORE_EQUAL)
  {
    hide Parse;
    ParseWritten(None, ONE, None);
    ParseWritten(None, TWO, None);
    assert Written(None, ONE, None) == ONE && Written(None, TWO, None) == TWO;
    CompareSelf(Parse(TWO));
    assert KeyText(ONE)[1] < KeyText(TWO)[1];
  }

  lemma ThirdWord()
    ensures Word(INSTALL_OK_INSTALLED, 3) == INSTALLED
  {
    hide Word;
    var s := INSTALL_OK_INSTALLED;
    NextWord(s, 7, 2);
    NextWord(s[8..], 2, 1);
    assert s[8..][3..] == s[11..] == INSTALLED;
    LastWord(INSTALLED);
  }

  lemma LastWord(s: Text)
    requires forall i :: 0 <= i < |s| ==> s[i] != SPACE && s[i] != NEWLINE
    ensures Word(s, 1) == s
  {
    hide CSpan;
    assert CSpan(s, {SPACE, NEWLINE}) == |s|;
    assert s[..|s|] == s;
  }

  /** A word of n characters ends at a single space. */
  lemma NextWord(s: Text, n: nat, m: nat)
    requires n + 1 < |s| && s[n] == SPACE && s[n + 1] != SPACE && m >= 1 && forall i :: 0 <= i < n ==> s[i] != SPACE
    ensures Word(s, m + 1) == Word(s[n + 1..], m)
  {
    hide CSpan, Span;
    assert CSpan(s, {SPACE}) == n;
    var t := s[n..];
    assert t[0] == SPACE && t[1] != SPACE;
    assert Span(t, {SPACE}) == 1;
    assert t[1..] == s[n + 1..];
  }

  /** Then a pre-dependency on foo (>= 2) is taken to be met. */
  lemma OlderVersionPasses(v: View)
    requires v == OlderInstalled()
    ensures ViewOk(v) && Consistent(v.names, v.mix, NAME_HASH_PRIME)
    ensures MetDirectly(v, EDGE_PRE_DEPENDS, FOO_TWO) && !Installed(v, EDGE_PRE_DEPENDS, FOO_TWO)
  {
    hide Meets, Word, Table, ViewOk;
    OlderInstalledOk(v);
    OlderTables(v);
    OlderNames(v);
    OneIsLess();
    ThirdWord();
    Operators();
    NodesStored(v);
    assert VersionIn(v, PACKAGE_HASH_PRIME - 1) == TWO && VersionIn(v, 0) == ONE;
    assert Named(v, PACKAGE_HASH_PRIME - 1, FOO) && VersionMeets(v, PACKAGE_HASH_PRIME - 1, FOO_TWO);
    assert HasStatus(v.statuses, 0) && StatusWord(v, 0, 3) == INSTALLED;
    StatusAbout(v, 0);
    assert StatusIs(v, FOO, 3, INSTALLED);
  }
}
