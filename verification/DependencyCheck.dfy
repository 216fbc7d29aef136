/** The dependency phase of check_deps of dpkg.c. */
module DependencyCheck {
  import opened Options
  import opened DpkgVersions
  import opened DoubleHashing
  import opened Interning
  import opened PackageEdges
  import opened PackageTable

  const INSTALL: Text := [105, 110, 115, 116, 97, 108, 108]
  const INSTALLED: Text := [105, 110, 115, 116, 97, 108, 108, 101, 100]

  // ---------- what is to be checked, by names ----------

  /** The state of a database. */
  datatype View = View(names: Names, packages: Packages, statuses: Statuses, controls: seq<Control>, mix: Text -> nat)

  ghost predicate ViewOk(v: View)
  {
    && PackagesOk(v.names, v.packages, v.mix, v.controls)
    && StatusesOk(v.names, v.packages, v.statuses, v.mix)
  }

  ghost predicate Named(v: View, k: nat, name: Text)
    requires ViewOk(v)
  {
    Has(v.packages, k) && NameOf(v.names, v.packages, k) == name
  }

  /** The package of this name has a status with this word. */
  ghost predicate StatusIs(v: View, name: Text, num: nat, word: Text)
    requires ViewOk(v) && num >= 1
  {
    exists k: nat :: HasStatus(v.statuses, k) && StatusName(v.names, v.packages, v.statuses, k) == name && StatusWord(v, k, num) == word
  }

  ghost function StatusWord(v: View, k: nat, num: nat): Text
    requires ViewOk(v) && HasStatus(v.statuses, k) && num >= 1
  {
    Word(v.names[v.statuses[k].value.status].value, num)
  }

  /** The package is installed, for a pre-depends, or wanted, for a depends. */
  ghost predicate Ready(v: View, name: Text, kind: nat)
    requires ViewOk(v)
  {
    || (kind == EDGE_PRE_DEPENDS && StatusIs(v, name, 3, INSTALLED))
    || (kind == EDGE_DEPENDS && StatusIs(v, name, 1, INSTALL))
  }

  /** Among what a package provides is this name. */
  predicate Provides(control: Control, name: Text)
  {
    exists m, i :: 0 <= m < |control| && 0 <= i < |control[m].clause.alternatives|
      && control[m].kind == EDGE_PROVIDES && control[m].clause.alternatives[i].name == name
  }

  /** A package with the name and a version as asked for is in the table, and the name is
      ready. */
  ghost predicate MetDirectly(v: View, kind: nat, a: Alternative)
    requires ViewOk(v)
  {
    (exists k: nat :: Named(v, k, a.name) && VersionMeets(v, k, a)) && Ready(v, a.name, kind)
  }

  /** A package that provides the name is ready. */
  ghost predicate ProvidedBy(v: View, kind: nat, name: Text)
    requires ViewOk(v)
  {
    exists k: nat :: ProviderReady(v, kind, name, k)
  }

  ghost predicate ProviderReady(v: View, kind: nat, name: Text, k: nat)
    requires ViewOk(v)
  {
    Has(v.packages, k) && Provides(v.controls[k], name) && Ready(v, NameOf(v.names, v.packages, k), kind)
  }

  ghost predicate AlternativeMet(v: View, kind: nat, a: Alternative)
    requires ViewOk(v)
  {
    MetDirectly(v, kind, a) || ProvidedBy(v, kind, a.name)
  }

  ghost predicate VersionMeets(v: View, k: nat, a: Alternative)
    requires ViewOk(v) && Has(v.packages, k)
  {
    AltOperator(a).Some? && Meets(VersionOf(v.names, v.packages, k), AltVersion(a), AltOperator(a).value)
  }

  /** Some alternative is met. */
  ghost predicate ClauseMet(v: View, item: Item)
    requires ViewOk(v)
  {
    exists i :: 0 <= i < |item.clause.alternatives| && AlternativeMet(v, item.kind, item.clause.alternatives[i])
  }

  /** All dependencies of a package are. */
  ghost predicate PackageMet(v: View, k: nat)
    requires ViewOk(v) && Has(v.packages, k)
  {
    forall m :: 0 <= m < |v.controls[k]| && IsDepends(v.controls[k][m].kind) ==> ClauseMet(v, v.controls[k][m])
  }

  ghost predicate Wanted(v: View, k: nat)
    requires ViewOk(v) && Has(v.packages, k)
  {
    StatusIs(v, NameOf(v.names, v.packages, k), 1, INSTALL)
  }

  /** All dependencies of all packages that are wanted. */
  ghost predicate DependenciesMet(v: View)
    requires ViewOk(v)
  {
    forall k: nat :: Has(v.packages, k) && Wanted(v, k) ==> PackageMet(v, k)
  }

  // ---------- the same by edges ----------

  ghost predicate EdgeProvides(edges: seq<Edge>, name: nat)
  {
    exists j :: 0 <= j < |edges| && edges[j].kind == EDGE_PROVIDES && edges[j].name == name
  }

  ghost predicate EdgeMet(v: View, e: Edge)
    requires ViewOk(v) && Stored(v.names, e.name)
  {
    || ((exists k: nat :: Has(v.packages, k) && Answers(v.names, v.packages, k, e.name, e.version, e.op))
        && Ready(v, v.names[e.name].value, e.kind))
    || exists k: nat :: Has(v.packages, k) && EdgeProvides(v.packages[k].value.edges, e.name) && Ready(v, NameOf(v.names, v.packages, k), e.kind)
  }

  /** The item that an edge belongs to. */
  lemma {:induction false} ItemOfEdge(items: Control, n: nat, j: nat) returns (m: nat)
    requires n <= |items| && j < Offset(items, n)
    ensures m < n && Offset(items, m) <= j < Offset(items, m + 1)
  {
    if Offset(items, n - 1) <= j {
      m := n - 1;
    } else {
      m := ItemOfEdge(items, n - 1, j);
    }
  }

  /** The edge of the ith alternative of the mth item. */
  lemma AlternativeEdge(names: Names, edges: seq<Edge>, items: Control, m: nat, i: nat) returns (j: nat)
    requires Encodes(names, edges, items) && m < |items| && i < |items[m].clause.alternatives|
    ensures j == Offset(items, m) + OrCount(items[m]) + i < |edges|
    ensures EdgeIs(names, edges[j], items[m].kind, items[m].clause.alternatives[i])
  {
    hide EdgeIs, Offset, OrCount;
    assert ItemIs(names, edges, items, m);
    j := Offset(items, m) + OrCount(items[m]) + i;
  }

  /** A provides edge stands for an alternative. */
  lemma ProvidesEdge(names: Names, edges: seq<Edge>, control: Control, j: nat) returns (m: nat, i: nat)
    requires Encodes(names, edges, control) && ControlOk(control) && j < |edges| && edges[j].kind == EDGE_PROVIDES
    ensures m < |control| && i < |control[m].clause.alternatives|
    ensures EdgeIs(names, edges[j], control[m].kind, control[m].clause.alternatives[i])
  {
    hide EdgeIs, ClauseOf, Fit;
    m := ItemOfEdge(control, |control|, j);
    assert ItemIs(names, edges, control, m) && ItemOk(control[m]);
    OrKind(control[m]);
    assert j >= Offset(control, m) + OrCount(control[m]);
    i := j - Offset(control, m) - OrCount(control[m]);
    var l := AlternativeEdge(names, edges, control, m, i);
  }

  lemma OrKind(item: Item)
    ensures IsOr(item) ==> IsDepends(item.kind) && OrCount(item) == 1
    ensures !IsOr(item) ==> OrCount(item) == 0
  {
  }

  /** Provides edges are what provides fields say. */
  lemma ProvidesEdges(names: Names, mix: Text -> nat, p: nat, edges: seq<Edge>, control: Control, name: nat)
    requires Consistent(names, mix, p) && Encodes(names, edges, control) && ControlOk(control) && Stored(names, name)
    ensures EdgeProvides(edges, name) <==> Provides(control, names[name].value)
  {
    hide Consistent, Encodes, ControlOk;
    if EdgeProvides(edges, name) {
      var j: nat :| j < |edges| && edges[j].kind == EDGE_PROVIDES && edges[j].name == name;
      var m, i := ProvidesEdge(names, edges, control, j);
    }
    if Provides(control, names[name].value) {
      var m: nat, i: nat :| m < |control| && i < |control[m].clause.alternatives|
        && control[m].kind == EDGE_PROVIDES && control[m].clause.alternatives[i].name == names[name].value;
      var j := AlternativeEdge(names, edges, control, m, i);
      SameSlot(names, mix, p, edges[j].name, names[name].value, name, names[name].value);
    }
  }

  /** An edge is met exactly if the alternative is that it stands for. */
  lemma EdgeMeaning(v: View, p: nat, e: Edge, kind: nat, a: Alternative)
    requires ViewOk(v) && Consistent(v.names, v.mix, p) && EdgeIs(v.names, e, kind, a)
    ensures EdgeMet(v, e) <==> AlternativeMet(v, kind, a)
  {
    hide Consistent, Meets, Encodes, ControlOk, Ready, Provides, EdgeProvides, Reached;
    forall k: nat | Has(v.packages, k)
      ensures Answers(v.names, v.packages, k, e.name, e.version, e.op) <==> Named(v, k, a.name) && VersionMeets(v, k, a)
      ensures EdgeProvides(v.packages[k].value.edges, e.name) <==> Provides(v.controls[k], a.name)
      ensures ProviderReady(v, kind, a.name, k) <==> Provides(v.controls[k], a.name) && Ready(v, NameOf(v.names, v.packages, k), kind)
    {
      assert NodeOk(v.names, v.packages, v.mix, k, v.controls[k]);
      SameSlot(v.names, v.mix, p, v.packages[k].value.name, NameOf(v.names, v.packages, k), e.name, a.name);
      ProvidesEdges(v.names, v.mix, p, v.packages[k].value.edges, v.controls[k], e.name);
    }
  }

  // ---------- package_satisfies_dependency and search_for_provides ----------

  /** The database is in this state, though more names may have come. */
  ghost predicate Shows(db: Database, v: View)
    reads db, db.names, db.names.table, db.packages, db.statuses
  {
    && db.Valid(v.names) && v.mix == db.names.mix && v.controls == db.controls
    && v.packages == db.packages[..] && v.statuses == db.statuses[..]
  }

  /** The texts that are looked up, for which the name table must have room. */
  ghost predicate WordsIn(v: View, words: set<Text>)
    requires ViewOk(v)
  {
    && INSTALL in words && INSTALLED in words
    && forall k: nat :: HasStatus(v.statuses, k) ==> StatusWord(v, k, 1) in words && StatusWord(v, k, 3) in words
  }

  /** get_status(k, num) == search_name_hashtable(word), whichever is looked up first. */
  method HasWord(db: Database, k: nat, num: nat, word: Text, ghost v: View, ghost words: set<Text>) returns (r: bool)
    requires Shows(db, v) && db.names.Room(words) && WordsIn(v, words) && word in words
    requires HasStatus(v.statuses, k) && (num == 1 || num == 3)
    modifies db.names.table
    ensures Shows(db, v) && db.names.Room(words)
    ensures r == (StatusWord(v, k, num) == word)
  {
    hide Consistent, PackagesOk, StatusOk, Word;
    var a := db.GetStatus(k, num, v.names, words);
    ghost var t := db.names.table[..];
    var b := db.names.SearchNameHashtable(word, words);
    InternedExtends(t, word, db.names.table[..], b);
    ExtendsMore(v.names, t, db.names.table[..]);
    SameSlot(db.names.table[..], db.names.mix, db.names.p, a, StatusWord(v, k, num), b, word);
    return a == b;
  }

  /** There is no more than one status of a name. */
  lemma OneStatus(v: View, k: nat, num: nat, word: Text)
    requires ViewOk(v) && HasStatus(v.statuses, k) && num >= 1
    ensures StatusIs(v, StatusName(v.names, v.packages, v.statuses, k), num, word) <==> StatusWord(v, k, num) == word
  {
    hide StatusWord, PackagesOk, StatusOk;
  }

  method PackageSatisfiesDependency(db: Database, package: nat, kind: nat, ghost v: View, ghost words: set<Text>)
    returns (r: bool)
    requires Shows(db, v) && db.names.Room(words) && WordsIn(v, words) && Has(v.packages, package)
    modifies db.names.table
    ensures Shows(db, v) && db.names.Room(words)
    ensures r == Ready(v, NameOf(v.names, v.packages, package), kind)
  {
    hide Consistent, PackagesOk, StatusOk, Word, StatusWord;
    NodeStored(v.names, v.packages, v.mix, v.controls, package);
    var k := db.SearchStatusHashtable(db.names.table[db.packages[package].value.name].value, v.names);
    if db.statuses[k].None? {
      return false;
    }
    r := false;
    if kind == EDGE_PRE_DEPENDS {
      OneStatus(v, k, 3, INSTALLED);
      r := HasWord(db, k, 3, INSTALLED, v, words);
    } else if kind == EDGE_DEPENDS {
      OneStatus(v, k, 1, INSTALL);
      r := HasWord(db, k, 1, INSTALL, v, words);
    }
  }

  /** The next package after startAt that provides needle, -1 if there is none. */
  method SearchForProvides(db: Database, needle: nat, startAt: int, ghost v: View) returns (r: int)
    requires Shows(db, v) && startAt >= -1
    ensures r == -1 || (startAt < r && Has(v.packages, r) && EdgeProvides(v.packages[r].value.edges, needle))
    ensures forall k: nat :: startAt < k && (r == -1 || k < r) && Has(v.packages, k) ==> !EdgeProvides(v.packages[k].value.edges, needle)
  {
    hide Consistent, StatusesOk, NodeOk;
    var i := startAt + 1;
    while i < PACKAGE_HASH_PRIME
      invariant startAt < i
      invariant forall k: nat :: startAt < k < i && Has(v.packages, k) ==> !EdgeProvides(v.packages[k].value.edges, needle)
    {
      if db.packages[i].Some? {
        var edges := db.packages[i].value.edges;
        assert Has(v.packages, i) && v.packages[i].value.edges == edges;
        for j := 0 to |edges|
          invariant forall l :: 0 <= l < j ==> !(edges[l].kind == EDGE_PROVIDES && edges[l].name == needle)
        {
          if edges[j].kind == EDGE_PROVIDES && edges[j].name == needle {
            return i;
          }
        }
      }
      i := i + 1;
    }
    return -1;
  }

  /** Whether the package that was found for an edge satisfies it, or else one of those
      that provide its name. */
  method EdgeSatisfied(db: Database, e: Edge, packageNum: nat, ghost v: View, ghost words: set<Text>) returns (r: bool)
    requires Shows(db, v) && db.names.Room(words) && WordsIn(v, words)
    requires Stored(v.names, e.name) && Stored(v.names, e.version) && packageNum < PACKAGE_HASH_PRIME
    requires Has(v.packages, packageNum) ==> Answers(v.names, v.packages, packageNum, e.name, e.version, e.op)
    requires !Has(v.packages, packageNum) ==>
      forall k: nat :: Has(v.packages, k) ==> !Answers(v.names, v.packages, k, e.name, e.version, e.op)
    modifies db.names.table
    ensures Shows(db, v) && db.names.Room(words)
    ensures r == EdgeMet(v, e)
  {
    hide Consistent, StatusesOk, NodeOk, Ready, EdgeProvides, Meets, WordsIn;
    r := false;
    NodesStored(v);
    if db.packages[packageNum].Some? {
      r := PackageSatisfiesDependency(db, packageNum, e.kind, v, words);
    }
    if !r {
      var provider := SearchForProvides(db, e.name, -1, v);
      while provider > -1
        invariant Shows(db, v) && db.names.Room(words) && provider >= -1
        invariant provider > -1 ==> Has(v.packages, provider) && EdgeProvides(v.packages[provider].value.edges, e.name)
        invariant forall k: nat :: (provider == -1 || k < provider) && Has(v.packages, k) && EdgeProvides(v.packages[k].value.edges, e.name) ==>
          !Ready(v, NameOf(v.names, v.packages, k), e.kind)
        decreases if provider == -1 then 0 else PACKAGE_HASH_PRIME - provider
      {
        r := PackageSatisfiesDependency(db, provider, e.kind, v, words);
        if r {
          break;
        }
        provider := SearchForProvides(db, e.name, provider, v);
      }
    }
  }

  lemma NodesStored(v: View)
    requires ViewOk(v)
    ensures forall k: nat :: Has(v.packages, k) ==> Stored(v.names, v.packages[k].value.name)
  {
    hide StatusesOk;
    forall k: nat | Has(v.packages, k) ensures Stored(v.names, v.packages[k].value.name) {
      NodeStored(v.names, v.packages, v.mix, v.controls, k);
    }
  }

  // ---------- the scan over the edges of a package ----------

  /** Where the scan is: after i alternatives of item m, where i is 0 except inside an
      item. */
  datatype Place = Place(m: nat, i: nat, inOr: bool)

  /** The items before m are met. */
  ghost predicate MetBefore(v: View, control: Control, m: nat)
    requires ViewOk(v) && m <= |control|
  {
    forall l :: 0 <= l < m && IsDepends(control[l].kind) ==> ClauseMet(v, control[l])
  }

  ghost predicate NoneMet(v: View, item: Item, n: nat)
    requires ViewOk(v) && n <= |item.clause.alternatives|
  {
    forall i :: 0 <= i < n ==> !AlternativeMet(v, item.kind, item.clause.alternatives[i])
  }

  /** What j, number_of_alternatives and root_of_alternatives are at a place. */
  ghost predicate At(v: View, edges: seq<Edge>, control: Control, q: Place, j: nat, n: nat, root: Option<Edge>)
    requires ViewOk(v)
  {
    && q.m <= |control| && MetBefore(v, control, q.m)
    && if q.inOr then
         && q.m < |control| && IsOr(control[q.m]) && q.i < |control[q.m].clause.alternatives|
         && j == Offset(control, q.m) + 1 + q.i && n == |control[q.m].clause.alternatives| - q.i
         && root.Some? && root.value.kind == control[q.m].kind + 1
         && NoneMet(v, control[q.m], q.i)
       else
         && j == Offset(control, q.m) + q.i && (n == 0 || (n == 1 && root.None?))
         && (q.i != 0 ==> q.m < |control| && !IsDepends(control[q.m].kind) && q.i < |control[q.m].clause.alternatives|)
  }

  /** An edge of an item that has no OR edge, or an alternative after one. */
  ghost predicate AlternativeAt(v: View, e: Edge, control: Control, q: Place)
  {
    && q.m < |control| && q.i < |control[q.m].clause.alternatives|
    && EdgeIs(v.names, e, control[q.m].kind, control[q.m].clause.alternatives[q.i])
    && (IsOr(control[q.m]) <==> q.inOr)
  }

  /** The edge at a place. */
  lemma EdgeAt(v: View, edges: seq<Edge>, control: Control, q: Place, j: nat, n: nat, root: Option<Edge>)
    requires ViewOk(v) && Encodes(v.names, edges, control) && ControlOk(control)
    requires At(v, edges, control, q, j, n, root) && j < |edges|
    ensures q.m < |control|
    ensures !q.inOr && IsOr(control[q.m]) ==> q.i == 0 && IsDepends(control[q.m].kind)
    ensures !q.inOr && IsOr(control[q.m]) ==> edges[j].kind == control[q.m].kind + 1
    ensures !q.inOr && IsOr(control[q.m]) ==> edges[j].version == |control[q.m].clause.alternatives|
    ensures q.inOr || !IsOr(control[q.m]) ==> AlternativeAt(v, edges[j], control, q)
  {
    hide EdgeIs, ClauseOf, Fit, MetBefore, NoneMet, IsOr, ViewOk;
    assert q.m < |control|;
    assert ItemIs(v.names, edges, control, q.m) && ItemOk(control[q.m]);
    OrKind(control[q.m]);
    if q.inOr || !IsOr(control[q.m]) {
      var l := AlternativeEdge(v.names, edges, control, q.m, q.i);
    }
  }

  /** Behind an OR edge. */
  lemma EnterOr(v: View, edges: seq<Edge>, control: Control, q: Place, j: nat, n: nat, root: Option<Edge>)
    requires ViewOk(v) && ControlOk(control) && At(v, edges, control, q, j, n, root) && j < |edges| && q.m < |control|
    requires !q.inOr && IsOr(control[q.m]) && q.i == 0 && edges[j].kind == control[q.m].kind + 1
    requires edges[j].version == |control[q.m].clause.alternatives|
    ensures At(v, edges, control, Place(q.m, 0, true), j + 1, edges[j].version, Some(edges[j]))
  {
    hide IsOr, ClauseOf, Fit, MetBefore, ViewOk;
    assert ItemOk(control[q.m]);
  }

  lemma OffsetNext(control: Control, m: nat)
    requires m < |control|
    ensures Offset(control, m + 1) == Offset(control, m) + OrCount(control[m]) + |control[m].clause.alternatives|
  {
  }

  function Following(control: Control, q: Place): Place
    requires q.m < |control|
  {
    if q.i + 1 < |control[q.m].clause.alternatives| then Place(q.m, q.i + 1, q.inOr) else Place(q.m + 1, 0, false)
  }

  /** Behind an edge that is no dependency. */
  lemma PassOther(v: View, edges: seq<Edge>, control: Control, q: Place, j: nat, n: nat, root: Option<Edge>)
    requires ViewOk(v) && At(v, edges, control, q, j, n, root) && j < |edges| && AlternativeAt(v, edges[j], control, q)
    requires !IsDepends(control[q.m].kind)
    ensures At(v, edges, control, Following(control, q), j + 1, 1, if n == 0 then None else root) && n <= 1
  {
    hide IsOr, Fit, EdgeIs, ViewOk;
    OrKind(control[q.m]);
    OffsetNext(control, q.m);
  }

  /** An alternative is met: on to the item after the one it is in. */
  lemma PassMet(v: View, edges: seq<Edge>, control: Control, q: Place, j: nat, n: nat, root: Option<Edge>)
    requires ViewOk(v) && ControlOk(control) && At(v, edges, control, q, j, n, root) && j < |edges|
    requires AlternativeAt(v, edges[j], control, q) && IsDepends(control[q.m].kind)
    requires AlternativeMet(v, control[q.m].kind, control[q.m].clause.alternatives[q.i])
    ensures var n1 := if n == 0 then 0 else n - 1;
      At(v, edges, control, Place(q.m + 1, 0, false), j + n1 + 1, 0, if n == 0 then None else root)
  {
    hide IsOr, Fit, EdgeIs, ViewOk, AlternativeMet, NoneMet, ItemOk;
    OrKind(control[q.m]);
    OffsetNext(control, q.m);
    OneOnly(control, q.m);
    assert ClauseMet(v, control[q.m]);
  }

  lemma OneOnly(control: Control, m: nat)
    requires ControlOk(control) && m < |control|
    ensures IsDepends(control[m].kind) && !IsOr(control[m]) ==> |control[m].clause.alternatives| == 1
  {
    var field := control[m].clause.field;
    assert ItemOk(control[m]);
    if IsDepends(control[m].kind) && !IsOr(control[m]) {
      OneAlternative(field);
    }
  }

  /** An alternative is not met: on to the next, if there is one. */
  lemma PassUnmet(v: View, edges: seq<Edge>, control: Control, q: Place, j: nat, n: nat, root: Option<Edge>)
    requires ViewOk(v) && ControlOk(control) && At(v, edges, control, q, j, n, root) && j < |edges|
    requires AlternativeAt(v, edges[j], control, q) && IsDepends(control[q.m].kind)
    requires !AlternativeMet(v, control[q.m].kind, control[q.m].clause.alternatives[q.i])
    ensures n > 1 ==> At(v, edges, control, Place(q.m, q.i + 1, true), j + 1, n - 1, root)
    ensures n <= 1 ==> !ClauseMet(v, control[q.m])
  {
    hide IsOr, Fit, EdgeIs, ViewOk, AlternativeMet, MetBefore, ItemOk;
    OrKind(control[q.m]);
    OneOnly(control, q.m);
  }

  /** At the end all items are met. */
  lemma ScanEnds(v: View, edges: seq<Edge>, control: Control, q: Place, j: nat, n: nat, root: Option<Edge>)
    requires ViewOk(v) && Encodes(v.names, edges, control) && ControlOk(control)
    requires At(v, edges, control, q, j, n, root) && j >= |edges|
    ensures q.m == |control| && MetBefore(v, control, |control|)
  {
    hide IsOr, Fit, ViewOk, MetBefore, ItemOk;
    if q.m < |control| {
      OrKind(control[q.m]);
      OffsetNext(control, q.m);
      OffsetGrows(control, q.m + 1, |control|);
      SomeAlternative(control, q.m);
    }
  }

  lemma SomeAlternative(control: Control, m: nat)
    requires ControlOk(control) && m < |control|
    ensures |control[m].clause.alternatives| > 0
  {
    assert ItemOk(control[m]);
  }

  lemma ShowsOk(db: Database, v: View)
    requires Shows(db, v)
    ensures ViewOk(v) && Consistent(v.names, v.mix, db.names.p)
  {
    hide PackagesOk, StatusesOk, Consistent;
  }

  /** What the view says about the package in slot k. */
  lemma PackageFacts(v: View, k: nat)
    requires ViewOk(v) && Has(v.packages, k)
    ensures |v.controls| == PACKAGE_HASH_PRIME
    ensures Encodes(v.names, v.packages[k].value.edges, v.controls[k]) && ControlOk(v.controls[k])
  {
    hide StatusesOk;
    assert NodeOk(v.names, v.packages, v.mix, k, v.controls[k]);
  }

  lemma EdgeStored(names: Names, e: Edge, kind: nat, a: Alternative)
    requires EdgeIs(names, e, kind, a)
    ensures Stored(names, e.name) && Stored(names, e.version) && e.kind == kind
  {
  }

  lemma KindIsOdd(control: Control, m: nat)
    requires ControlOk(control) && m < |control|
    ensures control[m].kind % 2 == 1
  {
    assert ItemOk(control[m]);
  }

  /** What an edge is that is no OR edge, and the edges's dependency. */
  lemma NoOrEdge(v: View, p: nat, edges: seq<Edge>, control: Control, q: Place, j: nat, n: nat, root: Option<Edge>)
    requires ViewOk(v) && Consistent(v.names, v.mix, p) && Encodes(v.names, edges, control) && ControlOk(control)
    requires At(v, edges, control, q, j, n, root) && j < |edges|
    requires edges[j].kind != EDGE_OR_PRE_DEPENDS && edges[j].kind != EDGE_OR_DEPENDS
    ensures q.m < |control| && AlternativeAt(v, edges[j], control, q) && edges[j].kind == control[q.m].kind
    ensures Stored(v.names, edges[j].name) && Stored(v.names, edges[j].version)
    ensures EdgeMet(v, edges[j]) <==> AlternativeMet(v, control[q.m].kind, control[q.m].clause.alternatives[q.i])
    ensures q.inOr ==> n > 0 && root.Some? && root.value.kind == edges[j].kind + 1
    ensures !q.inOr && n != 0 ==> root.None?
  {
    hide ViewOk, EdgeIs, IsOr, ControlOk, Encodes, EdgeMet, AlternativeMet, MetBefore, NoneMet, Consistent, Offset;
    EdgeAt(v, edges, control, q, j, n, root);
    var a := control[q.m].clause.alternatives[q.i];
    EdgeStored(v.names, edges[j], control[q.m].kind, a);
    EdgeMeaning(v, p, edges[j], control[q.m].kind, a);
  }

  /** OR edges come where an item starts. */
  lemma OrEdge(v: View, edges: seq<Edge>, control: Control, q: Place, j: nat, n: nat, root: Option<Edge>)
    requires ViewOk(v) && Encodes(v.names, edges, control) && ControlOk(control)
    requires At(v, edges, control, q, j, n, root) && j < |edges|
    requires edges[j].kind == EDGE_OR_PRE_DEPENDS || edges[j].kind == EDGE_OR_DEPENDS
    ensures q.m < |control| && At(v, edges, control, Place(q.m, 0, true), j + 1, edges[j].version, Some(edges[j]))
  {
    hide ViewOk, EdgeIs, IsOr, ControlOk, Encodes, MetBefore, NoneMet, Offset;
    EdgeAt(v, edges, control, q, j, n, root);
    KindIsOdd(control, q.m);
    if q.inOr || !IsOr(control[q.m]) {
      EdgeStored(v.names, edges[j], control[q.m].kind, control[q.m].clause.alternatives[q.i]);
    }
    EnterOr(v, edges, control, q, j, n, root);
  }

  /** The loop over the edges of the package in slot k. false stands for the end of the
      program with a message that a dependency cannot be met; the other message, that the
      dependencies are corrupt, never comes. */
  method CheckEdges(db: Database, k: nat, ghost v: View, ghost words: set<Text>) returns (ok: bool)
    requires Shows(db, v) && db.names.Room(words) && WordsIn(v, words) && Has(v.packages, k)
    modifies db.names.table
    ensures Shows(db, v) && db.names.Room(words)
    ensures ok == PackageMet(v, k)
  {
    hide ViewOk, At, Encodes, ControlOk, Consistent, EdgeMet, AlternativeMet, ClauseMet, AlternativeAt, PackagesOk, StatusesOk, Answers;
    ShowsOk(db, v);
    PackageFacts(v, k);
    var edges := db.packages[k].value.edges;
    ghost var control := v.controls[k];
    ghost var q := Place(0, 0, false);
    var n: nat := 0;
    var root: Option<Edge> := None;
    var j := 0;
    ScanStarts(v, edges, control);
    while j < |edges|
      invariant Shows(db, v) && db.names.Room(words)
      invariant At(v, edges, control, q, j, n, root)
      decreases |edges| - j
    {
      var e := edges[j];
      if e.kind == EDGE_OR_PRE_DEPENDS || e.kind == EDGE_OR_DEPENDS {
        OrEdge(v, edges, control, q, j, n, root);
        n := e.version;
        root := Some(e);
        q := Place(q.m, 0, true);
        j := j + 1;
        continue;
      }
      NoOrEdge(v, db.names.p, edges, control, q, j, n, root);
      ghost var n0, root0 := n, root;
      if n == 0 {
        n := 1;
        root := None;
      }
      var packageNum := db.SearchPackageHashtable(e.name, e.version, e.op, v.names);
      if e.kind == EDGE_PRE_DEPENDS || e.kind == EDGE_DEPENDS {
        if root.Some? && e.kind != root.value.kind - 1 {
          assert false;
        }
        var met := EdgeSatisfied(db, e, packageNum, v, words);
        n := n - 1;
        if !met {
          PassUnmet(v, edges, control, q, j, n0, root0);
          if n == 0 {
            Unmet(v, k, q.m);
            return false;
          }
          q := Place(q.m, q.i + 1, true);
        } else {
          PassMet(v, edges, control, q, j, n0, root0);
          j := j + n;
          n := 0;
          q := Place(q.m + 1, 0, false);
        }
      } else {
        PassOther(v, edges, control, q, j, n0, root0);
        q := Following(control, q);
      }
      j := j + 1;
    }
    ScanEnds(v, edges, control, q, j, n, root);
    ok := true;
  }

  lemma Unmet(v: View, k: nat, m: nat)
    requires ViewOk(v) && Has(v.packages, k) && k < |v.controls| && m < |v.controls[k]|
    requires IsDepends(v.controls[k][m].kind) && !ClauseMet(v, v.controls[k][m])
    ensures !PackageMet(v, k)
  {
  }

  lemma ScanStarts(v: View, edges: seq<Edge>, control: Control)
    requires ViewOk(v)
    ensures At(v, edges, control, Place(0, 0, false), 0, 0, None)
  {
  }

  /** Whether the name's want status is install; without a status it is not. */
  method IsWanted(db: Database, k: nat, ghost v: View, ghost words: set<Text>) returns (r: bool)
    requires Shows(db, v) && db.names.Room(words) && WordsIn(v, words) && Has(v.packages, k)
    modifies db.names.table
    ensures Shows(db, v) && db.names.Room(words)
    ensures r == Wanted(v, k)
  {
    hide Consistent, PackagesOk, StatusOk, Word, StatusWord;
    NodeStored(v.names, v.packages, v.mix, v.controls, k);
    var status := db.SearchStatusHashtable(db.names.table[db.packages[k].value.name].value, v.names);
    if db.statuses[status].None? {
      return false;
    }
    OneStatus(v, status, 1, INSTALL);
    r := HasWord(db, status, 1, INSTALL, v, words);
  }

  /** The dependency phase of check_deps: it goes well exactly if each dependency of each
      package that is to be installed has an alternative that is met, directly or by a
      package that provides it. */
  method CheckDependencies(db: Database, ghost v: View, ghost words: set<Text>) returns (ok: bool)
    requires Shows(db, v) && db.names.Room(words) && WordsIn(v, words)
    modifies db.names.table
    ensures Shows(db, v) && db.names.Room(words)
    ensures ok == DependenciesMet(v)
  {
    hide ViewOk, Wanted, PackageMet, Consistent, PackagesOk, StatusesOk;
    ShowsOk(db, v);
    SizeOk(v);
    var i: nat := 0;
    while i < PACKAGE_HASH_PRIME
      invariant i <= PACKAGE_HASH_PRIME && Shows(db, v) && db.names.Room(words)
      invariant forall k: nat :: k < i && Has(v.packages, k) && Wanted(v, k) ==> PackageMet(v, k)
    {
      if db.packages[i].Some? {
        assert Has(v.packages, i);
        var wanted := IsWanted(db, i, v, words);
        if wanted {
          ok := CheckEdges(db, i, v, words);
          if !ok {
            return;
          }
        }
      }
      i := i + 1;
    }
    ok := true;
  }

  lemma SizeOk(v: View)
    requires ViewOk(v)
    ensures |v.packages| == PACKAGE_HASH_PRIME + 1 && |v.statuses| == STATUS_HASH_PRIME + 1
  {
  }

  /** The state of a database as it is. */
  ghost function Now(db: Database): View
    reads db, db.names, db.names.table, db.packages, db.statuses
  {
    View(db.names.table[..], db.packages[..], db.statuses[..], db.controls, db.names.mix)
  }

  /** The check right after the tables were filled. */
  method CheckDeps(db: Database, ghost words: set<Text>) returns (ok: bool)
    requires db.Valid(db.names.table[..]) && db.names.Room(words) && WordsIn(Now(db), words)
    modifies db.names.table
    ensures ok == old(DependenciesMet(Now(db)))
    ensures db.Valid(db.names.table[..])
  {
    hide ViewOk, DependenciesMet, Consistent, PackagesOk, StatusesOk, WordsIn;
    ghost var v := Now(db);
    ok := CheckDependencies(db, v, words);
    ValidStays(db, v.names);
  }
}
