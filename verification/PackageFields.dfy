/** fill_package_struct and index_status_file of dpkg.c: how packages and their status get
    into the tables. Control data is taken as the sequence of its fields. */
module PackageFields {
  import opened Options
  import opened DpkgVersions
  import opened DoubleHashing
  import opened Interning
  import opened PackageEdges
  import opened PackageTable

  /** A field by its place in the list of known names, of which the first two are Package
      and Version. */
  datatype Field = Field(num: nat, value: Text)

  const UNKNOWN: Text := [117, 110, 107, 110, 111, 119, 110]

  /** The kind of edges that a field gives. */
  function KindOf(num: nat): Option<nat>
  {
    match num
    case 2 => Some(EDGE_PRE_DEPENDS)
    case 3 => Some(EDGE_DEPENDS)
    case 4 => Some(EDGE_REPLACES)
    case 5 => Some(EDGE_PROVIDES)
    case 6 => Some(EDGE_CONFLICTS)
    case 7 => Some(EDGE_SUGGESTS)
    case 8 => Some(EDGE_RECOMMENDS)
    case 9 => Some(EDGE_ENHANCES)
    case _ => None
  }

  function FieldItems(f: Field): Control
  {
    if KindOf(f.num).Some? then LineItems(KindOf(f.num).value, f.value) else []
  }

  /** All that the first n fields say about other packages. */
  function AllItems(fields: seq<Field>, n: nat): Control
    requires n <= |fields|
  {
    if n == 0 then [] else AllItems(fields, n - 1) + FieldItems(fields[n - 1])
  }

  /** The last value of a field counts. */
  function LastValue(fields: seq<Field>, n: nat, num: nat): Option<Text>
    requires n <= |fields|
  {
    if n == 0 then None
    else if fields[n - 1].num == num then Some(fields[n - 1].value)
    else LastValue(fields, n - 1, num)
  }

  /** What the code relies on in a field, and the texts it puts into the name table. */
  ghost predicate FieldOk(f: Field, words: set<Text>)
  {
    && (f.num <= 1 ==> f.value in words)
    && (KindOf(f.num).Some? ==> LineOk(KindOf(f.num).value, f.value))
    && forall m :: 0 <= m < |FieldItems(f)| ==> Covers(words, FieldItems(f)[m].clause)
  }

  predicate AllLegal(items: Control)
  {
    forall m :: 0 <= m < |items| ==> ItemLegal(items[m])
  }

  // ---------- a package gets a slot ----------

  lemma InsertPackage(names: Names, packages: Packages, mix: Text -> nat, controls: seq<Control>, f: nat, node: Node,
      control: Control)
    requires PackagesOk(names, packages, mix, controls) && FreeSlots(packages, PACKAGE_HASH_PRIME) > 1
    requires f < PACKAGE_HASH_PRIME && Stored(names, node.name) && Stored(names, node.version)
    requires Reached(packages, mix(names[node.name].value), PACKAGE_HASH_PRIME, f)
    requires Encodes(names, node.edges, control) && ControlOk(control)
    ensures PackagesOk(names, packages[f := Some(node)], mix, controls[f := control])
  {
    hide Encodes, ControlOk, Reached;
    var u := packages[f := Some(node)];
    FreeLess(packages, PACKAGE_HASH_PRIME, f, node);
    forall k: nat | Has(u, k) ensures NodeOk(names, u, mix, k, controls[f := control][k]) {
      if k == f {
        ReachedStill(packages, mix(names[node.name].value), PACKAGE_HASH_PRIME, f, f, node);
      } else {
        assert Has(packages, k) && NodeOk(names, packages, mix, k, controls[k]);
        ReachedStill(packages, mix(NameOf(names, packages, k)), PACKAGE_HASH_PRIME, k, f, node);
      }
    }
  }

  /** A package only takes the place of one with the same name. */
  lemma StatusesKeep(names: Names, packages: Packages, statuses: Statuses, mix: Text -> nat, f: nat, node: Node)
    requires StatusesOk(names, packages, statuses, mix) && PACKAGE_HASH_PRIME < |packages| && f < PACKAGE_HASH_PRIME
    requires Has(packages, f) ==> packages[f].value.name == node.name
    ensures StatusesOk(names, packages[f := Some(node)], statuses, mix)
  {
    hide Reached;
    var u := packages[f := Some(node)];
    forall k: nat | HasStatus(statuses, k)
      ensures StatusOk(names, u, statuses, mix, k)
      ensures StatusName(names, u, statuses, k) == StatusName(names, packages, statuses, k)
    {
      assert StatusOk(names, packages, statuses, mix, k);
    }
  }

  // ---------- fill_package_struct ----------

  function VersionAfter(fields: seq<Field>, n: nat): Text
    requires n <= |fields|
  {
    if LastValue(fields, n, 1).Some? then LastValue(fields, n, 1).value else UNKNOWN
  }

  /** node holds what the first n fields say. */
  ghost predicate Carries(names: Names, node: Node, fields: seq<Field>, n: nat)
    requires n <= |fields|
  {
    && Encodes(names, node.edges, AllItems(fields, n))
    && Stands(names, node.version, VersionAfter(fields, n))
    && (LastValue(fields, n, 0).Some? ==> Stands(names, node.name, LastValue(fields, n, 0).value))
  }

  lemma CarriesStays(names: Names, node: Node, fields: seq<Field>, n: nat, names1: Names)
    requires n <= |fields| && Carries(names, node, fields, n) && Extends(names, names1)
    ensures Carries(names1, node, fields, n)
  {
    EncodesStays(names, node.edges, AllItems(fields, n), names1);
  }

  lemma {:induction false} OffsetConcat(a: Control, b: Control, m: nat)
    requires m <= |a|
    ensures Offset(a + b, m) == Offset(a, m)
  {
    if m != 0 {
      OffsetConcat(a, b, m - 1);
    }
  }

  lemma FitConcat(a: Control, b: Control)
    requires Fit(a + b)
    ensures Fit(a)
  {
    OffsetConcat(a, b, |a|);
    OffsetGrows(a + b, |a|, |a + b|);
  }

  lemma {:induction false} FitPrefix(fields: seq<Field>, n: nat, m: nat)
    requires n <= m <= |fields| && Fit(AllItems(fields, m))
    ensures Fit(AllItems(fields, n))
    decreases m - n
  {
    hide Fit, FieldItems;
    if n < m {
      FitConcat(AllItems(fields, m - 1), FieldItems(fields[m - 1]));
      FitPrefix(fields, n, m - 1);
    }
  }

  lemma LegalConcat(a: Control, b: Control)
    ensures AllLegal(a + b) <==> AllLegal(a) && AllLegal(b)
  {
    if AllLegal(a + b) {
      forall m | 0 <= m < |a| ensures ItemLegal(a[m]) {
        assert ItemLegal((a + b)[m]);
      }
      forall m | 0 <= m < |b| ensures ItemLegal(b[m]) {
        assert ItemLegal((a + b)[|a| + m]);
      }
    }
  }

  lemma {:induction false} LegalPrefix(fields: seq<Field>, n: nat, m: nat)
    requires n <= m <= |fields| && AllLegal(AllItems(fields, m))
    ensures AllLegal(AllItems(fields, n))
    decreases m - n
  {
    hide AllLegal, FieldItems;
    if n < m {
      LegalConcat(AllItems(fields, m - 1), FieldItems(fields[m - 1]));
      LegalPrefix(fields, n, m - 1);
    }
  }

  /** One more field. */
  method ReadField(table: NameTable, node0: Node, ghost fields: seq<Field>, ghost n: nat, field: Field,
      ghost words: set<Text>)
    returns (ok: bool, node: Node)
    requires table.Valid() && table.Room(words)
    requires n < |fields| && field == fields[n] && FieldOk(field, words) && Fit(AllItems(fields, n + 1))
    requires Carries(table.table[..], node0, fields, n)
    modifies table.table
    ensures table.Valid() && table.Room(words) && Extends(old(table.table[..]), table.table[..])
    ensures ok == AllLegal(FieldItems(field))
    ensures ok ==> Carries(table.table[..], node, fields, n + 1)
  {
    hide Encodes, Fit, LineOk, Covers, Consistent, Keys, ItemLegal, LineItems, Carries, Extends;
    ghost var t := table.table[..];
    ok := true;
    node := node0;
    match KindOf(field.num)
    case Some(kind) =>
      var edges;
      CarriesEdges(t, node0, fields, n);
      ok, edges := AddSplitDependencies(table, node.edges, field.value, kind, AllItems(fields, n), words);
      node := node.(edges := edges);
      if ok {
        CarriesMore(t, node0, fields, n, table.table[..], node);
      }
    case None =>
      ExtendsSelf(t);
      if field.num <= 1 {
        var k := table.SearchNameHashtable(field.value, words);
        InternedExtends(t, field.value, table.table[..], k);
        node := if field.num == 0 then node.(name := k) else node.(version := k);
      }
      CarriesText(t, node0, fields, n, table.table[..], node);
  }

  lemma CarriesEdges(names: Names, node: Node, fields: seq<Field>, n: nat)
    requires n <= |fields| && Carries(names, node, fields, n)
    ensures Encodes(names, node.edges, AllItems(fields, n))
  {
  }

  lemma CarriesMore(names: Names, node0: Node, fields: seq<Field>, n: nat, names1: Names, node: Node)
    requires n < |fields| && Carries(names, node0, fields, n) && Extends(names, names1)
    requires KindOf(fields[n].num).Some? && node0 == node.(edges := node0.edges)
    requires Encodes(names1, node.edges, AllItems(fields, n) + FieldItems(fields[n]))
    ensures Carries(names1, node, fields, n + 1)
  {
    hide Encodes, FieldItems, KindOf, LastValue, VersionAfter, Extends, Stands;
    TextsStay(names, node0, fields, n, names1);
  }

  lemma TextsStay(names: Names, node: Node, fields: seq<Field>, n: nat, names1: Names)
    requires n < |fields| && Carries(names, node, fields, n) && Extends(names, names1) && KindOf(fields[n].num).Some?
    ensures Stands(names1, node.version, VersionAfter(fields, n + 1))
    ensures LastValue(fields, n + 1, 0).Some? ==> Stands(names1, node.name, LastValue(fields, n + 1, 0).value)
  {
    hide Encodes, AllItems, KindOf;
    KindsFrom2(fields[n].num);
  }

  lemma KindsFrom2(num: nat)
    ensures KindOf(num).Some? ==> num >= 2
  {
  }

  lemma CarriesText(names: Names, node0: Node, fields: seq<Field>, n: nat, names1: Names, node: Node)
    requires n < |fields| && Carries(names, node0, fields, n) && Extends(names, names1)
    requires KindOf(fields[n].num).None? && node.edges == node0.edges
    requires if fields[n].num == 0 then Stands(names1, node.name, fields[n].value) else node.name == node0.name
    requires if fields[n].num == 1 then Stands(names1, node.version, fields[n].value) else node.version == node0.version
    ensures Carries(names1, node, fields, n + 1)
  {
    hide Encodes, LastValue, VersionAfter, Extends, Stands, AllItems, KindOf;
    EncodesStays(names, node0.edges, AllItems(fields, n), names1);
    NewText(names, node0, fields, n, names1, node);
    NoItems(fields, n);
  }

  lemma NoItems(fields: seq<Field>, n: nat)
    requires n < |fields|
    ensures KindOf(fields[n].num).None? ==> AllItems(fields, n + 1) == AllItems(fields, n)
  {
  }

  lemma NewText(names: Names, node0: Node, fields: seq<Field>, n: nat, names1: Names, node: Node)
    requires n < |fields| && Carries(names, node0, fields, n) && Extends(names, names1)
    requires if fields[n].num == 0 then Stands(names1, node.name, fields[n].value) else node.name == node0.name
    requires if fields[n].num == 1 then Stands(names1, node.version, fields[n].value) else node.version == node0.version
    ensures Stands(names1, node.version, VersionAfter(fields, n + 1))
    ensures LastValue(fields, n + 1, 0).Some? ==> Stands(names1, node.name, LastValue(fields, n + 1, 0).value)
  {
    hide Encodes, AllItems;
  }

  /** The edges of all fields. Fails on an unknown operator. */
  method ReadFields(table: NameTable, fields: seq<Field>, ghost words: set<Text>) returns (ok: bool, node: Node)
    requires table.Valid() && table.Room(words) && UNKNOWN in words
    requires (forall n :: 0 <= n < |fields| ==> FieldOk(fields[n], words)) && Fit(AllItems(fields, |fields|))
    modifies table.table
    ensures table.Valid() && table.Room(words) && Extends(old(table.table[..]), table.table[..])
    ensures ok == AllLegal(AllItems(fields, |fields|))
    ensures ok ==> Carries(table.table[..], node, fields, |fields|)
  {
    hide Encodes, Fit, LineOk, Covers, Extends, Consistent, Keys, LineItems, ItemLegal, FieldItems, FieldOk;
    ghost var t := table.table[..];
    var unknown := table.SearchNameHashtable(UNKNOWN, words);
    InternedExtends(t, UNKNOWN, table.table[..], unknown);
    node := Node(0, unknown, []);
    var n: nat := 0;
    NoEdges(table.table[..]);
    while n < |fields|
      invariant n <= |fields| && table.Valid() && table.Room(words) && Extends(t, table.table[..])
      invariant Carries(table.table[..], node, fields, n) && AllLegal(AllItems(fields, n))
    {
      ghost var u := table.table[..];
      FitPrefix(fields, n + 1, |fields|);
      LegalConcat(AllItems(fields, n), FieldItems(fields[n]));
      ok, node := ReadField(table, node, fields, n, fields[n], words);
      ExtendsMore(t, u, table.table[..]);
      if !ok {
        if AllLegal(AllItems(fields, |fields|)) {
          LegalPrefix(fields, n + 1, |fields|);
        }
        return;
      }
      n := n + 1;
    }
    ok := true;
  }

  lemma NoEdges(names: Names)
    ensures Encodes(names, [], [])
  {
  }

  /** What a package's control fields must be like, with the texts they put into the name
      table. */
  ghost predicate FieldsOk(fields: seq<Field>, words: set<Text>)
  {
    && (forall n :: 0 <= n < |fields| ==> FieldOk(fields[n], words)) && UNKNOWN in words
    && LastValue(fields, |fields|, 0).Some? && Fit(AllItems(fields, |fields|))
  }

  lemma FieldItemsOk(f: Field, words: set<Text>)
    requires FieldOk(f, words)
    ensures forall m :: 0 <= m < |FieldItems(f)| ==> ItemOk(FieldItems(f)[m])
  {
    hide Covers, ClauseOf;
    forall m | 0 <= m < |FieldItems(f)| ensures ItemOk(FieldItems(f)[m]) {
      var item := FieldItems(f)[m];
      assert ClauseOk(item.clause);
      ClauseField(Skip(Tokens(f.value, COMMA)[m], {SPACE}));
    }
  }

  lemma ClauseField(field: Text)
    ensures ClauseOf(ClauseOf(field).field) == ClauseOf(field)
  {
  }

  lemma {:induction false} ItemsOk(fields: seq<Field>, words: set<Text>, n: nat)
    requires FieldsOk(fields, words) && n <= |fields|
    ensures forall m :: 0 <= m < |AllItems(fields, n)| ==> ItemOk(AllItems(fields, n)[m])
  {
    hide Fit, Covers, LastValue, ItemOk, FieldOk, FieldItems;
    if n != 0 {
      ItemsOk(fields, words, n - 1);
      FieldItemsOk(fields[n - 1], words);
    }
  }

  lemma ControlIsOk(fields: seq<Field>, words: set<Text>)
    requires FieldsOk(fields, words)
    ensures ControlOk(AllItems(fields, |fields|))
  {
    hide ItemOk, FieldOk;
    ItemsOk(fields, words, |fields|);
  }

  datatype Filled = IllegalOperator | NoVersion | Put(num: nat)

  /** Read the fields of a package. Without a version it does not count. */
  method NewNode(db: Database, fields: seq<Field>, ghost words: set<Text>) returns (legal: bool, versioned: bool, node: Node)
    requires db.Valid(db.names.table[..]) && db.names.Room(words) && FieldsOk(fields, words)
    modifies db.names.table
    ensures db.Valid(db.names.table[..]) && db.names.Room(words)
    ensures Extends(old(db.names.table[..]), db.names.table[..])
    ensures legal == AllLegal(AllItems(fields, |fields|))
    ensures versioned == (legal && VersionAfter(fields, |fields|) != UNKNOWN)
    ensures versioned ==> Carries(db.names.table[..], node, fields, |fields|)
  {
    hide PackagesOk, StatusesOk, Encodes, LineOk, AllItems, LastValue, ControlOk, Carries, AllLegal, Fit, Consistent, Extends, FieldOk;
    ghost var t := db.names.table[..];
    legal, node := ReadFields(db.names, fields, words);
    ghost var u := db.names.table[..];
    if !legal {
      ValidStays(db, t);
      return false, false, node;
    }
    var unknown := db.names.SearchNameHashtable(UNKNOWN, words);
    ghost var v := db.names.table[..];
    InternedExtends(u, UNKNOWN, v, unknown);
    ExtendsMore(t, u, v);
    ValidStays(db, t);
    CarriesStays(u, node, fields, |fields|, v);
    CarriesFacts(v, node, fields, |fields|);
    SameSlot(v, db.names.mix, db.names.p, node.version, VersionAfter(fields, |fields|), unknown, UNKNOWN);
    versioned := node.version != unknown;
  }

  /** Put a package into the table, where it takes the place of one with the same name and
      an equal version. */
  method InsertNode(db: Database, node: Node, ghost items: Control) returns (num: nat)
    requires db.Valid(db.names.table[..]) && FreeSlots(db.packages[..], PACKAGE_HASH_PRIME) > 1
    requires Stored(db.names.table[..], node.name) && Stored(db.names.table[..], node.version)
    requires Encodes(db.names.table[..], node.edges, items) && ControlOk(items)
    modifies db`controls, db.packages
    ensures db.Valid(db.names.table[..]) && num < PACKAGE_HASH_PRIME
    ensures db.packages[..] == old(db.packages[..])[num := Some(node)]
    ensures db.controls == old(db.controls)[num := items]
    ensures Has(old(db.packages[..]), num) ==>
      Answers(db.names.table[..], old(db.packages[..]), num, node.name, node.version, VER_EQUAL)
    ensures !Has(old(db.packages[..]), num) ==> forall k: nat :: Has(old(db.packages[..]), k) ==>
      !Answers(db.names.table[..], old(db.packages[..]), k, node.name, node.version, VER_EQUAL)
  {
    hide PackagesOk, StatusesOk, Encodes, ControlOk, Consistent, Extends, Meets, Reached;
    ghost var t, packages, controls := db.names.table[..], db.packages[..], db.controls;
    num := db.SearchPackageHashtable(node.name, node.version, VER_EQUAL, t);
    SizeFacts(t, packages, db.names.mix, controls);
    InsertPackage(t, packages, db.names.mix, controls, num, node, items);
    StatusesKeep(t, packages, db.statuses[..], db.names.mix, num, node);
    db.packages[num] := Some(node);
    db.controls := controls[num := items];
    assert db.packages[..] == packages[num := Some(node)];
  }

  lemma SizeFacts(names: Names, packages: Packages, mix: Text -> nat, controls: seq<Control>)
    requires PackagesOk(names, packages, mix, controls)
    ensures |packages| == PACKAGE_HASH_PRIME + 1 && |controls| == PACKAGE_HASH_PRIME
  {
  }

  /** A package and its edges, from the fields of its control data. */
  method FillPackageStruct(db: Database, fields: seq<Field>, ghost words: set<Text>) returns (r: Filled)
    requires db.Valid(db.names.table[..]) && db.names.Room(words) && FieldsOk(fields, words)
    requires FreeSlots(db.packages[..], PACKAGE_HASH_PRIME) > 1
    modifies db`controls, db.names.table, db.packages
    ensures db.Valid(db.names.table[..]) && db.names.Room(words)
    ensures Extends(old(db.names.table[..]), db.names.table[..])
    ensures r == IllegalOperator <==> !AllLegal(AllItems(fields, |fields|))
    ensures r == NoVersion <==> AllLegal(AllItems(fields, |fields|)) && VersionAfter(fields, |fields|) == UNKNOWN
    ensures !r.Put? ==> db.packages[..] == old(db.packages[..]) && db.controls == old(db.controls)
    ensures r.Put? ==> Has(db.packages[..], r.num) && Carries(db.names.table[..], db.packages[r.num].value, fields, |fields|)
    ensures r.Put? ==> db.packages[..] == old(db.packages[..])[r.num := db.packages[r.num]]
    ensures r.Put? ==> db.controls == old(db.controls)[r.num := AllItems(fields, |fields|)]
  {
    hide PackagesOk, StatusesOk, Encodes, LineOk, AllItems, LastValue, ControlOk, Carries, AllLegal, Fit, Consistent, Extends, FieldOk;
    var legal, versioned, node := NewNode(db, fields, words);
    if !versioned {
      return if legal then NoVersion else IllegalOperator;
    }
    CarriesFacts(db.names.table[..], node, fields, |fields|);
    ControlIsOk(fields, words);
    var num := InsertNode(db, node, AllItems(fields, |fields|));
    SizeFacts(db.names.table[..], db.packages[..], db.names.mix, db.controls);
    return Put(num);
  }

  lemma CarriesFacts(names: Names, node: Node, fields: seq<Field>, n: nat)
    requires n <= |fields| && Carries(names, node, fields, n) && LastValue(fields, n, 0).Some?
    ensures Stands(names, node.version, VersionAfter(fields, n)) && Stored(names, node.name) && Stored(names, node.version)
    ensures Encodes(names, node.edges, AllItems(fields, n))
  {
  }

  // ---------- index_status_file ----------

  lemma InsertStatus(names: Names, packages: Packages, statuses: Statuses, mix: Text -> nat, f: nat, x: Status)
    requires StatusesOk(names, packages, statuses, mix) && FreeSlots(statuses, STATUS_HASH_PRIME) > 1
    requires f < STATUS_HASH_PRIME && Has(packages, x.package) && Stored(names, x.status)
    requires Stored(names, packages[x.package].value.name)
    requires Reached(statuses, mix(NameOf(names, packages, x.package)), STATUS_HASH_PRIME, f)
    requires forall k: nat :: k != f && HasStatus(statuses, k) ==>
      StatusName(names, packages, statuses, k) != NameOf(names, packages, x.package)
    ensures StatusesOk(names, packages, statuses[f := Some(x)], mix)
  {
    hide Reached;
    var u := statuses[f := Some(x)];
    FreeLess(statuses, STATUS_HASH_PRIME, f, x);
    forall k: nat | HasStatus(u, k) ensures StatusOk(names, packages, u, mix, k) {
      if k == f {
        ReachedStill(statuses, mix(NameOf(names, packages, x.package)), STATUS_HASH_PRIME, f, f, x);
      } else {
        assert HasStatus(statuses, k) && StatusOk(names, packages, statuses, mix, k);
        ReachedStill(statuses, mix(StatusName(names, packages, statuses, k)), STATUS_HASH_PRIME, k, f, x);
      }
    }
    forall k: nat, l: nat | HasStatus(u, k) && HasStatus(u, l) && k != l
      ensures StatusName(names, packages, u, k) != StatusName(names, packages, u, l)
    {
      assert k != f ==> HasStatus(statuses, k) && StatusName(names, packages, u, k) == StatusName(names, packages, statuses, k);
      assert l != f ==> HasStatus(statuses, l) && StatusName(names, packages, u, l) == StatusName(names, packages, statuses, l);
    }
  }

  /** No other slot has the status of this package. */
  lemma OnlyThere(names: Names, packages: Packages, statuses: Statuses, mix: Text -> nat, f: nat, key: Text)
    requires StatusesOk(names, packages, statuses, mix)
    requires HasStatus(statuses, f) ==> StatusName(names, packages, statuses, f) == key
    requires !HasStatus(statuses, f) ==> forall k: nat :: HasStatus(statuses, k) ==> StatusName(names, packages, statuses, k) != key
    ensures forall k: nat :: k != f && HasStatus(statuses, k) ==> StatusName(names, packages, statuses, k) != key
  {
    hide StatusOk, Reached;
  }

  /** Only slot k has changed, and says that the package has this status. */
  ghost predicate Indexed(names: Names, statuses: Statuses, statuses1: Statuses, k: nat, package: nat, line: Text)
  {
    && HasStatus(statuses1, k) && k < |statuses| && statuses1 == statuses[k := statuses1[k]]
    && statuses1[k].value.package == package && Stands(names, statuses1[k].value.status, line)
  }

  /** Set the status of a package. */
  method IndexStatus(db: Database, package: nat, line: Text, ghost words: set<Text>) returns (num: nat)
    requires db.Valid(db.names.table[..]) && db.names.Room(words) && line in words && Has(db.packages[..], package)
    requires FreeSlots(db.statuses[..], STATUS_HASH_PRIME) > 1
    modifies db.names.table, db.statuses
    ensures db.Valid(db.names.table[..]) && db.names.Room(words)
    ensures Extends(old(db.names.table[..]), db.names.table[..])
    ensures Indexed(db.names.table[..], old(db.statuses[..]), db.statuses[..], num, package, line)
  {
    hide PackagesOk, StatusesOk, Consistent, Extends, Reached;
    ghost var t, u := db.names.table[..], db.statuses[..];
    var status := db.names.SearchNameHashtable(line, words);
    ghost var v := db.names.table[..];
    InternedExtends(t, line, v, status);
    ValidStays(db, t);
    NodeStored(v, db.packages[..], db.names.mix, db.controls, package);
    num := db.SearchStatusHashtable(db.names.table[db.packages[package].value.name].value, v);
    ghost var key := NameOf(v, db.packages[..], package);
    OnlyThere(v, db.packages[..], u, db.names.mix, num, key);
    InsertStatus(v, db.packages[..], u, db.names.mix, num, Status(package, status));
    StatusesSize(v, db.packages[..], u, db.names.mix);
    db.statuses[num] := Some(Status(package, status));
    assert db.statuses[..] == u[num := Some(Status(package, status))];
  }

  lemma StatusesSize(names: Names, packages: Packages, statuses: Statuses, mix: Text -> nat)
    requires StatusesOk(names, packages, statuses, mix)
    ensures |statuses| == STATUS_HASH_PRIME + 1
  {
  }

  /** An entry of the status file: a package with its status line. */
  method IndexEntry(db: Database, fields: seq<Field>, line: Text, ghost words: set<Text>)
    returns (r: Filled, ghost num: nat)
    requires db.Valid(db.names.table[..]) && db.names.Room(words) && FieldsOk(fields, words) && line in words
    requires FreeSlots(db.packages[..], PACKAGE_HASH_PRIME) > 1 && FreeSlots(db.statuses[..], STATUS_HASH_PRIME) > 1
    modifies db`controls, db.names.table, db.packages, db.statuses
    ensures db.Valid(db.names.table[..]) && db.names.Room(words)
    ensures r.Put? <==> AllLegal(AllItems(fields, |fields|)) && VersionAfter(fields, |fields|) != UNKNOWN
    ensures !r.Put? ==> db.statuses[..] == old(db.statuses[..]) && db.packages[..] == old(db.packages[..])
    ensures r.Put? ==> Indexed(db.names.table[..], old(db.statuses[..]), db.statuses[..], num, r.num, line)
    ensures r.Put? ==> Has(db.packages[..], r.num) && Carries(db.names.table[..], db.packages[r.num].value, fields, |fields|)
    ensures r.Put? ==> db.packages[..] == old(db.packages[..])[r.num := db.packages[r.num]]
    ensures r.Put? ==> db.controls == old(db.controls)[r.num := AllItems(fields, |fields|)]
  {
    hide PackagesOk, StatusesOk, Encodes, LineOk, AllItems, LastValue, ControlOk, Carries, AllLegal, Fit, Consistent, FieldOk, Reached, VersionAfter, Extends;
    num := 0;
    r := FillPackageStruct(db, fields, words);
    if r.Put? {
      ghost var t := db.names.table[..];
      num := IndexStatus(db, r.num, line, words);
      CarriesStays(t, db.packages[r.num].value, fields, |fields|, db.names.table[..]);
    }
  }
}
