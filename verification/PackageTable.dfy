/** package_hashtable and status_hashtable of dpkg.c. */
module PackageTable {
  import opened Options
  import opened Bits
  import opened DpkgVersions
  import opened DoubleHashing
  import opened Interning
  import opened PackageEdges

  /** A package: name and version are slots of the name table. */
  datatype Node = Node(name: nat, version: nat, edges: seq<Edge>)

  /** package is a slot of the package table, status one of the name table. */
  datatype Status = Status(package: nat, status: nat)

  type Packages = seq<Option<Node>>
  type Statuses = seq<Option<Status>>

  predicate Stored(names: Names, k: nat)
  {
    k < |names| && names[k].Some?
  }

  // ---------- packages ----------

  /** What a package's edges were made from. */
  type Control = seq<Item>

  predicate ControlOk(control: Control)
  {
    Fit(control) && forall m :: 0 <= m < |control| ==> ItemOk(control[m])
  }

  /** Kinds other than those of OR edges are odd. */
  predicate ItemOk(item: Item)
  {
    item.kind % 2 == 1 && item.clause == ClauseOf(item.clause.field) && |item.clause.alternatives| > 0
  }

  /** There is a package in slot k. */
  predicate Has(packages: Packages, k: nat)
  {
    k < PACKAGE_HASH_PRIME < |packages| && packages[k].Some?
  }

  /** Its name and its version. */
  function NameOf(names: Names, packages: Packages, k: nat): Text
    requires Has(packages, k) && Stored(names, packages[k].value.name)
  {
    names[packages[k].value.name].value
  }

  function VersionOf(names: Names, packages: Packages, k: nat): Text
    requires Has(packages, k) && Stored(names, packages[k].value.version)
  {
    names[packages[k].value.version].value
  }

  ghost predicate NodeOk(names: Names, packages: Packages, mix: Text -> nat, k: nat, control: Control)
    requires Has(packages, k)
  {
    && Stored(names, packages[k].value.name) && Stored(names, packages[k].value.version)
    && Reached(packages, mix(NameOf(names, packages, k)), PACKAGE_HASH_PRIME, k)
    && Encodes(names, packages[k].value.edges, control) && ControlOk(control)
  }

  ghost predicate PackagesOk(names: Names, packages: Packages, mix: Text -> nat, controls: seq<Control>)
  {
    && |packages| == PACKAGE_HASH_PRIME + 1 && |controls| == PACKAGE_HASH_PRIME
    && FreeSlots(packages, PACKAGE_HASH_PRIME) > 0
    && forall k: nat :: Has(packages, k) ==> NodeOk(names, packages, mix, k, controls[k])
  }

  /** The package in slot k is what a dependency looks for. */
  ghost predicate Answers(names: Names, packages: Packages, k: nat, name: nat, version: nat, op: Operator)
    requires Has(packages, k)
  {
    && packages[k].value.name == name && Stored(names, packages[k].value.version) && Stored(names, version)
    && Meets(VersionOf(names, packages, k), names[version].value, op)
  }

  /** No package answers if none did on the way to a free slot. */
  lemma NoneAnswers(names: Names, packages: Packages, mix: Text -> nat, controls: seq<Control>, name: nat,
      version: nat, op: Operator, n: nat)
    requires PackagesOk(names, packages, mix, controls) && Stored(names, name)
    requires packages[Slot(mix(names[name].value), PACKAGE_HASH_PRIME, n)].None?
    requires Taken(packages, mix(names[name].value), PACKAGE_HASH_PRIME, n)
    requires NotBefore(names, packages, mix(names[name].value), name, version, op, n)
    ensures forall k: nat :: Has(packages, k) ==> !Answers(names, packages, k, name, version, op)
  {
    hide Encodes, ControlOk, Meets, Slot;
    forall k: nat | Has(packages, k) && Answers(names, packages, k, name, version, op) ensures false {
      assert NodeOk(names, packages, mix, k, controls[k]);
      var i := PassedBy(packages, mix(names[name].value), PACKAGE_HASH_PRIME, k, n);
    }
  }

  ghost predicate NotBefore(names: Names, packages: Packages, h: nat, name: nat, version: nat, op: Operator, n: nat)
    requires PACKAGE_HASH_PRIME < |packages| && Taken(packages, h, PACKAGE_HASH_PRIME, n)
  {
    forall i: nat :: i < n ==> !Answers(names, packages, Slot(h, PACKAGE_HASH_PRIME, i), name, version, op)
  }

  // ---------- status ----------

  predicate HasStatus(statuses: Statuses, k: nat)
  {
    k < STATUS_HASH_PRIME < |statuses| && statuses[k].Some?
  }

  /** The name of the package that slot k is about. */
  function StatusName(names: Names, packages: Packages, statuses: Statuses, k: nat): Text
    requires HasStatus(statuses, k) && Has(packages, statuses[k].value.package)
    requires Stored(names, packages[statuses[k].value.package].value.name)
  {
    NameOf(names, packages, statuses[k].value.package)
  }

  ghost predicate StatusOk(names: Names, packages: Packages, statuses: Statuses, mix: Text -> nat, k: nat)
    requires HasStatus(statuses, k)
  {
    && Has(packages, statuses[k].value.package)
    && Stored(names, packages[statuses[k].value.package].value.name) && Stored(names, statuses[k].value.status)
    && Reached(statuses, mix(StatusName(names, packages, statuses, k)), STATUS_HASH_PRIME, k)
  }

  ghost predicate StatusesOk(names: Names, packages: Packages, statuses: Statuses, mix: Text -> nat)
  {
    && |statuses| == STATUS_HASH_PRIME + 1 && FreeSlots(statuses, STATUS_HASH_PRIME) > 0
    && (forall k: nat :: HasStatus(statuses, k) ==> StatusOk(names, packages, statuses, mix, k))
    && forall k: nat, l: nat ::
         HasStatus(statuses, k) && HasStatus(statuses, l) && k != l ==>
           StatusName(names, packages, statuses, k) != StatusName(names, packages, statuses, l)
  }

  ghost predicate NotNamed(names: Names, packages: Packages, statuses: Statuses, mix: Text -> nat, key: Text, n: nat)
    requires StatusesOk(names, packages, statuses, mix) && Taken(statuses, mix(key), STATUS_HASH_PRIME, n)
  {
    forall i: nat :: i < n ==> StatusName(names, packages, statuses, Slot(mix(key), STATUS_HASH_PRIME, i)) != key
  }

  /** No status is about key if none was on the way to a free slot. */
  lemma NoneNamed(names: Names, packages: Packages, statuses: Statuses, mix: Text -> nat, key: Text, n: nat)
    requires StatusesOk(names, packages, statuses, mix)
    requires statuses[Slot(mix(key), STATUS_HASH_PRIME, n)].None?
    requires Taken(statuses, mix(key), STATUS_HASH_PRIME, n)
    requires NotNamed(names, packages, statuses, mix, key, n)
    ensures forall k: nat :: HasStatus(statuses, k) ==> StatusName(names, packages, statuses, k) != key
  {
    hide Slot;
    forall k: nat | HasStatus(statuses, k) && StatusName(names, packages, statuses, k) == key ensures false {
      var i := PassedBy(statuses, mix(key), STATUS_HASH_PRIME, k, n);
    }
  }

  /** get_status: the first, second or third word of a status. */
  function Word(s: Text, n: nat): Text
    requires n >= 1
  {
    if n == 1 then Cut(s, {SPACE, NEWLINE})
    else Word(Skip(s[CSpan(s, {SPACE})..], {SPACE}), n - 1)
  }

  const NEWLINE: byte := 10

  lemma {:induction false} AllFree<T>(t: seq<Option<T>>, n: nat)
    requires n <= |t| && forall k :: 0 <= k < |t| ==> t[k].None?
    ensures FreeSlots(t, n) == n
  {
    if n != 0 {
      AllFree(t, n - 1);
    }
  }

  /** A search for a package ends. */
  lemma FreeAhead<T>(t: seq<Option<T>>, h: nat, p: nat) returns (m: nat)
    requires Prime(p) && |t| == p + 1 && FreeSlots(t, p) > 0
    ensures m < p && t[Slot(h, p, m)].None?
  {
    var f := FreeSlot(t, p);
    m := SearchReaches(h, p, f);
  }

  class Database {
    const names: NameTable
    const packages: array<Option<Node>>
    const statuses: array<Option<Status>>
    /** What the edges of the package in each slot were made from. */
    ghost var controls: seq<Control>

    /** base is the name table at some earlier time, when all names in use were in it. */
    ghost predicate Valid(base: Names)
      reads this, names, names.table, packages, statuses
    {
      && names.Valid() && Consistent(base, names.mix, names.p) && Extends(base, names.table[..])
      && PackagesOk(base, packages[..], names.mix, controls)
      && StatusesOk(base, packages[..], statuses[..], names.mix)
    }

    constructor (mix: Text -> nat)
      ensures Valid(names.table[..]) && fresh(names) && fresh(names.table) && fresh(packages) && fresh(statuses)
      ensures forall k: nat :: !Has(packages[..], k) && !HasStatus(statuses[..], k)
    {
      names := new NameTable(mix);
      packages := new Option<Node>[PACKAGE_HASH_PRIME + 1](_ => None);
      statuses := new Option<Status>[STATUS_HASH_PRIME + 1](_ => None);
      controls := seq(PACKAGE_HASH_PRIME, _ => []);
      new;
      AllFree(packages[..], PACKAGE_HASH_PRIME);
      AllFree(statuses[..], STATUS_HASH_PRIME);
    }

    /** The slot of the first package on the way that has this name and a version as asked
        for. If that is a free slot there is no such package. */
    method SearchPackageHashtable(name: nat, version: nat, op: Operator, ghost base: Names) returns (probe: nat)
      requires Valid(base) && Stored(base, name) && Stored(base, version)
      ensures probe < PACKAGE_HASH_PRIME
      ensures Has(packages[..], probe) ==> Answers(base, packages[..], probe, name, version, op)
      ensures !Has(packages[..], probe) ==>
        forall k: nat :: Has(packages[..], k) ==> !Answers(base, packages[..], k, name, version, op)
      ensures Reached(packages[..], names.mix(base[name].value), PACKAGE_HASH_PRIME, probe)
    {
      hide Prime, Next, Start, Meets, Consistent, StatusesOk, NodeOk;
      ghost var t := packages[..];
      var h := names.mix(names.table[name].value);
      probe := Start(h, PACKAGE_HASH_PRIME);
      FirstSlot(h, PACKAGE_HASH_PRIME);
      HashPrimes();
      ghost var m := FreeAhead(t, h, PACKAGE_HASH_PRIME);
      ghost var n: nat := 0;
      while packages[probe].Some?
        invariant n <= m && probe == Slot(h, PACKAGE_HASH_PRIME, n) && Taken(t, h, PACKAGE_HASH_PRIME, n)
        invariant NotBefore(base, t, h, name, version, op, n)
        decreases m - n
      {
        assert Has(t, probe);
        NodeStored(base, t, names.mix, controls, probe);
        if packages[probe].value.name == name {
          if op == VER_ANY {
            AnyMeets(VersionOf(base, t, probe), base[version].value);
            return;
          }
          var found := TestVersion(names.table[packages[probe].value.version].value, names.table[version].value, op);
          if found {
            return;
          }
        }
        NextSlot(h, PACKAGE_HASH_PRIME, n);
        probe := Next(probe, h, PACKAGE_HASH_PRIME);
        n := n + 1;
      }
      NoneAnswers(base, t, names.mix, controls, name, version, op, n);
    }

    /** The slot of the status of the package named key. If that is a free slot there is
        none. */
    method SearchStatusHashtable(key: Text, ghost base: Names) returns (probe: nat)
      requires Valid(base)
      ensures probe < STATUS_HASH_PRIME
      ensures HasStatus(statuses[..], probe) ==> StatusName(base, packages[..], statuses[..], probe) == key
      ensures !HasStatus(statuses[..], probe) ==> forall k: nat ::
        HasStatus(statuses[..], k) ==> StatusName(base, packages[..], statuses[..], k) != key
      ensures Reached(statuses[..], names.mix(key), STATUS_HASH_PRIME, probe)
    {
      hide Prime, Next, Start, Consistent, NodeOk;
      ghost var t, u := statuses[..], packages[..];
      var h := names.mix(key);
      probe := Start(h, STATUS_HASH_PRIME);
      FirstSlot(h, STATUS_HASH_PRIME);
      HashPrimes();
      ghost var m := FreeAhead(t, h, STATUS_HASH_PRIME);
      ghost var n: nat := 0;
      while statuses[probe].Some?
        invariant n <= m && probe == Slot(h, STATUS_HASH_PRIME, n) && Taken(t, h, STATUS_HASH_PRIME, n)
        invariant NotNamed(base, u, t, names.mix, key, n)
        decreases m - n
      {
        assert HasStatus(t, probe);
        if names.table[packages[statuses[probe].value.package].value.name].value == key {
          return;
        }
        NextSlot(h, STATUS_HASH_PRIME, n);
        probe := Next(probe, h, STATUS_HASH_PRIME);
        n := n + 1;
      }
      NoneNamed(base, u, t, names.mix, key, n);
    }

    /** A word of a status, as a slot of the name table. */
    method GetStatus(k: nat, num: nat, ghost base: Names, ghost words: set<Text>) returns (r: nat)
      requires Valid(base) && HasStatus(statuses[..], k) && 1 <= num && names.Room(words)
      requires Word(base[statuses[k].value.status].value, num) in words
      modifies names.table
      ensures Valid(base) && names.Room(words) && Extends(old(names.table[..]), names.table[..])
      ensures Stands(names.table[..], r, Word(base[statuses[k].value.status].value, num))
    {
      hide Prime, Consistent, PackagesOk, Skip, Cut;
      ghost var t := names.table[..];
      var s := names.table[statuses[k].value.status].value;
      ghost var all := s;
      var i := 1;
      while i < num
        invariant 1 <= i <= num && Word(all, num) == Word(s, num + 1 - i)
      {
        s := Skip(s[CSpan(s, {SPACE})..], {SPACE});
        i := i + 1;
      }
      r := names.SearchNameHashtable(Cut(s, {SPACE, NEWLINE}), words);
      InternedExtends(t, Word(all, num), names.table[..], r);
      ExtendsMore(base, t, names.table[..]);
    }
  }

  lemma AnyMeets(a: Text, b: Text)
    ensures Meets(a, b, VER_ANY)
  {
  }

  lemma NodeStored(base: Names, packages: Packages, mix: Text -> nat, controls: seq<Control>, k: nat)
    requires PackagesOk(base, packages, mix, controls) && Has(packages, k)
    ensures Stored(base, packages[k].value.name) && Stored(base, packages[k].value.version)
    ensures Reached(packages, mix(NameOf(base, packages, k)), PACKAGE_HASH_PRIME, k)
  {
  }

  /** The names in use are still there. */
  lemma PackagesStay(base: Names, packages: Packages, mix: Text -> nat, controls: seq<Control>, names: Names)
    requires PackagesOk(base, packages, mix, controls) && Extends(base, names)
    ensures PackagesOk(names, packages, mix, controls)
  {
    hide Encodes, ControlOk, Reached;
    forall k: nat | Has(packages, k) ensures NodeOk(names, packages, mix, k, controls[k]) {
      assert NodeOk(base, packages, mix, k, controls[k]);
      EncodesStays(base, packages[k].value.edges, controls[k], names);
    }
  }

  lemma StatusesStay(base: Names, packages: Packages, statuses: Statuses, mix: Text -> nat, names: Names)
    requires StatusesOk(base, packages, statuses, mix) && Extends(base, names)
    ensures StatusesOk(names, packages, statuses, mix)
  {
    hide Reached;
    forall k: nat | HasStatus(statuses, k)
      ensures StatusOk(names, packages, statuses, mix, k)
      ensures StatusName(names, packages, statuses, k) == StatusName(base, packages, statuses, k)
    {
      assert StatusOk(base, packages, statuses, mix, k);
    }
  }

  /** More names make no difference to the tables. */
  lemma ValidStays(db: Database, base: Names)
    requires db.Valid(base)
    ensures db.Valid(db.names.table[..])
  {
    hide Consistent, PackagesOk, StatusesOk, Extends;
    ExtendsSelf(db.names.table[..]);
    PackagesStay(base, db.packages[..], db.names.mix, db.controls, db.names.table[..]);
    StatusesStay(base, db.packages[..], db.statuses[..], db.names.mix, db.names.table[..]);
  }
}
