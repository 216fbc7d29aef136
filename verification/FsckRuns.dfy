/** What a run of fsck does, as a log of checks started and finished. */
module FsckRuns {
  import opened Options
  import opened FsckDevices

  /** An entry of /etc/fstab. matches tells whether it meets the -t criteria. */
  datatype FsInfo = FsInfo(device: string, mountpt: string, fstype: string, matches: bool, passno: nat)

  const IGNORED_TYPES: seq<string> := ["ignore", "iso9660", "nfs", "proc", "sw", "swap", "tmpfs", "devpts"]

  /** ignore(): pass number 0, not asked for, or of a type that is never checked. */
  predicate Ignored(fs: FsInfo)
  {
    fs.passno == 0 || !fs.matches || fs.fstype in IGNORED_TYPES
  }

  predicate IsRoot(fs: FsInfo)
  {
    fs.mountpt == "/"
  }

  type ExitCode = bv8

  /** fsck_device was called for an entry, with or without a child process to show for
      it; a child has been reaped. */
  datatype Event = Started(fs: nat, child: bool) | Finished(fs: nat, code: ExitCode)

  /** A running child: struct fsck_instance. */
  datatype Instance = Instance(pid: int, fs: nat, device: string, base: Option<string>)

  ghost predicate StartedIn(log: seq<Event>, f: nat)
  {
    exists i :: 0 <= i < |log| && log[i].Started? && log[i].fs == f
  }

  /** The check is over: its child has been reaped, or there was none. */
  ghost predicate OverIn(log: seq<Event>, f: nat)
  {
    exists i :: 0 <= i < |log| && log[i].fs == f && (log[i].Finished? || !log[i].child)
  }

  function StartCount(log: seq<Event>, f: nat): nat
  {
    if log == [] then 0
    else StartCount(log[..|log| - 1], f) + (if log[|log| - 1].Started? && log[|log| - 1].fs == f then 1 else 0)
  }

  /** The OR of all exit codes. */
  function AllCodes(log: seq<Event>): ExitCode
  {
    if log == [] then 0
    else
      var e := log[|log| - 1];
      AllCodes(log[..|log| - 1]) | (if e.Finished? then e.code else 0)
  }

  /** Checks started and not finished, those without a child among them. */
  function Counted(log: seq<Event>): int
  {
    if log == [] then 0 else Counted(log[..|log| - 1]) + (if log[|log| - 1].Started? then 1 else -1)
  }

  /** Checks started for which there was no child. */
  function Childless(log: seq<Event>): nat
  {
    if log == [] then 0
    else Childless(log[..|log| - 1]) + (if log[|log| - 1].Started? && !log[|log| - 1].child then 1 else 0)
  }

  lemma CountedNext(log: seq<Event>, e: Event)
    ensures Childless(log + [e]) == Childless(log) + (if e.Started? && !e.child then 1 else 0)
    ensures Counted(log + [e]) == Counted(log) + (if e.Started? then 1 else -1)
  {
    assert (log + [e])[..|log|] == log;
  }

  lemma LogNext(log: seq<Event>, e: Event, f: nat)
    ensures StartedIn(log + [e], f) <==> StartedIn(log, f) || (e.Started? && e.fs == f)
    ensures OverIn(log + [e], f) <==> OverIn(log, f) || (e.fs == f && (e.Finished? || !e.child))
    ensures StartCount(log + [e], f) == StartCount(log, f) + (if e.Started? && e.fs == f then 1 else 0)
    ensures AllCodes(log + [e]) == AllCodes(log) | (if e.Finished? then e.code else 0)
  {
    hide StartedIn, OverIn;
    assert (log + [e])[..|log|] == log;
    StartedNext(log, e, f);
    OverNext(log, e, f);
  }

  lemma StartedNext(log: seq<Event>, e: Event, f: nat)
    ensures StartedIn(log + [e], f) <==> StartedIn(log, f) || (e.Started? && e.fs == f)
  {
    var l := log + [e];
    if i :| 0 <= i < |log| && log[i].Started? && log[i].fs == f {
      assert l[i] == log[i];
    }
    assert l[|log|] == e;
  }

  lemma OverNext(log: seq<Event>, e: Event, f: nat)
    ensures OverIn(log + [e], f) <==> OverIn(log, f) || (e.fs == f && (e.Finished? || !e.child))
  {
    var l := log + [e];
    if i :| 0 <= i < |log| && log[i].fs == f && (log[i].Finished? || !log[i].child) {
      assert l[i] == log[i];
    }
    assert l[|log|] == e;
  }

  lemma {:induction false} CountedOnce(log: seq<Event>, f: nat)
    ensures StartCount(log, f) > 0 <==> StartedIn(log, f)
  {
    if log != [] {
      var front := log[..|log| - 1];
      CountedOnce(front, f);
      LogNext(front, log[|log| - 1], f);
      assert log == front + [log[|log| - 1]];
    }
  }

  lemma {:induction false} StartsTwice(l: seq<Event>, i: nat)
    requires 0 < i < |l| && l[0].Started? && l[i].Started? && l[i].fs == l[0].fs
    ensures StartCount(l, l[0].fs) >= 2
  {
    var front := l[..|l| - 1];
    if i < |l| - 1 {
      StartsTwice(front, i);
    } else {
      assert front[0] == l[0];
      CountedOnce(front, l[0].fs);
    }
  }

  lemma StaysOver(l: seq<Event>, l': seq<Event>, f: nat)
    requires l <= l' && OverIn(l, f)
    ensures OverIn(l', f)
  {
    var i :| 0 <= i < |l| && l[i].fs == f && (l[i].Finished? || !l[i].child);
    assert l'[i] == l[i];
  }

  // ---------- the children running ----------

  /** Without the first f. */
  function Without(l: seq<nat>, f: nat): seq<nat>
  {
    if l == [] then [] else if l[0] == f then l[1..] else [l[0]] + Without(l[1..], f)
  }

  /** An event changes which entries have children running. */
  function After(live: seq<nat>, e: Event): seq<nat>
  {
    if e.Finished? then Without(live, e.fs) else if e.child then [e.fs] + live else live
  }

  /** The entries whose children are running after these events, the newest first. */
  function Live(log: seq<Event>): seq<nat>
  {
    if log == [] then [] else After(Live(log[..|log| - 1]), log[|log| - 1])
  }

  lemma LiveNext(log: seq<Event>, e: Event)
    ensures Live(log + [e]) == After(Live(log), e)
  {
    assert (log + [e])[..|log|] == log;
  }

  lemma {:induction false} WithoutAt(l: seq<nat>, k: nat)
    requires k < |l| && forall i :: 0 <= i < k ==> l[i] != l[k]
    ensures Without(l, l[k]) == l[..k] + l[k + 1..]
  {
    if k > 0 {
      var rest := l[1..];
      WithoutAt(rest, k - 1);
      assert [l[0]] + rest[..k - 1] == l[..k] && rest[k..] == l[k + 1..];
    }
  }

  lemma {:induction false} WithoutFewer(l: seq<nat>, f: nat, x: nat)
    ensures x in Without(l, f) ==> x in l
    ensures Distinct(l) ==> Distinct(Without(l, f))
  {
    if l != [] && l[0] != f {
      WithoutFewer(l[1..], f, x);
      DistinctTail(l);
      WithoutFewer(l[1..], f, l[0]);
    } else if l != [] {
      DistinctTail(l);
    }
  }

  ghost predicate Distinct(l: seq<nat>)
  {
    forall i, j :: 0 <= i < j < |l| ==> l[i] != l[j]
  }

  lemma DistinctTail(l: seq<nat>)
    requires l != []
    ensures Distinct(l) ==> Distinct(l[1..]) && l[0] !in l[1..]
  {
  }

  /** If nothing is started twice, no entry has two children. */
  lemma {:induction false} LiveDistinct(log: seq<Event>)
    requires forall f: nat :: StartCount(log, f) <= 1
    ensures Distinct(Live(log)) && forall f :: f in Live(log) ==> StartedIn(log, f)
  {
    hide StartedIn, OverIn, StartCount, AllCodes;
    if log != [] {
      var front, e := log[..|log| - 1], log[|log| - 1];
      assert log == front + [e];
      forall f: nat ensures StartCount(front, f) <= 1 {
        LogNext(front, e, f);
      }
      LiveDistinct(front);
      LogNext(front, e, e.fs);
      CountedOnce(front, e.fs);
      WithoutFewer(Live(front), e.fs, e.fs);
      forall f | f in Live(log) ensures StartedIn(log, f) {
        LogNext(front, e, f);
        WithoutFewer(Live(front), e.fs, f);
      }
    }
  }

  // ---------- which checks may run together ----------

  /** Two children are on known, different disks, neither of them a md device. */
  predicate Compatible(a: Instance, b: Instance)
  {
    a.base.Some? && b.base.Some? && a.base != b.base && !IsMd(a.device) && !IsMd(b.device)
  }

  /** The same for two devices. */
  predicate Apart(a: string, b: string)
  {
    BaseDevice(a).Some? && BaseDevice(b).Some? && BaseDevice(a) != BaseDevice(b) && !IsMd(a) && !IsMd(b)
  }

  ghost predicate Exclusive(list: seq<Instance>)
  {
    && (forall i :: 0 <= i < |list| ==> list[i].base == BaseDevice(list[i].device))
    && (forall i, j :: 0 <= i < j < |list| ==> Compatible(list[i], list[j]))
  }

  /** What device_already_active answers without force_all_parallel. It looks for md
      devices at the head of the list only. */
  predicate Active(list: seq<Instance>, device: string)
  {
    if list != [] && (IsMd(list[0].device) || IsMd(device)) then true
    else
      match BaseDevice(device)
      case None => list != []
      case Some(base) => exists i :: 0 <= i < |list| && (list[i].base.None? || list[i].base.value == base)
  }

  /** That is enough: a md device is always alone on the list, so that it is the head. */
  lemma ExclusiveAdd(list: seq<Instance>, inst: Instance)
    requires Exclusive(list) && inst.base == BaseDevice(inst.device) && !Active(list, inst.device)
    ensures Exclusive([inst] + list)
  {
    hide BaseDevice, IsMd;
    var l := [inst] + list;
    forall j | 0 <= j < |list| ensures Compatible(inst, list[j]) {
      if j > 0 {
        assert Compatible(list[0], list[j]);
      }
    }
    forall i, j | 0 <= i < j < |l| ensures Compatible(l[i], l[j]) {
      assert l[j] == list[j - 1];
      if i > 0 {
        assert l[i] == list[i - 1];
        assert Compatible(list[i - 1], list[j - 1]);
      }
    }
  }

  /** And no more than is needed: a device that is turned away would have shared its
      disk, known or not, with a running check, or one of the two is a md device. */
  lemma ActiveForAReason(list: seq<Instance>, device: string)
    requires Exclusive(list) && Active(list, device)
    ensures exists i :: 0 <= i < |list| &&
              (list[i].base.None? || BaseDevice(device).None? || list[i].base == BaseDevice(device)
               || IsMd(list[i].device) || IsMd(device))
  {
    if IsMd(list[0].device) || IsMd(device) || BaseDevice(device).None? {
      assert 0 <= 0 < |list|;
    } else {
      var i :| 0 <= i < |list| && (list[i].base.None? || list[i].base.value == BaseDevice(device).value);
    }
  }

  /** By the names of the devices: a device has to wait exactly if it may share a disk with one
      that is being checked. */
  lemma ActiveIs(list: seq<Instance>, device: string)
    requires Exclusive(list)
    ensures Active(list, device) <==> exists i :: 0 <= i < |list| && MayShare(list[i].device, device)
  {
    hide BaseDevice, MayShare, IsMd;
    forall i | 0 <= i < |list|
      ensures list[i].base == BaseDevice(list[i].device)
      ensures Apart(list[i].device, device) <==> !MayShare(list[i].device, device)
    {
      ApartIs(list[i].device, device);
    }
    if Active(list, device) {
      ActiveForAReason(list, device);
    } else {
      var inst := Instance(0, 0, device, BaseDevice(device));
      ExclusiveAdd(list, inst);
      forall i | 0 <= i < |list| ensures Apart(list[i].device, device) {
        assert ([inst] + list)[i + 1] == list[i];
        assert Compatible(([inst] + list)[0], ([inst] + list)[i + 1]);
      }
    }
  }

  /** A child more keeps no device from waiting. */
  lemma ActiveStays(list: seq<Instance>, inst: Instance, device: string)
    requires Active(list, device) && Exclusive([inst] + list)
    ensures Active([inst] + list, device)
  {
    var l := [inst] + list;
    assert l[0] == inst && l[1] == list[0];
    assert Compatible(l[0], l[1]);
    if BaseDevice(device).Some? && !IsMd(device) {
      var i :| 0 <= i < |list| && (list[i].base.None? || list[i].base.value == BaseDevice(device).value);
      assert l[i + 1] == list[i];
    }
  }

  lemma ExclusiveRemove(list: seq<Instance>, k: nat)
    requires Exclusive(list) && k < |list|
    ensures Exclusive(list[..k] + list[k + 1..])
  {
    var l := list[..k] + list[k + 1..];
    forall i, j | 0 <= i < j < |l| ensures Compatible(l[i], l[j]) {
      assert Compatible(list[if i < k then i else i + 1], list[if j < k then j else j + 1]);
    }
  }
}
