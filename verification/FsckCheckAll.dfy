/** check_all of fsck.c and what it is made of: wait_one, wait_many, execute,
    fsck_device and device_already_active. No signal arrives. */
module FsckCheckAll {
  import opened Options
  import opened FsckDevices
  import opened FsckRuns

  const EXIT_OK: ExitCode := 0
  const EXIT_NONDESTRUCT: ExitCode := 1
  const EXIT_UNCORRECTED: ExitCode := 4
  const EXIT_ERROR: ExitCode := 8
  const SIGINT: int := 2

  /** How a child ends. */
  datatype Death = Exited(code: ExitCode) | Signaled(sig: int) | Otherwise

  function CodeOf(d: Death): (code: ExitCode)
    ensures d.Exited? ==> code == d.code
    ensures d.Signaled? ==> code == if d.sig == 2 then 4 else 8
    ensures d.Otherwise? ==> code == 8
  {
    match d
    case Exited(code) => code
    case Signaled(sig) => if sig != SIGINT then EXIT_ERROR else EXIT_UNCORRECTED
    case Otherwise => EXIT_ERROR
  }

  function Undone(done: seq<bool>): nat
  {
    if done == [] then 0 else Undone(done[..|done| - 1]) + (if done[|done| - 1] then 0 else 1)
  }

  lemma {:induction false} UndoneSet(done: seq<bool>, f: nat)
    requires f < |done| && !done[f]
    ensures Undone(done[f := true]) == Undone(done) - 1
    decreases |done|
  {
    var n := |done| - 1;
    if f < n {
      UndoneSet(done[..n], f);
      assert done[f := true][..n] == done[..n][f := true];
    } else {
      assert done[f := true][..n] == done[..n];
    }
  }

  ghost predicate LiveIn(list: seq<Instance>, f: nat)
  {
    exists i :: 0 <= i < |list| && list[i].fs == f
  }

  lemma LiveRemoved(list: seq<Instance>, k: nat, f: nat)
    requires k < |list|
    ensures LiveIn(list, f) ==> list[k].fs == f || LiveIn(list[..k] + list[k + 1..], f)
    ensures LiveIn(list[..k] + list[k + 1..], f) ==> LiveIn(list, f)
  {
    var l := list[..k] + list[k + 1..];
    if LiveIn(list, f) && list[k].fs != f {
      var i :| 0 <= i < |list| && list[i].fs == f;
      assert l[if i < k then i else i - 1] == list[i];
    }
    if LiveIn(l, f) {
      var i :| 0 <= i < |l| && l[i].fs == f;
      assert l[i] == list[if i < k then i else i + 1];
    }
  }

  lemma LiveAdded(list: seq<Instance>, inst: Instance, f: nat)
    ensures LiveIn([inst] + list, f) <==> inst.fs == f || LiveIn(list, f)
  {
    var l := [inst] + list;
    if inst.fs == f {
      assert l[0].fs == f;
    }
    if LiveIn(list, f) {
      var i :| 0 <= i < |list| && list[i].fs == f;
      assert l[i + 1] == list[i];
    }
    if LiveIn(l, f) && inst.fs != f {
      var i :| 0 <= i < |l| && l[i].fs == f;
      assert l[i] == list[i - 1];
    }
  }

  /** The event starts a check of a higher pass than that of g, which is to be checked. */
  predicate LaterThan(e: Event, g: nat, table: seq<FsInfo>, skipRoot: bool)
    requires g < |table|
  {
    e.Started? && e.fs < |table| && Wanted(table[g], skipRoot) && table[g].passno < table[e.fs].passno
  }

  /** No check starts before all those of lower passes are over, the first exempt
      events aside. */
  ghost predicate InOrder(log: seq<Event>, table: seq<FsInfo>, skipRoot: bool, exempt: nat)
  {
    forall i, g :: exempt <= i < |log| && 0 <= g < |table| && LaterThan(log[i], g, table, skipRoot) ==> OverIn(log[..i], g)
  }

  /** Some children have been reaped. */
  ghost predicate Reaped(l: seq<Event>, l': seq<Event>)
  {
    l <= l' && forall i :: |l| <= i < |l'| ==> l'[i].Finished?
  }

  /** What has come since then is the OR of these codes. */
  ghost predicate CodesSince(l: seq<Event>, l': seq<Event>, status: ExitCode)
  {
    AllCodes(l') == AllCodes(l) | status
  }

  lemma CodesNext(l0: seq<Event>, l: seq<Event>, l': seq<Event>, status: ExitCode, code: ExitCode)
    requires CodesSince(l0, l, status) && |l'| == |l| + 1 && l' == l + [l'[|l|]] && l'[|l|].Finished? && l'[|l|].code == code
    ensures CodesSince(l0, l', status | code)
  {
    hide StartedIn, OverIn, StartCount, AllCodes;
    LogNext(l, l'[|l|], 0);
  }

  lemma CodesFrom(l0: seq<Event>, l: seq<Event>, l': seq<Event>, status: ExitCode)
    requires AllCodes(l) == AllCodes(l0) && CodesSince(l, l', status)
    ensures CodesSince(l0, l', status)
  {
  }

  lemma ReapedNone(l: seq<Event>)
    ensures Reaped(l, l) && CodesSince(l, l, 0)
  {
  }

  lemma ReapedNext(l0: seq<Event>, l: seq<Event>, l': seq<Event>)
    requires Reaped(l0, l) && |l'| == |l| + 1 && l' == l + [l'[|l|]] && l'[|l|].Finished?
    ensures Reaped(l0, l')
  {
  }

  lemma ReapedFacts(l: seq<Event>, l': seq<Event>, f: nat)
    requires Reaped(l, l')
    ensures StartedIn(l', f) <==> StartedIn(l, f)
    ensures OverIn(l, f) ==> OverIn(l', f)
  {
    hide OverIn;
    if i :| 0 <= i < |l| && l[i].Started? && l[i].fs == f {
      assert l'[i] == l[i];
    }
    if OverIn(l, f) {
      StaysOver(l, l', f);
    }
  }

  lemma ReapedAll(l: seq<Event>, l': seq<Event>)
    requires Reaped(l, l')
    ensures forall f: nat :: (StartedIn(l', f) <==> StartedIn(l, f)) && (OverIn(l, f) ==> OverIn(l', f))
  {
    hide StartedIn, OverIn;
    forall f: nat ensures (StartedIn(l', f) <==> StartedIn(l, f)) && (OverIn(l, f) ==> OverIn(l', f)) {
      ReapedFacts(l, l', f);
    }
  }

  /** To be checked in this run. */
  predicate Wanted(fs: FsInfo, skipRoot: bool)
  {
    !Ignored(fs) && !(skipRoot && IsRoot(fs))
  }

  /** The same by the rules of fstab: pass 0, types that are not asked for, file systems without
      a device of their own, and the root, if it is to be skipped, are not checked. */
  predicate ToCheck(fs: FsInfo, skipRoot: bool)
  {
    && fs.passno != 0 && fs.matches && !(skipRoot && fs.mountpt == "/")
    && fs.fstype != "ignore" && fs.fstype != "iso9660" && fs.fstype != "nfs" && fs.fstype != "proc"
    && fs.fstype != "sw" && fs.fstype != "swap" && fs.fstype != "tmpfs" && fs.fstype != "devpts"
  }

  lemma WantedIs(fs: FsInfo, skipRoot: bool)
    ensures Wanted(fs, skipRoot) <==> ToCheck(fs, skipRoot)
  {
  }

  lemma InOrderNext(log: seq<Event>, e: Event, table: seq<FsInfo>, skipRoot: bool, exempt: nat)
    requires InOrder(log, table, skipRoot, exempt)
    requires exempt <= |log| ==> forall g :: 0 <= g < |table| && LaterThan(e, g, table, skipRoot) ==> OverIn(log, g)
    ensures InOrder(log + [e], table, skipRoot, exempt)
  {
    var l := log + [e];
    forall i, g | exempt <= i < |l| && 0 <= g < |table| && LaterThan(l[i], g, table, skipRoot)
      ensures OverIn(l[..i], g)
    {
      if i < |log| {
        assert l[..i] == log[..i] && l[i] == log[i];
      } else {
        assert l[..i] == log;
      }
    }
  }

  /** The log of a run so far, with the children now running. */
  ghost predicate LogOk(log: seq<Event>, list: seq<Instance>, table: seq<FsInfo>, skipRoot: bool, exempt: nat)
  {
    && (forall i :: 0 <= i < |log| ==> log[i].fs < |table|)
    && (forall i :: 0 <= i < |list| ==> list[i].fs < |table|)
    && (forall f: nat :: StartedIn(log, f) ==> OverIn(log, f) || LiveIn(list, f))
    && (forall f: nat :: StartCount(log, f) <= 1)
    && (forall f: nat :: StartedIn(log, f) ==> f < |table| && Wanted(table[f], skipRoot))
    && InOrder(log, table, skipRoot, exempt)
  }

  lemma LogFinish(log: seq<Event>, list: seq<Instance>, k: nat, code: ExitCode, table: seq<FsInfo>, skipRoot: bool, exempt: nat)
    requires LogOk(log, list, table, skipRoot, exempt) && k < |list|
    ensures LogOk(log + [Finished(list[k].fs, code)], list[..k] + list[k + 1..], table, skipRoot, exempt)
  {
    hide StartedIn, OverIn, LiveIn, StartCount, InOrder, AllCodes;
    var e := Finished(list[k].fs, code);
    var log', list' := log + [e], list[..k] + list[k + 1..];
    forall f: nat
      ensures StartedIn(log', f) ==> OverIn(log', f) || LiveIn(list', f)
      ensures StartCount(log', f) <= 1
      ensures StartedIn(log', f) ==> StartedIn(log, f)
    {
      LogNext(log, e, f);
      LiveRemoved(list, k, f);
    }
    InOrderNext(log, e, table, skipRoot, exempt);
  }

  lemma LogStart(log: seq<Event>, list: seq<Instance>, e: Event, list': seq<Instance>, table: seq<FsInfo>, skipRoot: bool, exempt: nat)
    requires LogOk(log, list, table, skipRoot, exempt)
    requires e.Started? && e.fs < |table| && Wanted(table[e.fs], skipRoot) && !StartedIn(log, e.fs)
    requires if e.child then list' != [] && list' == [list'[0]] + list && list'[0].fs == e.fs else list' == list
    requires exempt <= |log| ==> forall g :: 0 <= g < |table| && LaterThan(e, g, table, skipRoot) ==> OverIn(log, g)
    ensures LogOk(log + [e], list', table, skipRoot, exempt)
  {
    hide StartedIn, OverIn, LiveIn, StartCount, InOrder, AllCodes, Wanted;
    var log' := log + [e];
    forall f: nat
      ensures StartedIn(log', f) ==> OverIn(log', f) || LiveIn(list', f)
      ensures StartCount(log', f) <= 1
      ensures StartedIn(log', f) ==> StartedIn(log, f) || f == e.fs
    {
      LogNext(log, e, f);
      CountedOnce(log, f);
      if e.child {
        LiveAdded(list, list'[0], f);
      }
    }
    InOrderNext(log, e, table, skipRoot, exempt);
  }

  /** The entries of a list of children. */
  function EntriesOf(list: seq<Instance>): (l: seq<nat>)
    ensures |l| == |list| && forall i :: 0 <= i < |l| ==> l[i] == list[i].fs
  {
    seq(|list|, i requires 0 <= i < |list| => list[i].fs)
  }

  lemma EntriesAdded(list: seq<Instance>, inst: Instance)
    ensures EntriesOf([inst] + list) == [inst.fs] + EntriesOf(list)
  {
  }

  /** Reaping a child takes its entry off, as no entry has two. */
  lemma ReapedEntry(log: seq<Event>, list: seq<Instance>, k: nat, code: ExitCode, table: seq<FsInfo>, skipRoot: bool, exempt: nat)
    requires LogOk(log, list, table, skipRoot, exempt) && EntriesOf(list) == Live(log) && k < |list|
    ensures EntriesOf(list[..k] + list[k + 1..]) == Live(log + [Finished(list[k].fs, code)])
  {
    hide Live, Without, StartCount, StartedIn, OverIn, InOrder, LiveIn;
    LiveDistinct(log);
    WithoutAt(Live(log), k);
    LiveNext(log, Finished(list[k].fs, code));
  }

  class Checker {
    const table: seq<FsInfo>
    const serialize: bool
    const skipRoot: bool
    const parallelRoot: bool
    const forceAllParallel: bool
    const noexecute: bool
    const maxRunning: int
    var done: seq<bool>              // FLAG_DONE
    var instances: seq<Instance>     // instance_list, the newest first
    var numRunning: nat
    ghost var log: seq<Event>
    ghost var exempt: nat            // 1 if the log starts with the root check

    constructor (entries: seq<FsInfo>, serial: bool, noRoot: bool, rootInParallel: bool, forced: bool, pretend: bool, max: int)
      ensures table == entries && serialize == serial && skipRoot == noRoot && parallelRoot == rootInParallel
      ensures forceAllParallel == forced && noexecute == pretend && maxRunning == max
      ensures |done| == |table| && (forall f :: 0 <= f < |done| ==> !done[f])
      ensures instances == [] && numRunning == 0 && log == [] && exempt == 0
    {
      table := entries;
      serialize, skipRoot, parallelRoot := serial, noRoot, rootInParallel;
      forceAllParallel, noexecute, maxRunning := forced, pretend, max;
      done := seq(|entries|, _ => false);
      instances := [];
      numRunning := 0;
      log := [];
      exempt := 0;
    }

    /** Only one check at a time; a negative limit has the same effect. */
    predicate OneAtATime()
    {
      serialize || maxRunning < 0
    }

    /** The limits on children running at the same time. */
    ghost predicate Limited(running: nat)
    {
      (OneAtATime() ==> running <= 1) && (maxRunning > 0 ==> running <= maxRunning)
    }

    /** The children of a list may run at the same time. */
    ghost predicate Together(list: seq<Instance>)
    {
      && Limited(|list|)
      && (forall i :: 0 <= i < |list| ==> list[i].fs < |table| && list[i].device == table[list[i].fs].device)
      && (!forceAllParallel ==> Exclusive(list))
    }

    /** The same said of entries: never too many, and any two on known, different disks,
        neither of which is a md device. */
    ghost predicate MayRun(live: seq<nat>)
    {
      && Limited(|live|) && (forall i :: 0 <= i < |live| ==> live[i] < |table|)
      && (!forceAllParallel ==> forall i, j :: 0 <= i < j < |live| ==> Apart(table[live[i]].device, table[live[j]].device))
    }

    /** The list has the children that the log says are running, and whenever an event
        came, those running might. */
    ghost predicate Lived(log: seq<Event>, list: seq<Instance>)
    {
      Together(list) && EntriesOf(list) == Live(log) && forall i :: 0 <= i <= |log| ==> MayRun(Live(log[..i]))
    }

    lemma TogetherMayRun(list: seq<Instance>)
      requires Together(list)
      ensures MayRun(EntriesOf(list))
    {
      var live := EntriesOf(list);
      if !forceAllParallel {
        forall i, j | 0 <= i < j < |live| ensures Apart(table[live[i]].device, table[live[j]].device) {
          assert Compatible(list[i], list[j]);
        }
      }
    }

    lemma LivedNext(log: seq<Event>, list: seq<Instance>, e: Event, next: seq<Instance>)
      requires Lived(log, list) && Together(next) && EntriesOf(next) == Live(log + [e])
      ensures Lived(log + [e], next)
    {
      hide Together, MayRun, Live;
      TogetherMayRun(next);
      var l := log + [e];
      forall i | 0 <= i <= |l| ensures MayRun(Live(l[..i])) {
        if i <= |log| {
          assert l[..i] == log[..i];
        } else {
          assert l[..i] == l;
        }
      }
    }

    lemma LivedLast(log: seq<Event>, list: seq<Instance>)
      requires Lived(log, list)
      ensures Together(list) && Limited(|list|) && EntriesOf(list) == Live(log)
    {
    }

    lemma TogetherWithout(list: seq<Instance>, k: nat)
      requires Together(list) && k < |list|
      ensures Together(list[..k] + list[k + 1..])
    {
      if !forceAllParallel {
        ExclusiveRemove(list, k);
      }
    }

    lemma TogetherWith(list: seq<Instance>, inst: Instance)
      requires Together(list) && Limited(|list| + 1) && inst.fs < |table| && inst.device == table[inst.fs].device
      requires inst.base == BaseDevice(inst.device) && (!forceAllParallel ==> !Active(list, inst.device))
      ensures Together([inst] + list)
    {
      if !forceAllParallel {
        ExclusiveAdd(list, inst);
      }
    }

    /** The children are counted, and besides them the checks that never had one; all of the
        children could run together. */
    ghost predicate ChildrenOk()
      reads this
    {
      |instances| + Childless(log) == numRunning == Counted(log) && Lived(log, instances)
    }

    /** No two of these may be on one disk. */
    ghost predicate OnTheirOwn(live: seq<nat>)
    {
      forall i, j :: 0 <= i < j < |live| && live[i] < |table| && live[j] < |table| ==>
        !MayShare(table[live[i]].device, table[live[j]].device)
    }

    lemma OwnDisks(live: seq<nat>)
      requires MayRun(live) && !forceAllParallel
      ensures OnTheirOwn(live)
    {
      hide MayShare, BaseDevice;
      forall i, j | 0 <= i < j < |live| ensures !MayShare(table[live[i]].device, table[live[j]].device) {
        ApartIs(table[live[i]].device, table[live[j]].device);
      }
    }

    /** What holds whenever a child is started or reaped. */
    ghost predicate Valid()
      reads this
    {
      |done| == |table| && ChildrenOk() && LogOk(log, instances, table, skipRoot, exempt)
    }

    /** The kth child has left the list, and its exit code is in the log. */
    ghost predicate Ended(list: seq<Instance>, k: nat, code: ExitCode, log: seq<Event>, list': seq<Instance>, log': seq<Event>)
    {
      k < |list| && list' == list[..k] + list[k + 1..] && log' == log + [Finished(list[k].fs, code)]
    }

    /** Any one of the children may be the next to end: it leaves the list, and its exit code
        is in the log. Without blocking there may be none. */
    method WaitOne(block: bool) returns (r: Option<ExitCode>)
      requires Valid()
      modifies this`instances, this`numRunning, this`log
      ensures Valid()
      ensures r.None? ==> instances == old(instances) && numRunning == old(numRunning) && log == old(log)
      ensures block && old(instances) != [] ==> r.Some?
      ensures r.Some? ==> exists k: nat :: Ended(old(instances), k, r.value, old(log), instances, log)
      ensures r.Some? ==> |log| == |old(log)| + 1 && log == old(log) + [log[|old(log)|]] && log[|old(log)|].Finished?
      ensures r.Some? ==> log[|old(log)|].code == r.value
      ensures r.Some? ==> |instances| == |old(instances)| - 1 && numRunning == old(numRunning) - 1
    {
      hide LogOk, Exclusive, Together, Lived, Counted, Childless, EntriesOf, Live, StartedIn, OverIn, MayRun;
      if instances == [] {
        return None;
      }
      var nobody: bool := *;
      if !block && nobody {
        return None;
      }
      var k: int := *;
      if k < 0 || k >= |instances| {
        k := 0;
      }
      var death: Death := *;
      var inst := instances[k];
      ghost var list, l := instances, log;
      LogFinish(log, instances, k, CodeOf(death), table, skipRoot, exempt);
      LivedLast(log, instances);
      TogetherWithout(instances, k);
      ReapedEntry(log, instances, k, CodeOf(death), table, skipRoot, exempt);
      LivedNext(log, instances, Finished(inst.fs, CodeOf(death)), instances[..k] + instances[k + 1..]);
      CountedNext(log, Finished(inst.fs, CodeOf(death)));
      instances := instances[..k] + instances[k + 1..];
      numRunning := numRunning - 1;
      log := log + [Finished(inst.fs, CodeOf(death))];
      assert Ended(list, k, CodeOf(death), l, instances, log);
      return Some(CodeOf(death));
    }

    /** Wait until all children have exited, or for one and those that have exited by
        then; return the OR of their exit codes. */
    method WaitMany(all: bool) returns (status: ExitCode)
      requires Valid()
      modifies this`instances, this`numRunning, this`log
      ensures Valid() && numRunning - |instances| == old(numRunning) - |old(instances)|
      ensures all ==> instances == []
      ensures |instances| <= |old(instances)| && (old(instances) != [] ==> |instances| < |old(instances)|)
      ensures CodesSince(old(log), log, status)
      ensures |log| - |old(log)| == |old(instances)| - |instances| && Reaped(old(log), log)
    {
      hide LogOk, Lived, StartedIn, OverIn, AllCodes, Together, Counted, Childless, Reaped, CodesSince;
      status := 0;
      ReapedNone(log);
      var block := true;
      while true
        invariant Valid() && numRunning - |instances| == old(numRunning) - |old(instances)|
        invariant |instances| <= |old(instances)| && (|instances| < |old(instances)| || block) && (all ==> block)
        invariant CodesSince(old(log), log, status)
        invariant |log| - |old(log)| == |old(instances)| - |instances| && Reaped(old(log), log)
        decreases |instances|
      {
        ghost var l := log;
        var r := WaitOne(block);
        if r.None? {
          break;
        }
        ReapedNext(old(log), l, log);
        CodesNext(old(log), l, log, status, r.value);
        status := status | r.value;
        block := block && all;
      }
    }

    /** spawn: the process id of a new child, or -1. */
    method Spawn() returns (pid: int)
      ensures pid == -1 || (pid > 0 && forall i :: 0 <= i < |instances| ==> instances[i].pid != pid)
    {
      pid := *;
      if pid <= 0 || exists i :: 0 <= i < |instances| && instances[i].pid == pid {
        pid := -1;
      }
    }

    /** Unless nothing is to be executed or no process can be had, there is one more child,
        at the head of the list. */
    method Execute(f: nat) returns (child: bool)
      requires f < |table|
      modifies this`instances
      ensures child ==> instances != [] && instances == [instances[0]] + old(instances)
      ensures child ==> instances[0].fs == f && instances[0].device == table[f].device && instances[0].base == BaseDevice(table[f].device)
      ensures !child ==> instances == old(instances)
      ensures noexecute ==> !child
    {
      var pid := -1;
      if !noexecute {
        pid := Spawn();
      }
      if pid <= 0 {
        return false;
      }
      instances := [Instance(pid, f, table[f].device, BaseDevice(table[f].device))] + instances;
      return true;
    }

    /** A check is started and logged. It is counted even if it has no child. */
    method FsckDevice(f: nat)
      requires Valid() && f < |table| && Wanted(table[f], skipRoot) && !StartedIn(log, f)
      requires Limited(|instances| + 1) && (!forceAllParallel ==> !Active(instances, table[f].device))
      requires exempt <= |log| ==> forall g :: 0 <= g < |table| && LaterThan(Started(f, true), g, table, skipRoot) ==> OverIn(log, g)
      modifies this`instances, this`numRunning, this`log
      ensures Valid() && numRunning == old(numRunning) + 1
      ensures |old(instances)| <= |instances| <= |old(instances)| + 1
      ensures log == old(log) + [Started(f, |instances| > |old(instances)|)]
      ensures !forceAllParallel ==> forall d :: Active(old(instances), d) ==> Active(instances, d)
    {
      hide LogOk, Lived, Together, StartedIn, OverIn, Active, Wanted;
      LivedLast(log, instances);
      numRunning := numRunning + 1;
      var child := Execute(f);
      ghost var l := log;
      log := log + [Started(f, child)];
      LiveNext(l, Started(f, child));
      CountedNext(l, Started(f, child));
      if child {
        TogetherWith(old(instances), instances[0]);
        EntriesAdded(old(instances), instances[0]);
        StillActive(old(instances), instances[0]);
      }
      LivedNext(l, old(instances), Started(f, child), instances);
      LogStart(old(log), old(instances), Started(f, child), instances, table, skipRoot, exempt);
    }

    lemma StillActive(list: seq<Instance>, inst: Instance)
      requires Together([inst] + list)
      ensures !forceAllParallel ==> forall d :: Active(list, d) ==> Active([inst] + list, d)
    {
      hide Active, Exclusive;
      if !forceAllParallel {
        forall d | Active(list, d) ensures Active([inst] + list, d) {
          ActiveStays(list, inst, d);
        }
      }
    }

    /** Whether a child runs that this device must wait for. */
    method DeviceAlreadyActive(device: string) returns (r: bool)
      ensures r == (!forceAllParallel && Active(instances, device))
      ensures !forceAllParallel && Exclusive(instances) ==>
                (r <==> exists i :: 0 <= i < |instances| && MayShare(instances[i].device, device))
    {
      hide MayShare;
      if Exclusive(instances) {
        ActiveIs(instances, device);
      }
      if forceAllParallel {
        return false;
      }
      if instances != [] && (IsMd(instances[0].device) || IsMd(device)) {
        return true;
      }
      var base := BaseDevice(device);
      if base.None? {
        return instances != [];
      }
      var i := 0;
      while i < |instances|
        invariant 0 <= i <= |instances|
        invariant forall j :: 0 <= j < i ==> instances[j].base.Some? && instances[j].base.value != base.value
      {
        if instances[i].base.None? || base.value == instances[i].base.value {
          return true;
        }
        i := i + 1;
      }
      return false;
    }

    // ---------- check_all ----------

    /** FLAG_DONE is set where no check is wanted or one has been started. */
    ghost predicate Marked()
      reads this
    {
      |done| == |table| && forall f :: 0 <= f < |done| ==> (done[f] <==> !Wanted(table[f], skipRoot) || StartedIn(log, f))
    }

    /** All checks of passes below this one are over. */
    ghost predicate OverBelow(pass: nat)
      reads this
    {
      forall g :: 0 <= g < |table| && Wanted(table[g], skipRoot) && table[g].passno < pass ==> OverIn(log, g)
    }

    /** No check is wanted for what is ignored. */
    method MarkIgnored()
      requires |done| == |table| && forall f :: 0 <= f < |done| ==> !done[f]
      modifies this`done
      ensures |done| == |table| && forall f :: 0 <= f < |done| ==> (done[f] <==> Ignored(table[f]))
    {
      var f := 0;
      while f < |table|
        invariant 0 <= f <= |table| == |done|
        invariant forall g :: 0 <= g < f ==> (done[g] <==> Ignored(table[g]))
        invariant forall g :: f <= g < |table| ==> !done[g]
      {
        if Ignored(table[f]) {
          done := done[f := true];
        }
        f := f + 1;
      }
    }

    /** The log is empty, or holds nothing but the check of a root filesystem. */
    ghost predicate RootOnly()
      reads this
    {
      && (exempt == 0 ==> log == [])
      && (exempt == 1 ==> log != [] && log[0].Started? && log[0].fs < |table| && IsRoot(table[log[0].fs]) && !parallelRoot
                          && !skipRoot && forall f: nat :: StartedIn(log, f) ==> f == log[0].fs)
      && exempt <= 1
    }

    /** No other check has been started before that of the root filesystem was over. */
    ghost predicate RootFirst(l: seq<Event>)
    {
      l != [] && forall i :: 0 < i < |l| && l[i].Started? ==> OverIn(l[..i], l[0].fs)
    }

    /** The only check of root filesystems starts first. */
    lemma RootAlone(l: seq<Event>)
      requires l != [] && l[0].Started? && (forall g: nat :: StartedIn(l, g) ==> g == l[0].fs) && StartCount(l, l[0].fs) <= 1
      ensures forall i :: 0 < i < |l| ==> l[i].Finished?
    {
      forall i | 0 < i < |l| && l[i].Started? ensures false {
        assert StartedIn(l, l[i].fs);
        StartsTwice(l, i);
      }
    }

    lemma RootStaysFirst(l: seq<Event>, l': seq<Event>)
      requires l != [] && (forall i :: 0 < i < |l| ==> l[i].Finished?) && OverIn(l, l[0].fs) && l <= l'
      ensures RootFirst(l')
    {
      forall i | 0 < i < |l'| && l'[i].Started? ensures OverIn(l'[..i], l'[0].fs) {
        assert i >= |l|;
        StaysOver(l, l'[..i], l[0].fs);
      }
    }

    /** Entry f is the first root filesystem, and is to be checked before all others. */
    ghost predicate RootToCheck(f: nat)
    {
      && !parallelRoot && !skipRoot && f < |table| && IsRoot(table[f]) && !Ignored(table[f])
      && forall g :: 0 <= g < f ==> !IsRoot(table[g])
    }

    /** The root filesystem is checked before all others and alone, unless it may run in
        parallel; more than corrected errors stop the run. */
    method CheckRoot() returns (status: ExitCode, stop: bool)
      requires Valid() && log == [] && instances == [] && exempt == 0 && numRunning == 0
      requires forall f :: 0 <= f < |done| ==> (done[f] <==> Ignored(table[f]))
      modifies this
      ensures Valid() && instances == [] && RootOnly() && status == AllCodes(log) && Greedy(log)
      ensures forall f: nat :: RootToCheck(f) ==> exempt == 1 && log[0].fs == f
      ensures exempt == 1 ==> OverIn(log, log[0].fs) && forall i :: 0 < i < |log| ==> log[i].Finished?
      ensures stop <==> status > 1
      ensures !stop ==> forall f :: 0 <= f < |table| ==>
                (done[f] ==> Ignored(table[f]) || (skipRoot && IsRoot(table[f])) || StartedIn(log, f))
                && (Ignored(table[f]) || StartedIn(log, f) ==> done[f])
    {
      hide Exclusive, OverIn, Active, LogOk, Busy;
      status, stop := EXIT_OK, false;
      NothingYet();
      if parallelRoot {
        return;
      }
      var f := 0;
      while f < |table|
        invariant 0 <= f <= |table| && forall g :: 0 <= g < f ==> !IsRoot(table[g])
        invariant log == [] && instances == [] && exempt == 0 && status == 0 && !stop && done == old(done) && Valid()
        invariant numRunning == 0
      {
        if IsRoot(table[f]) {
          if !skipRoot && !Ignored(table[f]) {
            status := CheckAlone(f);
            if status > EXIT_NONDESTRUCT {
              stop := true;
              return;
            }
          }
          done := done[f := true];
          break;
        }
        f := f + 1;
      }
    }

    lemma NothingYet()
      ensures AllCodes([]) == 0 && forall f: nat :: !StartedIn([], f)
    {
    }

    /** The check of the root filesystem, before all others. */
    method CheckAlone(f: nat) returns (status: ExitCode)
      requires Valid() && log == [] && instances == [] && exempt == 0 && numRunning == 0
      requires f < |table| && IsRoot(table[f]) && !parallelRoot && !skipRoot && !Ignored(table[f])
      modifies this`instances, this`numRunning, this`log, this`exempt
      ensures Valid() && instances == [] && RootOnly() && exempt == 1 && status == AllCodes(log)
      ensures log != [] && log[0].fs == f && OverIn(log, f) && (forall i :: 0 < i < |log| ==> log[i].Finished?) && Greedy(log)
      ensures forall g: nat :: StartedIn(log, g) <==> g == f
    {
      hide Exclusive, OverIn, Active, LogOk, AllCodes, StartedIn, StartCount, Busy, Counted, Childless, InOrder;
      NothingYet();
      ExemptRoot(table, skipRoot);
      exempt := 1;
      NotActive(table[f].device);
      FsckDevice(f);
      ghost var started := log;
      forall g: nat ensures StartedIn(log, g) <==> g == f {
        LogNext([], log[0], g);
      }
      LogNext([], log[0], 0);
      status := WaitMany(true);
      ReapedAll(started, log);
      assert log[0] == started[0];
      LogFacts(log, instances, table, skipRoot, exempt);
      RootAlone(log);
      NoneLive(f);
      LogOver(log, instances, table, skipRoot, exempt, f);
    }

    lemma NotActive(device: string)
      ensures !Active([], device)
    {
    }

    /** "Skip root" skips all root entries. */
    method MarkRoots()
      requires |done| == |table|
      modifies this`done
      ensures |done| == |table|
      ensures forall f :: 0 <= f < |table| ==> (done[f] <==> old(done[f]) || IsRoot(table[f]))
    {
      ghost var before := done;
      var f := 0;
      while f < |table|
        invariant 0 <= f <= |table| == |done|
        invariant forall g :: 0 <= g < f ==> (done[g] <==> before[g] || IsRoot(table[g]))
        invariant forall g :: f <= g < |table| ==> done[g] == before[g]
      {
        if IsRoot(table[f]) {
          done := done[f := true];
        }
        f := f + 1;
      }
    }

    /** Spawn off a check and mark the entry. */
    method Launch(f: nat, ghost pass: nat)
      requires Valid() && Marked() && OverBelow(pass) && f < |table| && !done[f] && table[f].passno <= pass
      requires Limited(|instances| + 1) && (!forceAllParallel ==> !Active(instances, table[f].device))
      modifies this`done, this`instances, this`numRunning, this`log
      ensures Valid() && Marked() && OverBelow(pass) && done == old(done)[f := true]
      ensures numRunning == old(numRunning) + 1 && AllCodes(log) == old(AllCodes(log))
      ensures |log| == |old(log)| + 1 && old(log) < log && log[|old(log)|].Started? && log[|old(log)|].fs == f
      ensures !forceAllParallel ==> forall d :: Active(old(instances), d) ==> Active(instances, d)
    {
      hide LogOk, Exclusive, StartedIn, OverIn, Active, AllCodes;
      FsckDevice(f);
      ghost var l := old(log);
      forall g: nat ensures StartedIn(log, g) <==> StartedIn(l, g) || g == f {
        LogNext(l, log[|l|], g);
      }
      forall g: nat ensures OverIn(l, g) ==> OverIn(log, g) {
        LogNext(l, log[|l|], g);
      }
      LogNext(l, log[|l|], 0);
      done := done[f := true];
    }

    /** No more checks are to be started for now. */
    ghost predicate AtLimit(running: int)
    {
      serialize || (maxRunning != 0 && running >= maxRunning)
    }

    /** The device of entry f has to wait for some child. */
    ghost predicate Waiting(list: seq<Instance>, f: nat)
      requires f < |table|
    {
      !forceAllParallel && Active(list, table[f].device)
    }

    /** Of the first n entries, those of this pass that are not done have to wait. */
    ghost predicate Held(list: seq<Instance>, done: seq<bool>, n: nat, pass: nat)
      requires n <= |table| == |done|
    {
      forall g :: 0 <= g < n && !done[g] && table[g].passno <= pass ==> Waiting(list, g)
    }

    lemma HeldNext(list: seq<Instance>, done: seq<bool>, f: nat, pass: nat)
      requires f < |table| == |done| && Held(list, done, f, pass)
      ensures done[f] || table[f].passno > pass || Waiting(list, f) ==> Held(list, done, f + 1, pass)
    {
    }

    lemma HeldStill(list: seq<Instance>, done: seq<bool>, f: nat, pass: nat, list': seq<Instance>)
      requires f < |table| == |done| && Held(list, done, f, pass)
      requires !forceAllParallel ==> forall d :: Active(list, d) ==> Active(list', d)
      ensures Held(list', done[f := true], f + 1, pass)
    {
      hide Active;
    }

    /** Checks of this pass, or of earlier ones, have been started. */
    ghost predicate Spawned(l: seq<Event>, l': seq<Event>, pass: nat)
    {
      && l <= l'
      && forall i :: |l| <= i < |l'| ==> l'[i].Started? && l'[i].fs < |table| && table[l'[i].fs].passno <= pass
    }

    lemma SpawnedNext(l0: seq<Event>, l: seq<Event>, l': seq<Event>, pass: nat)
      requires Spawned(l0, l, pass) && |l'| == |l| + 1 && l < l' && l'[|l|].Started?
      requires l'[|l|].fs < |table| && table[l'[|l|].fs].passno <= pass
      ensures Spawned(l0, l', pass)
    {
    }

    lemma NoneHeld(list: seq<Instance>, done: seq<bool>, l: seq<Event>, pass: nat)
      requires |done| == |table|
      ensures Held(list, done, 0, pass) && Spawned(l, l, pass)
    {
    }

    /** One scan over the table: spawn what may run in this pass. What it leaves has to wait,
        unless it has stopped at the limit. */
    method Sweep(pass: nat) returns (notDoneYet: bool, passDone: bool)
      requires Valid() && Marked() && OverBelow(pass) && Limited(|instances| + 1)
      modifies this`done, this`instances, this`numRunning, this`log
      ensures Valid() && Marked() && OverBelow(pass) && old(log) <= log
      ensures AllCodes(log) == old(AllCodes(log)) && |done| == |old(done)|
      ensures passDone ==> forall f :: 0 <= f < |table| ==> done[f] || table[f].passno > pass
      ensures passDone && !notDoneYet ==> forall f :: 0 <= f < |table| ==> done[f]
      ensures notDoneYet ==> exists f :: 0 <= f < |table| && table[f].passno > pass
      ensures Undone(done) < Undone(old(done)) || (done == old(done) && instances == old(instances))
      ensures done == old(done) && !passDone ==> instances != []
      ensures log == old(log) ==> done == old(done) && instances == old(instances)
      ensures Spawned(old(log), log, pass)
      ensures Held(instances, done, |table|, pass) || (log != old(log) && AtLimit(numRunning))
    {
      hide LogOk, Lived, StartedIn, OverIn, Active, AllCodes, Undone, Held, Spawned, Counted, Childless, Scanned, Waiting, Marked, OverBelow;
      MarkedSize();
      notDoneYet, passDone := false, true;
      NoneHeld(instances, done, log, pass);
      ScannedNone(done, pass);
      var f := 0;
      while f < |table|
        invariant 0 <= f <= |table| && Valid() && Marked() && OverBelow(pass) && Limited(|instances| + 1)
        invariant old(log) <= log && AllCodes(log) == old(AllCodes(log)) && |done| == |old(done)|
        invariant Scanned(done, f, pass, passDone, notDoneYet)
        invariant Undone(done) < Undone(old(done)) || (done == old(done) && instances == old(instances))
        invariant done == old(done) && !passDone ==> instances != []
        invariant log == old(log) ==> done == old(done) && instances == old(instances)
        invariant Spawned(old(log), log, pass) && Held(instances, done, f, pass)
      {
        HeldNext(instances, done, f, pass);
        ScannedNext(done, f, pass, passDone, notDoneYet);
        if !done[f] {
          if table[f].passno > pass {
            notDoneYet := true;
          } else {
            var active := DeviceAlreadyActive(table[f].device);
            if active {
              ActiveSome(instances, table[f].device);
              assert Waiting(instances, f) by {
                WaitingIs(instances, f);
              }
              passDone := false;
            } else {
              UndoneSet(done, f);
              ghost var list, marked, l := instances, done, log;
              Launch(f, pass);
              ScannedStill(marked, f, pass, passDone, notDoneYet);
              HeldStill(list, marked, f, pass, instances);
              SpawnedNext(old(log), l, log, pass);
              if serialize || (maxRunning != 0 && numRunning >= maxRunning) {
                passDone := false;
                break;
              }
            }
          }
        }
        f := f + 1;
      }
      ScannedAll(done, f, pass, passDone, notDoneYet);
    }

    lemma MarkedSize()
      requires Marked()
      ensures |done| == |table|
    {
    }

    /** What a scan of the first n entries has found out. */
    ghost predicate Scanned(done: seq<bool>, n: nat, pass: nat, passDone: bool, notDoneYet: bool)
      requires n <= |table| == |done|
    {
      && (passDone ==> forall g :: 0 <= g < n ==> done[g] || table[g].passno > pass)
      && (passDone && !notDoneYet ==> forall g :: 0 <= g < n ==> done[g])
      && (notDoneYet ==> exists g :: 0 <= g < |table| && table[g].passno > pass)
    }

    lemma ScannedNone(done: seq<bool>, pass: nat)
      requires |table| == |done|
      ensures Scanned(done, 0, pass, true, false)
    {
    }

    lemma ScannedNext(done: seq<bool>, f: nat, pass: nat, passDone: bool, notDoneYet: bool)
      requires f < |table| == |done| && Scanned(done, f, pass, passDone, notDoneYet)
      ensures done[f] ==> Scanned(done, f + 1, pass, passDone, notDoneYet)
      ensures table[f].passno > pass ==> Scanned(done, f + 1, pass, passDone, true)
      ensures Scanned(done, f + 1, pass, false, notDoneYet)
    {
    }

    lemma ScannedStill(done: seq<bool>, f: nat, pass: nat, passDone: bool, notDoneYet: bool)
      requires f < |table| == |done| && Scanned(done, f, pass, passDone, notDoneYet)
      ensures Scanned(done[f := true], f + 1, pass, passDone, notDoneYet)
      ensures Scanned(done[f := true], f, pass, false, notDoneYet)
    {
    }

    lemma ScannedAll(done: seq<bool>, n: nat, pass: nat, passDone: bool, notDoneYet: bool)
      requires n <= |table| == |done| && Scanned(done, n, pass, passDone, notDoneYet) && (passDone ==> n == |table|)
      ensures passDone ==> forall f :: 0 <= f < |table| ==> done[f] || table[f].passno > pass
      ensures passDone && !notDoneYet ==> forall f :: 0 <= f < |table| ==> done[f]
      ensures notDoneYet ==> exists f :: 0 <= f < |table| && table[f].passno > pass
    {
    }

    lemma WaitingIs(list: seq<Instance>, f: nat)
      requires f < |table| && !forceAllParallel && Active(list, table[f].device)
      ensures Waiting(list, f)
    {
    }

    lemma ActiveSome(list: seq<Instance>, device: string)
      requires Active(list, device)
      ensures list != []
    {
    }

    /** When everything of a pass has been started and no child is left, it is over. */
    lemma PassOver(pass: nat)
      requires Valid() && Marked() && OverBelow(pass) && instances == []
      requires forall f :: 0 <= f < |table| ==> done[f] || table[f].passno > pass
      ensures OverBelow(pass + 1)
    {
      hide StartedIn, OverIn;
      forall g | 0 <= g < |table| && Wanted(table[g], skipRoot) && table[g].passno < pass + 1 ensures OverIn(log, g) {
        assert StartedIn(log, g);
        NoneLive(g);
      }
    }

    lemma NoneLive(f: nat)
      ensures !LiveIn([], f)
    {
    }

    /** After these events, the last of which is a start, all other checks of its pass have to
        wait: too many are running, or one is that they may not run beside. */
    ghost predicate Busy(l: seq<Event>)
      requires l != []
    {
      forall f :: 0 <= f < |table| && Due(l, f) ==>
        AtLimit(Counted(l)) || (!forceAllParallel && exists x :: x in Live(l) && x < |table| && MayShare(table[x].device, table[f].device))
    }

    /** Entry f is wanted, not started yet, and of the pass of the check started last, or an
        earlier one. */
    ghost predicate Due(l: seq<Event>, f: nat)
      requires l != [] && f < |table|
    {
      && Wanted(table[f], skipRoot) && !StartedIn(l, f)
      && l[|l| - 1].fs < |table| && table[f].passno <= table[l[|l| - 1].fs].passno
    }

    /** Whenever, behind the root check, some checks have been started and one ends, there was
        nothing more to start. */
    ghost predicate Greedy(log: seq<Event>)
      reads this`exempt
    {
      forall i :: exempt < i < |log| && log[i - 1].Started? && log[i].Finished? ==> Busy(log[..i])
    }

    lemma GreedyNext(l: seq<Event>, l': seq<Event>)
      requires Greedy(l) && Reaped(l, l')
      requires l != [] && l[|l| - 1].Started? && |l| < |l'| ==> Busy(l)
      ensures Greedy(l')
    {
      hide Busy;
      forall i | exempt < i < |l'| && l'[i - 1].Started? && l'[i].Finished? ensures Busy(l'[..i]) {
        if i < |l| {
          assert l'[..i] == l[..i];
        } else {
          assert l'[..i] == l;
        }
      }
    }

    lemma GreedyStarts(l: seq<Event>, l': seq<Event>)
      requires l <= l' && Greedy(l) && forall i :: |l| <= i < |l'| ==> l'[i].Started?
      ensures Greedy(l')
    {
      hide Busy;
      forall i | exempt < i < |l'| && l'[i - 1].Started? && l'[i].Finished? ensures Busy(l'[..i]) {
        assert l'[..i] == l[..i];
      }
    }

    /** What waits for a child is kept from running beside an entry that is being checked. */
    lemma WaitingHeld(f: nat)
      requires Valid() && f < |table| && Waiting(instances, f)
      ensures exists x :: x in Live(log) && x < |table| && MayShare(table[x].device, table[f].device)
    {
      hide LogOk, MayRun, Active, MayShare, BaseDevice;
      LivedLast(log, instances);
      ActiveForAReason(instances, table[f].device);
      var i :| 0 <= i < |instances| &&
        (instances[i].base.None? || BaseDevice(table[f].device).None? || instances[i].base == BaseDevice(table[f].device)
         || IsMd(instances[i].device) || IsMd(table[f].device));
      assert EntriesOf(instances)[i] == instances[i].fs;
      ApartIs(instances[i].device, table[f].device);
    }

    lemma SweptIsBusy(pass: nat)
      requires Valid() && Marked() && log != [] && log[|log| - 1].fs < |table| && table[log[|log| - 1].fs].passno <= pass
      requires Held(instances, done, |table|, pass) || AtLimit(numRunning)
      ensures Busy(log)
    {
      hide LogOk, Lived, Active, StartedIn, Waiting, Counted, Childless;
      forall f | 0 <= f < |table| && Due(log, f) && !AtLimit(Counted(log))
        ensures !forceAllParallel && exists x :: x in Live(log) && x < |table| && MayShare(table[x].device, table[f].device)
      {
        assert Waiting(instances, f);
        WaitingHeld(f);
        Forced(f);
      }
    }

    lemma Forced(f: nat)
      requires f < |table| && Waiting(instances, f)
      ensures !forceAllParallel
    {
    }

    /** A check that was started last has left no child. */
    ghost predicate Quiet(l: seq<Event>, list: seq<Instance>)
    {
      l != [] && l[|l| - 1].Started? ==> list == []
    }

    /** One scan, and waiting for all of it or for some child. */
    method RunPass(pass: nat) returns (notDoneYet: bool, passDone: bool, codes: ExitCode)
      requires Valid() && Marked() && OverBelow(pass) && Limited(|instances| + 1) && Greedy(log) && Quiet(log, instances)
      modifies this`done, this`instances, this`numRunning, this`log
      ensures Valid() && Marked() && OverBelow(if passDone then pass + 1 else pass) && Limited(|instances| + 1)
      ensures CodesSince(old(log), log, codes)
      ensures old(log) <= log && Greedy(log) && Quiet(log, instances) && |done| == |old(done)|
      ensures !notDoneYet ==> instances == [] && forall f :: 0 <= f < |table| ==> done[f]
      ensures Undone(done) < Undone(old(done))
        || (done == old(done) && (|instances| < |old(instances)|
            || (|instances| == |old(instances)| && passDone && (notDoneYet ==> exists f :: 0 <= f < |table| && table[f].passno > pass))))
    {
      hide LogOk, Lived, StartedIn, OverIn, AllCodes, Undone, LiveIn, Counted, Childless, Greedy, Busy, Held, CodesSince, AtLimit;
      ghost var l := log;
      notDoneYet, passDone := Sweep(pass);
      LivedLast(log, instances);
      GreedyStarts(l, log);
      if log != l {
        SweptIsBusy(pass);
      }
      ghost var l' := log;
      codes := WaitMany(passDone);
      CodesFrom(l, l', log, codes);
      ReapedAll(l', log);
      GreedyNext(l', log);
      if passDone {
        PassOver(pass);
      } else {
        notDoneYet := true;
      }
    }

    /** The main loop of check_all, once the root filesystem has been dealt with. */
    method RunPasses(status0: ExitCode) returns (status: ExitCode)
      requires Valid() && Marked() && instances == [] && status0 == AllCodes(log) && Greedy(log)
      modifies this`done, this`instances, this`numRunning, this`log
      ensures Valid() && Marked() && instances == [] && status == AllCodes(log) && Greedy(log)
      ensures old(log) <= log
      ensures forall f :: 0 <= f < |table| ==> done[f]
      ensures forall f: nat :: StartedIn(log, f) ==> OverIn(log, f)
    {
      hide LogOk, Lived, StartedIn, OverIn, AllCodes, Undone, LiveIn, Marked, OverBelow, Greedy, Quiet, Limited;
      status := status0;
      StartOfPasses();
      var notDoneYet := true;
      var pass: nat := 1;
      ghost var top := TopPass(table);
      while notDoneYet
        invariant Valid() && Marked() && OverBelow(pass) && Limited(|instances| + 1) && status == AllCodes(log)
        invariant old(log) <= log && Greedy(log) && Quiet(log, instances)
        invariant !notDoneYet ==> instances == [] && forall f :: 0 <= f < |table| ==> done[f]
        decreases notDoneYet, Undone(done), |instances|, top + 1 - pass
      {
        var passDone, codes;
        notDoneYet, passDone, codes := RunPass(pass);
        status := status | codes;
        if passDone {
          pass := pass + 1;
        }
      }
      forall f: nat ensures StartedIn(log, f) ==> OverIn(log, f) {
        NoneLive(f);
        LogOver(log, instances, table, skipRoot, exempt, f);
      }
      ghost var l := log;
      var codes := WaitMany(false);
      status := status | codes;
      assert log == l;
    }

    lemma StartOfPasses()
      requires Valid() && Marked() && instances == []
      ensures OverBelow(1) && Limited(|instances| + 1) && Quiet(log, instances)
    {
      hide LogOk, StartedIn, OverIn;
      LivedLast(log, instances);
    }

    /** A whole run. Unless the root check has stopped it, every entry that is wanted is
        checked exactly once, every check ends, none starts before all those of lower
        passes are over (the root check excepted, which is over before all others start), and
        the result is the OR of all exit codes. After every event, those running may run
        together; and when checks have been started and one ends, there was no other that
        might have been started. */
    method CheckAll() returns (status: ExitCode, stopped: bool)
      requires |done| == |table| && (forall f :: 0 <= f < |done| ==> !done[f])
      requires instances == [] && numRunning == 0 && log == [] && exempt == 0
      modifies this
      ensures instances == [] && status == AllCodes(log) && numRunning == Childless(log)
      ensures forall i :: 0 <= i <= |log| ==> MayRun(Live(log[..i]))
      ensures !forceAllParallel ==> forall i :: 0 <= i <= |log| ==> OnTheirOwn(Live(log[..i]))
      ensures InOrder(log, table, skipRoot, exempt)
      ensures exempt == 0 || (exempt == 1 && log != [] && log[0].fs < |table| && IsRoot(table[log[0].fs]) && !parallelRoot && !skipRoot)
      ensures exempt == 1 ==> RootFirst(log)
      ensures forall f: nat :: RootToCheck(f) ==> exempt == 1 && log[0].fs == f
      ensures Greedy(log)
      ensures stopped ==> status > 1 && exempt == 1 && forall f: nat :: StartedIn(log, f) ==> f == log[0].fs
      ensures !stopped ==> forall f :: 0 <= f < |table| ==>
                StartCount(log, f) == (if ToCheck(table[f], skipRoot) then 1 else 0)
                && (ToCheck(table[f], skipRoot) ==> OverIn(log, f))
    {
      hide LogOk, Lived, StartedIn, OverIn, AllCodes, LiveIn, StartCount, Together, InOrder;
      NothingYet();
      StartOk();
      MarkIgnored();
      status, stopped := CheckRoot();
      if stopped {
        LogFacts(log, instances, table, skipRoot, exempt);
        LivedAll(log, instances);
        RootStaysFirst(log, log);
        return;
      }
      if skipRoot {
        MarkRoots();
      }
      LogFacts(log, instances, table, skipRoot, exempt);
      ghost var rootLog := log;
      status := RunPasses(status);
      if exempt == 1 {
        RootStaysFirst(rootLog, log);
      }
      LogFacts(log, instances, table, skipRoot, exempt);
      LivedAll(log, instances);
      forall f | 0 <= f < |table|
        ensures StartCount(log, f) == (if ToCheck(table[f], skipRoot) then 1 else 0)
                && (ToCheck(table[f], skipRoot) ==> OverIn(log, f))
      {
        CountedOnce(log, f);
        WantedIs(table[f], skipRoot);
      }
    }

    lemma StartOk()
      requires |done| == |table| && instances == [] && numRunning == 0 && log == [] && exempt == 0
      ensures Valid()
    {
    }

    lemma LivedAll(log: seq<Event>, list: seq<Instance>)
      requires Lived(log, list)
      ensures forall i :: 0 <= i <= |log| ==> MayRun(Live(log[..i]))
      ensures !forceAllParallel ==> forall i :: 0 <= i <= |log| ==> OnTheirOwn(Live(log[..i]))
    {
      hide MayRun, OnTheirOwn;
      if !forceAllParallel {
        forall i | 0 <= i <= |log| ensures OnTheirOwn(Live(log[..i])) {
          OwnDisks(Live(log[..i]));
        }
      }
    }
  }

  lemma LogFacts(log: seq<Event>, list: seq<Instance>, table: seq<FsInfo>, skipRoot: bool, exempt: nat)
    requires LogOk(log, list, table, skipRoot, exempt)
    ensures InOrder(log, table, skipRoot, exempt)
    ensures forall f: nat :: StartCount(log, f) <= 1
    ensures forall f: nat :: StartedIn(log, f) ==> f < |table| && Wanted(table[f], skipRoot)
  {
  }

  /** No pass number is higher. */
  function TopPass(table: seq<FsInfo>): (r: nat)
    ensures forall f :: 0 <= f < |table| ==> table[f].passno <= r
  {
    if table == [] then 0
    else
      var r := TopPass(table[..|table| - 1]);
      if table[|table| - 1].passno > r then table[|table| - 1].passno else r
  }

  lemma LogOver(log: seq<Event>, list: seq<Instance>, table: seq<FsInfo>, skipRoot: bool, exempt: nat, f: nat)
    requires LogOk(log, list, table, skipRoot, exempt)
    ensures StartedIn(log, f) ==> OverIn(log, f) || LiveIn(list, f)
  {
  }

  lemma ExemptRoot(table: seq<FsInfo>, skipRoot: bool)
    requires LogOk([], [], table, skipRoot, 0)
    ensures LogOk([], [], table, skipRoot, 1)
  {
  }
}
