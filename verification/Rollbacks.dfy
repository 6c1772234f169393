/** Capture and restoration of everything a config transaction can change
    (src/utils.py, `_capture_config_transaction` to `_rollback_config_transaction`). */
module Rollbacks {
  import opened Text
  import opened Hosts

  /** `_transaction_paths` */
  const TRANSACTION_PATHS: seq<Path> := [
    Managed(NodeBinary), Managed(CliBinary), Managed(ProxyBinary),
    Managed(NodeEnv), Managed(MonitorEnv), Managed(ProxyEnv),
    Managed(MonitorScript),
    Managed(NodeUnit), Managed(MonitorUnit), Managed(ProxyUnit)
  ]

  lemma TransactionPathsAreTheManagedFiles()
    ensures forall p :: p in TRANSACTION_PATHS <==> p.Managed?
    ensures forall i, j | 0 <= i < j < |TRANSACTION_PATHS| :: TRANSACTION_PATHS[i] != TRANSACTION_PATHS[j]
  {
    forall p: Path | p.Managed? ensures p in TRANSACTION_PATHS {
      match p.file
      case NodeBinary => assert TRANSACTION_PATHS[0] == p;
      case CliBinary => assert TRANSACTION_PATHS[1] == p;
      case ProxyBinary => assert TRANSACTION_PATHS[2] == p;
      case NodeEnv => assert TRANSACTION_PATHS[3] == p;
      case MonitorEnv => assert TRANSACTION_PATHS[4] == p;
      case ProxyEnv => assert TRANSACTION_PATHS[5] == p;
      case MonitorScript => assert TRANSACTION_PATHS[6] == p;
      case NodeUnit => assert TRANSACTION_PATHS[7] == p;
      case MonitorUnit => assert TRANSACTION_PATHS[8] == p;
      case ProxyUnit => assert TRANSACTION_PATHS[9] == p;
    }
  }

  /** What a transaction may touch: the captured paths and scratch files. */
  ghost function TransactionArea(): iset<Path> {
    iset p: Path | p in TRANSACTION_PATHS || Scratch(p)
  }

  datatype Snapshot = Snapshot(files: map<Path, Option<File>>, running: set<Service>)

  /** The snapshot shows this disk and these services. */
  ghost predicate Shows(snapshot: Snapshot, disk: Disk, running: set<Service>) {
    && snapshot.running == running
    && forall p | p in TRANSACTION_PATHS :: p in snapshot.files && snapshot.files[p] == At(disk, p)
  }

  ghost predicate Complete(snapshot: Snapshot) {
    forall p | p in TRANSACTION_PATHS :: p in snapshot.files
  }

  /** `_capture_config_transaction` */
  method CaptureConfigTransaction(host: Host) returns (ok: bool, snapshot: Snapshot)
    requires host.Genuine()
    modifies host`trace
    ensures host.Genuine()
    ensures ok ==> Shows(snapshot, host.disk, host.running)
    ensures old(host.trace) <= host.trace
    ensures forall i | old(|host.trace|) <= i < |host.trace| ::
        host.trace[i].op.Read? && host.trace[i].disk == host.disk
    ensures forall i | old(|host.trace|) <= i < |host.trace| - 1 :: host.trace[i].reply.ok
    ensures if ok then AllOk(host.trace, old(|host.trace|)) else SomeFailed(host.trace, old(|host.trace|))
  {
    hide TRANSACTION_PATHS, Host.Genuine;
    var files: map<Path, Option<File>> := map[];
    for k := 0 to |TRANSACTION_PATHS|
      invariant host.Genuine()
      invariant forall i | 0 <= i < k ::
          TRANSACTION_PATHS[i] in files && files[TRANSACTION_PATHS[i]] == At(host.disk, TRANSACTION_PATHS[i])
      invariant old(host.trace) <= host.trace
      invariant forall i | old(|host.trace|) <= i < |host.trace| ::
          host.trace[i].op.Read? && host.trace[i].disk == host.disk
      invariant AllOk(host.trace, old(|host.trace|))
    {
      var read, file := host.Read(TRANSACTION_PATHS[k]);
      if !read {
        assert !host.trace[|host.trace| - 1].reply.ok;
        return false, Snapshot(files, host.running);
      }
      files := files[TRANSACTION_PATHS[k] := file];
    }
    return true, Snapshot(files, host.running);
  }

  /** A step of this kind has succeeded. */
  ghost predicate Happened(trace: seq<Event>, from: nat, op: Op) {
    exists i | from <= i < |trace| :: trace[i].op == op && trace[i].reply.ok
  }

  lemma HappenedStays(before: seq<Event>, trace: seq<Event>, from: nat, later: nat, op: Op)
    requires before <= trace && from <= later && Happened(before, later, op)
    ensures Happened(trace, from, op)
  {
    var i :| later <= i < |before| && before[i].op == op && before[i].reply.ok;
    assert trace[i] == before[i];
  }

  /** A step of this kind has failed. */
  ghost predicate Failed(trace: seq<Event>, from: nat, op: Op) {
    exists i | from <= i < |trace| :: trace[i].op == op && !trace[i].reply.ok
  }

  lemma FailedStays(before: seq<Event>, trace: seq<Event>, from: nat, later: nat, op: Op)
    requires before <= trace && from <= later && Failed(before, later, op)
    ensures Failed(trace, from, op)
  {
    var i :| later <= i < |before| && before[i].op == op && !before[i].reply.ok;
    assert trace[i] == before[i];
  }

  /** The restoration of this path is stopped by a failed step of its own: the removal of
      the file, or the writing, the mode or the renaming of the temporary file beside it. */
  ghost predicate FileStepFailed(trace: seq<Event>, from: nat, path: Path) {
    || Failed(trace, from, Unlink(path)) || Failed(trace, from, Write(Temporary(path)))
    || Failed(trace, from, Chmod(Temporary(path))) || Failed(trace, from, Rename(Temporary(path), path))
  }

  lemma FileStepFailedStays(before: seq<Event>, trace: seq<Event>, from: nat, later: nat, path: Path)
    requires before <= trace && from <= later && FileStepFailed(before, later, path)
    ensures FileStepFailed(trace, from, path)
  {
    hide Failed;
    if Failed(before, later, Unlink(path)) {
      FailedStays(before, trace, from, later, Unlink(path));
    } else if Failed(before, later, Write(Temporary(path))) {
      FailedStays(before, trace, from, later, Write(Temporary(path)));
    } else if Failed(before, later, Chmod(Temporary(path))) {
      FailedStays(before, trace, from, later, Chmod(Temporary(path)));
    } else {
      FailedStays(before, trace, from, later, Rename(Temporary(path), path));
    }
  }

  /** One path has its old file or its new one, and nothing else has changed but the
      temporary file beside it. */
  ghost predicate OldOrNew(before: Disk, disk: Disk, path: Path, file: Option<File>) {
    && OnlyTouches(before, disk, iset{path, Temporary(path)})
    && (At(disk, path) == At(before, path) || At(disk, path) == file)
  }

  /** The last step was to remove the temporary file, and it failed. */
  ghost predicate CleanUpFailed(trace: seq<Event>, path: Path) {
    |trace| > 0 && trace[|trace| - 1].op == Unlink(Temporary(path)) && !trace[|trace| - 1].reply.ok
  }

  /** The first step that fails is followed by the removal of the temporary file alone. */
  ghost predicate ThenCleanedUp(trace: seq<Event>, from: nat, path: Path) {
    && |trace| > from + 1 && trace[|trace| - 1].op == Unlink(Temporary(path))
    && (forall i | from <= i < |trace| - 2 :: trace[i].reply.ok)
  }

  /** A step on the temporary file beside a path. */
  ghost predicate TemporaryEvent(before: Disk, e: Event, path: Path) {
    && IsFileOp(e.op) && (e.op.Write? ==> e.op.path == Temporary(path))
    && OnlyTouches(before, e.disk, iset{Temporary(path)})
  }

  /** The first half of an atomic replacement. */
  method WriteTemporary(host: Host, path: Path, file: File) returns (ok: bool)
    requires host.Genuine()
    modifies host`disk, host`trace
    ensures host.Genuine()
    ensures OnlyTouches(old(host.disk), host.disk, iset{Temporary(path)})
    ensures ok ==> At(host.disk, Temporary(path)) == Some(file)
    ensures old(host.trace) < host.trace
    ensures host.trace[old(|host.trace|)].op == Write(Temporary(path))
    ensures forall i | old(|host.trace|) <= i < |host.trace| :: TemporaryEvent(old(host.disk), host.trace[i], path)
    ensures if ok then AllOk(host.trace, old(|host.trace|)) else
      !host.trace[|host.trace| - 1].reply.ok
      && (forall i | old(|host.trace|) <= i < |host.trace| - 1 :: host.trace[i].reply.ok)
      && host.trace[|host.trace| - 1].op in [Write(Temporary(path)), Chmod(Temporary(path))]
  {
    hide Host.Genuine;
    ok := host.Write(Temporary(path), file.data);
    if ok {
      ok := host.Chmod(Temporary(path), file.mode);
    }
  }

  /** A complete file put in the place of another: written beside it, then renamed. The
      target never holds anything but its old or its new file. */
  method ReplaceFile(host: Host, path: Path, file: File) returns (ok: bool)
    requires !Scratch(path)
    requires host.Genuine()
    modifies host`disk, host`trace
    ensures host.Genuine()
    ensures OldOrNew(old(host.disk), host.disk, path, Some(file))
    ensures At(host.disk, path) == if ok then Some(file) else old(At(host.disk, path))
    ensures Temporary(path) in host.disk ==> CleanUpFailed(host.trace, path)
    ensures ok ==> Happened(host.trace, old(|host.trace|), Write(Temporary(path)))
    ensures !ok ==> FileStepFailed(host.trace, old(|host.trace|), path)
    ensures !ok ==> ThenCleanedUp(host.trace, old(|host.trace|), path)
    ensures old(host.trace) <= host.trace
    ensures forall i | old(|host.trace|) <= i < |host.trace| ::
      && IsFileOp(host.trace[i].op) && (host.trace[i].op.Write? ==> host.trace[i].op.path == Temporary(path))
      && OldOrNew(old(host.disk), host.trace[i].disk, path, Some(file))
    ensures if ok then AllOk(host.trace, old(|host.trace|)) else SomeFailed(host.trace, old(|host.trace|))
  {
    hide Host.Genuine, FileStepFailed, SomeFailed;
    ghost var before, first := host.disk, |host.trace|;
    ok := WriteTemporary(host, path, file);
    TemporaryEventsAreFine(before, host.trace, first, path, file);
    ghost var failed := |host.trace| - 1;
    if ok {
      failed := |host.trace|;
      ok := host.Rename(Temporary(path), path);
      assert OldOrNew(before, host.disk, path, Some(file));
    }
    if !ok {
      ghost var kept := host.disk;
      var removed := host.Unlink(Temporary(path));
      assert OnlyTouches(before, host.disk, iset{Temporary(path)});
      assert OldOrNew(before, host.disk, path, Some(file));
      FileStepHasFailed(host.trace, first, failed, path);
    }
    assert ok ==> host.trace[first].reply.ok;
  }

  lemma FileStepHasFailed(trace: seq<Event>, from: nat, i: nat, path: Path)
    requires from <= i < |trace| && !trace[i].reply.ok
    requires trace[i].op in [Write(Temporary(path)), Chmod(Temporary(path)), Rename(Temporary(path), path)]
    ensures FileStepFailed(trace, from, path) && SomeFailed(trace, from)
  {
    assert Failed(trace, from, trace[i].op);
  }

  lemma TemporaryEventsAreFine(before: Disk, trace: seq<Event>, from: nat, path: Path, file: File)
    requires !Scratch(path)
    requires forall i | from <= i < |trace| :: TemporaryEvent(before, trace[i], path)
    ensures forall i | from <= i < |trace| ::
      && IsFileOp(trace[i].op) && (trace[i].op.Write? ==> trace[i].op.path == Temporary(path))
      && OldOrNew(before, trace[i].disk, path, Some(file))
  {
  }

  /** `_restore_file` */
  method RestoreFile(host: Host, path: Path, state: Option<File>) returns (ok: bool)
    requires !Scratch(path)
    requires host.Genuine()
    modifies host`disk, host`trace
    ensures host.Genuine()
    ensures OldOrNew(old(host.disk), host.disk, path, state)
    ensures At(host.disk, path) == if ok then state else old(At(host.disk, path))
    ensures state.Some? && Temporary(path) in host.disk ==> CleanUpFailed(host.trace, path)
    ensures ok ==>
      Happened(host.trace, old(|host.trace|), if state.Some? then Write(Temporary(path)) else Unlink(path))
    ensures !ok ==> FileStepFailed(host.trace, old(|host.trace|), path)
    ensures old(host.trace) <= host.trace
    ensures forall i | old(|host.trace|) <= i < |host.trace| ::
      && IsFileOp(host.trace[i].op) && (host.trace[i].op.Write? ==> host.trace[i].op.path == Temporary(path))
      && OldOrNew(old(host.disk), host.trace[i].disk, path, state)
    ensures if ok then AllOk(host.trace, old(|host.trace|)) else SomeFailed(host.trace, old(|host.trace|))
  {
    hide Host.Genuine;
    if state.None? {
      ghost var last := |host.trace|;
      ok := host.Unlink(path);
      assert host.trace[last].op == Unlink(path) && host.trace[last].reply.ok == ok;
      assert !ok ==> Failed(host.trace, last, Unlink(path));
    } else {
      ok := ReplaceFile(host, path, state.value);
    }
  }

  datatype RollbackError =
    | StopFailed(service: Service) | RestoreFailed(path: Path) | ReloadFailed | StartFailed(service: Service)
    | NodeNotReady | NotRunning(service: Service)

  const STOP_ORDER := [Proxy, Monitor, Node]
  const START_ORDER := [Node, Monitor, Proxy]

  /** The node comes up before the monitor, and the monitor before the proxy. */
  ghost function StartRank(s: Service): nat {
    match s
    case Node => 0
    case Monitor => 1
    case Proxy => 2
  }

  ghost predicate InStartOrder(trace: seq<Event>, from: nat) {
    forall i, j | from <= i < j < |trace| && trace[i].op.Start? && trace[j].op.Start? ::
      || (trace[i].op.service == Node && trace[j].op.service != Node)
      || (trace[i].op.service == Monitor && trace[j].op.service == Proxy)
  }

  lemma OrdersHaveEveryService()
    ensures forall k | 0 <= k < |START_ORDER| :: StartRank(START_ORDER[k]) == k
    ensures forall s: Service :: s in STOP_ORDER && s in START_ORDER
    ensures |STOP_ORDER| == |START_ORDER| == 3
    ensures forall i, j | 0 <= i < j < 3 :: STOP_ORDER[i] != STOP_ORDER[j] && START_ORDER[i] != START_ORDER[j]
  {
    assert STOP_ORDER[0] == Proxy && STOP_ORDER[1] == Monitor && STOP_ORDER[2] == Node;
    assert START_ORDER[0] == Node && START_ORDER[1] == Monitor && START_ORDER[2] == Proxy;
    forall s: Service ensures s in STOP_ORDER && s in START_ORDER {
      match s
      case Node =>
      case Monitor =>
      case Proxy =>
    }
  }

  /** The service runs on in a new process although its stop has been tried. */
  ghost predicate Survived(r: Reply) {
    !r.ok && r.up && r.relaunched
  }

  /** The services of a host and the disk, at one moment. */
  datatype Services = Services(running: set<Service>, launched: map<Service, Launch>, disk: Disk)

  /** One stop: its error is recorded exactly when it failed, a service without an error is
      down, and a process that survived was launched from the disk as it is. */
  ghost predicate StopOutcome(now: Services, s: Service, e: Event, errors: seq<RollbackError>) {
    && e.op == Stop(s) && (StopFailed(s) in errors <==> !e.reply.ok)
    && (StopFailed(s) !in errors ==> s !in now.running)
    && (Survived(e.reply) ==> s in now.running && s in now.launched && now.launched[s].image == now.disk)
  }

  lemma StopOutcomeKept(before: Services, now: Services, s: Service, e: Event, errors: seq<RollbackError>,
                        more: seq<RollbackError>)
    requires StopOutcome(before, s, e, errors) && (StopFailed(s) in errors <==> StopFailed(s) in more)
    requires now.disk == before.disk && (s in now.running <==> s in before.running)
    requires s in before.launched ==> s in now.launched && now.launched[s] == before.launched[s]
    ensures StopOutcome(now, s, e, more)
  {
  }

  /** The last process of a service is the one it was before, or was launched from the disk
      as it is. */
  ghost predicate KeptOrNew(before: Services, now: Services, s: Service) {
    s in now.launched ==>
      (s in before.launched && now.launched[s] == before.launched[s]) || now.launched[s].image == now.disk
  }

  /** One turn of the loop below. */
  method TryStop(host: Host, s: Service, earlier: seq<RollbackError>) returns (errors: seq<RollbackError>)
    requires StopFailed(s) !in earlier
    requires host.Genuine()
    modifies host`running, host`launched, host`trace
    ensures host.Genuine()
    ensures errors == earlier || errors == earlier + [StopFailed(s)]
    ensures forall t | t != s :: t in host.running <==> t in old(host.running)
    ensures forall t | t != s :: t in host.launched <==> t in old(host.launched)
    ensures forall t | t != s && t in old(host.launched) :: host.launched[t] == old(host.launched)[t]
    ensures KeptOrNew(Services(old(host.running), old(host.launched), host.disk),
                      Services(host.running, host.launched, host.disk), s)
    ensures |host.trace| == old(|host.trace|) + 1 && old(host.trace) <= host.trace
    ensures host.trace[old(|host.trace|)].disk == host.disk
    ensures StopOutcome(Services(host.running, host.launched, host.disk), s, host.trace[old(|host.trace|)], errors)
  {
    hide Host.Genuine;
    var ok := host.Stop(s);
    errors := if ok then earlier else earlier + [StopFailed(s)];
  }

  /** The three stops, in their order, and what the errors say of them. */
  ghost predicate StopsAccounted(now: Services, trace: seq<Event>, from: nat, errors: seq<RollbackError>) {
    && |trace| > from + 2
    && StopOutcome(now, Proxy, trace[from], errors)
    && StopOutcome(now, Monitor, trace[from + 1], errors)
    && StopOutcome(now, Node, trace[from + 2], errors)
  }

  lemma StopsStillAccounted(now: Services, before: seq<Event>, trace: seq<Event>, from: nat, errors: seq<RollbackError>,
                            more: seq<RollbackError>)
    requires before <= trace && StopsAccounted(now, before, from, errors)
    requires forall s :: StopFailed(s) in errors <==> StopFailed(s) in more
    ensures StopsAccounted(now, trace, from, more)
  {
  }

  /** The first loop of the rollback: every service is stopped, running or not. */
  method StopServices(host: Host) returns (errors: seq<RollbackError>)
    requires host.Genuine()
    modifies host`running, host`launched, host`trace
    ensures host.Genuine()
    ensures forall e | e in errors :: e.StopFailed?
    ensures forall s | StopFailed(s) !in errors :: s !in host.running
    ensures old(host.trace) <= host.trace
    ensures forall i | old(|host.trace|) <= i < |host.trace| ::
        host.trace[i].op.Stop? && host.trace[i].disk == host.disk
    ensures |host.trace| == old(|host.trace|) + 3
    ensures StopsAccounted(Services(host.running, host.launched, host.disk), host.trace, old(|host.trace|), errors)
    ensures
      var before := Services(old(host.running), old(host.launched), host.disk);
      forall s :: KeptOrNew(before, Services(host.running, host.launched, host.disk), s)
    ensures if errors == [] then AllOk(host.trace, old(|host.trace|)) else SomeFailed(host.trace, old(|host.trace|))
  {
    OrdersHaveEveryService();
    hide StopOutcome, STOP_ORDER, START_ORDER, SomeFailed, Host.Genuine;
    ghost var from, start := |host.trace|, Services(host.running, host.launched, host.disk);
    errors := [];
    for k := 0 to |STOP_ORDER|
      invariant host.Genuine()
      invariant |host.trace| == from + k && old(host.trace) <= host.trace
      invariant forall e | e in errors :: e.StopFailed? && exists j | 0 <= j < k :: e.service == STOP_ORDER[j]
      invariant forall i | from <= i < |host.trace| :: host.trace[i].disk == host.disk
      invariant forall j | 0 <= j < k ::
        StopOutcome(Services(host.running, host.launched, host.disk), STOP_ORDER[j], host.trace[from + j], errors)
      invariant forall s :: KeptOrNew(start, Services(host.running, host.launched, host.disk), s)
    {
      ghost var before, earlier := Services(host.running, host.launched, host.disk), errors;
      errors := TryStop(host, STOP_ORDER[k], errors);
      forall s ensures KeptOrNew(start, Services(host.running, host.launched, host.disk), s) {
        assert KeptOrNew(start, before, s);
      }
      forall j | 0 <= j < k
        ensures StopOutcome(Services(host.running, host.launched, host.disk), STOP_ORDER[j],
          host.trace[from + j], errors)
      {
        StopOutcomeKept(before, Services(host.running, host.launched, host.disk), STOP_ORDER[j], host.trace[from + j],
                        earlier, errors);
      }
    }
    StopsAreKnown(Services(host.running, host.launched, host.disk), host.trace, from, errors);
  }

  lemma StopsAreKnown(now: Services, trace: seq<Event>, from: nat, errors: seq<RollbackError>)
    requires |trace| == from + 3 && forall e | e in errors :: e.StopFailed?
    requires forall j | 0 <= j < 3 :: StopOutcome(now, STOP_ORDER[j], trace[from + j], errors)
    ensures StopsAccounted(now, trace, from, errors)
    ensures forall s | StopFailed(s) !in errors :: s !in now.running
    ensures forall i | from <= i < |trace| :: trace[i].op.Stop?
    ensures if errors == [] then AllOk(trace, from) else SomeFailed(trace, from)
  {
    assert STOP_ORDER[0] == Proxy && STOP_ORDER[1] == Monitor && STOP_ORDER[2] == Node;
    assert StopOutcome(now, STOP_ORDER[0], trace[from], errors);
    assert StopOutcome(now, STOP_ORDER[1], trace[from + 1], errors);
    assert StopOutcome(now, STOP_ORDER[2], trace[from + 2], errors);
    forall s | StopFailed(s) !in errors ensures s !in now.running {
      match s
      case Node =>
      case Monitor =>
      case Proxy =>
    }
    if errors != [] {
      match errors[0].service
      case Proxy => assert !trace[from].reply.ok;
      case Monitor => assert !trace[from + 1].reply.ok;
      case Node => assert !trace[from + 2].reply.ok;
    }
  }

  lemma FailuresStay(before: seq<Event>, trace: seq<Event>, from: nat)
    requires before <= trace
    ensures SomeFailed(before, from) ==> SomeFailed(trace, from)
  {
    if SomeFailed(before, from) {
      var i :| from <= i < |before| && !before[i].reply.ok;
      assert trace[i] == before[i];
    }
  }

  /** Every captured path has the file it had before or the captured one. */
  ghost predicate NoPartialFiles(before: Disk, disk: Disk, snapshot: Snapshot) {
    && OnlyTouches(before, disk, TransactionArea())
    && forall p | p in TRANSACTION_PATHS && p in snapshot.files ::
        At(disk, p) == At(before, p) || At(disk, p) == snapshot.files[p]
  }

  /** Of the first `k` paths, those whose own restoration did not fail equal the snapshot,
      and the others, like the paths not reached yet, are as before. */
  ghost predicate Restoring(before: Disk, disk: Disk, snapshot: Snapshot, errors: seq<RollbackError>, k: nat)
    requires Complete(snapshot) && k <= |TRANSACTION_PATHS|
  {
    && OnlyTouches(before, disk, TransactionArea())
    && (forall i | 0 <= i < k :: At(disk, TRANSACTION_PATHS[i]) ==
         if RestoreFailed(TRANSACTION_PATHS[i]) in errors then At(before, TRANSACTION_PATHS[i])
           else snapshot.files[TRANSACTION_PATHS[i]])
    && (forall i | k <= i < |TRANSACTION_PATHS| :: At(disk, TRANSACTION_PATHS[i]) == At(before, TRANSACTION_PATHS[i]))
  }

  lemma RestoringWithMoreErrors(before: Disk, disk: Disk, snapshot: Snapshot, errors: seq<RollbackError>,
      more: seq<RollbackError>)
    requires Complete(snapshot) && Restoring(before, disk, snapshot, errors, |TRANSACTION_PATHS|)
    requires forall e | e in errors || e in more :: e.RestoreFailed? ==> (e in errors <==> e in more)
    ensures Restoring(before, disk, snapshot, more, |TRANSACTION_PATHS|)
  {
    hide TRANSACTION_PATHS;
    forall p | p in TRANSACTION_PATHS ensures RestoreFailed(p) in errors <==> RestoreFailed(p) in more {
    }
  }

  lemma RestoringOne(before: Disk, middle: Disk, disk: Disk, snapshot: Snapshot, errors: seq<RollbackError>, k: nat)
    requires Complete(snapshot) && k < |TRANSACTION_PATHS|
    requires Restoring(before, middle, snapshot, errors, k)
    requires OldOrNew(middle, disk, TRANSACTION_PATHS[k], snapshot.files[TRANSACTION_PATHS[k]])
    ensures NoPartialFiles(before, disk, snapshot)
    ensures At(disk, TRANSACTION_PATHS[k]) == snapshot.files[TRANSACTION_PATHS[k]]
      && RestoreFailed(TRANSACTION_PATHS[k]) !in errors
      ==> Restoring(before, disk, snapshot, errors, k + 1)
    ensures At(disk, TRANSACTION_PATHS[k]) == At(middle, TRANSACTION_PATHS[k])
      ==> Restoring(before, disk, snapshot, errors + [RestoreFailed(TRANSACTION_PATHS[k])], k + 1)
  {
    TransactionPathsAreTheManagedFiles();
    hide TRANSACTION_PATHS;
    var path := TRANSACTION_PATHS[k];
    forall i | 0 <= i < |TRANSACTION_PATHS| && i != k ensures TRANSACTION_PATHS[i] != path {
      if i < k {
        assert TRANSACTION_PATHS[i] != TRANSACTION_PATHS[k];
      }
    }
    forall p | p in TRANSACTION_PATHS ensures At(disk, p) == At(before, p) || At(disk, p) == snapshot.files[p] {
      var i :| 0 <= i < |TRANSACTION_PATHS| && TRANSACTION_PATHS[i] == p;
    }
  }

  /** What the errors say of one file: a failed restoration is stopped by a step on that
      very file, and a restored file has been written beside its target, or removed. */
  ghost predicate FileAccounted(trace: seq<Event>, from: nat, snapshot: Snapshot, errors: seq<RollbackError>, p: Path)
    requires p in snapshot.files
  {
    if RestoreFailed(p) in errors then FileStepFailed(trace, from, p)
    else Happened(trace, from, if snapshot.files[p].Some? then Write(Temporary(p)) else Unlink(p))
  }

  ghost predicate FilesAccounted(trace: seq<Event>, from: nat, snapshot: Snapshot, errors: seq<RollbackError>)
    requires Complete(snapshot)
  {
    forall p | p in TRANSACTION_PATHS :: FileAccounted(trace, from, snapshot, errors, p)
  }

  lemma FileNowAccounted(trace: seq<Event>, from: nat, snapshot: Snapshot, errors: seq<RollbackError>, p: Path)
    requires p in snapshot.files
    requires if RestoreFailed(p) in errors then FileStepFailed(trace, from, p)
             else Happened(trace, from, if snapshot.files[p].Some? then Write(Temporary(p)) else Unlink(p))
    ensures FileAccounted(trace, from, snapshot, errors, p)
  {
  }

  lemma FileStillAccounted(before: seq<Event>, trace: seq<Event>, from: nat, later: nat, snapshot: Snapshot,
                           errors: seq<RollbackError>, more: seq<RollbackError>, p: Path)
    requires before <= trace && from <= later && p in snapshot.files
    requires FileAccounted(before, later, snapshot, errors, p)
    requires RestoreFailed(p) in errors <==> RestoreFailed(p) in more
    ensures FileAccounted(trace, from, snapshot, more, p)
  {
    hide Happened, FileStepFailed;
    if RestoreFailed(p) in errors {
      FileStepFailedStays(before, trace, from, later, p);
    } else {
      HappenedStays(before, trace, from, later, if snapshot.files[p].Some? then Write(Temporary(p)) else Unlink(p));
    }
  }

  /** The second loop: every captured file is restored, whatever else failed. */
  method RestoreFiles(host: Host, snapshot: Snapshot) returns (errors: seq<RollbackError>)
    requires Complete(snapshot)
    requires host.Genuine()
    modifies host`disk, host`trace
    ensures host.Genuine()
    ensures forall e | e in errors :: e.RestoreFailed? && e.path in TRANSACTION_PATHS
    ensures Restoring(old(host.disk), host.disk, snapshot, errors, |TRANSACTION_PATHS|)
    ensures FilesAccounted(host.trace, old(|host.trace|), snapshot, errors)
    ensures old(host.trace) <= host.trace
    ensures forall i | old(|host.trace|) <= i < |host.trace| ::
      IsFileOp(host.trace[i].op) && NoPartialFiles(old(host.disk), host.trace[i].disk, snapshot)
    ensures if errors == [] then AllOk(host.trace, old(|host.trace|)) else SomeFailed(host.trace, old(|host.trace|))
  {
    TransactionPathsAreTheManagedFiles();
    hide TRANSACTION_PATHS, OldOrNew, NoPartialFiles, Host.Genuine, Happened, FileStepFailed, FileAccounted;
    ghost var before, from := host.disk, |host.trace|;
    errors := [];
    for k := 0 to |TRANSACTION_PATHS|
      invariant host.Genuine()
      invariant forall e | e in errors :: e.RestoreFailed? && e.path in TRANSACTION_PATHS[..k]
      invariant Restoring(before, host.disk, snapshot, errors, k)
      invariant forall j | 0 <= j < k :: FileAccounted(host.trace, from, snapshot, errors, TRANSACTION_PATHS[j])
      invariant old(host.trace) <= host.trace
      invariant forall i | from <= i < |host.trace| ::
        IsFileOp(host.trace[i].op) && NoPartialFiles(before, host.trace[i].disk, snapshot)
      invariant if errors == [] then AllOk(host.trace, from) else SomeFailed(host.trace, from)
    {
      ghost var middle, trace, earlier := host.disk, host.trace, errors;
      var path := TRANSACTION_PATHS[k];
      assert path in TRANSACTION_PATHS && path !in TRANSACTION_PATHS[..k];
      assert TRANSACTION_PATHS[..k + 1] == TRANSACTION_PATHS[..k] + [path];
      var ok := RestoreFile(host, path, snapshot.files[path]);
      FailuresStay(trace, host.trace, from);
      RestoringOne(before, middle, host.disk, snapshot, errors, k);
      forall i | |trace| <= i < |host.trace| ensures NoPartialFiles(before, host.trace[i].disk, snapshot) {
        RestoringOne(before, middle, host.trace[i].disk, snapshot, errors, k);
      }
      if !ok {
        ghost var i :| |trace| <= i < |host.trace| && !host.trace[i].reply.ok;
        errors := errors + [RestoreFailed(path)];
      }
      FileNowAccounted(host.trace, |trace|, snapshot, errors, path);
      forall j | 0 <= j <= k ensures FileAccounted(host.trace, from, snapshot, errors, TRANSACTION_PATHS[j]) {
        if j < k {
          FileStillAccounted(trace, host.trace, from, from, snapshot, earlier, errors, TRANSACTION_PATHS[j]);
        } else {
          FileStillAccounted(host.trace, host.trace, from, |trace|, snapshot, errors, errors, path);
        }
      }
    }
    assert TRANSACTION_PATHS[..|TRANSACTION_PATHS|] == TRANSACTION_PATHS;
  }

  /** A start after which the service did not run. */
  ghost predicate StaysDown(trace: seq<Event>, from: nat, s: Service) {
    exists i | from <= i < |trace| :: trace[i].op == Start(s) && !trace[i].reply.up
  }

  lemma StaysDownStays(before: seq<Event>, trace: seq<Event>, from: nat, later: nat, s: Service)
    requires before <= trace && from <= later && StaysDown(before, later, s)
    ensures StaysDown(trace, from, s)
  {
    var i :| later <= i < |before| && before[i].op == Start(s) && !before[i].reply.up;
    assert trace[i] == before[i];
  }

  /** What the loop of starts leaves: its outcome for each service that ran before, and
      every other service as it was. */
  ghost predicate StartsExplained(trace: seq<Event>, from: nat, snapshot: Snapshot, errors: seq<RollbackError>,
                                  before: Services, now: Services)
  {
    forall s ::
      if s in snapshot.running then StartOutcome(trace, from, before, now, s, errors)
      else StartFailed(s) !in errors && SameProcess(before, now, s)
  }

  lemma ExplainedStill(shorter: seq<Event>, trace: seq<Event>, from: nat, snapshot: Snapshot,
                       errors: seq<RollbackError>, more: seq<RollbackError>, before: Services, now: Services)
    requires shorter <= trace && StartsExplained(shorter, from, snapshot, errors, before, now)
    requires forall s :: StartFailed(s) in more <==> StartFailed(s) in errors
    ensures StartsExplained(trace, from, snapshot, more, before, now)
  {
    hide StartOutcome;
    forall s | s in snapshot.running ensures StartOutcome(trace, from, before, now, s, more) {
      StartOutcomeKept(shorter, trace, from, before, now, now, s, errors, more);
    }
  }

  /** A start that failed, or that left its service down, is a reason to fail. */
  lemma BadStartIsRough(host: Host, trace: seq<Event>, from: nat, s: Service)
    requires Failed(trace, from, Start(s)) || StaysDown(trace, from, s)
    ensures Rough(host, trace, from, None)
  {
    var i :| from <= i < |trace| && trace[i].op == Start(s) && (!trace[i].reply.ok || !trace[i].reply.up);
    assert !host.Smooth(trace[i], None);
  }

  /** A service is as it was: running or not, and with the same last process. */
  ghost predicate SameProcess(before: Services, now: Services, s: Service) {
    && (s in now.running <==> s in before.running)
    && (s in now.launched <==> s in before.launched)
    && (s in before.launched ==> now.launched[s] == before.launched[s])
  }

  /** A successful start: a running process goes on, else a new one was launched from the
      disk as it is. */
  ghost predicate Started(before: Services, now: Services, s: Service, from: nat) {
    if s in before.running then s in now.running && SameProcess(before, now, s)
    else s in now.launched && now.launched[s].image == now.disk && now.launched[s].at >= from
  }

  /** One start: without an error it has succeeded, an error has a start that failed, a
      service that is still down has one after which it was down, and a service that was
      down and runs was launched from the disk as it is. */
  ghost predicate StartOutcome(trace: seq<Event>, from: nat, before: Services, now: Services, s: Service,
                               errors: seq<RollbackError>)
  {
    && (if StartFailed(s) in errors then Failed(trace, from, Start(s))
        else Happened(trace, from, Start(s)) && Started(before, now, s, from))
    && (s in now.running || StaysDown(trace, from, s))
    && (s in now.running && s !in before.running ==> s in now.launched && now.launched[s].image == now.disk)
    && KeptOrNew(before, now, s)
  }

  lemma StartOutcomeKept(shorter: seq<Event>, trace: seq<Event>, from: nat, before: Services, earlier: Services,
                         now: Services, s: Service, errors: seq<RollbackError>, more: seq<RollbackError>)
    requires shorter <= trace && StartOutcome(shorter, from, before, earlier, s, errors)
    requires SameProcess(earlier, now, s) && now.disk == earlier.disk
    requires StartFailed(s) in errors <==> StartFailed(s) in more
    ensures StartOutcome(trace, from, before, now, s, more)
  {
    hide Failed, Happened, StaysDown;
    if StartFailed(s) in errors {
      FailedStays(shorter, trace, from, from, Start(s));
    } else {
      HappenedStays(shorter, trace, from, from, Start(s));
    }
    if s !in now.running {
      StaysDownStays(shorter, trace, from, from, s);
    }
  }

  /** One start, seen from its step: it failed exactly if there is an error, and if the
      service was down and runs, it came up. */
  ghost predicate StartFits(e: Event, before: Services, now: Services, errors: seq<RollbackError>) {
    e.op.Start? ==>
      && (StartFailed(e.op.service) in errors <==> !e.reply.ok)
      && (e.op.service !in before.running && e.op.service in now.running ==> e.reply.up)
  }

  /** One turn of the loop below. */
  method TryStart(host: Host, s: Service, earlier: seq<RollbackError>,
      ghost from: nat) returns (errors: seq<RollbackError>)
    requires StartFailed(s) !in earlier && from <= |host.trace|
    requires host.Genuine()
    modifies host`running, host`launched, host`trace
    ensures host.Genuine()
    ensures errors == earlier || errors == earlier + [StartFailed(s)]
    ensures
      var before := Services(old(host.running), old(host.launched), host.disk);
      var now := Services(host.running, host.launched, host.disk);
      && (forall t | t != s :: SameProcess(before, now, t))
      && StartOutcome(host.trace, from, before, now, s, errors)
      && old(host.trace) <= host.trace && |host.trace| == old(|host.trace|) + 1
      && StartFits(host.trace[old(|host.trace|)], before, now, errors)
    ensures host.trace[old(|host.trace|)].op == Start(s) && host.trace[old(|host.trace|)].disk == host.disk
  {
    hide Host.Genuine;
    ghost var last := |host.trace|;
    var ok := host.Start(s);
    errors := if ok then earlier else earlier + [StartFailed(s)];
    assert host.trace[last].op == Start(s);
  }

  /** The third loop: the services that ran before are started, in order. */
  method StartServices(host: Host, snapshot: Snapshot) returns (errors: seq<RollbackError>)
    requires host.Genuine()
    modifies host`running, host`launched, host`trace
    ensures host.Genuine()
    ensures forall e | e in errors :: e.StartFailed? && e.service in snapshot.running
    ensures
      var before := Services(old(host.running), old(host.launched), host.disk);
      StartsExplained(host.trace, old(|host.trace|), snapshot, errors, before,
        Services(host.running, host.launched, host.disk))
    ensures old(host.trace) <= host.trace
    ensures forall i | old(|host.trace|) <= i < |host.trace| :: StartEvent(host.trace[i], snapshot, host.disk)
    ensures
      var before := Services(old(host.running), old(host.launched), host.disk);
      var now := Services(host.running, host.launched, host.disk);
      forall i | old(|host.trace|) <= i < |host.trace| :: StartFits(host.trace[i], before, now, errors)
    ensures InStartOrder(host.trace, old(|host.trace|))
  {
    OrdersHaveEveryService();
    hide START_ORDER, STOP_ORDER, InStartOrder, StartOutcome, StartFits, Host.Genuine;
    ghost var before, from := Services(host.running, host.launched, host.disk), |host.trace|;
    assert InStartOrder(host.trace, from) by {
      NoStartYet(host.trace);
    }
    errors := [];
    for k := 0 to 3
      invariant host.Genuine()
      invariant forall e | e in errors :: e.StartFailed? && e.service in snapshot.running && StartRank(e.service) < k
      invariant forall s | StartRank(s) >= k || s !in snapshot.running ::
        SameProcess(before, Services(host.running, host.launched, host.disk), s)
      invariant forall s | StartRank(s) < k && s in snapshot.running ::
        StartOutcome(host.trace, from, before, Services(host.running, host.launched, host.disk), s, errors)
      invariant old(host.trace) <= host.trace
      invariant forall i | from <= i < |host.trace| ::
        StartEvent(host.trace[i], snapshot, host.disk) && StartRank(host.trace[i].op.service) < k
      invariant forall i | from <= i < |host.trace| ::
        StartFits(host.trace[i], before, Services(host.running, host.launched, host.disk), errors)
      invariant InStartOrder(host.trace, from)
    {
      var service := START_ORDER[k];
      if service !in snapshot.running {
        continue;
      }
      ghost var trace, earlier, errors0 := host.trace, Services(host.running, host.launched, host.disk), errors;
      errors := TryStart(host, service, errors, from);
      OneMoreStart(trace, host.trace, from, k);
      ghost var now := Services(host.running, host.launched, host.disk);
      StartOutcomeOf(host.trace, from, before, earlier, now, service, errors);
      forall i | from <= i < |host.trace| ensures StartFits(host.trace[i], before, now, errors) {
        if i < |trace| {
          StartStillFits(trace[i], before, earlier, now, errors0, errors);
        } else {
          StartFitsAll(host.trace[i], before, earlier, now, errors);
        }
      }
      forall s | StartRank(s) > k || s !in snapshot.running ensures SameProcess(before, now, s) {
        assert s != service && SameProcess(before, earlier, s) && SameProcess(earlier, now, s);
      }
      forall s | StartRank(s) < k && s in snapshot.running
        ensures StartOutcome(host.trace, from, before, now, s, errors)
      {
        StartOutcomeKept(trace, host.trace, from, before, earlier, now, s, errors0, errors);
      }
    }
    assert forall s: Service {:trigger s in snapshot.running} :: StartRank(s) < 3;
  }

  lemma StartStillFits(e: Event, before: Services, earlier: Services, now: Services, errors: seq<RollbackError>,
                       more: seq<RollbackError>)
    requires e.op.Start? && StartFits(e, before, earlier, errors) && SameProcess(earlier, now, e.op.service)
    requires StartFailed(e.op.service) in errors <==> StartFailed(e.op.service) in more
    ensures StartFits(e, before, now, more)
  {
  }

  lemma StartFitsAll(e: Event, before: Services, earlier: Services, now: Services, errors: seq<RollbackError>)
    requires e.op.Start? && SameProcess(before, earlier, e.op.service) && StartFits(e, earlier, now, errors)
    ensures StartFits(e, before, now, errors)
  {
  }

  lemma StartOutcomeOf(trace: seq<Event>, from: nat, before: Services, earlier: Services, now: Services, s: Service,
                       errors: seq<RollbackError>)
    requires SameProcess(before, earlier, s) && StartOutcome(trace, from, earlier, now, s, errors)
    ensures StartOutcome(trace, from, before, now, s, errors)
  {
  }

  lemma NoStartYet(trace: seq<Event>)
    ensures InStartOrder(trace, |trace|)
  {
  }

  lemma OneMoreStart(before: seq<Event>, trace: seq<Event>, from: nat, k: nat)
    requires InStartOrder(before, from) && |trace| == |before| + 1 && before <= trace
    requires forall i | from <= i < |before| :: before[i].op.Start? && StartRank(before[i].op.service) < k
    requires trace[|before|].op.Start? && StartRank(trace[|before|].op.service) == k
    ensures InStartOrder(trace, from)
    ensures forall i | from <= i < |trace| :: trace[i].op.Start? && StartRank(trace[i].op.service) <= k
  {
    assert forall i | from <= i < |before| :: trace[i] == before[i];
  }

  ghost predicate StartEvent(e: Event, snapshot: Snapshot, disk: Disk) {
    e.op.Start? && e.op.service in snapshot.running && e.disk == disk
  }

  /** The probe has met a running node, and got a version. */
  ghost predicate GotVersion(e: Event, running: set<Service>) {
    e.reply.ok && e.reply.version.Some? && Node in running
  }

  /** `_restored_service_errors` */
  method RestoredServiceErrors(host: Host, snapshot: Snapshot, user: string, password: string)
    returns (errors: seq<RollbackError>)
    requires host.Genuine()
    modifies host`trace
    ensures host.Genuine()
    ensures forall e | e in errors :: e.NodeNotReady? || e.NotRunning?
    ensures errors == [] ==> snapshot.running <= host.running
    ensures forall s :: NotRunning(s) in errors <==> s != Node && s in snapshot.running && s !in host.running
    ensures host.trace == old(host.trace) +
      if Node in snapshot.running
        then [Event(Probe(user, password, host.NodeProcess()),
          old(host.Next(Probe(user, password, host.NodeProcess()))), host.disk)] else []
    ensures NodeNotReady in errors <==>
      Node in snapshot.running && !GotVersion(host.trace[|host.trace| - 1], host.running)
    ensures errors == [] && Node in snapshot.running && Node in host.launched ==>
      NodeAnswered(host.trace, old(|host.trace|))
    ensures errors != [] && snapshot.running <= host.running ==> Rough(host, host.trace, old(|host.trace|), None)
    ensures errors == [] ==> forall i | old(|host.trace|) <= i < |host.trace| :: host.Smooth(host.trace[i], None)
  {
    hide Host.Genuine;
    errors := [];
    if Node in snapshot.running {
      var asked, answer := host.Probe(user, password);
      if !asked || answer.None? {
        errors := errors + [NodeNotReady];
        assert Node in host.running ==> !host.Smooth(host.trace[old(|host.trace|)], None);
      } else {
        assert Node in host.launched ==> Answered(host.trace[old(|host.trace|)]);
      }
    }
    ghost var probed := errors;
    var watched := [Monitor, Proxy];
    for k := 0 to |watched|
      invariant host.Genuine()
      invariant forall e | e in errors :: e.NodeNotReady? || e.NotRunning?
      invariant forall s :: NotRunning(s) in errors <==>
        s in watched[..k] && s in snapshot.running && s !in host.running
      invariant probed <= errors && (NodeNotReady in errors <==> probed != [])
      invariant errors != [] && snapshot.running <= host.running ==> probed != []
    {
      assert watched[..k + 1] == watched[..k] + [watched[k]];
      if watched[k] in snapshot.running && watched[k] !in host.running {
        errors := errors + [NotRunning(watched[k])];
      }
    }
    assert watched[..|watched|] == watched && watched[0] == Monitor && watched[1] == Proxy;
    forall s: Service | s != Node ensures s in watched {
      match s
      case Monitor =>
      case Proxy =>
    }
    if errors == [] {
      forall s | s in snapshot.running ensures s in host.running {
        assert NotRunning(s) !in errors;
      }
    }
  }

  ghost predicate IsStarting(op: Op) {
    op.Start? || op.Probe?
  }

  /** All stops, restorations and the unit reload come before any start. */
  ghost predicate RestoresBeforeStarts(trace: seq<Event>, from: nat) {
    forall i, j | from <= i < j < |trace| && (trace[i].op.Start? || trace[i].op.Probe?) ::
      trace[j].op.Start? || trace[j].op.Probe?
  }

  /** Stop every service and restore every file. */
  method StopAndRestoreFiles(host: Host, snapshot: Snapshot) returns (errors: seq<RollbackError>)
    requires Complete(snapshot)
    requires host.Genuine()
    modifies host`disk, host`running, host`launched, host`trace
    ensures host.Genuine()
    ensures forall e | e in errors :: e.StopFailed? || e.RestoreFailed?
    ensures Restoring(old(host.disk), host.disk, snapshot, errors, |TRANSACTION_PATHS|)
    ensures forall s | StopFailed(s) !in errors :: s !in host.running
    ensures old(host.trace) <= host.trace
    ensures StopsAccounted(Services(host.running, host.launched, old(host.disk)), host.trace, old(|host.trace|), errors)
    ensures
      var before := Services(old(host.running), old(host.launched), old(host.disk));
      forall s :: KeptOrNew(before, Services(host.running, host.launched, old(host.disk)), s)
    ensures FilesAccounted(host.trace, old(|host.trace|), snapshot, errors)
    ensures forall i | old(|host.trace|) <= i < |host.trace| ::
      (host.trace[i].op.Stop? || IsFileOp(host.trace[i].op))
        && NoPartialFiles(old(host.disk), host.trace[i].disk, snapshot)
    ensures if errors == [] then AllOk(host.trace, old(|host.trace|)) else SomeFailed(host.trace, old(|host.trace|))
  {
    hide TRANSACTION_PATHS, NoPartialFiles, OnlyTouches, Restoring, SomeFailed, StopsAccounted, FilesAccounted;
    hide KeptOrNew, Host.Genuine;
    ghost var before, from := host.disk, |host.trace|;
    Unrestored(before, snapshot);
    errors := StopServices(host);
    ghost var stopped, stopErrors := host.trace, errors;
    var restoreErrors := RestoreFiles(host, snapshot);
    errors := errors + restoreErrors;
    RestoringWithMoreErrors(before, host.disk, snapshot, restoreErrors, errors);
    FilesStillAccounted(host.trace, host.trace, from, |stopped|, snapshot, restoreErrors, errors);
    StopsStillAccounted(Services(host.running, host.launched, before), stopped, host.trace, from, stopErrors, errors);
    FailuresStay(stopped, host.trace, from);
    FailuresEarlier(host.trace, |stopped|, from);
  }

  lemma FailuresEarlier(trace: seq<Event>, later: nat, from: nat)
    requires from <= later
    ensures SomeFailed(trace, later) ==> SomeFailed(trace, from)
  {
  }

  /** The first half of the rollback: stop every service, restore every file, reload. */
  method StopAndRestore(host: Host, snapshot: Snapshot) returns (errors: seq<RollbackError>)
    requires Complete(snapshot)
    requires host.Genuine()
    modifies host`disk, host`loaded, host`running, host`launched, host`trace
    ensures host.Genuine()
    ensures forall e | e in errors :: e.StopFailed? || e.RestoreFailed? || e.ReloadFailed?
    ensures Restoring(old(host.disk), host.disk, snapshot, errors, |TRANSACTION_PATHS|)
    ensures forall s | StopFailed(s) !in errors :: s !in host.running
    ensures ReloadFailed !in errors ==> host.UnitsLoaded()
    ensures old(host.trace) <= host.trace
    ensures StopsAccounted(Services(host.running, host.launched, old(host.disk)), host.trace, old(|host.trace|), errors)
    ensures
      var before := Services(old(host.running), old(host.launched), old(host.disk));
      forall s :: KeptOrNew(before, Services(host.running, host.launched, old(host.disk)), s)
    ensures FilesAccounted(host.trace, old(|host.trace|), snapshot, errors)
    ensures ReloadAccounted(host.trace, old(|host.trace|), errors)
    ensures forall i | old(|host.trace|) <= i < |host.trace| ::
      !IsStarting(host.trace[i].op) && !Launches(host.trace[i].op)
        && NoPartialFiles(old(host.disk), host.trace[i].disk, snapshot)
    ensures if errors == [] then AllOk(host.trace, old(|host.trace|)) else SomeFailed(host.trace, old(|host.trace|))
  {
    hide TRANSACTION_PATHS, NoPartialFiles, OnlyTouches, Restoring, SomeFailed, StopsAccounted, FilesAccounted;
    hide KeptOrNew, Host.Genuine;
    ghost var before, from := host.disk, |host.trace|;
    errors := StopAndRestoreFiles(host, snapshot);
    ghost var restored, fileErrors := host.trace, errors;
    RestoringAll(before, host.disk, snapshot, errors);
    var reloaded := host.Reload();
    errors := if reloaded then errors else errors + [ReloadFailed];
    ReloadIsAccounted(restored, host.trace, from, errors, reloaded);
    RestoringWithMoreErrors(before, host.disk, snapshot, fileErrors, errors);
    FilesStillAccounted(restored, host.trace, from, from, snapshot, fileErrors, errors);
    StopsStillAccounted(Services(host.running, host.launched, before), restored, host.trace, from, fileErrors, errors);
    FailuresStay(restored, host.trace, from);
  }

  ghost predicate ReloadAccounted(trace: seq<Event>, from: nat, errors: seq<RollbackError>) {
    if ReloadFailed in errors then Failed(trace, from, Reload) else Happened(trace, from, Reload)
  }

  lemma ReloadIsAccounted(before: seq<Event>, trace: seq<Event>, from: nat, errors: seq<RollbackError>, ok: bool)
    requires from <= |before| && before <= trace && |trace| == |before| + 1
    requires trace[|before|].op == Reload && trace[|before|].reply.ok == ok && (ReloadFailed in errors <==> !ok)
    ensures ReloadAccounted(trace, from, errors)
    ensures !ok ==> SomeFailed(trace, from)
    ensures ok && AllOk(before, from) ==> AllOk(trace, from)
  {
    assert trace[|before|].op == Reload;
    assert forall i | from <= i < |before| :: trace[i] == before[i];
  }

  lemma ReloadStillAccounted(before: seq<Event>, trace: seq<Event>, from: nat, errors: seq<RollbackError>,
                             more: seq<RollbackError>)
    requires before <= trace && ReloadAccounted(before, from, errors)
    requires ReloadFailed in errors <==> ReloadFailed in more
    ensures ReloadAccounted(trace, from, more)
  {
    hide Failed, Happened;
    if ReloadFailed in errors {
      FailedStays(before, trace, from, from, Reload);
    } else {
      HappenedStays(before, trace, from, from, Reload);
    }
  }

  lemma FilesStillAccounted(before: seq<Event>, trace: seq<Event>, from: nat, later: nat, snapshot: Snapshot,
                            errors: seq<RollbackError>, more: seq<RollbackError>)
    requires Complete(snapshot) && before <= trace && from <= later
    requires FilesAccounted(before, later, snapshot, errors)
    requires forall p :: RestoreFailed(p) in errors <==> RestoreFailed(p) in more
    ensures FilesAccounted(trace, from, snapshot, more)
  {
    hide TRANSACTION_PATHS, FileAccounted;
    forall p | p in TRANSACTION_PATHS ensures FileAccounted(trace, from, snapshot, more, p) {
      FileStillAccounted(before, trace, from, later, snapshot, errors, more, p);
    }
  }

  /** The second half: start what ran before and see whether it is ready. */
  method StartAndCheck(host: Host, snapshot: Snapshot, user: string, password: string)
    returns (errors: seq<RollbackError>)
    requires host.Genuine()
    modifies host`running, host`launched, host`trace
    ensures host.Genuine()
    ensures forall e | e in errors :: e.StartFailed? || e.NodeNotReady? || e.NotRunning?
    ensures errors == [] ==> snapshot.running <= host.running
    ensures errors == [] && Node in snapshot.running && Node !in old(host.running) ==>
      NodeAnswered(host.trace, old(|host.trace|))
    ensures InStartOrder(host.trace, old(|host.trace|))
    ensures
      var before := Services(old(host.running), old(host.launched), host.disk);
      StartsExplained(host.trace, old(|host.trace|), snapshot, errors, before,
        Services(host.running, host.launched, host.disk))
    ensures old(host.trace) <= host.trace
    ensures ReadyAccounted(host.trace, snapshot, errors, user, password,
      Services(host.running, host.launched, host.disk))
    ensures forall i | old(|host.trace|) <= i < |host.trace| ::
        IsStarting(host.trace[i].op) && host.trace[i].disk == host.disk
    ensures forall i | old(|host.trace|) <= i < |host.trace| && Launches(host.trace[i].op) ::
      host.trace[i].op.Start? && host.trace[i].op.service in snapshot.running
    ensures forall i | old(|host.trace|) <= i < |host.trace| && host.trace[i].op.Probe? ::
      Node in snapshot.running && host.trace[i].op == Probe(user, password, host.NodeProcess())
    ensures errors != [] ==> Rough(host, host.trace, old(|host.trace|), None)
    ensures errors == [] && old(host.running) == {} ==>
      forall i | old(|host.trace|) <= i < |host.trace| :: host.Smooth(host.trace[i], None)
  {
    hide Rough, Host.Genuine, Host.Smooth, StartsExplained, StartFits, InStartOrder, NodeAnswered, GotVersion;
    ghost var from, before := |host.trace|, Services(host.running, host.launched, host.disk);
    errors := StartServices(host, snapshot);
    ghost var started, startErrors := host.trace, errors;
    ghost var now := Services(host.running, host.launched, host.disk);
    var readyErrors := RestoredServiceErrors(host, snapshot, user, password);
    errors := errors + readyErrors;
    ExplainedStill(started, host.trace, from, snapshot, startErrors, errors, before, now);
    NewImages(started, from, snapshot, startErrors, before, now);
    OrderStays(started, host.trace, from);
    if NodeAnswered(host.trace, |started|) {
      AnsweredStays(host.trace, host.trace, from, |started|);
    }
    if errors != [] {
      ErrorsAreRough(host, started, from, snapshot, startErrors, readyErrors, before, now);
    } else if before.running == {} {
      StartsAreSmooth(host, started, from, snapshot, before, now);
    }
  }

  /** The readiness errors, exactly: the node is asked last, if it ran before, and the
      others are looked at. */
  ghost predicate ReadyAccounted(trace: seq<Event>, snapshot: Snapshot, errors: seq<RollbackError>, user: string,
                                 password: string, now: Services)
  {
    && (Node in snapshot.running ==>
          trace != [] && trace[|trace| - 1].op == Probe(user, password, ProcessOf(now, Node)))
    && (NodeNotReady in errors <==> Node in snapshot.running && !GotVersion(trace[|trace| - 1], now.running))
    && (forall s :: NotRunning(s) in errors <==> s != Node && s in snapshot.running && s !in now.running)
  }

  ghost function ProcessOf(now: Services, s: Service): Option<Launch> {
    if s in now.running && s in now.launched then Some(now.launched[s]) else None
  }

  lemma StartsAreSmooth(host: Host, started: seq<Event>, from: nat, snapshot: Snapshot, before: Services, now: Services)
    requires started <= host.trace && before.running == {} && snapshot.running <= now.running
    requires forall i | from <= i < |started| ::
      started[i].op.Start? && started[i].op.service in snapshot.running && StartFits(started[i], before, now, [])
    requires forall i | |started| <= i < |host.trace| :: host.Smooth(host.trace[i], None)
    ensures forall i | from <= i < |host.trace| :: host.Smooth(host.trace[i], None)
  {
    forall i | from <= i < |host.trace| ensures host.Smooth(host.trace[i], None) {
      if i < |started| {
        assert host.trace[i] == started[i] && StartFits(started[i], before, now, []);
      }
    }
  }

  lemma NewImages(trace: seq<Event>, from: nat, snapshot: Snapshot, errors: seq<RollbackError>, before: Services,
                  now: Services)
    requires StartsExplained(trace, from, snapshot, errors, before, now)
    ensures forall s | s in now.running && s !in before.running ::
      s in now.launched && now.launched[s].image == now.disk
    ensures forall s | s in snapshot.running && StartFailed(s) !in errors && s !in before.running :: s in now.launched
  {
    forall s | s in now.running && s !in before.running ensures s in now.launched && now.launched[s].image == now.disk {
      assert s in snapshot.running || SameProcess(before, now, s);
    }
  }

  lemma OrderStays(before: seq<Event>, trace: seq<Event>, from: nat)
    requires before <= trace && InStartOrder(before, from)
    requires forall i | |before| <= i < |trace| :: !trace[i].op.Start?
    ensures InStartOrder(trace, from)
  {
    assert forall i | from <= i < |before| :: trace[i] == before[i];
  }

  lemma ErrorsAreRough(host: Host, started: seq<Event>, from: nat, snapshot: Snapshot, startErrors: seq<RollbackError>,
                       readyErrors: seq<RollbackError>, before: Services, now: Services)
    requires started <= host.trace && from <= |started| && startErrors + readyErrors != []
    requires StartsExplained(started, from, snapshot, startErrors, before, now)
    requires forall e | e in startErrors :: e.StartFailed?
    requires readyErrors != [] && snapshot.running <= now.running ==> Rough(host, host.trace, |started|, None)
    ensures Rough(host, host.trace, from, None)
  {
    hide Rough, Failed, StaysDown, Happened;
    if startErrors != [] {
      var s := startErrors[0].service;
      assert startErrors[0] in startErrors && startErrors[0] == StartFailed(s);
      assert s in snapshot.running;
      assert StartOutcome(started, from, before, now, s, startErrors);
      BadStartIsRough(host, started, from, s);
      RoughStays(host, started, host.trace, from, None);
    } else if s :| s in snapshot.running && s !in now.running {
      assert StartOutcome(started, from, before, now, s, startErrors);
      BadStartIsRough(host, started, from, s);
      RoughStays(host, started, host.trace, from, None);
    } else {
      RoughEarlier(host, host.trace, |started|, from, None);
    }
  }

  /** What the rollback did to one service, and what its errors say of that: every service
      is stopped, and started again exactly if it ran before; each error stands for a failed
      step of its own; a service that is still down has not come up; one whose stop has not
      failed runs, if it runs, from the restored disk; one that survived its stop goes on
      from the disk as it was. */
  ghost predicate ServiceAccounted(trace: seq<Event>, from: nat, snapshot: Snapshot, errors: seq<RollbackError>,
                                   before: Services, now: Services, s: Service, stop: Event)
  {
    && stop.op == Stop(s) && (StopFailed(s) in errors <==> !stop.reply.ok)
    && (if s in snapshot.running then
          && (if StartFailed(s) in errors then Failed(trace, from, Start(s)) else Happened(trace, from, Start(s)))
          && (s in now.running || StaysDown(trace, from, s))
          && (Survived(stop.reply) && StartFailed(s) !in errors ==>
                s in now.running && s in now.launched && now.launched[s].image == before.disk)
        else StartFailed(s) !in errors && (StopFailed(s) !in errors ==> s !in now.running))
    && (s in now.running && StopFailed(s) !in errors ==> s in now.launched && now.launched[s].image == now.disk)
    && (s in now.launched ==>
          || (s in before.launched && now.launched[s] == before.launched[s])
          || now.launched[s].image == before.disk || now.launched[s].image == now.disk)
  }

  /** The whole rollback since `from`: no operation is left out because another has failed,
      and the errors are exactly those of the operations that failed. */
  ghost predicate RollbackAccounted(trace: seq<Event>, from: nat, snapshot: Snapshot, errors: seq<RollbackError>,
                                    user: string, password: string, before: Services, now: Services)
    requires Complete(snapshot)
  {
    && |trace| > from + 2
    && ServiceAccounted(trace, from, snapshot, errors, before, now, Proxy, trace[from])
    && ServiceAccounted(trace, from, snapshot, errors, before, now, Monitor, trace[from + 1])
    && ServiceAccounted(trace, from, snapshot, errors, before, now, Node, trace[from + 2])
    && FilesAccounted(trace, from, snapshot, errors)
    && ReloadAccounted(trace, from, errors)
    && ReadyAccounted(trace, snapshot, errors, user, password, now)
  }

  lemma ServiceAccountedFor(stopped: seq<Event>, trace: seq<Event>, from: nat, snapshot: Snapshot,
                            stopErrors: seq<RollbackError>, errors: seq<RollbackError>, before: Services,
                            middle: Services, now: Services, s: Service, stop: Event)
    requires from <= |stopped| && stopped <= trace && middle.disk == now.disk
    requires StopOutcome(Services(middle.running, middle.launched, before.disk), s, stop, stopErrors)
    requires KeptOrNew(before, Services(middle.running, middle.launched, before.disk), s)
    requires StopFailed(s) in errors <==> StopFailed(s) in stopErrors
    requires if s in snapshot.running then StartOutcome(trace, |stopped|, middle, now, s, errors)
             else StartFailed(s) !in errors && SameProcess(middle, now, s)
    ensures ServiceAccounted(trace, from, snapshot, errors, before, now, s, stop)
  {
    hide Failed, Happened, StaysDown;
    if s in snapshot.running {
      if StartFailed(s) in errors {
        FailedStays(trace, trace, from, |stopped|, Start(s));
      } else {
        HappenedStays(trace, trace, from, |stopped|, Start(s));
      }
      if s !in now.running {
        StaysDownStays(trace, trace, from, |stopped|, s);
      }
    }
  }

  lemma RollbackAccountedFor(stopped: seq<Event>, trace: seq<Event>, from: nat, snapshot: Snapshot,
                             stopErrors: seq<RollbackError>, startErrors: seq<RollbackError>,
                             user: string, password: string,
                             before: Services, middle: Services, now: Services)
    requires Complete(snapshot) && from <= |stopped| && stopped <= trace && middle.disk == now.disk
    requires StopsAccounted(Services(middle.running, middle.launched, before.disk), stopped, from, stopErrors)
    requires forall s :: KeptOrNew(before, Services(middle.running, middle.launched, before.disk), s)
    requires FilesAccounted(stopped, from, snapshot, stopErrors) && ReloadAccounted(stopped, from, stopErrors)
    requires forall e | e in stopErrors :: e.StopFailed? || e.RestoreFailed? || e.ReloadFailed?
    requires forall e | e in startErrors :: e.StartFailed? || e.NodeNotReady? || e.NotRunning?
    requires StartsExplained(trace, |stopped|, snapshot, startErrors, middle, now)
    requires ReadyAccounted(trace, snapshot, startErrors, user, password, now)
    ensures RollbackAccounted(trace, from, snapshot, stopErrors + startErrors, user, password, before, now)
  {
    var errors := stopErrors + startErrors;
    hide TRANSACTION_PATHS, FilesAccounted, ReloadAccounted, ServiceAccounted, StopOutcome, KeptOrNew, GotVersion;
    FilesStillAccounted(stopped, trace, from, from, snapshot, stopErrors, errors);
    ReloadStillAccounted(stopped, trace, from, stopErrors, errors);
    ExplainedStill(trace, trace, |stopped|, snapshot, startErrors, errors, middle, now);
    hide StartOutcome;
    forall s, stop | StopOutcome(Services(middle.running, middle.launched, before.disk), s, stop, stopErrors)
      ensures ServiceAccounted(trace, from, snapshot, errors, before, now, s, stop)
    {
      ServiceAccountedFor(stopped, trace, from, snapshot, stopErrors, errors, before, middle, now, s, stop);
    }
  }

  /** `_rollback_config_transaction`: every operation is tried, and the errors are
      collected; it raises exactly when there are any. */
  method RollbackConfigTransaction(host: Host, snapshot: Snapshot, user: string, password: string)
    returns (errors: seq<RollbackError>)
    requires Complete(snapshot)
    requires host.Genuine()
    modifies host`disk, host`loaded, host`running, host`launched, host`trace
    ensures host.Genuine()
    ensures Restoring(old(host.disk), host.disk, snapshot, errors, |TRANSACTION_PATHS|)
    ensures errors == [] ==> host.running == snapshot.running
    ensures errors == [] ==> forall s | s in snapshot.running ::
      s in host.launched && host.launched[s].image == host.disk && host.launched[s].at >= old(|host.trace|)
    ensures ReloadFailed !in errors ==> host.UnitsLoaded()
    ensures forall s | StopFailed(s) !in errors && s !in snapshot.running :: s !in host.running
    ensures old(host.trace) <= host.trace
    ensures forall i | old(|host.trace|) <= i < |host.trace| ::
        NoPartialFiles(old(host.disk), host.trace[i].disk, snapshot)
    ensures forall i | old(|host.trace|) <= i < |host.trace| && Launches(host.trace[i].op) ::
      host.trace[i].op.Start? && host.trace[i].op.service in snapshot.running
    ensures RestoresBeforeStarts(host.trace, old(|host.trace|))
    ensures InStartOrder(host.trace, old(|host.trace|))
    ensures errors == [] && Node in snapshot.running ==> NodeAnswered(host.trace, old(|host.trace|))
    ensures forall i | old(|host.trace|) <= i < |host.trace| && host.trace[i].op.Probe? ::
      Node in snapshot.running && host.trace[i].op == Probe(user, password, host.NodeProcess())
    ensures RollbackAccounted(host.trace, old(|host.trace|), snapshot, errors, user, password,
                              Services(old(host.running), old(host.launched), old(host.disk)),
                              Services(host.running, host.launched, host.disk))
    ensures errors != [] <==> Rough(host, host.trace, old(|host.trace|), None)
  {
    hide TRANSACTION_PATHS, Rough, NoPartialFiles, OnlyTouches, RollbackAccounted, FilesAccounted, ReloadAccounted;
    hide StopsAccounted, KeptOrNew, ReadyAccounted, AllOk, SomeFailed, Host.Smooth, Host.Genuine;
    ghost var start, from := Services(host.running, host.launched, host.disk), |host.trace|;
    var restoreErrors := StopAndRestore(host, snapshot);
    RestoringAll(start.disk, host.disk, snapshot, restoreErrors);
    ghost var restored, middle := host.trace, Services(host.running, host.launched, host.disk);
    var startErrors := StartAndCheck(host, snapshot, user, password);
    if NodeAnswered(host.trace, |restored|) {
      AnsweredStays(host.trace, host.trace, from, |restored|);
    }
    errors := restoreErrors + startErrors;
    RollbackAccountedFor(restored, host.trace, from, snapshot, restoreErrors, startErrors, user,
      password, start, middle,
                         Services(host.running, host.launched, host.disk));
    if errors == [] {
      assert middle.running == {};
      NothingRough(host, restored, from);
    } else if startErrors != [] {
      RoughEarlier(host, host.trace, |restored|, from, None);
    } else {
      FailedIsRough(host, restored, from);
      RoughStays(host, restored, host.trace, from, None);
    }
  }

  lemma NothingRough(host: Host, before: seq<Event>, from: nat)
    requires from <= |before| && before <= host.trace && AllOk(before, from)
    requires forall i | from <= i < |before| :: !IsStarting(before[i].op) && !Launches(before[i].op)
    requires forall i | |before| <= i < |host.trace| :: host.Smooth(host.trace[i], None)
    ensures !Rough(host, host.trace, from, None)
  {
    forall i | from <= i < |host.trace| ensures host.Smooth(host.trace[i], None) {
      if i < |before| {
        assert host.trace[i] == before[i] && before[i].reply.ok;
      }
    }
  }

  lemma FailedIsRough(host: Host, trace: seq<Event>, from: nat)
    requires SomeFailed(trace, from)
    ensures Rough(host, trace, from, None)
  {
    var i :| from <= i < |trace| && !trace[i].reply.ok;
    assert !host.Smooth(trace[i], None);
  }

  lemma Unrestored(disk: Disk, snapshot: Snapshot)
    ensures NoPartialFiles(disk, disk, snapshot)
  {
  }

  lemma RestoringAll(before: Disk, disk: Disk, snapshot: Snapshot, errors: seq<RollbackError>)
    requires Complete(snapshot)
    requires Restoring(before, disk, snapshot, errors, |TRANSACTION_PATHS|)
    ensures NoPartialFiles(before, disk, snapshot)
  {
    hide TRANSACTION_PATHS;
    forall p | p in TRANSACTION_PATHS ensures At(disk, p) == At(before, p) || At(disk, p) == snapshot.files[p] {
      var i :| 0 <= i < |TRANSACTION_PATHS| && TRANSACTION_PATHS[i] == p;
    }
  }
}
