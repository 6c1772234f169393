/** Swapping in the binaries of a release, with rollback (src/bitcoin.py). */
module Activation {
  import opened Text
  import opened Hosts
  import V = Versions

  /** The file name of a path, from which backup names are made. */
  function Name(p: Path): string {
    match p
    case Managed(NodeBinary) => "bitcoind"
    case Managed(CliBinary) => "bitcoin-cli"
    case Managed(ProxyBinary) => "bitcoin-rpc-proxy"
    case Managed(NodeEnv) => "bitcoind"
    case Managed(MonitorEnv) => "bitcoind-monitor"
    case Managed(ProxyEnv) => "bitcoin-rpc-proxy"
    case Managed(MonitorScript) => "bitcoind-monitor.py"
    case Managed(NodeUnit) => "bitcoind.service"
    case Managed(MonitorUnit) => "bitcoind-monitor.service"
    case Managed(ProxyUnit) => "bitcoin-rpc-proxy.service"
    case Staged(name) => name
    case Temporary(target) => "." + Name(target)
    case Elsewhere(name) => name
  }

  function BackupPath(destination: Path): Path {
    Staged(Name(destination) + ".previous")
  }

  /** One item of `destinations`: the installed path and its staged replacement. */
  datatype Swap = Swap(destination: Path, source: Path)

  /** One item of `backups`: where the old file went, `None` when there was none. */
  datatype Backup = Backup(destination: Path, saved: Option<Path>)

  /** Any number of installed paths with distinct names, and staged files that are no
      backups. */
  ghost predicate GoodSwaps(swaps: seq<Swap>) {
    && (forall i | 0 <= i < |swaps| :: !Scratch(swaps[i].destination) && swaps[i].source.Staged?)
    && (forall i, j | 0 <= i < j < |swaps| ::
          Name(swaps[i].destination) != Name(swaps[j].destination) && swaps[i].source != swaps[j].source)
    && (forall i, j | 0 <= i < |swaps| && 0 <= j < |swaps| :: swaps[i].source != BackupPath(swaps[j].destination))
  }

  lemma BackupPathsDiffer(a: Path, b: Path)
    requires Name(a) != Name(b)
    ensures BackupPath(a) != BackupPath(b) && a != b
  {
    assert BackupPath(a).name[..|BackupPath(a).name| - 9] == Name(a);
    assert BackupPath(b).name[..|BackupPath(b).name| - 9] == Name(b);
  }

  lemma SwapsAreApart(swaps: seq<Swap>)
    requires GoodSwaps(swaps)
    ensures forall i, j | 0 <= i < |swaps| && 0 <= j < |swaps| && i != j ::
      swaps[i].destination != swaps[j].destination
        && BackupPath(swaps[i].destination) != BackupPath(swaps[j].destination)
  {
    forall i, j | 0 <= i < |swaps| && 0 <= j < |swaps| && i != j
      ensures swaps[i].destination != swaps[j].destination
        && BackupPath(swaps[i].destination) != BackupPath(swaps[j].destination)
    {
      if i < j {
        BackupPathsDiffer(swaps[i].destination, swaps[j].destination);
      } else {
        BackupPathsDiffer(swaps[j].destination, swaps[i].destination);
      }
    }
  }

  ghost predicate InSwaps(p: Path, swaps: seq<Swap>) {
    exists i | 0 <= i < |swaps| :: InSwap(p, swaps[i])
  }

  ghost predicate InSwap(p: Path, swap: Swap) {
    p == swap.destination || p == swap.source || p == BackupPath(swap.destination)
  }

  /** What swapping may touch: destinations, sources and backups. */
  ghost function SwapArea(swaps: seq<Swap>): iset<Path> {
    iset p: Path | InSwaps(p, swaps)
  }

  /** The original file of every destination is at its destination or at its backup. */
  ghost predicate Preserved(original: Disk, disk: Disk, swaps: seq<Swap>) {
    forall i | 0 <= i < |swaps| :: KeptSomewhere(original, disk, swaps[i].destination)
  }

  ghost predicate KeptSomewhere(original: Disk, disk: Disk, destination: Path) {
    destination in original ==>
      At(disk, destination) == At(original, destination)
        || At(disk, BackupPath(destination)) == At(original, destination)
  }

  /** What the backups record: for each destination reached so far, where its old file
      is, if it had one. */
  ghost predicate Recorded(original: Disk, disk: Disk, swaps: seq<Swap>, backups: seq<Backup>) {
    && |backups| <= |swaps|
    && (forall i | 0 <= i < |backups| :: RecordedAt(original, disk, swaps[i].destination, backups[i]))
    && (forall i | |backups| <= i < |swaps| :: At(disk, swaps[i].destination) == At(original, swaps[i].destination))
  }

  ghost predicate RecordedAt(original: Disk, disk: Disk, destination: Path, backup: Backup) {
    && backup.destination == destination
    && backup.saved == (if destination in original then Some(BackupPath(destination)) else None)
    && (backup.saved.Some? ==> At(disk, BackupPath(destination)) == At(original, destination))
  }

  /** Before item `k`: the items before it are in place, the others untouched. */
  ghost predicate Swapped(original: Disk, disk: Disk, swaps: seq<Swap>, backups: seq<Backup>, k: nat) {
    && |backups| == k <= |swaps|
    && (forall i | 0 <= i < k :: At(disk, swaps[i].destination) == At(original, swaps[i].source))
    && (forall i | k <= i < |swaps| :: At(disk, swaps[i].source) == At(original, swaps[i].source))
    && Recorded(original, disk, swaps, backups)
    && OnlyTouches(original, disk, SwapArea(swaps))
  }

  lemma RecordedIsPreserved(original: Disk, disk: Disk, swaps: seq<Swap>, backups: seq<Backup>)
    requires Recorded(original, disk, swaps, backups)
    requires OnlyTouches(original, disk, SwapArea(swaps))
    ensures forall op, reply | IsMove(op) :: SwapEvent(original, Event(op, reply, disk), swaps)
  {
    forall i | 0 <= i < |swaps| ensures KeptSomewhere(original, disk, swaps[i].destination) {
      if i < |backups| {
        assert RecordedAt(original, disk, swaps[i].destination, backups[i]);
      }
    }
  }

  /** The old file of item `k`, if any, has been moved away and recorded. */
  lemma MovedOut(original: Disk, before: Disk, after: Disk, swaps: seq<Swap>, backups: seq<Backup>, k: nat)
    requires GoodSwaps(swaps) && k < |swaps|
    requires Swapped(original, before, swaps, backups, k)
    requires
      var d := swaps[k].destination;
      d != BackupPath(d) && after == if d in before then Moved(before, d, BackupPath(d)) else before
    ensures
      var d := swaps[k].destination;
      var backup := Backup(d, if d in before then Some(BackupPath(d)) else None);
      && Recorded(original, after, swaps, backups + [backup])
      && OnlyTouches(original, after, SwapArea(swaps))
      && (forall i | 0 <= i < k :: At(after, swaps[i].destination) == At(original, swaps[i].source))
      && (forall i | k <= i < |swaps| :: At(after, swaps[i].source) == At(original, swaps[i].source))
  {
    SwapsAreApart(swaps);
    hide Name, Moved;
    var d := swaps[k].destination;
    var recorded := backups + [Backup(d, if d in before then Some(BackupPath(d)) else None)];
    assert At(before, d) == At(original, d);
    assert InSwap(d, swaps[k]) && InSwap(BackupPath(d), swaps[k]);
    forall i | 0 <= i < |recorded| ensures RecordedAt(original, after, swaps[i].destination, recorded[i]) {
      if i < k {
        assert RecordedAt(original, before, swaps[i].destination, backups[i]);
      }
    }
  }

  /** The new file of item `k` has been moved in. */
  lemma MovedIn(original: Disk, before: Disk, after: Disk, swaps: seq<Swap>, backups: seq<Backup>, k: nat)
    requires GoodSwaps(swaps) && k < |swaps| && |backups| == k + 1
    requires Recorded(original, before, swaps, backups)
    requires OnlyTouches(original, before, SwapArea(swaps))
    requires forall i | 0 <= i < k :: At(before, swaps[i].destination) == At(original, swaps[i].source)
    requires forall i | k <= i < |swaps| :: At(before, swaps[i].source) == At(original, swaps[i].source)
    requires swaps[k].source in before
    requires after == Moved(before, swaps[k].source, swaps[k].destination)
    ensures Swapped(original, after, swaps, backups, k + 1)
  {
    SwapsAreApart(swaps);
    hide Name, BackupPath, Moved, At;
    assert InSwap(swaps[k].destination, swaps[k]) && InSwap(swaps[k].source, swaps[k]);
    forall i | 0 <= i < |backups| ensures RecordedAt(original, after, swaps[i].destination, backups[i]) {
      assert RecordedAt(original, before, swaps[i].destination, backups[i]);
      StagedApart(swaps, i, k);
    }
  }

  lemma StagedApart(swaps: seq<Swap>, i: nat, k: nat)
    requires GoodSwaps(swaps) && i < |swaps| && k < |swaps|
    ensures BackupPath(swaps[i].destination) != swaps[k].source
      && BackupPath(swaps[i].destination) != swaps[k].destination
  {
    hide Name;
  }

  ghost predicate SwapEvent(original: Disk, e: Event, swaps: seq<Swap>) {
    && IsMove(e.op)
    && Preserved(original, e.disk, swaps)
    && OnlyTouches(original, e.disk, SwapArea(swaps))
  }

  /** The forward direction ends with its first step that fails, or with its probe: every
      step before has worked. (A missing source ends it without a failure of a step.) */
  ghost predicate EndsForward(trace: seq<Event>, from: nat, sourcesPresent: bool) {
    && |trace| > from
    && (forall i | from <= i < |trace| - 1 :: trace[i].reply.ok && !trace[i].op.Probe?)
    && (sourcesPresent ==> !trace[|trace| - 1].reply.ok || trace[|trace| - 1].op.Probe?)
  }

  ghost predicate SourcesPresent(disk: Disk, swaps: seq<Swap>) {
    forall i | 0 <= i < |swaps| :: swaps[i].source in disk
  }

  /** `_swap_binaries`; the backups are the dictionary it fills. */
  method SwapBinaries(host: Host, swaps: seq<Swap>) returns (ok: bool, backups: seq<Backup>)
    requires GoodSwaps(swaps)
    requires host.Genuine()
    modifies host`disk, host`trace
    ensures host.Genuine()
    ensures Recorded(old(host.disk), host.disk, swaps, backups)
    ensures OnlyTouches(old(host.disk), host.disk, SwapArea(swaps))
    ensures ok ==> Swapped(old(host.disk), host.disk, swaps, backups, |swaps|)
    ensures old(host.trace) <= host.trace
    ensures forall i | old(|host.trace|) <= i < |host.trace| :: SwapEvent(old(host.disk), host.trace[i], swaps)
    ensures ok ==> AllOk(host.trace, old(|host.trace|))
    ensures !ok ==> EndsForward(host.trace, old(|host.trace|), SourcesPresent(old(host.disk), swaps))
  {
    hide Name, BackupPath, SwapEvent, Recorded, OnlyTouches, Moved, At, SwapArea, SourcesPresent, Host.Genuine;
    ghost var original, from := host.disk, |host.trace|;
    backups := [];
    assert Swapped(original, host.disk, swaps, backups, 0) by {
      NothingSwapped(original, swaps);
    }
    for k := 0 to |swaps|
      invariant host.Genuine()
      invariant Swapped(original, host.disk, swaps, backups, k)
      invariant old(host.trace) <= host.trace
      invariant forall i | from <= i < |host.trace| :: SwapEvent(original, host.trace[i], swaps)
      invariant forall i | from <= i < |host.trace| :: host.trace[i].reply.ok && !host.trace[i].op.Probe?
    {
      var destination, source := swaps[k].destination, swaps[k].source;
      ghost var before := host.disk;
      StagedApart(swaps, k, k);
      var backup := if destination in host.disk then Some(BackupPath(destination)) else None;
      RecordedIsPreserved(original, host.disk, swaps, backups);
      if backup.Some? {
        ok := host.Rename(destination, backup.value);
        if !ok {
          assert !host.trace[|host.trace| - 1].reply.ok;
          return;
        }
      }
      MovedOut(original, before, host.disk, swaps, backups, k);
      backups := backups + [Backup(destination, backup)];
      RecordedIsPreserved(original, host.disk, swaps, backups);
      before := host.disk;
      ok := host.Rename(source, destination);
      if !ok {
        assert source in original <==> source in before;
        assert source in original ==> !host.trace[|host.trace| - 1].reply.ok;
        SourcePresent(original, swaps, k);
        return;
      }
      MovedIn(original, before, host.disk, swaps, backups, k);
      RecordedIsPreserved(original, host.disk, swaps, backups);
    }
    ok := true;
  }

  lemma SourcePresent(disk: Disk, swaps: seq<Swap>, k: nat)
    requires k < |swaps|
    ensures SourcesPresent(disk, swaps) ==> swaps[k].source in disk
  {
  }

  lemma NothingSwapped(disk: Disk, swaps: seq<Swap>)
    ensures Swapped(disk, disk, swaps, [], 0)
  {
  }

  // ------------------------------------------------------------------- rollback

  ghost predicate GoodBackups(backups: seq<Backup>) {
    && (forall i | 0 <= i < |backups| :: GoodBackup(backups[i]))
    && (forall i, j | 0 <= i < j < |backups| :: Name(backups[i].destination) != Name(backups[j].destination))
  }

  ghost predicate GoodBackup(b: Backup) {
    !Scratch(b.destination) && (b.saved.Some? ==> b.saved.value == BackupPath(b.destination))
  }

  ghost predicate InBackups(p: Path, backups: seq<Backup>) {
    exists i | 0 <= i < |backups| :: InBackup(p, backups[i])
  }

  ghost predicate InBackup(p: Path, b: Backup) {
    p == b.destination || b.saved == Some(p)
  }

  ghost function BackupArea(backups: seq<Backup>): iset<Path> {
    iset p: Path | InBackups(p, backups)
  }

  /** What a backup holds: the file to put back, `None` when the destination was new. */
  ghost function SavedFile(disk: Disk, b: Backup): Option<File> {
    if b.saved.Some? then At(disk, b.saved.value) else None
  }

  /** The saved file is still where it was saved, or at its destination. */
  ghost predicate SavedSomewhere(before: Disk, disk: Disk, b: Backup) {
    b.saved.Some? ==>
      At(disk, b.destination) == At(before, b.saved.value) || At(disk, b.saved.value) == At(before, b.saved.value)
  }

  /** The disk while backups are put back: only destinations and backups have changed,
      and no saved file is lost. */
  ghost predicate RollingBack(before: Disk, disk: Disk, backups: seq<Backup>) {
    && OnlyTouches(before, disk, BackupArea(backups))
    && forall i | 0 <= i < |backups| :: SavedSomewhere(before, disk, backups[i])
  }

  /** Before item `k`: the items before it are restored, the others still saved. */
  ghost predicate Restored(before: Disk, disk: Disk, backups: seq<Backup>, k: nat) {
    && k <= |backups|
    && (forall i | 0 <= i < k :: At(disk, backups[i].destination) == SavedFile(before, backups[i]))
    && (forall i | k <= i < |backups| && backups[i].saved.Some? ::
          At(disk, backups[i].saved.value) == At(before, backups[i].saved.value))
    && OnlyTouches(before, disk, BackupArea(backups))
  }

  lemma RestoredIsRollingBack(before: Disk, disk: Disk, backups: seq<Backup>, k: nat)
    requires Restored(before, disk, backups, k)
    ensures RollingBack(before, disk, backups)
  {
    forall i | 0 <= i < |backups| ensures SavedSomewhere(before, disk, backups[i]) {
    }
  }

  lemma BackupsAreApart(backups: seq<Backup>, k: nat)
    requires GoodBackups(backups) && k < |backups|
    ensures forall i | 0 <= i < |backups| && i != k ::
      backups[i].destination != backups[k].destination
        && BackupPath(backups[i].destination) != BackupPath(backups[k].destination)
    ensures forall i | 0 <= i < |backups| && backups[i].saved.Some? ::
      backups[i].saved == Some(BackupPath(backups[i].destination)) && backups[i].saved != Some(backups[k].destination)
  {
    forall i | 0 <= i < |backups| && i != k
      ensures backups[i].destination != backups[k].destination
      ensures BackupPath(backups[i].destination) != BackupPath(backups[k].destination)
    {
      assert Name(backups[i].destination) != Name(backups[k].destination);
      BackupPathsDiffer(backups[i].destination, backups[k].destination);
    }
    forall i | 0 <= i < |backups| ensures GoodBackup(backups[i]) {
    }
    assert GoodBackup(backups[k]);
  }

  lemma RestoredOne(before: Disk, disk: Disk, removed: Disk, after: Disk, backups: seq<Backup>, k: nat)
    requires GoodBackups(backups) && k < |backups|
    requires Restored(before, disk, backups, k)
    requires removed == disk - {backups[k].destination}
    requires
      var b := backups[k];
      after == if b.saved.Some? && b.saved.value in removed && b.saved.value != b.destination
               then Moved(removed, b.saved.value, b.destination) else removed
    ensures Restored(before, after, backups, k + 1)
    ensures RollingBack(before, removed, backups)
  {
    BackupsAreApart(backups, k);
    hide Name, BackupPath, Moved;
    var b := backups[k];
    assert InBackup(b.destination, b) && (b.saved.Some? ==> InBackup(b.saved.value, b));
    forall i | 0 <= i < |backups| ensures SavedSomewhere(before, removed, backups[i]) {
    }
  }

  /** `_restore`: stops at the first operation that fails. */
  method Restore(host: Host, backups: seq<Backup>) returns (ok: bool)
    requires GoodBackups(backups)
    requires host.Genuine()
    modifies host`disk, host`trace
    ensures host.Genuine()
    ensures ok ==> Restored(old(host.disk), host.disk, backups, |backups|)
    ensures RollingBack(old(host.disk), host.disk, backups)
    ensures old(host.trace) <= host.trace
    ensures forall i | old(|host.trace|) <= i < |host.trace| ::
      IsMove(host.trace[i].op) && RollingBack(old(host.disk), host.trace[i].disk, backups)
    ensures if ok then AllOk(host.trace, old(|host.trace|)) else SomeFailed(host.trace, old(|host.trace|))
  {
    hide Name, BackupPath, RollingBack, OnlyTouches, Moved, At, BackupArea, Host.Genuine;
    ghost var before, from := host.disk, |host.trace|;
    NothingRestored(before, backups);
    for k := 0 to |backups|
      invariant host.Genuine()
      invariant AllOk(host.trace, from)
      invariant Restored(before, host.disk, backups, k)
      invariant old(host.trace) <= host.trace
      invariant forall i | from <= i < |host.trace| ::
        IsMove(host.trace[i].op) && RollingBack(before, host.trace[i].disk, backups)
    {
      var destination, saved := backups[k].destination, backups[k].saved;
      ghost var disk := host.disk;
      BackupsAreApart(backups, k);
      RestoredIsRollingBack(before, disk, backups, k);
      ok := host.Unlink(destination);
      if !ok {
        assert !host.trace[|host.trace| - 1].reply.ok;
        return;
      }
      ghost var removed := host.disk;
      if saved.Some? && saved.value in host.disk {
        ok := host.Rename(saved.value, destination);
        ghost var after := if ok then host.disk else Moved(removed, saved.value, destination);
        RestoredOne(before, disk, removed, after, backups, k);
        if !ok {
          assert !host.trace[|host.trace| - 1].reply.ok;
          return;
        }
        RestoredIsRollingBack(before, host.disk, backups, k + 1);
      } else {
        RestoredOne(before, disk, removed, removed, backups, k);
      }
    }
    RestoredIsRollingBack(before, host.disk, backups, |backups|);
    ok := true;
  }

  lemma NothingRestored(disk: Disk, backups: seq<Backup>)
    ensures Restored(disk, disk, backups, 0)
  {
  }

  /** Nothing is known of the node; every other service is as it was. */
  ghost predicate OthersAlone(running: set<Service>, launched: map<Service, Launch>,
                              running': set<Service>, launched': map<Service, Launch>) {
    forall s | s != Node ::
      && (s in running <==> s in running')
      && (s in launched <==> s in launched')
      && (s in launched ==> launched[s] == launched'[s])
  }

  /** The node's last process was launched since `from`, from the disk as it is now. */
  ghost predicate NewProcess(host: Host, from: nat)
    reads host`disk, host`launched
  {
    LaunchedFrom(host.disk, host.launched, from)
  }

  ghost predicate LaunchedFrom(disk: Disk, launched: map<Service, Launch>, from: nat) {
    Node in launched && launched[Node].image == disk && launched[Node].at >= from
  }

  lemma NewerProcess(host: Host, later: nat, from: nat)
    requires from <= later
    ensures NewProcess(host, later) ==> NewProcess(host, from)
  {
  }

  datatype RollbackStep = StopReplacement | RestoreBinaries | StartPrevious

  ghost predicate RollbackOp(op: Op, startPrevious: bool) {
    IsMove(op) || (startPrevious && (op == Stop(Node) || op == Start(Node)))
  }

  /** The operations of a rollback, in order. */
  ghost function Operations(stopReplacement: bool, startPrevious: bool): (steps: seq<RollbackStep>)
    requires stopReplacement ==> startPrevious
    ensures forall k | 0 <= k < |steps| :: (steps[k] == StopReplacement <==> stopReplacement && k == 0)
    ensures forall k | 0 <= k < |steps| :: (steps[k] == StartPrevious <==> startPrevious && k == |steps| - 1)
  {
    (if stopReplacement then [StopReplacement] else []) + [RestoreBinaries]
      + (if startPrevious then [StartPrevious] else [])
  }

  /** One of the operations `_rollback` tries. */
  method TryRollbackStep(host: Host, step: RollbackStep, backups: seq<Backup>) returns (ok: bool)
    requires GoodBackups(backups)
    requires host.Genuine()
    modifies host`disk, host`running, host`launched, host`trace
    ensures host.Genuine()
    ensures step.RestoreBinaries? ==> RollingBack(old(host.disk), host.disk, backups)
    ensures step.RestoreBinaries? && ok ==> Restored(old(host.disk), host.disk, backups, |backups|)
    ensures step.RestoreBinaries? ==> host.running == old(host.running) && host.launched == old(host.launched)
    ensures !step.RestoreBinaries? ==> host.disk == old(host.disk)
    ensures !step.RestoreBinaries? ==> forall i | old(|host.trace|) <= i < |host.trace| ::
      host.trace[i].disk == host.disk
    ensures step.StopReplacement? && ok ==> Node !in host.running
    ensures step.StartPrevious? && ok && Node !in old(host.running) ==> NewProcess(host, old(|host.trace|))
    ensures OthersAlone(old(host.running), old(host.launched), host.running, host.launched)
    ensures old(host.trace) <= host.trace
    ensures if ok then AllOk(host.trace, old(|host.trace|)) else SomeFailed(host.trace, old(|host.trace|))
    ensures !step.RestoreBinaries? ==>
      && |host.trace| == old(|host.trace|) + 1
      && host.trace[old(|host.trace|)].op == if step.StopReplacement? then Stop(Node) else Start(Node)
    ensures step.RestoreBinaries? ==>
      forall i | old(|host.trace|) <= i < |host.trace| :: IsMove(host.trace[i].op)
    ensures forall i | old(|host.trace|) <= i < |host.trace| ::
      && RollbackOp(host.trace[i].op, !step.RestoreBinaries?)
      && (step.RestoreBinaries? ==> RollingBack(old(host.disk), host.trace[i].disk, backups))
  {
    hide Name, BackupPath, RollingBack, Restored, GoodBackups, Host.Genuine;
    match step {
      case StopReplacement => ok := host.Stop(Node);
      case RestoreBinaries => ok := Restore(host, backups);
      case StartPrevious => ok := host.Start(Node);
    }
    assert !step.RestoreBinaries? && !ok ==> !host.trace[|host.trace| - 1].reply.ok;
  }

  /** `_rollback`: every operation is tried and the failed ones are returned; it raises
      exactly when there are any. */
  method Rollback(host: Host, backups: seq<Backup>, stopReplacement: bool, startPrevious: bool)
    returns (errors: seq<RollbackStep>)
    requires GoodBackups(backups)
    requires stopReplacement ==> startPrevious
    requires host.Genuine()
    modifies host`disk, host`running, host`launched, host`trace
    ensures host.Genuine()
    ensures RestoreBinaries !in errors ==> Restored(old(host.disk), host.disk, backups, |backups|)
    ensures RollingBack(old(host.disk), host.disk, backups)
    ensures OthersAlone(old(host.running), old(host.launched), host.running, host.launched)
    ensures !startPrevious ==> host.running == old(host.running) && host.launched == old(host.launched)
    ensures errors == [] && startPrevious && (stopReplacement || Node !in old(host.running)) ==>
      NewProcess(host, old(|host.trace|))
    ensures old(host.trace) <= host.trace
    ensures StepsAccounted(host.trace, old(|host.trace|), stopReplacement, startPrevious, errors)
    ensures if errors == [] then AllOk(host.trace, old(|host.trace|)) else SomeFailed(host.trace, old(|host.trace|))
    ensures forall i | old(|host.trace|) <= i < |host.trace| ::
      RollbackOp(host.trace[i].op, startPrevious) && RollingBack(old(host.disk), host.trace[i].disk, backups)
  {
    NothingTried(host.trace, stopReplacement, startPrevious);
    assert OthersAlone(host.running, host.launched, host.running, host.launched);
    hide RollingBack, Restored, GoodBackups, Host.Genuine, AllOk, SomeFailed, StepsSoFar, StepsAccounted, OthersAlone,
      IsMove;
    ghost var before, from := host.disk, |host.trace|;
    errors := [];
    var operations: seq<RollbackStep> := [];
    if stopReplacement {
      operations := operations + [StopReplacement];
    }
    operations := operations + [RestoreBinaries];
    if startPrevious {
      operations := operations + [StartPrevious];
    }
    assert operations == Operations(stopReplacement, startPrevious);
    NothingRolledBack(before, backups, host.running, host.launched, from, stopReplacement, startPrevious);
    hide Operations, RolledBackSoFar;
    for k := 0 to |operations|
      invariant host.Genuine()
      invariant RolledBackSoFar(before, host.disk, backups, Node in old(host.running), host.running, host.launched,
                                from, stopReplacement, startPrevious, k, errors)
      invariant OthersAlone(old(host.running), old(host.launched), host.running, host.launched)
      invariant !startPrevious ==> host.running == old(host.running) && host.launched == old(host.launched)
      invariant old(host.trace) <= host.trace
      invariant k == 0 ==> |host.trace| == from
      invariant StepsSoFar(host.trace, from, stopReplacement, startPrevious, k, errors)
      invariant RollbackEvents(before, backups, host.trace, from, startPrevious)
    {
      ghost var trace, earlier, running, launched := host.trace, errors, host.running, host.launched;
      ghost var disk := host.disk;
      var ok := TryRollbackStep(host, operations[k], backups);
      if !ok {
        errors := errors + [operations[k]];
      }
      OneMoreStep(trace, host.trace, from, stopReplacement, startPrevious, k, earlier, errors, ok);
      OneMoreRolledBack(before, disk, host.disk, backups, Node in old(host.running), running, host.running, launched,
        host.launched, trace, host.trace, from, stopReplacement, startPrevious, k, earlier, errors, ok);
      OthersStay(old(host.running), old(host.launched), running, launched, host.running, host.launched);
    }
    AllTried(host.trace, from, stopReplacement, startPrevious, errors);
    AllRolledBack(before, host.disk, backups, Node in old(host.running), host.running, host.launched, from,
      stopReplacement, startPrevious, errors);
  }

  /** The state after the first `k` operations. */
  ghost predicate RolledBackSoFar(before: Disk, disk: Disk, backups: seq<Backup>, ran: bool, running: set<Service>,
                                  launched: map<Service, Launch>, from: nat, stopReplacement: bool,
                                  startPrevious: bool, k: nat, errors: seq<RollbackStep>)
  {
    var restoring := if stopReplacement then 1 else 0;
    && (k <= restoring ==> disk == before)
    && (restoring < k && RestoreBinaries !in errors ==> Restored(before, disk, backups, |backups|))
    && (k <= restoring + 1 && !stopReplacement ==> (Node in running <==> ran))
    && (0 < k <= restoring + 1 && stopReplacement && errors == [] ==> Node !in running)
    && (restoring + 1 < k && errors == [] && (stopReplacement || !ran) ==> LaunchedFrom(disk, launched, from))
    && RollingBack(before, disk, backups)
  }

  ghost predicate RollbackEvents(before: Disk, backups: seq<Backup>, trace: seq<Event>, from: nat,
                                 startPrevious: bool)
  {
    forall i | from <= i < |trace| ::
      RollbackOp(trace[i].op, startPrevious) && RollingBack(before, trace[i].disk, backups)
  }

  lemma NothingRolledBack(before: Disk, backups: seq<Backup>, running: set<Service>, launched: map<Service, Launch>,
                          from: nat, stopReplacement: bool, startPrevious: bool)
    ensures RolledBackSoFar(before, before, backups, Node in running, running, launched, from, stopReplacement,
              startPrevious, 0, [])
  {
    NothingRestored(before, backups);
    RestoredIsRollingBack(before, before, backups, 0);
  }

  lemma OneMoreRolledBack(before: Disk, disk: Disk, disk': Disk, backups: seq<Backup>, ran: bool,
                          running: set<Service>, running': set<Service>, launched: map<Service, Launch>,
                          launched': map<Service, Launch>, trace: seq<Event>, trace': seq<Event>, from: nat,
                          stopReplacement: bool, startPrevious: bool, k: nat, errors: seq<RollbackStep>,
                          errors': seq<RollbackStep>, ok: bool)
    requires (stopReplacement ==> startPrevious) && k < |Operations(stopReplacement, startPrevious)|
    requires from <= |trace| && trace <= trace'
    requires errors' == if ok then errors else errors + [Operations(stopReplacement, startPrevious)[k]]
    requires RolledBackSoFar(before, disk, backups, ran, running, launched, from, stopReplacement, startPrevious, k,
               errors)
    requires RollbackEvents(before, backups, trace, from, startPrevious)
    requires
      var step := Operations(stopReplacement, startPrevious)[k];
      if step.RestoreBinaries? then
        && RollingBack(disk, disk', backups) && (ok ==> Restored(disk, disk', backups, |backups|))
        && running' == running && launched' == launched
        && (forall i | |trace| <= i < |trace'| ::
              IsMove(trace'[i].op) && RollingBack(disk, trace'[i].disk, backups))
      else
        && disk' == disk
        && (forall i | |trace| <= i < |trace'| :: RollbackOp(trace'[i].op, true) && trace'[i].disk == disk)
        && (step.StopReplacement? && ok ==> Node !in running')
        && (step.StartPrevious? && ok && Node !in running ==> LaunchedFrom(disk', launched', |trace|))
    ensures RolledBackSoFar(before, disk', backups, ran, running', launched', from, stopReplacement, startPrevious,
              k + 1, errors')
    ensures RollbackEvents(before, backups, trace', from, startPrevious)
  {
    hide RollingBack, Restored, IsMove;
    assert forall i | from <= i < |trace| :: trace'[i] == trace[i];
  }

  lemma AllRolledBack(before: Disk, disk: Disk, backups: seq<Backup>, ran: bool, running: set<Service>,
                      launched: map<Service, Launch>, from: nat, stopReplacement: bool, startPrevious: bool,
                      errors: seq<RollbackStep>)
    requires stopReplacement ==> startPrevious
    requires RolledBackSoFar(before, disk, backups, ran, running, launched, from, stopReplacement, startPrevious,
               |Operations(stopReplacement, startPrevious)|, errors)
    ensures RestoreBinaries !in errors ==> Restored(before, disk, backups, |backups|)
    ensures RollingBack(before, disk, backups)
    ensures errors == [] && startPrevious && (stopReplacement || !ran) ==> LaunchedFrom(disk, launched, from)
  {
  }

  lemma OthersStay(running: set<Service>, launched: map<Service, Launch>,
                   running': set<Service>, launched': map<Service, Launch>,
                   running'': set<Service>, launched'': map<Service, Launch>)
    requires OthersAlone(running, launched, running', launched')
    requires OthersAlone(running', launched', running'', launched'')
    ensures OthersAlone(running, launched, running'', launched'')
  {
  }

  /** The stop comes first, and has an error exactly if it failed. */
  ghost predicate StopAccounted(trace: seq<Event>, from: nat, errors: seq<RollbackStep>) {
    && |trace| > from && trace[from].op == Stop(Node)
    && (StopReplacement in errors <==> !trace[from].reply.ok)
  }

  /** The start comes last, and has an error exactly if it failed. */
  ghost predicate StartAccounted(trace: seq<Event>, from: nat, errors: seq<RollbackStep>) {
    && |trace| > from && trace[|trace| - 1].op == Start(Node)
    && (StartPrevious in errors <==> !trace[|trace| - 1].reply.ok)
  }

  ghost predicate RestoreStepFailed(trace: seq<Event>, from: nat) {
    exists i | from <= i < |trace| :: IsMove(trace[i].op) && !trace[i].reply.ok
  }

  /** No operation of the rollback is left out because another one has failed, and every
      error stands for a failed step of its own operation. */
  ghost predicate StepsAccounted(trace: seq<Event>, from: nat, stopReplacement: bool, startPrevious: bool,
                                 errors: seq<RollbackStep>)
  {
    && (if stopReplacement then StopAccounted(trace, from, errors) else StopReplacement !in errors)
    && (RestoreBinaries in errors ==> RestoreStepFailed(trace, from))
    && (if startPrevious then StartAccounted(trace, from, errors) else StartPrevious !in errors)
  }

  /** The same after the first `k` operations. */
  ghost predicate StepsSoFar(trace: seq<Event>, from: nat, stopReplacement: bool, startPrevious: bool, k: nat,
                             errors: seq<RollbackStep>)
    requires stopReplacement ==> startPrevious
  {
    var steps := Operations(stopReplacement, startPrevious);
    && k <= |steps|
    && (forall step | step in errors :: step in steps[..k])
    && (if errors == [] then AllOk(trace, from) else SomeFailed(trace, from))
    && (stopReplacement && k > 0 ==> StopAccounted(trace, from, errors))
    && (RestoreBinaries in errors ==> RestoreStepFailed(trace, from))
    && (startPrevious && k == |steps| ==> StartAccounted(trace, from, errors))
  }

  lemma NothingTried(trace: seq<Event>, stopReplacement: bool, startPrevious: bool)
    requires stopReplacement ==> startPrevious
    ensures StepsSoFar(trace, |trace|, stopReplacement, startPrevious, 0, [])
  {
    assert startPrevious ==> |Operations(stopReplacement, startPrevious)| > 0;
  }

  lemma OneMoreStep(before: seq<Event>, trace: seq<Event>, from: nat, stopReplacement: bool, startPrevious: bool,
                    k: nat, errors: seq<RollbackStep>, more: seq<RollbackStep>, ok: bool)
    requires (stopReplacement ==> startPrevious) && k < |Operations(stopReplacement, startPrevious)|
    requires from <= |before| && before <= trace
    requires more == if ok then errors else errors + [Operations(stopReplacement, startPrevious)[k]]
    requires StepsSoFar(before, from, stopReplacement, startPrevious, k, errors)
    requires k == 0 ==> |before| == from
    requires if ok then AllOk(trace, |before|) else SomeFailed(trace, |before|)
    requires
      var step := Operations(stopReplacement, startPrevious)[k];
      if step.RestoreBinaries? then forall i | |before| <= i < |trace| :: IsMove(trace[i].op)
      else |trace| == |before| + 1 && trace[|before|].op == if step.StopReplacement? then Stop(Node) else Start(Node)
    ensures StepsSoFar(trace, from, stopReplacement, startPrevious, k + 1, more)
  {
    var steps := Operations(stopReplacement, startPrevious);
    MoreEvents(before, trace, from, ok);
    SingleStep(before, trace, ok);
    hide Operations, AllOk, SomeFailed, RestoreStepFailed, IsMove, StopAccounted, StartAccounted;
    assert forall s :: s in more <==> s in errors || (!ok && s == steps[k]);
    assert steps[..k + 1] == steps[..k] + [steps[k]];
    if stopReplacement {
      if k == 0 {
        StopNowAccounted(trace, from, more);
      } else {
        StopStillAccounted(before, trace, from, errors, more);
      }
    }
    if startPrevious && k + 1 == |steps| {
      assert StartPrevious !in errors;
      StartNowAccounted(trace, from, more);
    }
  }

  lemma StopNowAccounted(trace: seq<Event>, from: nat, errors: seq<RollbackStep>)
    requires |trace| > from && trace[from].op == Stop(Node) && (StopReplacement in errors <==> !trace[from].reply.ok)
    ensures StopAccounted(trace, from, errors)
  {
  }

  lemma StopStillAccounted(before: seq<Event>, trace: seq<Event>, from: nat, errors: seq<RollbackStep>,
                           more: seq<RollbackStep>)
    requires before <= trace && StopAccounted(before, from, errors)
    requires StopReplacement in errors <==> StopReplacement in more
    ensures StopAccounted(trace, from, more)
  {
  }

  lemma StartNowAccounted(trace: seq<Event>, from: nat, errors: seq<RollbackStep>)
    requires |trace| > from && trace[|trace| - 1].op == Start(Node)
    requires StartPrevious in errors <==> !trace[|trace| - 1].reply.ok
    ensures StartAccounted(trace, from, errors)
  {
  }

  lemma SingleStep(before: seq<Event>, trace: seq<Event>, ok: bool)
    requires before <= trace
    requires if ok then AllOk(trace, |before|) else SomeFailed(trace, |before|)
    ensures |trace| == |before| + 1 ==> (ok <==> trace[|before|].reply.ok)
  {
  }

  lemma MoreEvents(before: seq<Event>, trace: seq<Event>, from: nat, ok: bool)
    requires from <= |before| && before <= trace
    requires if ok then AllOk(trace, |before|) else SomeFailed(trace, |before|)
    ensures AllOk(before, from) && ok ==> AllOk(trace, from)
    ensures SomeFailed(before, from) || !ok ==> SomeFailed(trace, from)
    ensures RestoreStepFailed(before, from) ==> RestoreStepFailed(trace, from)
    ensures (forall i | |before| <= i < |trace| :: IsMove(trace[i].op)) && !ok ==> RestoreStepFailed(trace, from)
  {
    assert forall i | from <= i < |before| :: trace[i] == before[i];
    if SomeFailed(before, from) {
      var i :| from <= i < |before| && !before[i].reply.ok;
      assert !trace[i].reply.ok;
    }
    if RestoreStepFailed(before, from) {
      var i :| from <= i < |before| && IsMove(before[i].op) && !before[i].reply.ok;
      assert IsMove(trace[i].op) && !trace[i].reply.ok;
    }
  }

  lemma AllTried(trace: seq<Event>, from: nat, stopReplacement: bool, startPrevious: bool, errors: seq<RollbackStep>)
    requires stopReplacement ==> startPrevious
    requires StepsSoFar(trace, from, stopReplacement, startPrevious,
      |Operations(stopReplacement, startPrevious)|, errors)
    ensures StepsAccounted(trace, from, stopReplacement, startPrevious, errors)
    ensures if errors == [] then AllOk(trace, from) else SomeFailed(trace, from)
  {
    var steps := Operations(stopReplacement, startPrevious);
    assert steps[..|steps|] == steps;
  }

  lemma StartedAgain(trace: seq<Event>, from: nat, stopReplacement: bool, startPrevious: bool,
                     errors: seq<RollbackStep>)
    requires StepsAccounted(trace, from, stopReplacement, startPrevious, errors)
    ensures startPrevious ==> |trace| > from && trace[|trace| - 1].op == Start(Node)
    ensures RestoreBinaries in errors ==> RestoreStepFailed(trace, from)
  {
  }

  // ----------------------------------------------------------------- activation

  /** `_stop_for_activation`: when the stop fails, the node is started again, and the
      failure is reported either way. */
  method StopForActivation(host: Host) returns (ok: bool)
    requires host.Genuine()
    modifies host`running, host`launched, host`trace
    ensures host.Genuine()
    ensures ok ==> host.running == old(host.running) - {Node} && host.launched == old(host.launched)
    ensures OthersAlone(old(host.running), old(host.launched), host.running, host.launched)
    ensures old(host.trace) <= host.trace
    ensures forall i | old(|host.trace|) <= i < |host.trace| ::
      (host.trace[i].op == Stop(Node) || host.trace[i].op == Start(Node)) && host.trace[i].disk == host.disk
    ensures |host.trace| == old(|host.trace|) + (if ok then 1 else 2)
    ensures host.trace[old(|host.trace|)].op == Stop(Node) && (ok <==> host.trace[old(|host.trace|)].reply.ok)
    ensures !ok ==> host.trace[old(|host.trace|) + 1].op == Start(Node)
    ensures if ok then AllOk(host.trace, old(|host.trace|)) else SomeFailed(host.trace, old(|host.trace|))
  {
    hide Host.Genuine;
    ok := host.Stop(Node);
    if !ok {
      var recovered := host.Start(Node);
      assert !host.trace[old(|host.trace|)].reply.ok;
    }
  }

  /** `_verify_running_version`: it passes exactly if the node runs and the probe gets a
      version from it whose numbers are those of the expected one, trailing zeros apart. */
  method VerifyRunningVersion(host: Host, version: string, user: string, password: string) returns (ok: bool)
    requires host.Genuine()
    modifies host`trace
    ensures host.Genuine()
    ensures host.trace ==
      old(host.trace) + [Event(Probe(user, password, host.NodeProcess()),
        old(host.Next(Probe(user, password, host.NodeProcess()))), host.disk)]
    ensures
      var reply := host.trace[old(|host.trace|)].reply;
      ok <==>
        && Node in host.running && reply.ok && reply.version.Some?
        && host.numbers(reply.version.value).Some? && host.numbers(version).Some?
        && forall i: nat ::
             V.Component(host.numbers(reply.version.value).value, i) == V.Component(host.numbers(version).value, i)
  {
    hide V.Trim, V.Component, Host.Genuine;
    ghost var r := host.Next(Probe(user, password, host.NodeProcess()));
    var asked, answer := host.Probe(user, password);
    ghost var e := host.trace[old(|host.trace|)];
    assert e.reply == r && e.op.Probe?;
    if !asked || answer.None? {
      return false;
    }
    var found, expected := host.numbers(answer.value), host.numbers(version);
    if found.None? || expected.None? {
      return false;
    }
    var a := V.VersionParts(found.value);
    var b := V.VersionParts(expected.value);
    V.SameVersion(found.value, expected.value);
    return a == b;
  }

  datatype Outcome = Activated | StopFailed | RolledBack | RollbackFailed

  /** An event of an activation: no original file is lost, no file but those of the swap
      changes, services are only touched if the node was running, and a probe meets a
      process launched from files that differ from the original ones in the swap alone. */
  ghost predicate ActivationEvent(original: Disk, e: Event, swaps: seq<Swap>, wasRunning: bool, user: string,
        password: string) {
    && Preserved(original, e.disk, swaps)
    && OnlyTouches(original, e.disk, SwapArea(swaps))
    && (IsReleaseOp(e.op) || (wasRunning && (e.op == Stop(Node) || e.op == Start(Node) || e.op.Probe?)))
    && (e.op.Probe? ==> e.op.user == user && e.op.password == password)
    && (e.op.Probe? && e.op.process.Some? ==> OnlyTouches(original, e.op.process.value.image, SwapArea(swaps)))
  }

  ghost predicate ActivationEvents(original: Disk, trace: seq<Event>, from: nat, swaps: seq<Swap>, wasRunning: bool,
                                   user: string, password: string)
  {
    forall i | from <= i < |trace| :: ActivationEvent(original, trace[i], swaps, wasRunning, user, password)
  }

  ghost predicate SameDestinations(a: Disk, b: Disk, swaps: seq<Swap>) {
    forall i | 0 <= i < |swaps| :: At(b, swaps[i].destination) == At(a, swaps[i].destination)
  }

  lemma RecordedBackupsAreGood(original: Disk, disk: Disk, swaps: seq<Swap>, backups: seq<Backup>)
    requires GoodSwaps(swaps) && Recorded(original, disk, swaps, backups)
    ensures GoodBackups(backups)
  {
    hide Name, BackupPath, Scratch;
    forall i | 0 <= i < |backups| ensures RecordedAt(original, disk, swaps[i].destination, backups[i]) {
    }
  }

  lemma RestoredToOriginal(original: Disk, middle: Disk, after: Disk, swaps: seq<Swap>, backups: seq<Backup>)
    requires GoodSwaps(swaps) && Recorded(original, middle, swaps, backups)
    requires Restored(middle, after, backups, |backups|)
    ensures SameDestinations(original, after, swaps)
  {
    hide Name, Scratch;
    forall i | 0 <= i < |swaps| ensures At(after, swaps[i].destination) == At(original, swaps[i].destination) {
      if i < |backups| {
        assert RecordedAt(original, middle, swaps[i].destination, backups[i]);
      } else {
        NotInBackups(original, middle, swaps, backups, i);
      }
    }
  }

  lemma NotInBackups(original: Disk, disk: Disk, swaps: seq<Swap>, backups: seq<Backup>, i: nat)
    requires GoodSwaps(swaps) && Recorded(original, disk, swaps, backups)
    requires |backups| <= i < |swaps|
    ensures swaps[i].destination !in BackupArea(backups)
  {
    SwapsAreApart(swaps);
    hide Name;
    forall j | 0 <= j < |backups| ensures !InBackup(swaps[i].destination, backups[j]) {
      assert RecordedAt(original, disk, swaps[j].destination, backups[j]);
    }
  }

  /** While the backups are put back, every original file stays somewhere. */
  lemma RollingBackPreserves(original: Disk, middle: Disk, disk: Disk, swaps: seq<Swap>, backups: seq<Backup>)
    requires GoodSwaps(swaps) && Recorded(original, middle, swaps, backups)
    requires OnlyTouches(original, middle, SwapArea(swaps))
    requires RollingBack(middle, disk, backups)
    ensures Preserved(original, disk, swaps)
    ensures OnlyTouches(original, disk, SwapArea(swaps))
  {
    hide Name, BackupPath;
    forall i | 0 <= i < |swaps| ensures KeptSomewhere(original, disk, swaps[i].destination) {
      if i < |backups| {
        assert RecordedAt(original, middle, swaps[i].destination, backups[i]);
        assert SavedSomewhere(middle, disk, backups[i]);
      } else {
        NotInBackups(original, middle, swaps, backups, i);
      }
    }
    forall p | p !in SwapArea(swaps) ensures p !in BackupArea(backups) {
      forall j | 0 <= j < |backups| ensures !InBackup(p, backups[j]) {
        assert RecordedAt(original, middle, swaps[j].destination, backups[j]);
        assert !InSwap(p, swaps[j]);
      }
    }
  }

  lemma SameDiskIsFine(original: Disk, disk: Disk, swaps: seq<Swap>, backups: seq<Backup>)
    requires Recorded(original, disk, swaps, backups)
    ensures Preserved(original, disk, swaps)
  {
    forall i | 0 <= i < |swaps| ensures KeptSomewhere(original, disk, swaps[i].destination) {
      if i < |backups| {
        assert RecordedAt(original, disk, swaps[i].destination, backups[i]);
      }
    }
  }

  /** The body of `_activate`'s `try`. `activated` says whether all files are in place. */
  method SwapAndStart(host: Host, version: string, user: string, password: string, swaps: seq<Swap>, was: bool)
    returns (ok: bool, activated: bool, backups: seq<Backup>)
    requires GoodSwaps(swaps) && (was ==> Node !in host.running)
    requires host.Genuine()
    modifies host`disk, host`running, host`launched, host`trace
    ensures host.Genuine()
    ensures Recorded(old(host.disk), host.disk, swaps, backups)
    ensures OnlyTouches(old(host.disk), host.disk, SwapArea(swaps))
    ensures ok ==> Swapped(old(host.disk), host.disk, swaps, backups, |swaps|)
    ensures OthersAlone(old(host.running), old(host.launched), host.running, host.launched)
    ensures !was ==> host.running == old(host.running) && host.launched == old(host.launched)
    ensures ok && was ==> Node in host.running && NewProcess(host, old(|host.trace|))
    ensures ok && was ==> NodeAnswered(host.trace, old(|host.trace|))
    ensures !activated ==> host.running == old(host.running)
    ensures old(host.trace) <= host.trace
    ensures ActivationEvents(old(host.disk), host.trace, old(|host.trace|), swaps, was, user, password)
    ensures ok ==> forall i | old(|host.trace|) <= i < |host.trace| :: host.Smooth(host.trace[i], Some(version))
    ensures !ok && SourcesPresent(old(host.disk), swaps) ==> Rough(host, host.trace, old(|host.trace|), Some(version))
    ensures !ok ==> EndsForward(host.trace, old(|host.trace|), SourcesPresent(old(host.disk), swaps))
  {
    hide Name, BackupPath, Recorded, OnlyTouches, SwapArea, Preserved, SourcesPresent, SwapEvent, Swapped,
      Host.Genuine, ActivationEvents;
    ghost var original, from := host.disk, |host.trace|;
    activated := false;
    ok, backups := SwapBinaries(host, swaps);
    SwapEventsAreFine(original, host.trace, from, swaps, was, user, password);
    if !ok {
      return;
    }
    activated := true;
    SwappedMeans(original, host.disk, swaps, backups);
    SwapsAreSmooth(host, from, Some(version));
    if was {
      ghost var start, swapped := |host.trace|, host.trace;
      ok := host.Start(Node);
      StartEventsAreFine(original, host.disk, host.trace, start, swaps, user, password);
      EventsTogether(original, swapped, host.trace, from, swaps, was, user, password);
      if !ok {
        assert !host.Smooth(host.trace[start], Some(version));
        return;
      }
      ok := VerifyRunningVersion(host, version, user, password);
      StartEventsAreFine(original, host.disk, host.trace, start, swaps, user, password);
      EventsTogether(original, swapped, host.trace, from, swaps, was, user, password);
      if !ok {
        assert !host.Smooth(host.trace[start], Some(version)) || !host.Smooth(host.trace[start + 1], Some(version));
      }
    }
  }

  /** Steps on files that succeed are smooth. */
  lemma SwapsAreSmooth(host: Host, from: nat, expected: Option<string>)
    requires AllOk(host.trace, from)
    requires forall i | from <= i < |host.trace| :: IsReleaseOp(host.trace[i].op)
    ensures forall i | from <= i < |host.trace| :: host.Smooth(host.trace[i], expected)
  {
  }

  /** The rest of `_activate` once a running node has been stopped. When the forward
      direction fails, the rollback begins at step `turned`. */
  method ReplaceOrRollBack(host: Host, version: string, user: string, password: string, swaps: seq<Swap>, was: bool)
    returns (r: Outcome, ghost turned: nat)
    requires GoodSwaps(swaps) && (was ==> Node !in host.running)
    requires host.Genuine()
    modifies host`disk, host`running, host`launched, host`trace
    ensures host.Genuine()
    ensures !r.StopFailed?
    ensures r.Activated? ==> forall i | 0 <= i < |swaps| ::
      At(host.disk, swaps[i].destination) == old(At(host.disk, swaps[i].source))
    ensures r.Activated? || SameDestinations(old(host.disk), host.disk, swaps)
      || (r.RollbackFailed? && RestoreStepFailed(host.trace, turned))
    ensures OnlyTouches(old(host.disk), host.disk, SwapArea(swaps))
    ensures Preserved(old(host.disk), host.disk, swaps)
    ensures OthersAlone(old(host.running), old(host.launched), host.running, host.launched)
    ensures !was ==> host.running == old(host.running) && host.launched == old(host.launched)
    ensures r.Activated? && was ==> Node in host.running && NodeAnswered(host.trace, old(|host.trace|))
    ensures (r.Activated? || r.RolledBack?) && was ==> NewProcess(host, old(|host.trace|))
    ensures old(host.trace) <= host.trace
    ensures !r.Activated? && was ==>
      |host.trace| > old(|host.trace|) && host.trace[|host.trace| - 1].op == Start(Node)
    ensures r.Activated? <==> turned == 0
    ensures !r.Activated? ==>
      && old(|host.trace|) < turned <= |host.trace|
      && EndsForward(host.trace[..turned], old(|host.trace|), SourcesPresent(old(host.disk), swaps))
      && (r.RollbackFailed? <==> SomeFailed(host.trace, turned))
    ensures ActivationEvents(old(host.disk), host.trace, old(|host.trace|), swaps, was, user, password)
    ensures StopsAtFailure(host, host.trace, old(|host.trace|), Some(version))
    ensures r.Activated? ==> forall i | old(|host.trace|) <= i < |host.trace| ::
        host.Smooth(host.trace[i], Some(version))
    ensures !r.Activated? && SourcesPresent(old(host.disk), swaps) ==>
        Rough(host, host.trace, old(|host.trace|), Some(version))
  {
    hide Name, BackupPath, RollingBack, Restored, Recorded, OnlyTouches, SwapArea, Preserved, SourcesPresent, Swapped,
      GoodSwaps, GoodBackups, AllOk, SomeFailed, EndsForward, NodeAnswered, Host.Genuine, StepsAccounted, OthersAlone,
      Host.Smooth, Rough, ActivationEvents, SameDestinations, RestoreStepFailed, CleansUp, StopsAtFailure;
    ghost var original, from := host.disk, |host.trace|;
    var ok, activated, backups := SwapAndStart(host, version, user, password, swaps, was);
    ghost var middle, trace, running, launched := host.disk, host.trace, host.running, host.launched;
    turned := if ok then 0 else |trace|;
    if ok {
      SwappedMeans(original, host.disk, swaps, backups);
      SmoothStops(host, host.trace, from, Some(version));
      r := Activated;
      return;
    }
    ActivationLaunchesNode(original, trace, from, swaps, was, user, password);
    EndsForwardStops(host, trace, from, SourcesPresent(original, swaps), Some(version));
    SomethingHappened(trace, from, SourcesPresent(original, swaps));
    RecordedBackupsAreGood(original, middle, swaps, backups);
    var errors := Rollback(host, backups, activated && was, was);
    assert host.trace[..turned] == trace;
    OthersStay(old(host.running), old(host.launched), running, launched, host.running, host.launched);
    StartedAgain(host.trace, turned, activated && was, was, errors);
    RollbackCleansUp(host.trace, turned, was);
    StopsThenCleansUp(host, trace, host.trace, from, Some(version));
    if SourcesPresent(original, swaps) {
      RoughStays(host, trace, host.trace, from, Some(version));
    }
    RollingBackPreserves(original, middle, host.disk, swaps, backups);
    RollbackEventsAreFine(original, middle, host.trace, turned, swaps, backups, was, user, password);
    EventsTogether(original, trace, host.trace, from, swaps, was, user, password);
    if RestoreBinaries !in errors {
      RestoredToOriginal(original, middle, host.disk, swaps, backups);
    }
    OkOrFailed(host.trace, turned);
    r := if errors == [] then RolledBack else RollbackFailed;
  }

  lemma EndsForwardStops(host: Host, trace: seq<Event>, from: nat, sourcesPresent: bool, expected: Option<string>)
    requires EndsForward(trace, from, sourcesPresent)
    requires forall i | from <= i < |trace| :: LaunchesOnlyNode(trace[i].op)
    ensures StopsAtFailure(host, trace, from, expected)
  {
    hide V.Trim;
    forall i | from <= i < |trace| - 1 ensures !Fails(host, trace[i], expected) {
      assert LaunchesOnlyNode(trace[i].op);
    }
  }

  ghost predicate LaunchesOnlyNode(op: Op) {
    Launches(op) ==> op.service == Node
  }

  lemma ActivationLaunchesNode(original: Disk, trace: seq<Event>, from: nat, swaps: seq<Swap>, wasRunning: bool,
        user: string, password: string)
    requires ActivationEvents(original, trace, from, swaps, wasRunning, user, password)
    ensures forall i | from <= i < |trace| :: LaunchesOnlyNode(trace[i].op)
  {
    hide Preserved, SwapArea;
    forall i | from <= i < |trace| ensures LaunchesOnlyNode(trace[i].op) {
      assert ActivationEvent(original, trace[i], swaps, wasRunning, user, password);
    }
  }

  lemma RollbackCleansUp(trace: seq<Event>, from: nat, startPrevious: bool)
    requires forall i | from <= i < |trace| :: RollbackOp(trace[i].op, startPrevious)
    ensures forall i | from <= i < |trace| :: CleansUp(trace[i].op)
  {
  }

  lemma SomethingHappened(trace: seq<Event>, from: nat, sourcesPresent: bool)
    requires EndsForward(trace, from, sourcesPresent)
    ensures |trace| > from
  {
  }

  /** A running node is stopped first, which ends the activation exactly if it fails, and
      started last, unless the activation succeeds. */
  ghost predicate StoppedFirst(trace: seq<Event>, from: nat, r: Outcome) {
    && |trace| > from && trace[from].op == Stop(Node) && (r.StopFailed? <==> !trace[from].reply.ok)
    && (r.Activated? || trace[|trace| - 1].op == Start(Node))
  }

  lemma StopThenRest(stopped: seq<Event>, trace: seq<Event>, from: nat, r: Outcome)
    requires |stopped| == from + 1 && stopped <= trace && stopped[from].op == Stop(Node) && stopped[from].reply.ok
    requires !r.StopFailed? && (r.Activated? || trace[|trace| - 1].op == Start(Node))
    ensures StoppedFirst(trace, from, r)
  {
  }

  lemma StopThenStart(trace: seq<Event>, from: nat)
    requires |trace| == from + 2 && trace[from].op == Stop(Node) && !trace[from].reply.ok
    requires trace[from + 1].op == Start(Node)
    ensures StoppedFirst(trace, from, StopFailed)
  {
  }

  /** `_activate`: all destinations are replaced, or none. When the forward direction fails,
      the rollback begins at step `turned`. */
  method Activate(host: Host, version: string, user: string, password: string, swaps: seq<Swap>)
    returns (r: Outcome, ghost turned: nat)
    requires GoodSwaps(swaps)
    requires host.Genuine()
    modifies host`disk, host`running, host`launched, host`trace
    ensures host.Genuine()
    ensures r.Activated? ==> forall i | 0 <= i < |swaps| ::
      At(host.disk, swaps[i].destination) == old(At(host.disk, swaps[i].source))
    ensures r.Activated? || SameDestinations(old(host.disk), host.disk, swaps)
      || (r.RollbackFailed? && RestoreStepFailed(host.trace, turned))
    ensures OnlyTouches(old(host.disk), host.disk, SwapArea(swaps))
    ensures Preserved(old(host.disk), host.disk, swaps)
    ensures OthersAlone(old(host.running), old(host.launched), host.running, host.launched)
    ensures Node !in old(host.running) ==> host.running == old(host.running) && host.launched == old(host.launched)
    ensures r.Activated? && Node in old(host.running) ==>
      Node in host.running && NodeAnswered(host.trace, old(|host.trace|))
    ensures (r.Activated? || r.RolledBack?) && Node in old(host.running) ==> NewProcess(host, old(|host.trace|))
    ensures old(host.trace) <= host.trace
    ensures if Node in old(host.running) then StoppedFirst(host.trace, old(|host.trace|), r) else !r.StopFailed?
    ensures r.RolledBack? || r.RollbackFailed? ==>
      && old(|host.trace|) < turned <= |host.trace|
      && EndsForward(host.trace[..turned], old(|host.trace|), SourcesPresent(old(host.disk), swaps))
      && (r.RollbackFailed? <==> SomeFailed(host.trace, turned))
    ensures ActivationEvents(old(host.disk), host.trace, old(|host.trace|), swaps, Node in old(host.running), user,
              password)
    ensures StopsAtFailure(host, host.trace, old(|host.trace|), Some(version))
    ensures r.Activated? ==> forall i | old(|host.trace|) <= i < |host.trace| ::
        host.Smooth(host.trace[i], Some(version))
    ensures !r.Activated? && SourcesPresent(old(host.disk), swaps) ==>
        Rough(host, host.trace, old(|host.trace|), Some(version))
  {
    assert OthersAlone(host.running, host.launched, host.running, host.launched);
    hide *;
    ghost var original, from := host.disk, |host.trace|;
    Untouched(original, swaps);
    var was := Node in host.running;
    turned := 0;
    if was {
      var stopped := StopForActivation(host);
      StopEventsAreFine(original, host.trace, from, swaps, user, password);
      if !stopped {
        FailureIsRough(host, from, Some(version));
        StopsAndStarts(host, host.trace, from, Some(version));
        StopThenStart(host.trace, from);
        SameFilesThere(original, swaps);
        r := StopFailed;
        return;
      }
    }
    ghost var stopped, running, launched := host.trace, host.running, host.launched;
    NothingYet(original, stopped, swaps, was, user, password);
    StopWasSmooth(host, stopped, from, version);
    r, turned := ReplaceOrRollBack(host, version, user, password, swaps, was);
    OthersStay(old(host.running), old(host.launched), running, launched, host.running, host.launched);
    NewerProcess(host, |stopped|, from);
    EventsTogether(original, stopped, host.trace, from, swaps, was, user, password);
    StopsBehindStop(host, stopped, host.trace, from, Some(version));
    if was {
      StopThenRest(stopped, host.trace, from, r);
    }
    if r.Activated? {
      if was {
        AnsweredStays(host.trace, host.trace, from, |stopped|);
      }
    } else {
      StoppedThenEnded(stopped, host.trace[..turned], from, SourcesPresent(original, swaps));
      if SourcesPresent(original, swaps) {
        RoughEarlier(host, host.trace, |stopped|, from, Some(version));
      }
    }
  }

  lemma StopsAndStarts(host: Host, trace: seq<Event>, from: nat, expected: Option<string>)
    requires |trace| == from + 2 && trace[from + 1].op == Start(Node)
    ensures StopsAtFailure(host, trace, from, expected)
  {
    hide Host.Smooth;
  }

  lemma StopsBehindStop(host: Host, stopped: seq<Event>, trace: seq<Event>, from: nat, expected: Option<string>)
    requires from <= |stopped| && stopped <= trace
    requires forall i | from <= i < |stopped| :: host.Smooth(stopped[i], expected)
    requires StopsAtFailure(host, trace, |stopped|, expected)
    ensures StopsAtFailure(host, trace, from, expected)
  {
    hide Host.Smooth;
    StopsLater(host, stopped, trace, from, expected);
  }

  lemma SameFilesThere(disk: Disk, swaps: seq<Swap>)
    ensures SameDestinations(disk, disk, swaps)
  {
  }

  lemma StopEventsAreFine(original: Disk, trace: seq<Event>, from: nat, swaps: seq<Swap>, user: string,
        password: string)
    requires forall i | from <= i < |trace| ::
      (trace[i].op == Stop(Node) || trace[i].op == Start(Node)) && trace[i].disk == original
    ensures ActivationEvents(original, trace, from, swaps, true, user, password)
  {
    Untouched(original, swaps);
  }

  lemma OkOrFailed(trace: seq<Event>, from: nat)
    ensures AllOk(trace, from) <==> !SomeFailed(trace, from)
  {
  }

  lemma StartEventsAreFine(original: Disk, disk: Disk, trace: seq<Event>, from: nat, swaps: seq<Swap>, user: string,
        password: string)
    requires Preserved(original, disk, swaps) && OnlyTouches(original, disk, SwapArea(swaps))
    requires forall i | from <= i < |trace| :: trace[i].disk == disk && StartEvent(trace[i], user, password)
    ensures ActivationEvents(original, trace, from, swaps, true, user, password)
  {
  }

  ghost predicate StartEvent(e: Event, user: string, password: string) {
    e.op == Start(Node)
      || (e.op.Probe? && e.op.user == user && e.op.password == password
          && (e.op.process.Some? ==> e.op.process.value.image == e.disk))
  }

  lemma NothingYet(original: Disk, trace: seq<Event>, swaps: seq<Swap>, wasRunning: bool, user: string,
        password: string)
    ensures ActivationEvents(original, trace, |trace|, swaps, wasRunning, user, password)
  {
  }

  lemma EventsTogether(original: Disk, before: seq<Event>, trace: seq<Event>, from: nat, swaps: seq<Swap>,
                       wasRunning: bool, user: string, password: string)
    requires before <= trace
    requires ActivationEvents(original, before, from, swaps, wasRunning, user, password)
    requires ActivationEvents(original, trace, |before|, swaps, wasRunning, user, password)
    ensures ActivationEvents(original, trace, from, swaps, wasRunning, user, password)
  {
    assert forall i | from <= i < |before| :: trace[i] == before[i];
  }

  lemma StopWasSmooth(host: Host, stopped: seq<Event>, from: nat, version: string)
    requires from <= |stopped| <= from + 1
    requires |stopped| > from ==> stopped[from].op.Stop? && stopped[from].reply.ok
    ensures forall i | from <= i < |stopped| :: host.Smooth(stopped[i], Some(version))
  {
  }

  lemma StoppedThenEnded(stopped: seq<Event>, trace: seq<Event>, from: nat, sourcesPresent: bool)
    requires from <= |stopped| <= from + 1 && stopped <= trace
    requires |stopped| > from ==> stopped[from].op.Stop? && stopped[from].reply.ok
    requires EndsForward(trace, |stopped|, sourcesPresent)
    ensures EndsForward(trace, from, sourcesPresent)
  {
  }

  lemma Untouched(disk: Disk, swaps: seq<Swap>)
    ensures Preserved(disk, disk, swaps) && OnlyTouches(disk, disk, SwapArea(swaps))
  {
  }

  lemma SwappedMeans(original: Disk, disk: Disk, swaps: seq<Swap>, backups: seq<Backup>)
    requires Swapped(original, disk, swaps, backups, |swaps|)
    ensures Preserved(original, disk, swaps)
    ensures forall i | 0 <= i < |swaps| :: At(disk, swaps[i].destination) == At(original, swaps[i].source)
  {
    SameDiskIsFine(original, disk, swaps, backups);
  }

  lemma SwapEventsAreFine(original: Disk, trace: seq<Event>, from: nat, swaps: seq<Swap>,
                          wasRunning: bool, user: string, password: string)
    requires forall i | from <= i < |trace| :: SwapEvent(original, trace[i], swaps)
    ensures forall i | from <= i < |trace| :: IsReleaseOp(trace[i].op)
    ensures ActivationEvents(original, trace, from, swaps, wasRunning, user, password)
  {
  }

  lemma RollbackEventsAreFine(original: Disk, middle: Disk, trace: seq<Event>, from: nat, swaps: seq<Swap>,
                              backups: seq<Backup>, wasRunning: bool, user: string, password: string)
    requires GoodSwaps(swaps) && Recorded(original, middle, swaps, backups)
    requires OnlyTouches(original, middle, SwapArea(swaps))
    requires forall i | from <= i < |trace| ::
        RollbackOp(trace[i].op, wasRunning) && RollingBack(middle, trace[i].disk, backups)
    ensures ActivationEvents(original, trace, from, swaps, wasRunning, user, password)
  {
    forall i | from <= i < |trace| ensures ActivationEvent(original, trace[i], swaps, wasRunning, user, password) {
      RollingBackPreserves(original, middle, trace[i].disk, swaps, backups);
    }
  }

  // -------------------------------------------------------------------- release

  const STAGED_NODE := Staged("bitcoind")
  const STAGED_CLI := Staged("bitcoin-cli")
  const RELEASE_SWAPS := [Swap(Managed(NodeBinary), STAGED_NODE), Swap(Managed(CliBinary), STAGED_CLI)]

  ghost function ReleaseArea(): iset<Path> {
    iset p: Path | Scratch(p) || p == Managed(NodeBinary) || p == Managed(CliBinary)
  }

  lemma ReleaseSwapsAreGood()
    ensures GoodSwaps(RELEASE_SWAPS) && STAGED_NODE != STAGED_CLI
    ensures SwapArea(RELEASE_SWAPS) <= ReleaseArea()
  {
    assert |"bitcoind"| == 8 && |"bitcoin-cli"| == 11;
    var a, b := Name(Managed(NodeBinary)) + ".previous", Name(Managed(CliBinary)) + ".previous";
    assert |a| == 17 && |b| == 20;
    assert BackupPath(Managed(NodeBinary)) == Staged(a) && BackupPath(Managed(CliBinary)) == Staged(b);
  }

  /** An event of a release: it stays within the two binaries and scratch files. */
  ghost predicate ReleaseEvent(original: Disk, e: Event, wasRunning: bool, user: string, password: string) {
    && OnlyTouches(original, e.disk, ReleaseArea())
    && (IsReleaseOp(e.op) || (wasRunning && (e.op == Stop(Node) || e.op == Start(Node) || e.op.Probe?)))
    && (e.op.Probe? ==> e.op.user == user && e.op.password == password)
    && (e.op.Probe? && e.op.process.Some? ==> OnlyTouches(original, e.op.process.value.image, ReleaseArea()))
  }

  lemma ActivationEventsAreReleaseEvents(original: Disk, staged: Disk, trace: seq<Event>, from: nat,
                                         wasRunning: bool, user: string, password: string)
    requires OnlyTouches(original, staged, ReleaseArea())
    requires ActivationEvents(staged, trace, from, RELEASE_SWAPS, wasRunning, user, password)
    ensures forall i | from <= i < |trace| :: ReleaseEvent(original, trace[i], wasRunning, user, password)
  {
    ReleaseSwapsAreGood();
    hide RELEASE_SWAPS, SwapArea, ReleaseArea, Preserved;
    forall i | from <= i < |trace| ensures ReleaseEvent(original, trace[i], wasRunning, user, password) {
      assert ActivationEvent(staged, trace[i], RELEASE_SWAPS, wasRunning, user, password);
      Widen(original, staged, trace[i].disk);
      if trace[i].op.Probe? && trace[i].op.process.Some? {
        Widen(original, staged, trace[i].op.process.value.image);
      }
    }
  }

  lemma Widen(original: Disk, staged: Disk, disk: Disk)
    requires OnlyTouches(original, staged, ReleaseArea())
    requires OnlyTouches(staged, disk, SwapArea(RELEASE_SWAPS))
    ensures OnlyTouches(original, disk, ReleaseArea())
  {
    ReleaseSwapsAreGood();
    hide RELEASE_SWAPS, SwapArea, ReleaseArea;
  }

  ghost predicate BinariesKept(before: Disk, disk: Disk) {
    At(disk, Managed(NodeBinary)) == At(before, Managed(NodeBinary))
      && At(disk, Managed(CliBinary)) == At(before, Managed(CliBinary))
  }

  ghost predicate BinariesFrom(disk: Disk, release: Reply) {
    && At(disk, Managed(NodeBinary)) == Some(File(release.first, EXECUTABLE_MODE))
    && At(disk, Managed(CliBinary)) == Some(File(release.second, EXECUTABLE_MODE))
  }

  /** A file could not be moved back: after the forward direction had ended, with a failed
      step or its probe, a rename or removal failed. */
  ghost predicate MoveBackFailed(trace: seq<Event>, from: nat) {
    exists i, j | from <= i < j < |trace| ::
      (!trace[i].reply.ok || trace[i].op.Probe?) && IsMove(trace[j].op) && !trace[j].reply.ok
  }

  lemma MoveBackFailedStays(before: seq<Event>, trace: seq<Event>, from: nat, later: nat)
    requires before <= trace && from <= later && MoveBackFailed(before, later)
    ensures MoveBackFailed(trace, from)
  {
    var i, j :| later <= i < j < |before| && (!before[i].reply.ok || before[i].op.Probe?)
      && IsMove(before[j].op) && !before[j].reply.ok;
    assert trace[i] == before[i] && trace[j] == before[j];
  }

  lemma RestoreMovesBack(trace: seq<Event>, from: nat, turned: nat)
    requires from < turned <= |trace| && EndsForward(trace[..turned], from, true)
    requires RestoreStepFailed(trace, turned)
    ensures MoveBackFailed(trace, from)
  {
    var j :| turned <= j < |trace| && IsMove(trace[j].op) && !trace[j].reply.ok;
    var i := turned - 1;
    assert trace[..turned][i] == trace[i];
  }

  lemma SameDestinationsKeep(before: Disk, disk: Disk)
    requires SameDestinations(before, disk, RELEASE_SWAPS)
    ensures BinariesKept(before, disk)
  {
    var node, cli := RELEASE_SWAPS[0], RELEASE_SWAPS[1];
    assert At(disk, node.destination) == At(before, node.destination);
    assert At(disk, cli.destination) == At(before, cli.destination);
  }

  /** The activation of a staged release. */
  method ActivateRelease(host: Host, version: string, user: string, password: string, ghost original: Disk)
    returns (ok: bool)
    requires STAGED_NODE in host.disk && STAGED_CLI in host.disk
    requires OnlyTouches(original, host.disk, ReleaseArea())
    requires host.Genuine()
    modifies host`disk, host`running, host`launched, host`trace
    ensures host.Genuine()
    ensures ok ==>
      && At(host.disk, Managed(NodeBinary)) == old(At(host.disk, STAGED_NODE))
      && At(host.disk, Managed(CliBinary)) == old(At(host.disk, STAGED_CLI))
    ensures OnlyTouches(original, host.disk, ReleaseArea())
    ensures OthersAlone(old(host.running), old(host.launched), host.running, host.launched)
    ensures Node !in old(host.running) ==> host.running == old(host.running) && host.launched == old(host.launched)
    ensures ok && Node in old(host.running) ==> Node in host.running && NewProcess(host, old(|host.trace|))
    ensures ok && Node in old(host.running) ==> NodeAnswered(host.trace, old(|host.trace|))
    ensures old(host.trace) <= host.trace
    ensures forall i | old(|host.trace|) <= i < |host.trace| ::
      ReleaseEvent(original, host.trace[i], Node in old(host.running), user, password)
    ensures ok ==> forall i | old(|host.trace|) <= i < |host.trace| :: host.Smooth(host.trace[i], Some(version))
    ensures !ok ==> Rough(host, host.trace, old(|host.trace|), Some(version))
    ensures StopsAtFailure(host, host.trace, old(|host.trace|), Some(version))
    ensures !ok ==> BinariesKept(old(host.disk), host.disk) || MoveBackFailed(host.trace, old(|host.trace|))
  {
    ReleaseSwapsAreGood();
    hide RELEASE_SWAPS, SwapArea, ReleaseArea, Preserved, ActivationEvents, ReleaseEvent, OnlyTouches, Host.Genuine;
    hide NewProcess, NodeAnswered, Rough, StopsAtFailure, SameDestinations, BinariesKept, MoveBackFailed, EndsForward,
      RestoreStepFailed;
    ghost var staged, from := host.disk, |host.trace|;
    BothStaged(staged);
    var outcome;
    ghost var turned;
    outcome, turned := Activate(host, version, user, password, RELEASE_SWAPS);
    ok := outcome.Activated?;
    ActivationEventsAreReleaseEvents(original, staged, host.trace, from, Node in old(host.running), user, password);
    Widen(original, staged, host.disk);
    if ok {
      BothInstalled(staged, host.disk);
    } else if SameDestinations(staged, host.disk, RELEASE_SWAPS) {
      SameDestinationsKeep(staged, host.disk);
    } else {
      RestoreMovesBack(host.trace, from, turned);
    }
  }

  /** Staging and activation, before the release directory is removed. */
  method StageAndActivate(host: Host, version: string, user: string, password: string) returns (ok: bool)
    requires host.Genuine()
    modifies host`disk, host`running, host`launched, host`trace
    ensures host.Genuine()
    ensures ok ==>
      && At(host.disk, Managed(NodeBinary)) == Some(File(old(host.Next(Stage)).first, EXECUTABLE_MODE))
      && At(host.disk, Managed(CliBinary)) == Some(File(old(host.Next(Stage)).second, EXECUTABLE_MODE))
    ensures OnlyTouches(old(host.disk), host.disk, ReleaseArea())
    ensures OthersAlone(old(host.running), old(host.launched), host.running, host.launched)
    ensures Node !in old(host.running) ==> host.running == old(host.running) && host.launched == old(host.launched)
    ensures ok && Node in old(host.running) ==> Node in host.running && NewProcess(host, old(|host.trace|))
    ensures ok && Node in old(host.running) ==> NodeAnswered(host.trace, old(|host.trace|))
    ensures old(host.trace) < host.trace && host.trace[old(|host.trace|)].op == Stage
    ensures forall i | old(|host.trace|) <= i < |host.trace| ::
      ReleaseEvent(old(host.disk), host.trace[i], Node in old(host.running), user, password)
    ensures ok ==> forall i | old(|host.trace|) <= i < |host.trace| :: host.Smooth(host.trace[i], Some(version))
    ensures !ok ==> Rough(host, host.trace, old(|host.trace|), Some(version))
    ensures StopsAtFailure(host, host.trace, old(|host.trace|), Some(version))
    ensures !ok ==> BinariesKept(old(host.disk), host.disk) || MoveBackFailed(host.trace, old(|host.trace|))
  {
    NothingInstalled(host.disk, host.running, host.launched);
    hide ReleaseArea, ReleaseEvent, OnlyTouches, Rough, OthersAlone, NodeAnswered, At, Host.Genuine;
    hide StopsAtFailure, BinariesKept, MoveBackFailed;
    ghost var original, from := host.disk, |host.trace|;
    assert STAGED_NODE != STAGED_CLI by {
      ReleaseSwapsAreGood();
    }
    ok := host.StageRelease(STAGED_NODE, STAGED_CLI);
    ghost var staged, first := host.disk, host.trace;
    StagingIsScratch(original, staged, host.trace[from], Node in host.running, user, password);
    StagingKeepsBinaries(original, staged);
    if !ok {
      RoughLast(host, host.trace, from, Some(version));
      SmoothStops(host, host.trace, from, Some(version));
      return;
    }
    ok := ActivateRelease(host, version, user, password, original);
    StagedStepIsSmooth(host, first, from, Some(version));
    StopsBehindStop(host, first, host.trace, from, Some(version));
    if !ok {
      RoughEarlier(host, host.trace, |first|, from, Some(version));
      if BinariesKept(staged, host.disk) {
        StillKept(original, staged, host.disk);
      } else {
        MoveBackFailedStays(host.trace, host.trace, from, |first|);
      }
    } else if Node in old(host.running) {
      AnsweredStays(host.trace, host.trace, from, |first|);
    }
  }

  /** Staging and activation, and the removal of the release directory with any backup
      still in it, whatever went before. */
  method ActivateAndSweep(host: Host, version: string, user: string, password: string) returns (ok: bool)
    requires host.Genuine()
    modifies host`disk, host`running, host`launched, host`trace
    ensures host.Genuine()
    ensures ok ==>
      && At(host.disk, Managed(NodeBinary)) == Some(File(old(host.Next(Stage)).first, EXECUTABLE_MODE))
      && At(host.disk, Managed(CliBinary)) == Some(File(old(host.Next(Stage)).second, EXECUTABLE_MODE))
    ensures OnlyTouches(old(host.disk), host.disk, ReleaseArea())
    ensures OthersAlone(old(host.running), old(host.launched), host.running, host.launched)
    ensures Node !in old(host.running) ==> host.running == old(host.running) && host.launched == old(host.launched)
    ensures ok && Node in old(host.running) ==>
      && Node in host.running && Node in host.launched
      && SameFiles(host.launched[Node].image, host.disk) && host.launched[Node].at >= old(|host.trace|)
    ensures ok && Node in old(host.running) ==> NodeAnswered(host.trace, old(|host.trace|))
    ensures old(host.trace) < host.trace && host.trace[old(|host.trace|)].op == Stage
    ensures host.trace[|host.trace| - 1].reply.ok ==> forall name :: Staged(name) !in host.disk
    ensures forall i | old(|host.trace|) <= i < |host.trace| ::
      ReleaseEvent(old(host.disk), host.trace[i], Node in old(host.running), user, password)
    ensures ok ==> forall i | old(|host.trace|) <= i < |host.trace| :: host.Smooth(host.trace[i], Some(version))
    ensures !ok ==> Rough(host, host.trace, old(|host.trace|), Some(version))
    ensures StopsAtFailure(host, host.trace, old(|host.trace|), Some(version))
    ensures BinariesKept(old(host.disk), host.disk) || BinariesFrom(host.disk, old(host.Next(Stage)))
      || MoveBackFailed(host.trace, old(|host.trace|))
  {
    hide ReleaseArea, ReleaseEvent, OnlyTouches, Rough, OthersAlone, NodeAnswered, At, SameFiles, Host.Genuine;
    hide Host.Smooth, StopsAtFailure, BinariesKept, BinariesFrom, MoveBackFailed;
    ghost var original, from := host.disk, |host.trace|;
    ok := StageAndActivate(host, version, user, password);
    ghost var activated, trace, last := host.disk, host.trace, |host.trace|;
    if ok {
      FromDownload(activated, old(host.Next(Stage)));
    }
    var swept := host.SweepStage();
    SweptStepIsSmooth(host, host.trace[last], version);
    StopsThenCleansUp(host, trace, host.trace, from, Some(version));
    if !ok {
      RoughStays(host, trace, host.trace, from, Some(version));
    } else {
      if !swept {
        RoughLast(host, host.trace, from, Some(version));
      }
      if Node in old(host.running) {
        AnsweredStays(trace, host.trace, from, from);
      }
    }
    SweepingIsScratch(original, activated, host.disk, host.trace[last], Node in old(host.running), user, password);
    SweepingKeepsBinaries(original, activated, host.disk, old(host.Next(Stage)));
    if MoveBackFailed(trace, from) {
      MoveBackFailedStays(trace, host.trace, from, from);
    }
    ok := ok && swept;
  }

  /** `install_release`: nothing happens without a version. */
  method InstallRelease(host: Host, version: string, user: string, password: string) returns (ok: bool)
    requires host.Genuine()
    modifies host`disk, host`running, host`launched, host`trace
    ensures host.Genuine()
    ensures version == "" ==> ok && host.disk == old(host.disk) && host.running == old(host.running)
    ensures version == "" ==> host.launched == old(host.launched) && host.trace == old(host.trace)
    ensures ok && version != "" ==>
      && At(host.disk, Managed(NodeBinary)) == Some(File(old(host.Next(Stage)).first, EXECUTABLE_MODE))
      && At(host.disk, Managed(CliBinary)) == Some(File(old(host.Next(Stage)).second, EXECUTABLE_MODE))
    ensures OnlyTouches(old(host.disk), host.disk, ReleaseArea())
    ensures OthersAlone(old(host.running), old(host.launched), host.running, host.launched)
    ensures Node !in old(host.running) ==> host.running == old(host.running) && host.launched == old(host.launched)
    ensures ok && version != "" && Node in old(host.running) ==>
      && Node in host.running && Node in host.launched
      && SameFiles(host.launched[Node].image, host.disk) && host.launched[Node].at >= old(|host.trace|)
    ensures ok && version != "" && Node in old(host.running) ==>
      NodeAnswered(host.trace, old(|host.trace|)) && NodeReported(host, host.trace, old(|host.trace|), version)
    ensures old(host.trace) <= host.trace
    ensures version != "" ==>
      && old(host.trace) < host.trace
      && host.trace[old(|host.trace|)].op == Stage && host.trace[old(|host.trace|)].reply == old(host.Next(Stage))
    ensures version != "" && host.trace[|host.trace| - 1].reply.ok ==> forall name :: Staged(name) !in host.disk
    ensures forall i | old(|host.trace|) <= i < |host.trace| ::
      ReleaseEvent(old(host.disk), host.trace[i], Node in old(host.running), user, password)
    ensures ok ==> forall i | old(|host.trace|) <= i < |host.trace| :: host.Smooth(host.trace[i], Some(version))
    ensures !ok ==> Rough(host, host.trace, old(|host.trace|), Some(version))
    ensures StopsAtFailure(host, host.trace, old(|host.trace|), Some(version))
    ensures BinariesKept(old(host.disk), host.disk) || BinariesFrom(host.disk, old(host.Next(Stage)))
      || MoveBackFailed(host.trace, old(|host.trace|))
  {
    NothingInstalled(host.disk, host.running, host.launched);
    hide ReleaseArea, ReleaseEvent, OnlyTouches, Rough, OthersAlone, NodeAnswered, At, SameFiles, Host.Genuine;
    hide Host.Smooth;
    ok := true;
    if version != "" {
      ok := ActivateAndSweep(host, version, user, password);
      if ok && Node in old(host.running) {
        AnswersReport(host, host.trace, old(|host.trace|), version);
      }
    }
  }

  lemma StagingKeepsBinaries(original: Disk, staged: Disk)
    requires OnlyTouches(original, staged, iset{STAGED_NODE, STAGED_CLI})
    ensures BinariesKept(original, staged)
  {
  }

  lemma StillKept(a: Disk, b: Disk, c: Disk)
    requires BinariesKept(a, b) && BinariesKept(b, c)
    ensures BinariesKept(a, c)
  {
  }

  lemma FromDownload(disk: Disk, release: Reply)
    requires At(disk, Managed(NodeBinary)) == Some(File(release.first, EXECUTABLE_MODE))
    requires At(disk, Managed(CliBinary)) == Some(File(release.second, EXECUTABLE_MODE))
    ensures BinariesFrom(disk, release)
  {
  }

  lemma SweepingKeepsBinaries(original: Disk, before: Disk, after: Disk, release: Reply)
    requires SameFiles(before, after)
    ensures BinariesKept(original, before) ==> BinariesKept(original, after)
    ensures BinariesFrom(before, release) ==> BinariesFrom(after, release)
  {
  }

  lemma StagedStepIsSmooth(host: Host, trace: seq<Event>, from: nat, expected: Option<string>)
    requires |trace| == from + 1 && trace[from].op == Stage && trace[from].reply.ok
    ensures forall i | from <= i < |trace| :: host.Smooth(trace[i], expected)
  {
  }

  lemma SweptStepIsSmooth(host: Host, e: Event, version: string)
    requires e.op == Sweep
    ensures host.Smooth(e, Some(version)) <==> e.reply.ok
  {
  }

  lemma NothingInstalled(disk: Disk, running: set<Service>, launched: map<Service, Launch>)
    ensures OnlyTouches(disk, disk, ReleaseArea())
    ensures OthersAlone(running, launched, running, launched)
  {
  }

  lemma BothStaged(staged: Disk)
    requires STAGED_NODE in staged && STAGED_CLI in staged
    ensures SourcesPresent(staged, RELEASE_SWAPS)
  {
  }

  lemma BothInstalled(staged: Disk, activated: Disk)
    requires forall i | 0 <= i < |RELEASE_SWAPS| ::
      At(activated, RELEASE_SWAPS[i].destination) == At(staged, RELEASE_SWAPS[i].source)
    ensures At(activated, Managed(NodeBinary)) == At(staged, STAGED_NODE)
    ensures At(activated, Managed(CliBinary)) == At(staged, STAGED_CLI)
  {
    var node, cli := RELEASE_SWAPS[0], RELEASE_SWAPS[1];
    assert At(activated, node.destination) == At(staged, node.source);
    assert At(activated, cli.destination) == At(staged, cli.source);
  }

  lemma StagingIsScratch(original: Disk, staged: Disk, e: Event, wasRunning: bool, user: string, password: string)
    requires OnlyTouches(original, staged, iset{STAGED_NODE, STAGED_CLI})
    requires e.op == Stage && e.disk == staged
    ensures OnlyTouches(original, staged, ReleaseArea())
    ensures ReleaseEvent(original, e, wasRunning, user, password)
  {
  }

  lemma SweepingIsScratch(original: Disk, before: Disk, after: Disk, e: Event, wasRunning: bool, user: string,
        password: string)
    requires OnlyTouches(original, before, ReleaseArea()) && SameFiles(before, after)
    requires e.op == Sweep && e.disk == after
    ensures OnlyTouches(original, after, ReleaseArea())
    ensures ReleaseEvent(original, e, wasRunning, user, password)
    ensures forall file :: At(after, Managed(file)) == At(before, Managed(file))
  {
  }
}
