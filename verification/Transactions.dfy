/** One configuration change applied to the host as a transaction
    (src/utils.py, `_write_config_generation` to `apply_config_transaction`). */
module Transactions {
  import opened Text
  import opened Hosts
  import opened Configs
  import opened Rollbacks
  import Activation

  /** A failure of a forward step that is not ignored: the exit status of the unit reload
      after a new unit file is. */
  ghost predicate Setback(host: Host, e: Event, expected: Option<string>) {
    !e.op.Reload? && !host.Smooth(e, expected)
  }

  ghost predicate SomeSetback(host: Host, trace: seq<Event>, from: nat, expected: Option<string>) {
    exists i | from <= i < |trace| :: Setback(host, trace[i], expected)
  }

  ghost predicate NoSetback(host: Host, trace: seq<Event>, from: nat, expected: Option<string>) {
    forall i | from <= i < |trace| :: !Setback(host, trace[i], expected)
  }

  lemma SetbackLast(host: Host, trace: seq<Event>, from: nat, expected: Option<string>)
    requires from < |trace| && Setback(host, trace[|trace| - 1], expected)
    ensures SomeSetback(host, trace, from, expected)
  {
  }

  lemma SetbackStays(host: Host, before: seq<Event>, trace: seq<Event>, from: nat, expected: Option<string>)
    requires before <= trace && SomeSetback(host, before, from, expected)
    ensures SomeSetback(host, trace, from, expected)
  {
    var i :| from <= i < |before| && Setback(host, before[i], expected);
    assert trace[i] == before[i];
  }

  // ------------------------------------------------------------ writing the files

  /** An event of the writing phase: files within the transaction's footprint, unit
      reloads, and nothing else. */
  ghost predicate WriteEvent(before: Disk, e: Event) {
    && (IsFileOp(e.op) || e.op.Reload?) && OnlyTouches(before, e.disk, TransactionArea())
    && (e.op.Write? && e.op.path.Temporary? ==> e.op.path == Temporary(Managed(ProxyBinary)))
  }

  /** The phases of the forward direction: capturing and writing, then the node with its
      release, then the monitor, then the proxy. */
  ghost function Phase(op: Op): nat {
    match op
    case Stage => 1
    case Sweep => 1
    case Probe(_, _, _) => 1
    case Start(s) => ServicePhase(s)
    case Stop(s) => ServicePhase(s)
    case Restart(s) => ServicePhase(s)
    case _ => 0
  }

  ghost function ServicePhase(s: Service): nat {
    match s
    case Node => 1
    case Monitor => 2
    case Proxy => 3
  }

  /** Apart from renames and removals, which belong to two phases, the steps since `from` are
      of the phases from `first` to `last`, and in their order. */
  ghost predicate InPhases(trace: seq<Event>, from: nat, first: nat, last: nat) {
    && (forall i | from <= i < |trace| && !IsMove(trace[i].op) :: first <= Phase(trace[i].op) <= last)
    && (forall i, j | from <= i < j < |trace| && !IsMove(trace[i].op) && !IsMove(trace[j].op) ::
          Phase(trace[i].op) <= Phase(trace[j].op))
  }

  lemma PhasesCompose(before: seq<Event>, trace: seq<Event>, from: nat, first: nat, middle: nat, second: nat,
                      last: nat)
    requires from <= |before| && before <= trace && first <= middle <= second <= last
    requires InPhases(before, from, first, middle) && InPhases(trace, |before|, second, last)
    ensures InPhases(trace, from, first, last)
  {
    hide Phase, IsMove;
    assert forall i | from <= i < |before| :: trace[i] == before[i];
  }

  lemma WidePhases(trace: seq<Event>, from: nat, first: nat, last: nat, first': nat, last': nat)
    requires InPhases(trace, from, first, last) && first' <= first && last <= last'
    ensures InPhases(trace, from, first', last')
  {
    hide Phase, IsMove;
  }

  lemma OnePhase(trace: seq<Event>, from: nat, phase: nat)
    requires forall i | from <= i < |trace| && !IsMove(trace[i].op) :: Phase(trace[i].op) == phase
    ensures InPhases(trace, from, phase, phase)
  {
    hide Phase, IsMove;
  }

  lemma WritingIsOnePhase(host: Host, disk: Disk, before: seq<Event>, trace: seq<Event>, ok: bool,
                          expected: Option<string>)
    requires Wrote(host, disk, before, trace, ok, expected)
    ensures InPhases(trace, |before|, 0, 0)
  {
    forall i | |before| <= i < |trace| && !IsMove(trace[i].op) ensures Phase(trace[i].op) == 0 {
      assert WriteEvent(disk, trace[i]);
    }
    OnePhase(trace, |before|, 0);
  }

  lemma ReadingIsOnePhase(trace: seq<Event>, from: nat)
    requires forall i | from <= i < |trace| :: trace[i].op.Read?
    ensures InPhases(trace, from, 0, 0)
  {
  }

  /** A download of this content, and a staged release. */
  ghost predicate Fetched(trace: seq<Event>, from: nat, data: Bytes) {
    exists i | from <= i < |trace| :: trace[i].op == Fetch && trace[i].reply.first == data
  }

  ghost predicate Staging(trace: seq<Event>, from: nat, release: Reply) {
    exists i | from <= i < |trace| :: trace[i].op == Stage && trace[i].reply == release
  }

  lemma DownloadsStay(before: seq<Event>, trace: seq<Event>, from: nat, later: nat, data: Bytes, release: Reply)
    requires before <= trace && from <= later
    ensures Fetched(before, later, data) ==> Fetched(trace, from, data)
    ensures Staging(before, later, release) ==> Staging(trace, from, release)
  {
    if Fetched(before, later, data) {
      var i :| later <= i < |before| && before[i].op == Fetch && before[i].reply.first == data;
      assert trace[i] == before[i];
    }
    if Staging(before, later, release) {
      var i :| later <= i < |before| && before[i].op == Stage && before[i].reply == release;
      assert trace[i] == before[i];
    }
  }

  lemma SetbacksFail(host: Host, trace: seq<Event>, from: nat, to: nat, expected: Option<string>)
    requires NoSetback(host, trace, from, expected) && to <= |trace|
    ensures forall i | from <= i < to :: !Fails(host, trace[i], expected)
  {
    hide Host.Smooth;
    forall i | from <= i < to ensures !Fails(host, trace[i], expected) {
      assert !Setback(host, trace[i], expected);
    }
  }

  /** What a step of the writing phase does to the trace. */
  ghost predicate Wrote(host: Host, disk: Disk, before: seq<Event>, trace: seq<Event>, ok: bool,
        expected: Option<string>) {
    && before <= trace
    && (forall i | |before| <= i < |trace| :: WriteEvent(disk, trace[i]))
    && (if ok then NoSetback(host, trace, |before|, expected) else SomeSetback(host, trace, |before|, expected))
    && StopsAtFailure(host, trace, |before|, expected)
  }

  lemma WroteNothing(host: Host, disk: Disk, trace: seq<Event>, expected: Option<string>)
    ensures Wrote(host, disk, trace, trace, true, expected)
  {
  }

  lemma WroteMore(host: Host, disk: Disk, middle: Disk, before: seq<Event>, half: seq<Event>, trace: seq<Event>,
                  ok: bool, expected: Option<string>)
    requires OnlyTouches(disk, middle, TransactionArea())
    requires Wrote(host, disk, before, half, true, expected)
    requires Wrote(host, middle, half, trace, ok, expected)
    ensures Wrote(host, disk, before, trace, ok, expected)
  {
    forall i | |before| <= i < |trace| ensures WriteEvent(disk, trace[i]) {
      if i < |half| {
        assert trace[i] == half[i];
      }
    }
    if ok {
      forall i | |before| <= i < |trace| ensures !Setback(host, trace[i], expected) {
        if i < |half| {
          assert trace[i] == half[i];
        }
      }
    }
    SetbacksFail(host, half, |before|, |half|, expected);
    StopsLater(host, half, trace, |before|, expected);
  }

  ghost function InPlace(disk: Disk, p: Path, data: Bytes): Option<File> {
    Some(File(data, ModeOf(disk, p)))
  }

  /** One in-place write within the footprint, as a step of the writing phase. */
  method WriteFile(host: Host, path: Path, data: Bytes, ghost expected: Option<string>) returns (ok: bool)
    requires path.Managed?
    requires host.Genuine()
    modifies host`disk, host`trace
    ensures host.Genuine()
    ensures OnlyTouches(old(host.disk), host.disk, iset{path})
    ensures ok ==> At(host.disk, path) == InPlace(old(host.disk), path, data)
    ensures Wrote(host, old(host.disk), old(host.trace), host.trace, ok, expected)
  {
    TransactionPathsAreTheManagedFiles();
    hide TRANSACTION_PATHS, Host.Genuine;
    ok := host.Write(path, data);
    assert host.trace[|host.trace| - 1].disk == host.disk;
  }

  method ReadFile(host: Host, path: Path, ghost expected: Option<string>) returns (ok: bool, file: Option<File>)
    requires host.Genuine()
    modifies host`trace
    ensures host.Genuine()
    ensures file == At(host.disk, path)
    ensures Wrote(host, host.disk, old(host.trace), host.trace, ok, expected)
  {
    hide Host.Genuine;
    ok, file := host.Read(path);
    assert host.trace[|host.trace| - 1].disk == host.disk;
  }

  /** `install_rpc_proxy`: download into memory, then replace the binary atomically. At every
      step the binary is the old one or the complete download, and a failure keeps the old. */
  method InstallRpcProxy(host: Host, version: string, ghost expected: Option<string>) returns (ok: bool)
    requires host.Genuine()
    modifies host`disk, host`trace
    ensures host.Genuine()
    ensures OnlyTouches(old(host.disk), host.disk, iset{Managed(ProxyBinary), Temporary(Managed(ProxyBinary))})
    ensures version == "" ==> ok && host.disk == old(host.disk)
    ensures ok && version != "" ==>
        At(host.disk, Managed(ProxyBinary)) == Some(File(old(host.Next(Fetch)).first, EXECUTABLE_MODE))
    ensures !ok ==> At(host.disk, Managed(ProxyBinary)) == old(At(host.disk, Managed(ProxyBinary)))
    ensures version != "" ==> Fetched(host.trace, old(|host.trace|), old(host.Next(Fetch)).first)
    ensures forall i | old(|host.trace|) <= i < |host.trace| ::
      OldOrNew(old(host.disk), host.trace[i].disk, Managed(ProxyBinary),
        Some(File(old(host.Next(Fetch)).first, EXECUTABLE_MODE)))
    ensures Wrote(host, old(host.disk), old(host.trace), host.trace, ok, expected)
  {
    hide TransactionArea, OnlyTouches, OldOrNew, Wrote, Host.Genuine;
    ghost var before, t0, download := host.disk, host.trace, File(host.Next(Fetch).first, EXECUTABLE_MODE);
    ProxyBinaryUntouched(before, download);
    WroteNothing(host, before, t0, expected);
    if version == "" {
      return true;
    }
    var fetched, data := host.Fetch();
    ghost var t1 := host.trace;
    FetchWrote(host, before, t0, t1, fetched, expected);
    assert Fetched(t1, |t0|, download.data);
    if !fetched {
      return false;
    }
    ok := ReplaceFile(host, Managed(ProxyBinary), File(data, EXECUTABLE_MODE));
    DownloadsStay(t1, host.trace, |t0|, |t0|, download.data, host.Next(Fetch));
    ReplacedWrote(host, before, t1, host.trace, File(data, EXECUTABLE_MODE), ok, expected);
    ProxyBinaryArea(before, host.disk, File(data, EXECUTABLE_MODE));
    WroteMore(host, before, before, t0, t1, host.trace, ok, expected);
  }

  lemma ProxyBinaryUntouched(disk: Disk, file: File)
    ensures OldOrNew(disk, disk, Managed(ProxyBinary), Some(file))
    ensures OnlyTouches(disk, disk, iset{Managed(ProxyBinary), Temporary(Managed(ProxyBinary))})
    ensures OnlyTouches(disk, disk, TransactionArea())
  {
  }

  lemma ProxyBinaryArea(before: Disk, disk: Disk, file: File)
    requires OldOrNew(before, disk, Managed(ProxyBinary), Some(file))
    ensures OnlyTouches(before, disk, iset{Managed(ProxyBinary), Temporary(Managed(ProxyBinary))})
  {
  }

  lemma FetchWrote(host: Host, disk: Disk, before: seq<Event>, trace: seq<Event>, ok: bool, expected: Option<string>)
    requires before <= trace && |trace| == |before| + 1
    requires trace[|before|].op == Fetch && trace[|before|].disk == disk && trace[|before|].reply.ok == ok
    ensures Wrote(host, disk, before, trace, ok, expected)
  {
    TouchesNothing(disk, TransactionArea());
    hide TransactionArea, OnlyTouches;
    assert Setback(host, trace[|before|], expected) <==> !ok;
  }

  lemma ReplacedWrote(host: Host, disk: Disk, before: seq<Event>, trace: seq<Event>, file: File, ok: bool,
                      expected: Option<string>)
    requires before <= trace
    requires forall i | |before| <= i < |trace| ::
      && IsFileOp(trace[i].op) && (trace[i].op.Write? ==> trace[i].op.path == Temporary(Managed(ProxyBinary)))
      && OldOrNew(disk, trace[i].disk, Managed(ProxyBinary), Some(file))
    requires if ok then AllOk(trace, |before|) else SomeFailed(trace, |before|)
    requires !ok ==> ThenCleanedUp(trace, |before|, Managed(ProxyBinary))
    ensures Wrote(host, disk, before, trace, ok, expected)
  {
    forall i | |before| <= i < |trace| ensures WriteEvent(disk, trace[i]) {
      ProxyBinaryArea(disk, trace[i].disk, file);
      ProxyBinaryIsCaptured(disk, trace[i].disk);
    }
    ReplacedStops(host, before, trace, ok, expected);
    hide OldOrNew, WriteEvent, StopsAtFailure;
    if !ok {
      var i :| |before| <= i < |trace| && !trace[i].reply.ok;
      assert Setback(host, trace[i], expected);
    }
  }

  lemma ReplacedStops(host: Host, before: seq<Event>, trace: seq<Event>, ok: bool, expected: Option<string>)
    requires before <= trace
    requires forall i | |before| <= i < |trace| :: IsFileOp(trace[i].op)
    requires if ok then AllOk(trace, |before|) else ThenCleanedUp(trace, |before|, Managed(ProxyBinary))
    ensures StopsAtFailure(host, trace, |before|, expected)
  {
    if ok {
      SmoothStops(host, trace, |before|, expected);
    } else {
      var front := trace[..|trace| - 1];
      SmoothStops(host, front, |before|, expected);
      StopsThenCleansUp(host, front, trace, |before|, expected);
    }
  }

  lemma ProxyBinaryIsCaptured(before: Disk, disk: Disk)
    requires OnlyTouches(before, disk, iset{Managed(ProxyBinary), Temporary(Managed(ProxyBinary))})
    ensures OnlyTouches(before, disk, TransactionArea())
  {
    TransactionPathsAreTheManagedFiles();
    hide TRANSACTION_PATHS;
  }

  /** `update_service_args` without a restart; `changed` is the flag it returns. */
  method UpdateServiceArgs(host: Host, config: Config, ghost expected: Option<string>) returns (ok: bool, changed: bool)
    requires host.Genuine()
    modifies host`disk, host`trace
    ensures host.Genuine()
    ensures OnlyTouches(old(host.disk), host.disk, iset{Managed(NodeEnv)})
    ensures ok ==> At(host.disk, Managed(NodeEnv)) == InPlace(old(host.disk), Managed(NodeEnv), NodeEnvText(config))
    ensures ok ==> (changed <==> At(host.disk, Managed(NodeEnv)) != old(At(host.disk, Managed(NodeEnv))))
    ensures Wrote(host, old(host.disk), old(host.trace), host.trace, ok, expected)
  {
    hide NodeEnvText, Host.Genuine;
    ghost var before, trace := host.disk, host.trace;
    var content := NodeEnvText(config);
    var file;
    ok, file := ReadFile(host, Managed(NodeEnv), expected);
    if !ok {
      return false, false;
    }
    changed := file.None? || file.value.data != content;
    ghost var half := host.trace;
    ok := WriteFile(host, Managed(NodeEnv), content, expected);
    WroteMore(host, before, before, trace, half, host.trace, ok, expected);
  }

  /** `install_bitcoind_monitor` without a restart */
  method InstallMonitor(host: Host, config: Config, ghost expected: Option<string>) returns (ok: bool)
    requires host.Genuine()
    modifies host`disk, host`trace
    ensures host.Genuine()
    ensures OnlyTouches(old(host.disk), host.disk, iset{Managed(MonitorScript), Managed(MonitorEnv)})
    ensures ok ==>
      At(host.disk, Managed(MonitorScript)) == InPlace(old(host.disk), Managed(MonitorScript), host.monitorTemplate)
    ensures ok ==>
      At(host.disk, Managed(MonitorEnv)) == InPlace(old(host.disk), Managed(MonitorEnv), EnvText(MonitorPairs(config)))
    ensures Wrote(host, old(host.disk), old(host.trace), host.trace, ok, expected)
  {
    TransactionPathsAreTheManagedFiles();
    hide TRANSACTION_PATHS, MonitorPairs, EnvText, Host.Genuine;
    ghost var before, trace := host.disk, host.trace;
    ok := WriteFile(host, Managed(MonitorScript), host.monitorTemplate, expected);
    if !ok {
      return;
    }
    ghost var middle, half := host.disk, host.trace;
    var text := RenderMonitorEnv(config);
    ok := WriteFile(host, Managed(MonitorEnv), text, expected);
    WroteMore(host, before, middle, trace, half, host.trace, ok, expected);
  }

  /** `install_service_file` for the proxy: nothing is written when the unit already
      matches; the exit status of the reload is ignored. */
  method InstallProxyUnit(host: Host, ghost expected: Option<string>) returns (ok: bool)
    requires host.Genuine()
    modifies host`disk, host`loaded, host`trace
    ensures host.Genuine()
    ensures OnlyTouches(old(host.disk), host.disk, iset{Managed(ProxyUnit)})
    ensures ok ==>
      At(host.disk, Managed(ProxyUnit)) == InPlace(old(host.disk), Managed(ProxyUnit), host.proxyUnitTemplate)
    ensures ok && At(host.disk, Managed(ProxyUnit)) != old(At(host.disk, Managed(ProxyUnit))) ==>
      && |host.trace| > 0 && host.trace[|host.trace| - 1].op.Reload?
      && (host.trace[|host.trace| - 1].reply.ok ==> host.UnitsLoaded())
    ensures ok && At(host.disk, Managed(ProxyUnit)) == old(At(host.disk, Managed(ProxyUnit))) ==>
      host.disk == old(host.disk) && host.loaded == old(host.loaded)
    ensures Wrote(host, old(host.disk), old(host.trace), host.trace, ok, expected)
  {
    TransactionPathsAreTheManagedFiles();
    hide TRANSACTION_PATHS, Host.Genuine;
    ghost var before, trace := host.disk, host.trace;
    var file;
    ok, file := ReadFile(host, Managed(ProxyUnit), expected);
    if !ok || (file.Some? && file.value.data == host.proxyUnitTemplate) {
      return;
    }
    ghost var half := host.trace;
    ok := WriteFile(host, Managed(ProxyUnit), host.proxyUnitTemplate, expected);
    WroteMore(host, before, before, trace, half, host.trace, ok, expected);
    if ok {
      var reloaded := host.Reload();
      assert host.trace[|host.trace| - 1].disk == host.disk;
    }
  }

  /** `install_rpc_proxy_service` without a restart */
  method InstallRpcProxyService(host: Host, config: Config, ghost expected: Option<string>) returns (ok: bool)
    requires host.Genuine()
    modifies host`disk, host`loaded, host`trace
    ensures host.Genuine()
    ensures OnlyTouches(old(host.disk), host.disk, iset{Managed(ProxyUnit), Managed(ProxyEnv)})
    ensures ok ==>
      At(host.disk, Managed(ProxyUnit)) == InPlace(old(host.disk), Managed(ProxyUnit), host.proxyUnitTemplate)
    ensures ok ==>
      At(host.disk, Managed(ProxyEnv)) == InPlace(old(host.disk), Managed(ProxyEnv), EnvText(ProxyPairs(config)))
    ensures Wrote(host, old(host.disk), old(host.trace), host.trace, ok, expected)
  {
    TransactionPathsAreTheManagedFiles();
    hide TRANSACTION_PATHS, ProxyPairs, EnvText, Host.Genuine;
    ghost var before, trace := host.disk, host.trace;
    ok := InstallProxyUnit(host, expected);
    if !ok {
      return;
    }
    ghost var middle, half := host.disk, host.trace;
    var text := RenderProxyEnv(config);
    ok := WriteFile(host, Managed(ProxyEnv), text, expected);
    WroteMore(host, before, middle, trace, half, host.trace, ok, expected);
  }

  /** What the writing phase leaves at each managed path. */
  ghost function GenerationFile(host: Host, disk: Disk, config: Config, changed: set<Key>, download: Bytes,
        file: ManagedFile): Option<File> {
    var p := Managed(file);
    match file
    case ProxyBinary =>
      if ProxyVersion in changed && config.proxyVersion != "" then Some(File(download, EXECUTABLE_MODE))
        else At(disk, p)
    case NodeEnv => if NodeChanged(changed) then InPlace(disk, p, NodeEnvText(config)) else At(disk, p)
    case MonitorEnv => if CredentialsChanged(changed) then InPlace(disk, p, EnvText(MonitorPairs(config)))
      else At(disk, p)
    case MonitorScript => if CredentialsChanged(changed) then InPlace(disk, p, host.monitorTemplate) else At(disk, p)
    case ProxyEnv => if ProxyChanged(changed) then InPlace(disk, p, EnvText(ProxyPairs(config))) else At(disk, p)
    case ProxyUnit => if ProxyChanged(changed) then InPlace(disk, p, host.proxyUnitTemplate) else At(disk, p)
    case _ => At(disk, p)
  }

  ghost predicate Generation(host: Host, before: Disk, disk: Disk, config: Config, changed: set<Key>, download: Bytes) {
    forall file :: At(disk, Managed(file)) == GenerationFile(host, before, config, changed, download, file)
  }

  /** What is written at a path depends on the disk at that path alone. */
  lemma GenerationFileIsLocal(host: Host, a: Disk, b: Disk, config: Config, changed: set<Key>, download: Bytes,
                              file: ManagedFile)
    requires At(a, Managed(file)) == At(b, Managed(file))
    ensures GenerationFile(host, a, config, changed, download, file)
         == GenerationFile(host, b, config, changed, download, file)
    ensures file.NodeBinary? || file.CliBinary? || file.NodeUnit? || file.MonitorUnit? ==>
      GenerationFile(host, a, config, changed, download, file) == At(a, Managed(file))
  {
    hide NodeEnvText, MonitorPairs, ProxyPairs, EnvText, NodeChanged, ProxyChanged, CredentialsChanged;
  }

  /** The four parts of the writing phase make up the generation. */
  lemma GenerationBuilt(host: Host, d0: Disk, d1: Disk, d2: Disk, d3: Disk, d4: Disk,
                        config: Config, changed: set<Key>, download: Bytes)
    requires OnlyTouches(d0, d1, PROXY_BINARY_AREA)
    requires At(d1, Managed(ProxyBinary)) == GenerationFile(host, d0, config, changed, download, ProxyBinary)
    requires OnlyTouches(d1, d2, NODE_AREA)
    requires At(d2, Managed(NodeEnv)) == GenerationFile(host, d1, config, changed, download, NodeEnv)
    requires OnlyTouches(d2, d3, MONITOR_AREA)
    requires At(d3, Managed(MonitorScript)) == GenerationFile(host, d2, config, changed, download, MonitorScript)
    requires At(d3, Managed(MonitorEnv)) == GenerationFile(host, d2, config, changed, download, MonitorEnv)
    requires OnlyTouches(d3, d4, PROXY_AREA)
    requires At(d4, Managed(ProxyUnit)) == GenerationFile(host, d3, config, changed, download, ProxyUnit)
    requires At(d4, Managed(ProxyEnv)) == GenerationFile(host, d3, config, changed, download, ProxyEnv)
    ensures Generation(host, d0, d4, config, changed, download)
  {
    hide GenerationFile;
    forall file ensures At(d4, Managed(file)) == GenerationFile(host, d0, config, changed, download, file) {
      var p := Managed(file);
      if file != ProxyBinary {
        assert At(d1, p) == At(d0, p);
      }
      if file != NodeEnv {
        assert At(d2, p) == At(d1, p);
      }
      if file != MonitorScript && file != MonitorEnv {
        assert At(d3, p) == At(d2, p);
      }
      if file != ProxyUnit && file != ProxyEnv {
        assert At(d4, p) == At(d3, p);
      }
      var written := if file == ProxyBinary then d0 else if file == NodeEnv then d1
                     else if file == MonitorScript || file == MonitorEnv then d2 else d3;
      GenerationFileIsLocal(host, written, d0, config, changed, download, file);
    }
  }

  lemma TouchesNothing(disk: Disk, area: iset<Path>)
    ensures OnlyTouches(disk, disk, area)
  {
  }

  ghost const PROXY_BINARY_AREA := iset{Managed(ProxyBinary), Temporary(Managed(ProxyBinary))}
  ghost const NODE_AREA := iset{Managed(NodeEnv)}
  ghost const MONITOR_AREA := iset{Managed(MonitorScript), Managed(MonitorEnv)}
  ghost const PROXY_AREA := iset{Managed(ProxyUnit), Managed(ProxyEnv)}

  /** The four conditional parts of `_write_config_generation`. */
  method WriteProxyBinary(host: Host, config: Config, changed: set<Key>, ghost expected: Option<string>)
    returns (ok: bool)
    requires host.Genuine()
    modifies host`disk, host`trace
    ensures host.Genuine()
    ensures OnlyTouches(old(host.disk), host.disk, PROXY_BINARY_AREA)
    ensures ProxyVersion !in changed ==> host.disk == old(host.disk)
    ensures ok ==>
      At(host.disk, Managed(ProxyBinary))
        == GenerationFile(host, old(host.disk), config, changed, old(host.Next(Fetch)).first, ProxyBinary)
    ensures ProxyVersion in changed && config.proxyVersion != "" ==>
      Fetched(host.trace, old(|host.trace|), old(host.Next(Fetch)).first)
    ensures Wrote(host, old(host.disk), old(host.trace), host.trace, ok, expected)
  {
    hide Wrote, Host.Genuine;
    WroteNothing(host, host.disk, host.trace, expected);
    ok := true;
    if ProxyVersion in changed {
      ok := InstallRpcProxy(host, config.proxyVersion, expected);
    }
  }

  method WriteNodeFiles(host: Host, config: Config, changed: set<Key>, ghost download: Bytes,
        ghost expected: Option<string>)
    returns (ok: bool)
    requires host.Genuine()
    modifies host`disk, host`trace
    ensures host.Genuine()
    ensures OnlyTouches(old(host.disk), host.disk, NODE_AREA)
    ensures !NodeChanged(changed) ==> host.disk == old(host.disk)
    ensures ok ==>
      At(host.disk, Managed(NodeEnv)) == GenerationFile(host, old(host.disk), config, changed, download, NodeEnv)
    ensures Wrote(host, old(host.disk), old(host.trace), host.trace, ok, expected)
  {
    hide Wrote, NodeEnvText, Host.Genuine;
    WroteNothing(host, host.disk, host.trace, expected);
    ok := true;
    if NodeChanged(changed) {
      var rewritten;
      ok, rewritten := UpdateServiceArgs(host, config, expected);
    }
  }

  method WriteMonitorFiles(host: Host, config: Config, changed: set<Key>, ghost download: Bytes,
        ghost expected: Option<string>)
    returns (ok: bool)
    requires host.Genuine()
    modifies host`disk, host`trace
    ensures host.Genuine()
    ensures OnlyTouches(old(host.disk), host.disk, MONITOR_AREA)
    ensures !CredentialsChanged(changed) ==> host.disk == old(host.disk)
    ensures ok ==>
      At(host.disk, Managed(MonitorScript))
        == GenerationFile(host, old(host.disk), config, changed, download, MonitorScript)
    ensures ok ==>
      At(host.disk, Managed(MonitorEnv)) == GenerationFile(host, old(host.disk), config, changed, download, MonitorEnv)
    ensures Wrote(host, old(host.disk), old(host.trace), host.trace, ok, expected)
  {
    hide Wrote, MonitorPairs, EnvText, Host.Genuine;
    WroteNothing(host, host.disk, host.trace, expected);
    ok := true;
    if CredentialsChanged(changed) {
      ok := InstallMonitor(host, config, expected);
    }
  }

  method WriteProxyFiles(host: Host, config: Config, changed: set<Key>, ghost download: Bytes,
        ghost expected: Option<string>)
    returns (ok: bool)
    requires host.Genuine()
    modifies host`disk, host`loaded, host`trace
    ensures host.Genuine()
    ensures OnlyTouches(old(host.disk), host.disk, PROXY_AREA)
    ensures !ProxyChanged(changed) ==> host.disk == old(host.disk)
    ensures ok ==>
      At(host.disk, Managed(ProxyUnit)) == GenerationFile(host, old(host.disk), config, changed, download, ProxyUnit)
    ensures ok ==>
      At(host.disk, Managed(ProxyEnv)) == GenerationFile(host, old(host.disk), config, changed, download, ProxyEnv)
    ensures Wrote(host, old(host.disk), old(host.trace), host.trace, ok, expected)
  {
    hide Wrote, ProxyPairs, EnvText, Host.Genuine;
    WroteNothing(host, host.disk, host.trace, expected);
    ok := true;
    if ProxyChanged(changed) {
      ok := InstallRpcProxyService(host, config, expected);
    }
  }

  /** The files that a change of these keys is about. */
  ghost predicate Writes(changed: set<Key>, file: ManagedFile) {
    match file
    case NodeBinary => ReleaseChanged(changed)
    case CliBinary => ReleaseChanged(changed)
    case ProxyBinary => ProxyVersion in changed
    case NodeEnv => NodeChanged(changed)
    case MonitorEnv => CredentialsChanged(changed)
    case MonitorScript => CredentialsChanged(changed)
    case ProxyEnv => ProxyChanged(changed)
    case ProxyUnit => ProxyChanged(changed)
    case NodeUnit => false
    case MonitorUnit => false
  }

  ghost function GenerationArea(changed: set<Key>): iset<Path> {
    iset p: Path | Scratch(p) || (p.Managed? && Writes(changed, p.file))
  }

  /** The files of these keys, like every file the transaction touches, are captured. */
  lemma GenerationIsCaptured(changed: set<Key>)
    ensures forall p | p in GenerationArea(changed) :: p in TransactionArea()
  {
    TransactionPathsAreTheManagedFiles();
    hide TRANSACTION_PATHS, Writes;
  }

  /** A part that writes only its own files, and nothing unless its keys changed, stays
      within the files of the changed keys. */
  lemma FootprintOfParts(before: Disk, middle: Disk, disk: Disk, area: iset<Path>, changed: set<Key>, written: bool)
    requires OnlyTouches(before, middle, GenerationArea(changed)) && OnlyTouches(middle, disk, area)
    requires !written ==> disk == middle
    requires written ==>
      || (area == PROXY_BINARY_AREA && ProxyVersion in changed) || (area == NODE_AREA && NodeChanged(changed))
      || (area == MONITOR_AREA && CredentialsChanged(changed)) || (area == PROXY_AREA && ProxyChanged(changed))
    ensures OnlyTouches(before, disk, GenerationArea(changed)) && OnlyTouches(before, disk, TransactionArea())
  {
    GenerationIsCaptured(changed);
    hide TransactionArea;
  }

  /** `_write_config_generation`: only the files the changed keys require are written. */
  method WriteConfigGeneration(host: Host, config: Config, changed: set<Key>, ghost expected: Option<string>)
    returns (ok: bool)
    requires host.Genuine()
    modifies host`disk, host`loaded, host`trace
    ensures host.Genuine()
    ensures OnlyTouches(old(host.disk), host.disk, GenerationArea(changed))
    ensures OnlyTouches(old(host.disk), host.disk, TransactionArea())
    ensures ok ==> Generation(host, old(host.disk), host.disk, config, changed, old(host.Next(Fetch)).first)
    ensures ok && ProxyVersion in changed && config.proxyVersion != "" ==>
      Fetched(host.trace, old(|host.trace|), old(host.Next(Fetch)).first)
    ensures Wrote(host, old(host.disk), old(host.trace), host.trace, ok, expected)
  {
    hide TransactionArea, GenerationArea, OnlyTouches, GenerationFile, Wrote, Generation, Host.Genuine;
    hide PROXY_BINARY_AREA, NODE_AREA, MONITOR_AREA, PROXY_AREA, NodeChanged, CredentialsChanged, ProxyChanged, Fetched;
    ghost var d0, t0, download := host.disk, host.trace, host.Next(Fetch).first;
    WroteNothing(host, d0, t0, expected);
    TouchesNothing(d0, GenerationArea(changed));
    ok := WriteProxyBinary(host, config, changed, expected);
    ghost var d1, t1 := host.disk, host.trace;
    FootprintOfParts(d0, d0, d1, PROXY_BINARY_AREA, changed, ProxyVersion in changed);
    if !ok {
      return;
    }
    ok := WriteNodeFiles(host, config, changed, download, expected);
    ghost var d2, t2 := host.disk, host.trace;
    WroteMore(host, d0, d1, t0, t1, t2, ok, expected);
    FootprintOfParts(d0, d1, d2, NODE_AREA, changed, NodeChanged(changed));
    if !ok {
      return;
    }
    ok := WriteMonitorFiles(host, config, changed, download, expected);
    ghost var d3, t3 := host.disk, host.trace;
    WroteMore(host, d0, d2, t0, t2, t3, ok, expected);
    FootprintOfParts(d0, d2, d3, MONITOR_AREA, changed, CredentialsChanged(changed));
    if !ok {
      return;
    }
    ok := WriteProxyFiles(host, config, changed, download, expected);
    WroteMore(host, d0, d3, t0, t3, host.trace, ok, expected);
    FootprintOfParts(d0, d3, host.disk, PROXY_AREA, changed, ProxyChanged(changed));
    if ok {
      GenerationBuilt(host, d0, d1, d2, d3, host.disk, config, changed, download);
      WroteIsLonger(host, d0, t0, t1, t2, t3, host.trace, ok, d1, d2, d3, expected);
      DownloadsStay(t1, host.trace, |t0|, |t0|, download, host.Next(Fetch));
    }
  }

  lemma WroteIsLonger(host: Host, d0: Disk, t0: seq<Event>, t1: seq<Event>, t2: seq<Event>, t3: seq<Event>,
                      trace: seq<Event>, ok: bool, d1: Disk, d2: Disk, d3: Disk, expected: Option<string>)
    requires Wrote(host, d1, t1, t2, true, expected) && Wrote(host, d2, t2, t3, true, expected)
    requires Wrote(host, d3, t3, trace, ok, expected)
    ensures t1 <= trace
  {
  }

  // ---------------------------------------------------------- activating the files

  /** The version the activation requires the node to report, if any. */
  ghost function ExpectedVersion(config: Config, changed: set<Key>): Option<string> {
    if ReleaseChanged(changed) && config.version != "" then Some(config.version) else None
  }

  /** A process launched since `from` from the files that are on disk now. */
  ghost predicate Fresh(host: Host, s: Service, from: nat)
    reads host`disk, host`launched
  {
    s in host.launched && host.launched[s].at >= from && SameFiles(host.launched[s].image, host.disk)
  }

  /** An event of the activation phase: only the two binaries may change, only services
      that ran are launched, and a probe carries the new credentials and meets a process
      launched from files that differ from the written ones in the binaries alone. */
  ghost predicate ForwardEvent(before: Disk, e: Event, running: set<Service>, config: Config, changed: set<Key>) {
    && OnlyTouches(before, e.disk, Activation.ReleaseArea())
    && !e.op.Reload? && !e.op.Write? && (e.op.Stop? ==> ReleaseChanged(changed) && e.op.service == Node)
    && (Launches(e.op) ==> e.op.service in running)
    && (e.op.Probe? ==> e.op.user == config.rpcUser && e.op.password == config.rpcPassword)
    && (e.op.Probe? && e.op.process.Some? ==> OnlyTouches(before, e.op.process.value.image, Activation.ReleaseArea()))
  }

  /** What a step of the activation phase does to the trace. */
  ghost predicate Stepped(host: Host, disk: Disk, before: seq<Event>, trace: seq<Event>, running: set<Service>,
        config: Config, changed: set<Key>) {
    before <= trace && forall i | |before| <= i < |trace| :: ForwardEvent(disk, trace[i], running, config, changed)
  }

  lemma SteppedMore(host: Host, disk: Disk, middle: Disk, before: seq<Event>, half: seq<Event>, trace: seq<Event>,
                    running: set<Service>, config: Config, changed: set<Key>)
    requires OnlyTouches(disk, middle, Activation.ReleaseArea())
    requires Stepped(host, disk, before, half, running, config, changed)
      && Stepped(host, middle, half, trace, running, config, changed)
    ensures Stepped(host, disk, before, trace, running, config, changed)
  {
    hide Activation.ReleaseArea;
    forall i | |before| <= i < |trace| ensures ForwardEvent(disk, trace[i], running, config, changed) {
      if i < |half| {
        assert trace[i] == half[i];
      } else {
        assert ForwardEvent(middle, trace[i], running, config, changed);
      }
    }
  }

  lemma SetbacksMore(host: Host, before: seq<Event>, half: seq<Event>, trace: seq<Event>, ok: bool,
        expected: Option<string>)
    requires before <= half <= trace && NoSetback(host, half, |before|, expected)
    requires if ok then NoSetback(host, trace, |half|, expected) else SomeSetback(host, trace, |half|, expected)
    ensures if ok then NoSetback(host, trace, |before|, expected) else SomeSetback(host, trace, |before|, expected)
  {
    if ok {
      forall i | |before| <= i < |trace| ensures !Setback(host, trace[i], expected) {
        if i < |half| {
          assert trace[i] == half[i];
        }
      }
    }
  }

  /** Where the first part of the trace has no setback, the whole stops where the rest does. */
  lemma StopsMore(host: Host, before: seq<Event>, half: seq<Event>, trace: seq<Event>, expected: Option<string>)
    requires before <= half <= trace && NoSetback(host, half, |before|, expected)
    requires StopsAtFailure(host, trace, |half|, expected)
    ensures StopsAtFailure(host, trace, |before|, expected)
  {
    SetbacksFail(host, half, |before|, |half|, expected);
    StopsLater(host, half, trace, |before|, expected);
  }

  /** The release's files after a successful activation of the node. */
  ghost predicate ReleaseInstalled(before: Disk, disk: Disk, config: Config, changed: set<Key>, download: Reply) {
    if ReleaseChanged(changed) && config.version != "" then
      && At(disk, Managed(NodeBinary)) == Some(File(download.first, EXECUTABLE_MODE))
      && At(disk, Managed(CliBinary)) == Some(File(download.second, EXECUTABLE_MODE))
    else
      && At(disk, Managed(NodeBinary)) == At(before, Managed(NodeBinary))
      && At(disk, Managed(CliBinary)) == At(before, Managed(CliBinary))
  }

  /** The node is relaunched unless none of its keys changed, or the release keys did and
      the new version is empty. */
  ghost predicate Relaunches(config: Config, changed: set<Key>) {
    NodeChanged(changed) && (ReleaseChanged(changed) ==> config.version != "")
  }

  /** Restart the node and wait for it to answer the new credentials. */
  method RestartNode(host: Host, config: Config, ghost changed: set<Key>) returns (ok: bool)
    requires Node in host.running
    requires host.Genuine()
    modifies host`running, host`launched, host`trace
    ensures host.Genuine()
    ensures Activation.OthersAlone(old(host.running), old(host.launched), host.running, host.launched)
    ensures ok ==>
      && Node in host.running && Fresh(host, Node, old(|host.trace|))
      && NodeAnswered(host.trace, old(|host.trace|))
    ensures Stepped(host, host.disk, old(host.trace), host.trace, old(host.running), config, changed)
    ensures if ok then NoSetback(host, host.trace, old(|host.trace|), None)
            else SomeSetback(host, host.trace, old(|host.trace|), None)
    ensures StopsAtFailure(host, host.trace, old(|host.trace|), None)
    ensures InPhases(host.trace, old(|host.trace|), 1, 1)
  {
    hide Activation.ReleaseArea, OnlyTouches, Host.Genuine, StopsAtFailure, InPhases;
    ghost var from := |host.trace|;
    TouchesNothing(host.disk, Activation.ReleaseArea());
    ok := host.Restart(Node);
    RestartStops(host, host.trace, from);
    if !ok {
      SetbackLast(host, host.trace, from, None);
      return;
    }
    var asked, answer := host.Probe(config.rpcUser, config.rpcPassword);
    ok := asked && answer.Some?;
    RestartStops(host, host.trace, from);
    SameFilesAsSelf(host.disk);
    if ok {
      assert Answered(host.trace[from + 1]);
    } else {
      assert Setback(host, host.trace[from], None) || Setback(host, host.trace[from + 1], None);
    }
  }

  lemma RestartStops(host: Host, trace: seq<Event>, from: nat)
    requires |trace| == from + 1 || (|trace| == from + 2 && trace[from].reply.ok && trace[from + 1].op.Probe?)
    requires trace[from].op == Restart(Node)
    ensures StopsAtFailure(host, trace, from, None) && InPhases(trace, from, 1, 1)
  {
    hide Host.Smooth;
  }

  /** The node's part of `_activate_config_generation`. */
  method ActivateNode(host: Host, config: Config, changed: set<Key>, snapshot: Snapshot) returns (ok: bool)
    requires snapshot.running == host.running
    requires host.Genuine()
    modifies host`disk, host`running, host`launched, host`trace
    ensures host.Genuine()
    ensures OnlyTouches(old(host.disk), host.disk, Activation.ReleaseArea())
    ensures Activation.OthersAlone(old(host.running), old(host.launched), host.running, host.launched)
    ensures Node !in old(host.running) ==> host.running == old(host.running) && host.launched == old(host.launched)
    ensures ok ==> (Node in host.running <==> Node in old(host.running))
    ensures ok && Node in old(host.running) && Relaunches(config, changed) ==>
      Fresh(host, Node, old(|host.trace|)) && NodeAnswered(host.trace, old(|host.trace|))
    ensures ok && !Relaunches(config, changed) ==>
        host.running == old(host.running) && host.launched == old(host.launched)
    ensures ok ==> ReleaseInstalled(old(host.disk), host.disk, config, changed, old(host.Next(Stage)))
    ensures ok && ReleaseChanged(changed) && config.version != "" ==>
      Staging(host.trace, old(|host.trace|), old(host.Next(Stage)))
    ensures Stepped(host, old(host.disk), old(host.trace), host.trace, old(host.running), config, changed)
    ensures !NodeChanged(changed) ==> host.trace == old(host.trace) && host.launched == old(host.launched)
    ensures !ReleaseChanged(changed) ==> host.disk == old(host.disk)
    ensures if ok then NoSetback(host, host.trace, old(|host.trace|), ExpectedVersion(config, changed))
            else SomeSetback(host, host.trace, old(|host.trace|), ExpectedVersion(config, changed))
    ensures StopsAtFailure(host, host.trace, old(|host.trace|), ExpectedVersion(config, changed))
    ensures InPhases(host.trace, old(|host.trace|), 1, 1)
  {
    ghost var before, from := host.disk, |host.trace|;
    hide Activation.ReleaseArea, OnlyTouches, Host.Genuine;
    TouchesNothing(before, Activation.ReleaseArea());
    if ReleaseChanged(changed) {
      ok := Activation.InstallRelease(host, config.version, config.rpcUser, config.rpcPassword);
      ReleaseIsForward(host, before, host.trace, from, Node in old(host.running), old(host.running), config, changed);
      if config.version != "" && !ok {
        RoughIsSetback(host, host.trace, from, Some(config.version));
      }
    } else if NodeChanged(changed) && Node in snapshot.running {
      ok := RestartNode(host, config, changed);
    } else {
      ok := true;
    }
  }

  lemma SameFilesAsSelf(disk: Disk)
    ensures SameFiles(disk, disk)
  {
  }

  lemma ReleaseIsForward(host: Host, before: Disk, trace: seq<Event>, from: nat, wasRunning: bool,
        running: set<Service>, config: Config, changed: set<Key>)
    requires (wasRunning ==> Node in running) && ReleaseChanged(changed)
    requires forall i | from <= i < |trace| ::
      Activation.ReleaseEvent(before, trace[i], wasRunning, config.rpcUser, config.rpcPassword)
    ensures forall i | from <= i < |trace| :: ForwardEvent(before, trace[i], running, config, changed)
    ensures InPhases(trace, from, 1, 1)
  {
    hide Activation.ReleaseArea;
  }

  lemma RoughIsSetback(host: Host, trace: seq<Event>, from: nat, expected: Option<string>)
    requires Rough(host, trace, from, expected)
    requires forall i | from <= i < |trace| :: !trace[i].op.Reload?
    ensures SomeSetback(host, trace, from, expected)
  {
    var i :| from <= i < |trace| && !host.Smooth(trace[i], expected);
    assert Setback(host, trace[i], expected);
  }

  /** If needed, restart one of the other two services and see whether it stays up. */
  method ActivateService(host: Host, s: Service, needed: bool, ghost config: Config, ghost changed: set<Key>,
        ghost expected: Option<string>)
    returns (ok: bool)
    requires needed ==> s in host.running
    requires host.Genuine()
    modifies host`running, host`launched, host`trace
    ensures host.Genuine()
    ensures forall t | t != s :: SameLaunch(t, old(host.launched), host.launched)
    ensures !needed ==>
      ok && host.trace == old(host.trace) && host.running == old(host.running) && host.launched == old(host.launched)
    ensures needed ==> |host.trace| == old(|host.trace|) + 1 && host.trace[old(|host.trace|)].op == Restart(s)
    ensures ok ==> host.running == old(host.running)
    ensures ok && needed ==> Fresh(host, s, old(|host.trace|))
    ensures Stepped(host, host.disk, old(host.trace), host.trace, old(host.running), config, changed)
    ensures forall i | old(|host.trace|) <= i < |host.trace| :: !host.trace[i].op.Probe?
    ensures if ok then NoSetback(host, host.trace, old(|host.trace|), expected)
            else SomeSetback(host, host.trace, old(|host.trace|), expected)
    ensures StopsAtFailure(host, host.trace, old(|host.trace|), expected)
    ensures InPhases(host.trace, old(|host.trace|), ServicePhase(s), ServicePhase(s))
  {
    hide Activation.ReleaseArea, Host.Genuine;
    if !needed {
      return true;
    }
    ok := host.Restart(s);
    TouchesNothing(host.disk, Activation.ReleaseArea());
    assert host.trace[|host.trace| - 1].disk == host.disk;
    if !ok || s !in host.running {
      SetbackLast(host, host.trace, old(|host.trace|), expected);
    }
    ok := ok && s in host.running;
  }

  /** The proxy has to be restarted but its binary is not there. */
  predicate ProxyUnavailable(disk: Disk, running: set<Service>, changed: set<Key>) {
    ProxyChanged(changed) && Proxy in running && Managed(ProxyBinary) !in disk
  }

  /** On success the same services run as before; a service whose files were rewritten
      runs a process launched from the files now on disk, the node unless the release
      keys changed and the new version is empty; every other process goes on. */
  ghost predicate Generated(host: Host, config: Config, changed: set<Key>, running: set<Service>,
        launched: map<Service, Launch>, from: nat)
    reads host`disk, host`running, host`launched
  {
    && host.running == running
    && (Node in running && Relaunches(config, changed) ==> Fresh(host, Node, from))
    && (Monitor in running && CredentialsChanged(changed) ==> Fresh(host, Monitor, from))
    && (Proxy in running && ProxyChanged(changed) ==> Fresh(host, Proxy, from))
    && (!Relaunches(config, changed) ==> SameLaunch(Node, launched, host.launched))
    && (!CredentialsChanged(changed) ==> SameLaunch(Monitor, launched, host.launched))
    && (!ProxyChanged(changed) ==> SameLaunch(Proxy, launched, host.launched))
    && (forall s | s !in running :: SameLaunch(s, launched, host.launched))
  }

  ghost predicate SameLaunch(s: Service, launched: map<Service, Launch>, launched': map<Service, Launch>) {
    (s in launched <==> s in launched') && (s in launched ==> launched[s] == launched'[s])
  }

  /** A service that had to be relaunched runs from the disk as it is, any other process
      goes on. */
  ghost predicate RelaunchedIf(needed: bool, host: Host, s: Service, launched: map<Service, Launch>, from: nat)
    reads host`disk, host`launched
  {
    if needed then Fresh(host, s, from) else SameLaunch(s, launched, host.launched)
  }

  /** The part of `_activate_config_generation` about the other two services. */
  method ActivateOthers(host: Host, config: Config, changed: set<Key>, snapshot: Snapshot,
        ghost expected: Option<string>)
    returns (ok: bool)
    requires snapshot.running == host.running
    requires host.Genuine()
    modifies host`running, host`launched, host`trace
    ensures host.Genuine()
    ensures SameLaunch(Node, old(host.launched), host.launched)
    ensures ok ==> host.running == old(host.running)
    ensures ok ==> RelaunchedIf(CredentialsChanged(changed) && Monitor in snapshot.running, host, Monitor,
                     old(host.launched), old(|host.trace|))
    ensures ok ==> RelaunchedIf(ProxyChanged(changed) && Proxy in snapshot.running, host, Proxy,
                     old(host.launched), old(|host.trace|))
    ensures Stepped(host, host.disk, old(host.trace), host.trace, old(host.running), config, changed)
    ensures forall i | old(|host.trace|) <= i < |host.trace| :: !host.trace[i].op.Probe?
    ensures ok ==> NoSetback(host, host.trace, old(|host.trace|), expected)
    ensures ok ==> !ProxyUnavailable(host.disk, old(host.running), changed)
    ensures ok || ProxyUnavailable(host.disk, old(host.running), changed)
            || SomeSetback(host, host.trace, old(|host.trace|), expected)
    ensures StopsAtFailure(host, host.trace, old(|host.trace|), expected)
    ensures InPhases(host.trace, old(|host.trace|), 2, 3)
  {
    hide StopsAtFailure, InPhases, CredentialsChanged, ProxyChanged, Activation.ReleaseArea, OnlyTouches, SameFiles,
      ForwardEvent, NoSetback,
      SomeSetback, Host.Genuine, ProxyUnavailable;
    TouchesNothing(host.disk, Activation.ReleaseArea());
    ghost var t0, l0 := host.trace, host.launched;
    var needed := CredentialsChanged(changed) && Monitor in snapshot.running;
    ok := ActivateService(host, Monitor, needed, config, changed, expected);
    ghost var t1, l1 := host.trace, host.launched;
    assert SameLaunch(Node, l0, l1) && SameLaunch(Proxy, l0, l1);
    WidePhases(t1, |t0|, 2, 2, 2, 3);
    if !ok {
      return;
    }
    if ProxyUnavailable(host.disk, snapshot.running, changed) {
      return false;
    }
    needed := ProxyChanged(changed) && Proxy in snapshot.running;
    ok := ActivateService(host, Proxy, needed, config, changed, expected);
    assert SameLaunch(Node, l1, host.launched) && SameLaunch(Monitor, l1, host.launched);
    SteppedMore(host, host.disk, host.disk, t0, t1, host.trace, snapshot.running, config, changed);
    SetbacksMore(host, t0, t1, host.trace, ok, expected);
    StopsMore(host, t0, t1, host.trace, expected);
    PhasesCompose(t1, host.trace, |t0|, 2, 2, 3, 3);
  }

  /** `_activate_config_generation` */
  method ActivateConfigGeneration(host: Host, config: Config, changed: set<Key>, snapshot: Snapshot) returns (ok: bool)
    requires snapshot.running == host.running
    requires host.Genuine()
    modifies host`disk, host`running, host`launched, host`trace
    ensures host.Genuine()
    ensures OnlyTouches(old(host.disk), host.disk, Activation.ReleaseArea())
    ensures ok ==> Generated(host, config, changed, old(host.running), old(host.launched), old(|host.trace|))
    ensures ok && Node in old(host.running) && Relaunches(config, changed) ==>
      NodeAnswered(host.trace, old(|host.trace|))
    ensures ok ==> ReleaseInstalled(old(host.disk), host.disk, config, changed, old(host.Next(Stage)))
    ensures ok && ReleaseChanged(changed) && config.version != "" ==>
      Staging(host.trace, old(|host.trace|), old(host.Next(Stage)))
    ensures Stepped(host, old(host.disk), old(host.trace), host.trace, old(host.running), config, changed)
    ensures !NodeChanged(changed) ==> forall i | old(|host.trace|) <= i < |host.trace| :: !host.trace[i].op.Probe?
    ensures !NodeChanged(changed) ==> SameLaunch(Node, old(host.launched), host.launched)
    ensures !ReleaseChanged(changed) ==> host.disk == old(host.disk)
    ensures ReleaseInstalled(old(host.disk), host.disk, config, changed, old(host.Next(Stage)))
            || SomeSetback(host, host.trace, old(|host.trace|), ExpectedVersion(config, changed))
    ensures ok ==> NoSetback(host, host.trace, old(|host.trace|), ExpectedVersion(config, changed))
    ensures ok ==> !ProxyUnavailable(old(host.disk), old(host.running), changed)
    ensures ok || ProxyUnavailable(old(host.disk), old(host.running), changed)
            || SomeSetback(host, host.trace, old(|host.trace|), ExpectedVersion(config, changed))
    ensures StopsAtFailure(host, host.trace, old(|host.trace|), ExpectedVersion(config, changed))
    ensures InPhases(host.trace, old(|host.trace|), 1, 3)
  {
    hide Activation.ReleaseArea, OnlyTouches, Relaunches, SameFiles, ReleaseInstalled, ForwardEvent,
      NoSetback, SomeSetback, StopsAtFailure, InPhases, Staging, Host.Genuine;
    hide CredentialsChanged, ProxyChanged, NodeChanged, ExpectedVersion, NodeAnswered, Generated, SameLaunch,
      Activation.OthersAlone, ProxyUnavailable, RelaunchedIf;
    ghost var d0, t0, l0, expected := host.disk, host.trace, host.launched, ExpectedVersion(config, changed);
    ghost var release := host.Next(Stage);
    ok := ActivateNode(host, config, changed, snapshot);
    ghost var t1, l1 := host.trace, host.launched;
    SameLaunchAsSelf(l1);
    WidePhases(t1, |t0|, 1, 1, 1, 3);
    if !ok {
      return;
    }
    SameServicesRun(snapshot.running, l0, host.running, l1);
    ok := ActivateOthers(host, config, changed, snapshot, expected);
    SteppedMore(host, d0, host.disk, t0, t1, host.trace, snapshot.running, config, changed);
    StopsMore(host, t0, t1, host.trace, expected);
    PhasesCompose(t1, host.trace, |t0|, 1, 1, 2, 3);
    if ok || SomeSetback(host, host.trace, |t1|, expected) {
      SetbacksMore(host, t0, t1, host.trace, ok, expected);
    }
    ProxyStaysAvailable(d0, host.disk, snapshot.running, changed);
    if !ok {
      return;
    }
    if NodeAnswered(t1, |t0|) {
      AnsweredStays(t1, host.trace, |t0|, |t0|);
    }
    GeneratedFromParts(host, config, changed, l0, l1, |t0|, |t1|);
    DownloadsStay(t1, host.trace, |t0|, |t0|, "", release);
    ok := Node !in snapshot.running || Node in host.running;
  }

  lemma SameLaunchAsSelf(launched: map<Service, Launch>)
    ensures forall s :: SameLaunch(s, launched, launched)
  {
  }

  lemma ProxyStaysAvailable(written: Disk, disk: Disk, running: set<Service>, changed: set<Key>)
    requires OnlyTouches(written, disk, Activation.ReleaseArea())
    ensures ProxyUnavailable(disk, running, changed) <==> ProxyUnavailable(written, running, changed)
  {
    KeptByRelease(written, disk, ProxyBinary);
    hide Activation.ReleaseArea, OnlyTouches, ProxyChanged;
  }

  lemma SameServicesRun(running: set<Service>, launched: map<Service, Launch>,
                        running': set<Service>, launched': map<Service, Launch>)
    requires Activation.OthersAlone(running, launched, running', launched')
    requires Node in running <==> Node in running'
    ensures running == running'
  {
    forall s ensures s in running <==> s in running' {
      match s
      case Node =>
      case Monitor =>
      case Proxy =>
    }
  }

  /** The parts of the activation relaunch what the change calls for. */
  lemma GeneratedFromParts(host: Host, config: Config, changed: set<Key>, l0: map<Service, Launch>,
                           l1: map<Service, Launch>, from: nat, later: nat)
    requires Activation.OthersAlone(host.running, l0, host.running, l1) && from <= later
    requires SameLaunch(Node, l1, host.launched)
    requires Node !in host.running || !Relaunches(config, changed) ==> l1 == l0
    requires Node in host.running && Relaunches(config, changed) ==>
      Node in l1 && l1[Node].at >= from && SameFiles(l1[Node].image, host.disk)
    requires RelaunchedIf(CredentialsChanged(changed) && Monitor in host.running, host, Monitor, l1, later)
    requires RelaunchedIf(ProxyChanged(changed) && Proxy in host.running, host, Proxy, l1, later)
    ensures Generated(host, config, changed, host.running, l0, from)
  {
    hide Relaunches, CredentialsChanged, ProxyChanged, SameFiles;
    forall s: Service | s !in host.running ensures SameLaunch(s, l0, host.launched) {
      match s
      case Node =>
      case Monitor =>
      case Proxy =>
    }
  }

  lemma KeptByRelease(written: Disk, disk: Disk, file: ManagedFile)
    requires OnlyTouches(written, disk, Activation.ReleaseArea())
    requires file != NodeBinary && file != CliBinary
    ensures At(disk, Managed(file)) == At(written, Managed(file))
  {
  }

  // ------------------------------------------------------------- the transaction

  /** The ways a transaction can end. Only the first and the third return normally. */
  datatype Result = NoOp | CaptureFailed | Committed | RolledBack | RollbackFailed(errors: seq<RollbackError>)

  /** Every managed file after a commit. */
  ghost function CommittedFile(host: Host, before: Disk, config: Config, changed: set<Key>,
                               download: Bytes, release: Reply, file: ManagedFile): Option<File> {
    if ReleaseChanged(changed) && config.version != "" && file == NodeBinary
      then Some(File(release.first, EXECUTABLE_MODE))
    else if ReleaseChanged(changed) && config.version != "" && file == CliBinary
      then Some(File(release.second, EXECUTABLE_MODE))
    else GenerationFile(host, before, config, changed, download, file)
  }

  ghost predicate CommittedFiles(host: Host, before: Disk, disk: Disk, config: Config, changed: set<Key>,
        download: Bytes, release: Reply) {
    forall file :: At(disk, Managed(file)) == CommittedFile(host, before, config, changed, download, release, file)
  }

  /** The proxy has to be restarted, and neither is its binary there nor is one installed. */
  ghost predicate ProxyMissing(disk: Disk, running: set<Service>, config: Config, changed: set<Key>) {
    ProxyUnavailable(disk, running, changed) && !(ProxyVersion in changed && config.proxyVersion != "")
  }

  /** Every step of a transaction stays within the captured paths and scratch files, and
      launches only services that ran at capture. */
  ghost predicate TransactionEvent(before: Disk, e: Event, running: set<Service>) {
    OnlyTouches(before, e.disk, TransactionArea()) && (Launches(e.op) ==> e.op.service in running)
  }

  /** A probe of the forward direction: the new credentials, and a node that, if it runs,
      was launched with the file rendered from the new configuration. */
  ghost predicate ForwardProbe(e: Event, config: Config) {
    && e.op.Probe? && e.op.user == config.rpcUser && e.op.password == config.rpcPassword
    && (e.op.process.Some? ==> LaunchedWith(e.op.process.value, Some(NodeEnvText(config))))
  }

  ghost function DataAt(disk: Disk, p: Path): Option<Bytes> {
    if p in disk then Some(disk[p].data) else None
  }

  ghost predicate LaunchedWith(process: Launch, nodeEnv: Option<Bytes>) {
    DataAt(process.image, Managed(NodeEnv)) == nodeEnv
  }

  ghost function ErrorsOf(r: Result): seq<RollbackError> {
    if r.RollbackFailed? then r.errors else []
  }

  /** A step before the rollback: the only temporary file is that of the proxy's binary,
      and only the node is ever stopped, for a release. */
  ghost predicate ForwardStep(e: Event, changed: set<Key>) {
    && (e.op.Write? && e.op.path.Temporary? ==> e.op.path == Temporary(Managed(ProxyBinary)))
    && (e.op.Stop? ==> ReleaseChanged(changed) && e.op.service == Node)
  }

  /** What a transaction went through: the replies to its downloads, the snapshot, and the
      services with the disk, and the step, at which its forward direction ended. */
  datatype Account = Account(download: Bytes, release: Reply, snapshot: Snapshot, left: Services, turned: nat)

  /** What a commit installs has been downloaded in this transaction. */
  ghost predicate Downloaded(trace: seq<Event>, from: nat, config: Config, changed: set<Key>, account: Account) {
    && (ReleaseChanged(changed) && config.version != "" ==> Staging(trace, from, account.release))
    && (ProxyVersion in changed && config.proxyVersion != "" ==> Fetched(trace, from, account.download))
  }

  lemma DownloadedSince(trace: seq<Event>, from: nat, later: nat, config: Config, changed: set<Key>, account: Account)
    requires Downloaded(trace, later, config, changed, account) && from <= later
    ensures Downloaded(trace, from, config, changed, account)
  {
    hide ReleaseChanged;
    DownloadsStay(trace, trace, from, later, account.download, account.release);
  }

  /** The forward direction of a failed transaction, and what the rollback left of it: it
      went through its phases in order, and ended for a reason of its own, at the first step
      that failed but for clean-up; had it no setback, every file was as a commit leaves it;
      and a file whose restoration failed still is as the forward direction left it. */
  ghost predicate Turned(host: Host, from: nat, before: Disk, config: Config, changed: set<Key>,
                         errors: seq<RollbackError>, account: Account)
    reads host`disk, host`trace
  {
    var expected := ExpectedVersion(config, changed);
    && from <= account.turned <= |host.trace|
    && (forall i | from <= i < account.turned :: ForwardStep(host.trace[i], changed))
    && (forall i | from <= i < account.turned && host.trace[i].op.Probe? :: ForwardProbe(host.trace[i], config))
    && StopsAtFailure(host, host.trace[..account.turned], from, expected)
    && InPhases(host.trace[..account.turned], from, 0, 3)
    && (ProxyMissing(before, account.snapshot.running, config, changed)
        || SomeSetback(host, host.trace[..account.turned], from, expected))
    && (NoSetback(host, host.trace[..account.turned], from, expected) ==>
          CommittedFiles(host, before, account.left.disk, config, changed, account.download, account.release))
    && (forall file | RestoreFailed(Managed(file)) in errors ::
          At(host.disk, Managed(file)) == At(account.left.disk, Managed(file)))
  }

  /** The backward direction: the rollback is accounted for, operation by operation, and
      asks only a node that ran at capture, with the previous credentials. */
  ghost predicate Undone(host: Host, previous: Config, errors: seq<RollbackError>, account: Account)
    reads host`disk, host`running, host`launched, host`trace
  {
    && Complete(account.snapshot)
    && RollbackAccounted(host.trace, account.turned, account.snapshot, errors, previous.rpcUser, previous.rpcPassword,
         account.left, Services(host.running, host.launched, host.disk))
    && (forall i | account.turned <= i < |host.trace| && host.trace[i].op.Probe? ::
          Node in account.snapshot.running
            && host.trace[i].op == Probe(previous.rpcUser, previous.rpcPassword, host.NodeProcess()))
  }

  /** The body of its `try`: write the generation, then activate it. */
  method TryGeneration(host: Host, config: Config, changed: set<Key>, snapshot: Snapshot)
    returns (ok: bool, ghost account: Account)
    requires snapshot.running == host.running
    requires host.Genuine()
    modifies host`disk, host`loaded, host`running, host`launched, host`trace
    ensures host.Genuine()
    ensures account.snapshot == snapshot && account.turned == |host.trace|
    ensures account.left == Services(host.running, host.launched, host.disk)
    ensures !NodeChanged(changed) ==> SameLaunch(Node, old(host.launched), host.launched)
    ensures ok ==>
      Generated(host, config, changed, old(host.running), old(host.launched), old(|host.trace|))
    ensures ok && Node in old(host.running) && Relaunches(config, changed) ==>
      NodeAnswered(host.trace, old(|host.trace|))
    ensures ok ==> !ProxyMissing(old(host.disk), old(host.running), config, changed)
    ensures ok ==> Downloaded(host.trace, old(|host.trace|), config, changed, account)
    ensures ok ==> NoSetback(host, host.trace, old(|host.trace|), ExpectedVersion(config, changed))
    ensures NoSetback(host, host.trace, old(|host.trace|), ExpectedVersion(config, changed)) ==>
      CommittedFiles(host, old(host.disk), host.disk, config, changed, account.download, account.release)
    ensures ok || ProxyMissing(old(host.disk), old(host.running), config, changed)
            || SomeSetback(host, host.trace, old(|host.trace|), ExpectedVersion(config, changed))
    ensures StopsAtFailure(host, host.trace, old(|host.trace|), ExpectedVersion(config, changed))
    ensures InPhases(host.trace, old(|host.trace|), 0, 3)
    ensures OnlyTouches(old(host.disk), host.disk, GenerationArea(changed))
    ensures OnlyTouches(old(host.disk), host.disk, TransactionArea())
    ensures old(host.trace) <= host.trace
    ensures forall i | old(|host.trace|) <= i < |host.trace| ::
      TransactionEvent(old(host.disk), host.trace[i], old(host.running)) && ForwardStep(host.trace[i], changed)
    ensures forall i | old(|host.trace|) <= i < |host.trace| && host.trace[i].op.Probe? ::
      ForwardProbe(host.trace[i], config)
  {
    hide TransactionArea, GenerationArea, Activation.ReleaseArea, OnlyTouches, NoSetback, SomeSetback, Wrote, Stepped;
    hide Generation, Generated, ReleaseInstalled, CommittedFiles, TransactionEvent, ForwardStep, ProxyMissing;
    hide ProxyUnavailable, ExpectedVersion, ForwardProbe, NodeAnswered, Host.Genuine, NodeChanged,
      StopsAtFailure, InPhases, Staging, Fetched, ReleaseChanged;
    ghost var d0, t0, running, expected := host.disk, host.trace, host.running, ExpectedVersion(config, changed);
    account := Account(host.Next(Fetch).first, host.Next(Stage), snapshot,
      Services(host.running, host.launched, host.disk), 0);
    ok := WriteConfigGeneration(host, config, changed, expected);
    ghost var d1, t2 := host.disk, host.trace;
    WriteEvents(host, d0, t0, t2, ok, running, expected, changed);
    WritingIsOnePhase(host, d0, t0, t2, ok, expected);
    WidePhases(t2, |t0|, 0, 0, 0, 3);
    if ok {
      account := account.(release := host.Next(Stage));
      ok := ActivateConfigGeneration(host, config, changed, snapshot);
      ActivationEvents(host, d0, d1, t2, host.trace, running, config, changed, account.download);
      ActivationSetbacks(host, d0, d1, t0, t2, host.trace, ok, config, changed, running, expected, account.download);
      ActivationWithinGeneration(d0, d1, host.disk, changed);
      WrittenUnlessSetback(host, d0, d1, host.disk, t0, t2, host.trace, config, changed, account);
      StopsMore(host, t0, t2, host.trace, expected);
      PhasesCompose(t2, host.trace, |t0|, 0, 0, 1, 3);
      if ok {
        GeneratedSince(host, config, changed, running, old(host.launched), |t0|, |t2|);
        DownloadsStay(t2, host.trace, |t0|, |t0|, account.download, account.release);
        DownloadsStay(host.trace, host.trace, |t0|, |t2|, account.download, account.release);
        if NodeAnswered(host.trace, |t2|) {
          AnsweredStays(host.trace, host.trace, |t0|, |t2|);
        }
      }
    } else {
      NotBoth(host, t2, |t0|, expected);
    }
    account := account.(left := Services(host.running, host.launched, host.disk), turned := |host.trace|);
  }

  /** `apply_config_transaction` */
  method ApplyConfigTransaction(host: Host, config: Config, previous: Config, changed: set<Key>)
    returns (r: Result, ghost account: Account)
    requires host.Genuine()
    modifies host`disk, host`loaded, host`running, host`launched, host`trace
    ensures host.Genuine()
    // nothing changed: nothing happens
    ensures r.NoOp? <==> changed == {}
    ensures r.NoOp? ==> host.trace == old(host.trace)
    ensures r.NoOp? || r.CaptureFailed? ==> host.disk == old(host.disk) && host.loaded == old(host.loaded)
    ensures r.NoOp? || r.CaptureFailed? ==> host.running == old(host.running) && host.launched == old(host.launched)
    ensures r.CaptureFailed? ==> SomeFailed(host.trace, old(|host.trace|))
    ensures r.CaptureFailed? ==> forall i | old(|host.trace|) <= i < |host.trace| :: host.trace[i].op.Read?
    ensures r.CaptureFailed? ==> forall i | old(|host.trace|) <= i < |host.trace| - 1 :: host.trace[i].reply.ok
    // success
    ensures r.Committed? ==>
      CommittedFiles(host, old(host.disk), host.disk, config, changed, account.download, account.release)
    ensures r.Committed? ==> Generated(host, config, changed, old(host.running), old(host.launched), old(|host.trace|))
    ensures r.Committed? ==> NoSetback(host, host.trace, old(|host.trace|), ExpectedVersion(config, changed))
    ensures r.Committed? && Node in old(host.running) && Relaunches(config, changed) ==>
      NodeAnswered(host.trace, old(|host.trace|))
    ensures r.Committed? ==> !ProxyMissing(old(host.disk), old(host.running), config, changed)
    ensures r.Committed? ==> InPhases(host.trace, old(|host.trace|), 0, 3)
    ensures r.Committed? ==> Downloaded(host.trace, old(|host.trace|), config, changed, account)
    // failure with a clean rollback
    ensures r.RolledBack? ==>
        SameFiles(old(host.disk), host.disk) && host.running == old(host.running) && host.UnitsLoaded()
    ensures r.RolledBack? ==> forall s | s in host.running :: Fresh(host, s, account.turned)
    ensures r.RolledBack? && Node in host.running ==> NodeAnswered(host.trace, account.turned)
    // failure with errors in the rollback
    ensures r.RollbackFailed? ==> r.errors != []
    ensures r.RollbackFailed? ==> forall file | RestoreFailed(Managed(file)) !in r.errors ::
      At(host.disk, Managed(file)) == old(At(host.disk, Managed(file)))
    ensures r.RollbackFailed? ==> forall s | StopFailed(s) !in r.errors && s !in old(host.running) :: s !in host.running
    ensures r.RollbackFailed? && ReloadFailed !in r.errors ==> host.UnitsLoaded()
    // either failure: the rollback fails exactly if one of its steps does
    ensures r.RolledBack? || r.RollbackFailed? ==>
      && Shows(account.snapshot, old(host.disk), old(host.running))
      && Turned(host, old(|host.trace|), old(host.disk), config, changed, ErrorsOf(r), account)
      && Undone(host, previous, ErrorsOf(r), account)
      && (r.RollbackFailed? <==> Rough(host, host.trace, account.turned, None))
      && (!NodeChanged(changed) ==> SameLaunch(Node, old(host.launched), account.left.launched))
      && OnlyTouches(old(host.disk), account.left.disk, GenerationArea(changed))
    // a reason for every failure
    ensures r.NoOp? || r.Committed? || ProxyMissing(old(host.disk), old(host.running), config, changed)
            || SomeSetback(host, host.trace, old(|host.trace|), ExpectedVersion(config, changed))
    // every step
    ensures OnlyTouches(old(host.disk), host.disk, GenerationArea(changed))
    ensures old(host.trace) <= host.trace
    ensures forall i | old(|host.trace|) <= i < |host.trace| ::
        TransactionEvent(old(host.disk), host.trace[i], old(host.running))
    ensures r.Committed? ==> forall i | old(|host.trace|) <= i < |host.trace| && host.trace[i].op.Probe? ::
      ForwardProbe(host.trace[i], config)
  {
    hide TransactionArea, GenerationArea, OnlyTouches, SameFiles, NoSetback, SomeSetback, Generated, CommittedFiles;
    hide TransactionEvent, ForwardStep, RollbackAccounted, NoPartialFiles, Restoring, ProxyMissing, ExpectedVersion;
    hide TRANSACTION_PATHS, ForwardProbe, Rough, RestoresBeforeStarts, InStartOrder, NodeAnswered, NodeChanged;
    hide Host.Genuine, StopsAtFailure, InPhases, Downloaded;
    account := Account("", host.Next(Stage), Snapshot(map[], {}), Services(host.running, host.launched, host.disk), 0);
    ghost var d0, t0, running, expected := host.disk, host.trace, host.running, ExpectedVersion(config, changed);
    TouchesNothing(d0, GenerationArea(changed));
    if changed == {} {
      r := NoOp;
      return;
    }
    var ok, snapshot := CaptureConfigTransaction(host);
    CaptureEvents(host, d0, host.trace, |t0|, ok, running, expected, changed);
    if !ok {
      r := CaptureFailed;
      return;
    }
    ghost var t1 := host.trace;
    ok, account := TryGeneration(host, config, changed, snapshot);
    ghost var d2, t3 := host.disk, host.trace;
    SetbacksSinceCapture(host, t0, t1, t3, expected);
    StopsMore(host, t0, t1, t3, expected);
    ReadingIsOnePhase(t1, |t0|);
    PhasesCompose(t1, t3, |t0|, 0, 0, 0, 3);
    if ok {
      GeneratedSince(host, config, changed, running, old(host.launched), |t0|, |t1|);
      DownloadedSince(host.trace, |t0|, |t1|, config, changed, account);
      if NodeAnswered(host.trace, |t1|) {
        AnsweredStays(host.trace, host.trace, |t0|, |t1|);
      }
      r := Committed;
      return;
    }
    var errors := RollbackConfigTransaction(host, snapshot, previous.rpcUser, previous.rpcPassword);
    RollbackEvents(host, d0, d2, t3, host.trace, snapshot);
    if SomeSetback(host, t3, |t0|, expected) {
      SetbackStays(host, t3, host.trace, |t0|, expected);
    }
    RestoredAll(d0, d2, host.disk, snapshot, errors, running, changed);
    SameFilesAsSelf(host.disk);
    assert host.trace[..|t3|] == t3;
    r := if errors == [] then RolledBack else RollbackFailed(errors);
  }

  lemma SetbacksSinceCapture(host: Host, t0: seq<Event>, t1: seq<Event>, trace: seq<Event>, expected: Option<string>)
    requires t0 <= t1 <= trace && NoSetback(host, t1, |t0|, expected)
    ensures NoSetback(host, trace, |t0|, expected) <==> NoSetback(host, trace, |t1|, expected)
    ensures SomeSetback(host, trace, |t1|, expected) ==> SomeSetback(host, trace, |t0|, expected)
  {
    hide Setback;
    assert forall i | |t0| <= i < |t1| :: trace[i] == t1[i];
  }

  lemma NotBoth(host: Host, trace: seq<Event>, from: nat, expected: Option<string>)
    ensures !(NoSetback(host, trace, from, expected) && SomeSetback(host, trace, from, expected))
  {
  }

  /** Without a setback in the forward direction every file is as a commit leaves it. */
  lemma WrittenUnlessSetback(host: Host, before: Disk, written: Disk, disk: Disk, t0: seq<Event>, t2: seq<Event>,
                             trace: seq<Event>, config: Config, changed: set<Key>, account: Account)
    requires t0 <= t2 <= trace
    requires Generation(host, before, written, config, changed, account.download)
    requires OnlyTouches(written, disk, Activation.ReleaseArea())
    requires ReleaseInstalled(written, disk, config, changed, account.release)
             || SomeSetback(host, trace, |t2|, ExpectedVersion(config, changed))
    ensures NoSetback(host, trace, |t0|, ExpectedVersion(config, changed)) ==>
      CommittedFiles(host, before, disk, config, changed, account.download, account.release)
  {
    hide Generation, ReleaseInstalled, CommittedFiles, OnlyTouches, Setback, ExpectedVersion;
    if NoSetback(host, trace, |t0|, ExpectedVersion(config, changed)) {
      CommitWritesAll(host, before, written, disk, config, changed, account.download, account.release);
    }
  }

  lemma CaptureEvents(host: Host, disk: Disk, trace: seq<Event>, from: nat, ok: bool, running: set<Service>,
        expected: Option<string>, changed: set<Key>)
    requires forall i | from <= i < |trace| :: trace[i].op.Read? && trace[i].disk == disk
    requires if ok then AllOk(trace, from) else SomeFailed(trace, from)
    ensures forall i | from <= i < |trace| :: TransactionEvent(disk, trace[i], running) && !trace[i].op.Probe?
    ensures forall i | from <= i < |trace| :: ForwardStep(trace[i], changed)
    ensures if ok then NoSetback(host, trace, from, expected) else SomeSetback(host, trace, from, expected)
  {
    TouchesNothing(disk, TransactionArea());
    if !ok {
      var i :| from <= i < |trace| && !trace[i].reply.ok;
      assert Setback(host, trace[i], expected);
    }
  }

  lemma WriteEvents(host: Host, disk: Disk, before: seq<Event>, trace: seq<Event>, ok: bool, running: set<Service>,
        expected: Option<string>, changed: set<Key>)
    requires Wrote(host, disk, before, trace, ok, expected)
    ensures before <= trace
    ensures forall i | |before| <= i < |trace| :: TransactionEvent(disk, trace[i], running) && !trace[i].op.Probe?
    ensures forall i | |before| <= i < |trace| :: ForwardStep(trace[i], changed)
    ensures if ok then NoSetback(host, trace, |before|, expected) else SomeSetback(host, trace, |before|, expected)
    ensures StopsAtFailure(host, trace, |before|, expected)
  {
  }

  lemma ReleaseIsInFootprint()
    ensures forall p | p in Activation.ReleaseArea() :: p in TransactionArea()
  {
    TransactionPathsAreTheManagedFiles();
  }

  lemma ActivationStaysWithin(before: Disk, written: Disk, disk: Disk)
    requires OnlyTouches(before, written, TransactionArea())
    requires OnlyTouches(written, disk, Activation.ReleaseArea())
    ensures OnlyTouches(before, disk, TransactionArea())
  {
    ReleaseIsInFootprint();
    hide TransactionArea, Activation.ReleaseArea;
  }

  /** The activation changes files only when release keys have changed, and then the two
      binaries. */
  lemma ActivationWithinGeneration(before: Disk, written: Disk, disk: Disk, changed: set<Key>)
    requires OnlyTouches(before, written, GenerationArea(changed))
    requires OnlyTouches(written, disk, Activation.ReleaseArea())
    requires !ReleaseChanged(changed) ==> disk == written
    ensures OnlyTouches(before, disk, GenerationArea(changed)) && OnlyTouches(before, disk, TransactionArea())
  {
    GenerationIsCaptured(changed);
    hide TransactionArea, NodeChanged, CredentialsChanged, ProxyChanged;
  }

  /** Probes of the activation happen only when the node's file has been rewritten. */
  lemma ActivationEvents(host: Host, before: Disk, written: Disk, from: seq<Event>, trace: seq<Event>,
                         running: set<Service>, config: Config, changed: set<Key>, download: Bytes)
    requires OnlyTouches(before, written, TransactionArea())
    requires Generation(host, before, written, config, changed, download)
    requires Stepped(host, written, from, trace, running, config, changed)
    requires !NodeChanged(changed) ==> forall i | |from| <= i < |trace| :: !trace[i].op.Probe?
    ensures from <= trace && forall i | |from| <= i < |trace| :: TransactionEvent(before, trace[i], running)
    ensures forall i | |from| <= i < |trace| :: ForwardStep(trace[i], changed)
    ensures forall i | |from| <= i < |trace| && trace[i].op.Probe? :: ForwardProbe(trace[i], config)
  {
    hide TransactionArea, Activation.ReleaseArea, NodeEnvText, OnlyTouches;
    forall i | |from| <= i < |trace|
      ensures TransactionEvent(before, trace[i], running) && ForwardStep(trace[i], changed)
    {
      assert ForwardEvent(written, trace[i], running, config, changed);
      ActivationStaysWithin(before, written, trace[i].disk);
    }
    forall i | |from| <= i < |trace| && trace[i].op.Probe? ensures ForwardProbe(trace[i], config) {
      assert ForwardEvent(written, trace[i], running, config, changed);
      if trace[i].op.process.Some? {
        KeptByRelease(written, trace[i].op.process.value.image, NodeEnv);
        assert At(written, Managed(NodeEnv)) == GenerationFile(host, before, config, changed, download, NodeEnv);
      }
    }
  }

  lemma ActivationSetbacks(host: Host, before: Disk, written: Disk,
                           t0: seq<Event>, t2: seq<Event>, trace: seq<Event>, ok: bool,
                           config: Config, changed: set<Key>, running: set<Service>, expected: Option<string>,
                           download: Bytes)
    requires t0 <= t2 <= trace && NoSetback(host, t2, |t0|, expected)
    requires Generation(host, before, written, config, changed, download)
    requires ok ==> NoSetback(host, trace, |t2|, expected) && !ProxyUnavailable(written, running, changed)
    requires ok || ProxyUnavailable(written, running, changed) || SomeSetback(host, trace, |t2|, expected)
    ensures ok ==> NoSetback(host, trace, |t0|, expected) && !ProxyMissing(before, running, config, changed)
    ensures ok || ProxyMissing(before, running, config, changed) || SomeSetback(host, trace, |t0|, expected)
  {
    hide Setback;
    assert At(written, Managed(ProxyBinary)) == GenerationFile(host, before, config, changed, download, ProxyBinary);
    if ok {
      SetbacksMore(host, t0, t2, trace, true, expected);
    }
  }

  lemma CommitWritesAll(host: Host, before: Disk, written: Disk, disk: Disk, config: Config, changed: set<Key>,
                        download: Bytes, release: Reply)
    requires Generation(host, before, written, config, changed, download)
    requires OnlyTouches(written, disk, Activation.ReleaseArea())
    requires ReleaseInstalled(written, disk, config, changed, release)
    ensures CommittedFiles(host, before, disk, config, changed, download, release)
  {
    hide GenerationFile, ReleaseChanged, Activation.ReleaseArea, OnlyTouches, At;
    forall file ensures At(disk, Managed(file))
      == CommittedFile(host, before, config, changed, download, release, file) {
      assert At(written, Managed(file)) == GenerationFile(host, before, config, changed, download, file);
      if file != NodeBinary && file != CliBinary {
        KeptByRelease(written, disk, file);
      }
    }
  }

  lemma GeneratedSince(host: Host, config: Config, changed: set<Key>, running: set<Service>,
                       launched: map<Service, Launch>, early: nat, late: nat)
    requires Generated(host, config, changed, running, launched, late) && early <= late
    ensures Generated(host, config, changed, running, launched, early)
  {
    hide SameFiles, Relaunches, CredentialsChanged, ProxyChanged;
  }

  lemma RollbackEvents(host: Host, d0: Disk, d2: Disk, t3: seq<Event>, trace: seq<Event>, snapshot: Snapshot)
    requires OnlyTouches(d0, d2, TransactionArea())
    requires forall i | |t3| <= i < |trace| :: NoPartialFiles(d2, trace[i].disk, snapshot)
    requires forall i | |t3| <= i < |trace| && Launches(trace[i].op) ::
      trace[i].op.Start? && trace[i].op.service in snapshot.running
    ensures forall i | |t3| <= i < |trace| :: TransactionEvent(d0, trace[i], snapshot.running)
  {
    hide TransactionArea, TRANSACTION_PATHS;
    forall i | |t3| <= i < |trace| ensures TransactionEvent(d0, trace[i], snapshot.running) {
      assert NoPartialFiles(d2, trace[i].disk, snapshot);
    }
  }

  /** A probe of the rollback has the previous credentials, and, unless the node's stop has
      failed, meets a node launched with the file the rollback left behind. If the node was
      to be left alone, it meets the process that ran all along, or one launched with the
      file as it was. */
  lemma ProbeOfRollback(host: Host, e: Event, before: Disk, launched: map<Service, Launch>, previous: Config,
                        changed: set<Key>, errors: seq<RollbackError>, account: Account)
    requires Undone(host, previous, errors, account) && e.op.Probe?
    requires e.op == Probe(previous.rpcUser, previous.rpcPassword, host.NodeProcess())
    requires OnlyTouches(before, account.left.disk, GenerationArea(changed))
    requires OnlyTouches(before, host.disk, GenerationArea(changed))
    requires !NodeChanged(changed) ==> SameLaunch(Node, launched, account.left.launched)
    ensures e.op.process.Some? && StopFailed(Node) !in errors ==>
      LaunchedWith(e.op.process.value, DataAt(host.disk, Managed(NodeEnv)))
    ensures e.op.process.Some? && !NodeChanged(changed) ==>
      || (Node in launched && e.op.process.value == launched[Node])
      || LaunchedWith(e.op.process.value, DataAt(before, Managed(NodeEnv)))
  {
    hide NodeChanged, FilesAccounted, ReloadAccounted, ReadyAccounted, Failed, Happened, StaysDown;
    var now := Services(host.running, host.launched, host.disk);
    assert ServiceAccounted(host.trace, account.turned, account.snapshot, errors, account.left, now, Node,
      host.trace[account.turned + 2]);
    if !NodeChanged(changed) {
      assert At(account.left.disk, Managed(NodeEnv)) == At(before, Managed(NodeEnv)) == At(host.disk, Managed(NodeEnv));
    }
  }

  /** Whatever the forward direction did within the footprint, every file whose own
      restoration did not fail is as it was at capture. */
  lemma RestoredAll(d0: Disk, d2: Disk, disk: Disk, snapshot: Snapshot, errors: seq<RollbackError>,
        running: set<Service>, changed: set<Key>)
    requires Shows(snapshot, d0, running) && Complete(snapshot)
    requires OnlyTouches(d0, d2, GenerationArea(changed))
    requires Restoring(d2, disk, snapshot, errors, |TRANSACTION_PATHS|)
    ensures OnlyTouches(d0, disk, GenerationArea(changed))
    ensures forall file ::
      At(disk, Managed(file)) == At(if RestoreFailed(Managed(file)) in errors then d2 else d0, Managed(file))
    ensures errors == [] ==> SameFiles(d0, disk)
  {
    TransactionPathsAreTheManagedFiles();
    hide TRANSACTION_PATHS, Writes;
    forall file ensures
      At(disk, Managed(file)) == At(if RestoreFailed(Managed(file)) in errors then d2 else d0, Managed(file))
    {
      assert Managed(file) in TRANSACTION_PATHS;
      var i :| 0 <= i < |TRANSACTION_PATHS| && TRANSACTION_PATHS[i] == Managed(file);
    }
    forall p | p !in GenerationArea(changed) ensures At(disk, p) == At(d0, p) {
      if p.Managed? {
        assert At(disk, Managed(p.file))
          == At(if RestoreFailed(Managed(p.file)) in errors then d2 else d0, Managed(p.file));
      }
    }
    if errors == [] {
      forall p | p !in ScratchArea() ensures At(disk, p) == At(d0, p) {
        if p.Managed? {
          assert At(disk, Managed(p.file)) == At(d0, Managed(p.file));
        }
      }
    }
  }
}
