/** The config-changed handler (src/charm.py): it diffs the stored against the new
    configuration, applies the difference as one transaction, and stores the new values
    only when that has succeeded. The theorems here are about runs of such events. */
module Charms {
  import opened Text
  import opened Hosts
  import opened Configs
  import opened Rollbacks
  import opened Transactions
  import opened Effects
  import opened Units
  import opened Deliveries
  import opened Agreements
  import opened NodeArguments

  lemma AssignEffect(a: Config, b: Config, key: Key, other: Key)
    ensures Differs(Assign(a, b, key), b, other) <==> other != key && Differs(a, b, other)
  {
  }

  lemma NoDifference(a: Config, b: Config)
    requires forall i | 0 <= i < |TRACKED_CONFIG| :: !Differs(a, b, TRACKED_CONFIG[i])
    ensures a == b
  {
    assert forall i | 0 <= i < 10 :: !Differs(a, b, TRACKED_CONFIG[i]);
    assert TRACKED_CONFIG[0] == RpcUser && TRACKED_CONFIG[1] == RpcPassword && TRACKED_CONFIG[2] == ServiceArgs;
    assert TRACKED_CONFIG[3] == Version && TRACKED_CONFIG[4] == BinaryUrl && TRACKED_CONFIG[5] == ProxyFilter;
    assert TRACKED_CONFIG[6] == ProxyVersion && TRACKED_CONFIG[7] == ProxyListen;
    assert TRACKED_CONFIG[8] == ProxyExtendAllowlist && TRACKED_CONFIG[9] == DisableWallet;
  }

  /** The stored configuration and the host, between two events. */
  datatype Moment = Moment(disk: Disk, running: set<Service>, launched: map<Service, Launch>, stored: Config)

  ghost function ServicesAt(m: Moment): Services {
    Services(m.running, m.launched, m.disk)
  }

  ghost function EnvFile(s: Service): Path {
    match s
    case Node => Managed(NodeEnv)
    case Monitor => Managed(MonitorEnv)
    case Proxy => Managed(ProxyEnv)
  }

  ghost function EnvTextFor(c: Config, s: Service): string {
    match s
    case Node => NodeEnvText(c)
    case Monitor => EnvText(MonitorPairs(c))
    case Proxy => EnvText(ProxyPairs(c))
  }

  ghost predicate Rewrites(changed: set<Key>, s: Service) {
    match s
    case Node => NodeChanged(changed)
    case Monitor => CredentialsChanged(changed)
    case Proxy => ProxyChanged(changed)
  }

  ghost predicate RelaunchesService(config: Config, changed: set<Key>, s: Service) {
    if s == Node then Relaunches(config, changed) else Rewrites(changed, s)
  }

  /** The three environment files are a full rendering of this configuration. */
  ghost predicate Rendered(disk: Disk, c: Config) {
    forall s :: DataAt(disk, EnvFile(s)) == Some(EnvTextFor(c, s))
  }

  /** Every running process was launched with the rendering of this configuration. */
  ghost predicate InSync(m: Moment) {
    forall s | s in m.running ::
      s in m.launched && DataAt(m.launched[s].image, EnvFile(s)) == Some(EnvTextFor(m.stored, s))
  }

  /** A config-changed event that commits: only the files of the changed keys are
      rewritten, and only their services relaunched. */
  ghost predicate CommitStep(a: Moment, config: Config, b: Moment) {
    var changed := ChangedKeys(a.stored, config);
    && b.stored == config
    && b.running == a.running
    && (forall s :: DataAt(b.disk, EnvFile(s)) ==
          if Rewrites(changed, s) then Some(EnvTextFor(config, s)) else DataAt(a.disk, EnvFile(s)))
    && (forall s | s in b.running :: Relaunched(a, config, b, s))
  }

  ghost predicate Relaunched(a: Moment, config: Config, b: Moment, s: Service) {
    if RelaunchesService(config, ChangedKeys(a.stored, config), s)
    then s in b.launched && SameFiles(b.launched[s].image, b.disk)
    else SameLaunch(s, a.launched, b.launched)
  }

  /** Nothing but processes has changed, and new processes run from the files on disk: a
      config-changed event that is rolled back cleanly, and likewise start, stop and the
      operator's node actions. */
  ghost predicate ServiceStep(a: Moment, b: Moment) {
    && b.stored == a.stored
    && SameFiles(a.disk, b.disk)
    && (forall s | s in b.running :: ServiceKeptOrLaunched(a, b, s))
  }

  ghost predicate ServiceKeptOrLaunched(a: Moment, b: Moment, s: Service) {
    || (s in a.running && SameLaunch(s, a.launched, b.launched))
    || (s in b.launched && SameFiles(b.launched[s].image, b.disk))
  }

  datatype CharmEvent = ConfigChanged(config: Config) | ServiceEvent

  ghost predicate CleanStep(a: Moment, e: CharmEvent, b: Moment) {
    match e
    case ConfigChanged(config) => CommitStep(a, config, b) || (ServiceStep(a, b) && b.running == a.running)
    case ServiceEvent => ServiceStep(a, b)
  }

  /** A sequence of events, each with the moments before and after it, in which every
      failure is rolled back cleanly. */
  ghost predicate CleanRun(moments: seq<Moment>, events: seq<CharmEvent>) {
    && |moments| == |events| + 1
    && forall i | 0 <= i < |events| :: CleanStep(moments[i], events[i], moments[i + 1])
  }

  /** The commands that follow each other since `from`, in order, up to the first that fails. */
  ghost predicate RanUntilFailure(trace: seq<Event>, from: nat, commands: seq<Op>) {
    && from <= |trace| <= from + |commands|
    && (forall i | from <= i < |trace| :: trace[i].op == commands[i - from])
    && (forall i | from <= i < |trace| - 1 :: trace[i].reply.ok)
    && (|trace| < from + |commands| ==> |trace| > from && !trace[|trace| - 1].reply.ok)
  }

  /** At most three commands, of which the last may be left out. */
  lemma RanThree(before: seq<Event>, half: seq<Event>, trace: seq<Event>, commands: seq<Op>, third: bool)
    requires before < half <= trace && |half| == |before| + 1 && |commands| == 3
    requires half[|before|].op == commands[0]
    requires !half[|before|].reply.ok ==> trace == half
    requires half[|before|].reply.ok ==> |trace| > |half| && trace[|half|].op == commands[1]
    requires half[|before|].reply.ok && trace[|half|].reply.ok && third ==>
      |trace| == |half| + 2 && trace[|half| + 1].op == commands[2]
    requires half[|before|].reply.ok && !(trace[|half|].reply.ok && third) ==> |trace| == |half| + 1
    ensures RanUntilFailure(trace, |before|, if third then commands else commands[..2])
    ensures trace[|trace| - 1].reply.ok <==> AllOk(trace, |before|)
  {
    assert trace[|before|] == half[|before|];
  }

  const PROXY_START: seq<Op> := [Start(Node), Start(Monitor), Start(Proxy)]
  const PROXY_RESTART: seq<Op> := [Stop(Node), Start(Node), Restart(Proxy)]

  class Charm {
    const host: Host
    var stored: Config

    constructor (host: Host, config: Config)
      ensures this.host == host && stored == config
    {
      this.host, stored := host, config;
    }

    ghost function Now(): Moment
      reads this, host
    {
      Moment(host.disk, host.running, host.launched, stored)
    }

    /** `previous_config`: the new configuration with the stored value of every tracked key. */
    method PreviousConfig(config: Config) returns (previous: Config)
      ensures previous == stored
    {
      previous := config;
      for i := 0 to |TRACKED_CONFIG|
        invariant forall j | 0 <= j < i :: !Differs(previous, stored, TRACKED_CONFIG[j])
      {
        hide Differs, Assign;
        forall other { AssignEffect(previous, stored, TRACKED_CONFIG[i], other); }
        previous := Assign(previous, stored, TRACKED_CONFIG[i]);
      }
      NoDifference(previous, stored);
    }

    /** The assignments after the transaction: every changed value is stored. */
    method Store(config: Config, changed: set<Key>)
      requires changed == ChangedKeys(stored, config)
      modifies this
      ensures stored == config
    {
      for i := 0 to |TRACKED_CONFIG|
        invariant forall j | 0 <= j < |TRACKED_CONFIG| && (j < i || TRACKED_CONFIG[j] !in changed) ::
          !Differs(stored, config, TRACKED_CONFIG[j])
      {
        hide Differs, Assign;
        if TRACKED_CONFIG[i] in changed {
          forall other { AssignEffect(stored, config, TRACKED_CONFIG[i], other); }
          stored := Assign(stored, config, TRACKED_CONFIG[i]);
        }
      }
      NoDifference(stored, config);
    }

    /** One service command of the handlers below. */
    method StartService(s: Service) returns (ok: bool)
      requires host.Genuine()
      modifies host`running, host`launched, host`trace
      ensures host.Genuine() && old(host.trace) <= host.trace
      ensures ServiceStep(old(Now()), Now())
      ensures ok <==> AllOk(host.trace, old(|host.trace|))
      ensures |host.trace| == old(|host.trace|) + 1 && host.trace[old(|host.trace|)].op == Start(s)
      ensures host.trace[old(|host.trace|)].reply.ok == ok
      ensures
        var before := Services(old(host.running), old(host.launched), host.disk);
        var now := Services(host.running, host.launched, host.disk);
        && (ok ==> Started(before, now, s, old(|host.trace|)))
        && (forall t | t != s :: SameProcess(before, now, t))
    {
      SameFilesAsSelf(host.disk);
      hide SameFiles, Host.Genuine;
      ok := host.Start(s);
      assert host.trace[old(|host.trace|)].reply.ok == ok;
    }

    method StopService(s: Service) returns (ok: bool)
      requires host.Genuine()
      modifies host`running, host`launched, host`trace
      ensures host.Genuine() && old(host.trace) <= host.trace
      ensures ServiceStep(old(Now()), Now())
      ensures |host.trace| == old(|host.trace|) + 1 && host.trace[old(|host.trace|)].op == Stop(s)
      ensures host.trace[old(|host.trace|)].reply.ok == ok
      ensures ok ==> host.running == old(host.running) - {s}
    {
      SameFilesAsSelf(host.disk);
      hide SameFiles, Host.Genuine;
      ok := host.Stop(s);
    }

    method RestartService(s: Service) returns (ok: bool)
      requires host.Genuine()
      modifies host`running, host`launched, host`trace
      ensures host.Genuine() && old(host.trace) <= host.trace
      ensures ServiceStep(old(Now()), Now())
      ensures |host.trace| == old(|host.trace|) + 1 && host.trace[old(|host.trace|)].op == Restart(s)
      ensures host.trace[old(|host.trace|)].reply.ok == ok
      ensures ok ==> Fresh(host, s, old(|host.trace|))
      ensures forall t | t != s && t in old(host.launched) ::
        t in host.launched && host.launched[t] == old(host.launched)[t]
    {
      SameFilesAsSelf(host.disk);
      hide SameFiles, Host.Genuine;
      ok := host.Restart(s);
    }

    /** The handlers that only touch services, up to the status update; each raises when a
        service command fails. `_on_start` and the start-node action: */
    method OnStart() returns (ok: bool)
      requires host.Genuine()
      modifies host`running, host`launched, host`trace
      ensures host.Genuine() && old(host.trace) <= host.trace
      ensures ServiceStep(old(Now()), Now())
      ensures ok <==> AllOk(host.trace, old(|host.trace|))
      ensures RanUntilFailure(host.trace, old(|host.trace|),
                if Managed(ProxyBinary) in host.disk then PROXY_START else PROXY_START[..2])
      ensures
        var before := Services(old(host.running), old(host.launched), host.disk);
        var now := Services(host.running, host.launched, host.disk);
        && (ok ==> Started(before, now, Node, old(|host.trace|)) && Started(before, now, Monitor, old(|host.trace|)))
        && (ok && Managed(ProxyBinary) in host.disk ==> Started(before, now, Proxy, old(|host.trace|)))
        && (Managed(ProxyBinary) !in host.disk ==> SameProcess(before, now, Proxy))
    {
      hide ServiceStep, Host.Genuine, Started, SameProcess, AllOk;
      ghost var a, from := Now(), |host.trace|;
      ok := StartService(Node);
      ghost var b, second, half := Now(), |host.trace|, host.trace;
      StartsCompose(ServicesAt(a), ServicesAt(a), ServicesAt(b), from, from);
      if !ok {
        return;
      }
      ok := StartService(Monitor);
      ghost var c, third := Now(), |host.trace|;
      StartsCompose(ServicesAt(a), ServicesAt(b), ServicesAt(c), from, second);
      ServiceStepsCompose(a, b, c);
      SuccessesCompose(half, host.trace, from);
      if !ok {
        return;
      }
      half := host.trace;
      if Managed(ProxyBinary) in host.disk {
        ok := StartService(Proxy);
        StartsCompose(ServicesAt(a), ServicesAt(c), ServicesAt(Now()), from, third);
        ServiceStepsCompose(a, c, Now());
        SuccessesCompose(half, host.trace, from);
      }
    }

    /** `_on_stop` */
    method OnStop() returns (ok: bool)
      requires host.Genuine()
      modifies host`running, host`launched, host`trace
      ensures host.Genuine() && old(host.trace) <= host.trace
      ensures ServiceStep(old(Now()), Now())
      ensures ok <==> AllOk(host.trace, old(|host.trace|))
      ensures RanUntilFailure(host.trace, old(|host.trace|), [Stop(Node), Stop(Monitor), Stop(Proxy)])
      ensures ok ==> host.running == {}
    {
      hide ServiceStep, Host.Genuine;
      ghost var a := Now();
      ok := StopService(Node);
      ghost var b := Now();
      if ok {
        ok := StopService(Monitor);
        ServiceStepsCompose(a, b, Now());
        b := Now();
      }
      if ok {
        ok := StopService(Proxy);
        ServiceStepsCompose(a, b, Now());
      }
      forall s: Service | ok ensures s !in host.running {
        match s
        case Node =>
        case Monitor =>
        case Proxy =>
      }
    }

    /** `_on_restart_node_action` */
    method OnRestartNode() returns (ok: bool)
      requires host.Genuine()
      modifies host`running, host`launched, host`trace
      ensures host.Genuine() && old(host.trace) <= host.trace
      ensures ServiceStep(old(Now()), Now())
      ensures ok <==> AllOk(host.trace, old(|host.trace|))
      ensures RanUntilFailure(host.trace, old(|host.trace|),
                if Managed(ProxyBinary) in host.disk then PROXY_RESTART else PROXY_RESTART[..2])
      ensures ok ==> Fresh(host, Node, old(|host.trace|))
      ensures ok && Managed(ProxyBinary) in host.disk ==> Fresh(host, Proxy, old(|host.trace|))
    {
      SameFilesAsSelf(host.disk);
      hide ServiceStep, SameFiles, Host.Genuine, Started, SameProcess, RanUntilFailure, AllOk;
      ghost var a, before := Now(), host.trace;
      ok := StopService(Node);
      ghost var b, second, half := Now(), |host.trace|, host.trace;
      if ok {
        ok := StartService(Node);
        ServiceStepsCompose(a, b, Now());
        StartedAnew(ServicesAt(b), ServicesAt(Now()), Node, second);
        b := Now();
      }
      if ok && Managed(ProxyBinary) in host.disk {
        ok := RestartService(Proxy);
        ServiceStepsCompose(a, b, Now());
      }
      RanThree(before, half, host.trace, PROXY_RESTART, Managed(ProxyBinary) in host.disk);
    }

    /** `_on_config_changed` */
    method OnConfigChanged(config: Config) returns (r: Result, ghost account: Account)
      requires host.Genuine()
      modifies this, host
      ensures host.Genuine()
      ensures r.NoOp? <==> old(stored) == config
      ensures r.NoOp? || r.Committed? ==> stored == config && CommitStep(old(Now()), config, Now())
      ensures r.Committed? ==>
        && FilesFollow(host, old(stored), config, old(host.disk), host.disk, host.trace, old(|host.trace|))
        && ServicesFollow(old(stored), config, ServicesAt(old(Now())), ServicesAt(Now()), old(|host.trace|))
        && NodeFollows(host, old(stored), config, old(host.running), host.trace, old(|host.trace|))
      ensures FootprintFollows(old(stored), config, old(host.disk), host.disk)
      ensures r.NoOp? ==> Now() == old(Now()) && host.trace == old(host.trace)
      ensures r.RolledBack? || r.RollbackFailed? ==> stored == old(stored)
      ensures r.CaptureFailed? || r.RolledBack? ==> ServiceStep(old(Now()), Now()) && host.running == old(host.running)
      ensures r.RollbackFailed? ==> FailedStep(old(Now()), config, Now())
      ensures !r.RollbackFailed? ==> CleanStep(old(Now()), ConfigChanged(config), Now())
      ensures old(host.trace) <= host.trace
      ensures Rendered(old(host.disk), old(stored)) ==>
        (r.RollbackFailed? ==> NodeRestored(r.errors) || NodeLeftAlone(old(Now()), config)) ==>
        forall i | old(|host.trace|) <= i < |host.trace| && host.trace[i].op.Probe? ::
          MatchedProbe(host.trace[i], config) || MatchedProbe(host.trace[i], old(stored))
      ensures Explained(host, r, old(stored), config, account, old(host.disk), old(host.running), old(|host.trace|))
    {
      hide ChangedKeys, TRACKED_CONFIG, Generated, CommittedFiles, TransactionEvent, NoSetback,
        SomeSetback, ProxyMissing, Explained, FailedStep;
      hide TransactionArea, GenerationArea, SameFiles, CommitStep, ServiceStep, Rendered, ForwardProbe, NodeLeftAlone,
        MatchedProbe, OnlyTouches, Undone, Turned, Shows, TRANSACTION_PATHS, Host.Genuine, Rough, NodeChanged,
        FilesFollow, ServicesFollow, NodeFollows, FootprintFollows, Downloaded, Relaunches, InPhases;
      ghost var before, from, n, running := Now(), host.disk, |host.trace|, host.running;
      var changed := ChangedKeys(stored, config);
      NoChange(stored, config);
      var previous := PreviousConfig(config);
      r, account := ApplyConfigTransaction(host, config, previous, changed);
      FootprintOfChange(before.stored, config, from, host.disk);
      assert Explained(host, r, before.stored, config, account, from, running, n) by {
        TransactionExplained(host, r, before.stored, config, account, from, running, n);
      }
      if r.NoOp? || r.Committed? {
        Store(config, changed);
      }
      if r.NoOp? {
        NoOpIsCommit(before, config, Now());
      } else if r.Committed? {
        CommitIsStep(host, before, config, Now(), account, n);
        CommitFiles(host, before.stored, config, from, host.disk, account, n);
        CommitServices(host, before.stored, config, ServicesAt(before), n);
        CommitNode(host, before.stored, config, running, n);
      } else if r.CaptureFailed? {
        NothingIsServiceStep(before, Now());
      } else if r.RolledBack? {
        RollbackIsStep(host, before, Now(), account.turned);
      } else {
        assert FailedStep(before, config, Now()) by {
          FailureIsStep(before, config, Now());
        }
      }
      if Rendered(from, before.stored)
        && (r.RollbackFailed? ==> NodeRestored(r.errors) || NodeLeftAlone(before, config))
      {
        forall i | n <= i < |host.trace| && host.trace[i].op.Probe?
          ensures MatchedProbe(host.trace[i], config) || MatchedProbe(host.trace[i], before.stored)
        {
          if r.RolledBack? || r.RollbackFailed? {
            ProbesMatch(host, n, i, before, config, r, account);
          } else {
            ForwardMatches(host.trace[i], config);
          }
        }
      }
    }
  }

  lemma StartedAnew(before: Services, now: Services, s: Service, from: nat)
    requires s !in before.running
    ensures Started(before, now, s, from) ==>
      s in now.launched && now.launched[s].image == now.disk && now.launched[s].at >= from
  {
  }

  lemma StartsCompose(a: Services, b: Services, c: Services, from: nat, later: nat)
    requires a.disk == b.disk == c.disk && from <= later
    ensures forall s | Started(a, b, s, from) && SameProcess(b, c, s) :: Started(a, c, s, from)
    ensures forall s | SameProcess(a, b, s) && Started(b, c, s, later) :: Started(a, c, s, from)
    ensures forall s | SameProcess(a, b, s) && SameProcess(b, c, s) :: SameProcess(a, c, s)
    ensures forall s :: SameProcess(a, a, s)
  {
  }

  lemma SuccessesCompose(before: seq<Event>, trace: seq<Event>, from: nat)
    requires from <= |before| && before <= trace
    ensures AllOk(trace, from) <==> AllOk(before, from) && AllOk(trace, |before|)
  {
    assert forall i | from <= i < |before| :: trace[i] == before[i];
  }

  lemma ServiceStepsCompose(a: Moment, b: Moment, c: Moment)
    requires ServiceStep(a, b) && ServiceStep(b, c) && a.disk == b.disk == c.disk
    ensures ServiceStep(a, c)
  {
    hide SameFiles;
    forall s | s in c.running ensures ServiceKeptOrLaunched(a, c, s) {
      assert ServiceKeptOrLaunched(b, c, s);
      if s in b.running {
        assert ServiceKeptOrLaunched(a, b, s);
      }
    }
  }

  /** Why an event ended the way it did: a commit fails only for a setback or a missing
      proxy binary; a capture fails for a failed read; a rollback is accounted for, and
      fails exactly if one of its own steps does. */
  ghost predicate Explained(host: Host, r: Result, stored: Config, config: Config, account: Account, before: Disk,
                            running: set<Service>, from: nat)
    reads host`disk, host`running, host`launched, host`trace
  {
    var changed := ChangedKeys(stored, config);
    && (r.NoOp? || r.Committed? || ProxyMissing(before, running, config, changed)
        || SomeSetback(host, host.trace, from, ExpectedVersion(config, changed)))
    && (r.Committed? ==> !ProxyMissing(before, running, config, changed))
    && (r.CaptureFailed? ==>
          SomeFailed(host.trace, from) && forall i | from <= i < |host.trace| :: host.trace[i].op.Read?)
    && (r.RollbackFailed? ==> r.errors != [])
    && (r.RolledBack? || r.RollbackFailed? ==>
          && Shows(account.snapshot, before, running)
          && Turned(host, from, before, config, changed, ErrorsOf(r), account)
          && Undone(host, stored, ErrorsOf(r), account)
          && (r.RollbackFailed? <==> Rough(host, host.trace, account.turned, None)))
  }

  lemma TransactionExplained(host: Host, r: Result, stored: Config, config: Config, account: Account, before: Disk,
                             running: set<Service>, from: nat)
    requires
      var changed := ChangedKeys(stored, config);
      && (r.NoOp? || r.Committed? || ProxyMissing(before, running, config, changed)
          || SomeSetback(host, host.trace, from, ExpectedVersion(config, changed)))
      && (r.Committed? ==> !ProxyMissing(before, running, config, changed))
      && (r.CaptureFailed? ==>
            SomeFailed(host.trace, from) && forall i | from <= i < |host.trace| :: host.trace[i].op.Read?)
      && (r.RollbackFailed? ==> r.errors != [])
    requires r.RolledBack? || r.RollbackFailed? ==>
      && Shows(account.snapshot, before, running)
      && Turned(host, from, before, config, ChangedKeys(stored, config), ErrorsOf(r), account)
      && Undone(host, stored, ErrorsOf(r), account)
      && (r.RollbackFailed? <==> Rough(host, host.trace, account.turned, None))
    ensures Explained(host, r, stored, config, account, before, running, from)
  {
    hide ChangedKeys, ProxyMissing, SomeSetback, ExpectedVersion, SomeFailed, Shows, Turned, Undone, Rough;
  }

  /** A matched probe that meets a process asks with the user and password that end that
      process's arguments exactly when both are set and clean and the operator's arguments
      leave no quote open. */
  lemma MatchedProbeCredentials(e: Event, c: Config)
    requires MatchedProbe(e, c) && e.op.process.Some?
    ensures DataAt(e.op.process.value.image, Managed(NodeEnv)) == Some(NodeEnvText(c))
    ensures HasCredentials(c) || ClosesQuotes(Hardened(c)) ==>
      (EndsWith(ReceivedArguments(NodeEnvText(c)), UserOption(c), PasswordOption(c)) <==>
        && e.op.user != "" && e.op.password != "" && IsCleanValue(e.op.user) && IsCleanValue(e.op.password)
        && ClosesQuotes(Hardened(c)) && Accepted(Hardened(c)))
  {
    NodeReceivesCredentials(c);
    hide NodeEnvText, ReceivedArguments, EndsWith, ClosesQuotes, Hardened;
  }

  /** A probe with the credentials of a configuration that meets, if the node runs, a
      process launched with the file rendered from that configuration. */
  ghost predicate MatchedProbe(e: Event, c: Config) {
    && e.op.Probe? && e.op.user == c.rpcUser && e.op.password == c.rpcPassword
    && (e.op.process.Some? ==> LaunchedWith(e.op.process.value, Some(NodeEnvText(c))))
  }

  /** A change that is not about the node, at a moment at which the node is in sync. */
  ghost predicate NodeLeftAlone(a: Moment, config: Config) {
    && !NodeChanged(ChangedKeys(a.stored, config))
    && (Node in a.running ==>
          Node in a.launched && LaunchedWith(a.launched[Node], Some(NodeEnvText(a.stored))))
  }

  /** The node was stopped and its file restored, whatever else went wrong. */
  ghost predicate NodeRestored(errors: seq<RollbackError>) {
    StopFailed(Node) !in errors && RestoreFailed(Managed(NodeEnv)) !in errors
  }

  lemma NoChange(stored: Config, config: Config)
    ensures ChangedKeys(stored, config) == {} <==> stored == config
  {
    if ChangedKeys(stored, config) == {} {
      forall i | 0 <= i < |TRACKED_CONFIG| ensures !Differs(stored, config, TRACKED_CONFIG[i]) {
        assert TRACKED_CONFIG[i] !in ChangedKeys(stored, config);
      }
      NoDifference(stored, config);
    }
  }

  lemma NoOpIsCommit(a: Moment, config: Config, b: Moment)
    requires a == b && a.stored == config
    ensures CommitStep(a, config, b)
  {
    NoChange(a.stored, config);
  }

  lemma NothingIsServiceStep(a: Moment, b: Moment)
    requires a == b
    ensures ServiceStep(a, b)
  {
  }

  lemma CommitIsStep(host: Host, a: Moment, config: Config, b: Moment, account: Account, from: nat)
    requires b == Moment(host.disk, host.running, host.launched, config)
    requires CommittedFiles(host, a.disk, b.disk, config, ChangedKeys(a.stored, config), account.download,
      account.release)
    requires Generated(host, config, ChangedKeys(a.stored, config), a.running, a.launched, from)
    ensures CommitStep(a, config, b)
  {
    var changed := ChangedKeys(a.stored, config);
    hide ChangedKeys, NodeChanged, CredentialsChanged, ProxyChanged, Relaunches, NodeEnvText, MonitorPairs,
      ProxyPairs, EnvText, SameFiles;
    forall s ensures DataAt(b.disk, EnvFile(s)) ==
      if Rewrites(changed, s) then Some(EnvTextFor(config, s)) else DataAt(a.disk, EnvFile(s))
    {
      assert At(b.disk, EnvFile(s))
        == CommittedFile(host, a.disk, config, changed, account.download, account.release, EnvFile(s).file);
    }
    forall s | s in b.running ensures Relaunched(a, config, b, s) {
      match s
      case Node =>
      case Monitor =>
      case Proxy =>
    }
  }

  /** An event whose rollback failed: nothing is stored, and only files of the changed keys,
      and scratch files, may have changed. */
  ghost predicate FailedStep(a: Moment, config: Config, b: Moment) {
    b.stored == a.stored && OnlyTouches(a.disk, b.disk, GenerationArea(ChangedKeys(a.stored, config)))
  }

  lemma FailureIsStep(a: Moment, config: Config, b: Moment)
    requires b.stored == a.stored && OnlyTouches(a.disk, b.disk, GenerationArea(ChangedKeys(a.stored, config)))
    ensures FailedStep(a, config, b)
  {
  }

  lemma FailureKeepsOtherFiles(a: Moment, config: Config, b: Moment, s: Service)
    requires FailedStep(a, config, b) && !Rewrites(ChangedKeys(a.stored, config), s)
    ensures DataAt(b.disk, EnvFile(s)) == DataAt(a.disk, EnvFile(s))
  {
    hide ChangedKeys, NodeChanged, CredentialsChanged, ProxyChanged;
    assert EnvFile(s) !in GenerationArea(ChangedKeys(a.stored, config));
    assert At(b.disk, EnvFile(s)) == At(a.disk, EnvFile(s));
  }

  lemma RollbackIsStep(host: Host, a: Moment, b: Moment, from: nat)
    requires b == Moment(host.disk, host.running, host.launched, a.stored)
    requires SameFiles(a.disk, b.disk)
    requires forall s | s in host.running :: Fresh(host, s, from)
    ensures ServiceStep(a, b)
  {
    hide SameFiles;
    forall s | s in b.running ensures ServiceKeptOrLaunched(a, b, s) {
      assert Fresh(host, s, from);
    }
  }

  lemma ForwardMatches(e: Event, config: Config)
    requires ForwardProbe(e, config)
    ensures MatchedProbe(e, config)
  {
  }

  /** The probes of an event that is rolled back, forward and backward. */
  lemma ProbesMatch(host: Host, from: nat, i: nat, a: Moment, config: Config, r: Result, account: Account)
    requires from <= i < |host.trace| && host.trace[i].op.Probe? && Rendered(a.disk, a.stored)
    requires r.RolledBack? || r.RollbackFailed?
    requires Undone(host, a.stored, ErrorsOf(r), account) && Shows(account.snapshot, a.disk, a.running)
    requires
      var changed := ChangedKeys(a.stored, config);
      && Turned(host, from, a.disk, config, changed, ErrorsOf(r), account)
      && OnlyTouches(a.disk, account.left.disk, GenerationArea(changed))
      && OnlyTouches(a.disk, host.disk, GenerationArea(changed))
      && (!NodeChanged(changed) ==> SameLaunch(Node, a.launched, account.left.launched))
    requires r.RolledBack? ==> SameFiles(a.disk, host.disk)
    requires r.RollbackFailed? ==> NodeRestored(r.errors) || NodeLeftAlone(a, config)
    requires r.RollbackFailed? ==> forall file | RestoreFailed(Managed(file)) !in r.errors ::
      At(host.disk, Managed(file)) == At(a.disk, Managed(file))
    ensures MatchedProbe(host.trace[i], config) || MatchedProbe(host.trace[i], a.stored)
  {
    NodeFileRendered(a);
    hide Rendered, NodeEnvText, ChangedKeys, RollbackAccounted, NodeChanged, GenerationArea, OnlyTouches, SameFiles,
      ForwardProbe, ForwardStep, SomeSetback, NoSetback, ExpectedVersion, ProxyMissing, CommittedFiles,
        TRANSACTION_PATHS;
    if i < account.turned {
      ForwardMatches(host.trace[i], config);
    } else {
      if r.RolledBack? {
        SameNodeFile(a.disk, host.disk);
      }
      ProbeOfRollback(host, host.trace[i], a.disk, a.launched, a.stored, ChangedKeys(a.stored, config), ErrorsOf(r),
        account);
    }
  }

  lemma NodeFileRendered(m: Moment)
    requires Rendered(m.disk, m.stored)
    ensures DataAt(m.disk, Managed(NodeEnv)) == Some(NodeEnvText(m.stored))
  {
    hide NodeEnvText, MonitorPairs, ProxyPairs, EnvText;
    assert DataAt(m.disk, EnvFile(Node)) == Some(EnvTextFor(m.stored, Node));
  }

  lemma SameNodeFile(before: Disk, disk: Disk)
    requires SameFiles(before, disk)
    ensures At(disk, Managed(NodeEnv)) == At(before, Managed(NodeEnv))
  {
  }

  // ------------------------------------------------------------------------ runs

  /** Rewriting only what changed leaves the same three files as rewriting everything. */
  lemma CleanStepKeepsRendering(a: Moment, e: CharmEvent, b: Moment)
    requires Rendered(a.disk, a.stored) && CleanStep(a, e, b)
    ensures Rendered(b.disk, b.stored)
  {
    forall s ensures DataAt(b.disk, EnvFile(s)) == Some(EnvTextFor(b.stored, s)) {
      assert DataAt(a.disk, EnvFile(s)) == Some(EnvTextFor(a.stored, s));
      if e.ConfigChanged? && CommitStep(a, e.config, b) {
        SkippedFilesRenderTheSame(a.stored, e.config);
      } else {
        assert At(b.disk, EnvFile(s)) == At(a.disk, EnvFile(s));
      }
    }
  }

  /** Over every run of events in which failures roll back cleanly, the three files always
      equal a full rendering of the stored configuration. */
  lemma {:induction false} CleanRunsKeepRendering(moments: seq<Moment>, events: seq<CharmEvent>, n: nat)
    requires CleanRun(moments, events) && n < |moments|
    requires Rendered(moments[0].disk, moments[0].stored)
    ensures Rendered(moments[n].disk, moments[n].stored)
  {
    if n > 0 {
      CleanRunsKeepRendering(moments, events, n - 1);
      CleanStepKeepsRendering(moments[n - 1], events[n - 1], moments[n]);
    }
  }

  /** The one gap: the node's file changes, and an empty new version keeps it from being
      relaunched. */
  ghost predicate LeavesNodeBehind(stored: Config, config: Config, running: set<Service>) {
    && Node in running
    && !Relaunches(config, ChangedKeys(stored, config))
    && NodeEnvText(config) != NodeEnvText(stored)
  }

  lemma LeftBehindMeansEmptyVersion(stored: Config, config: Config, running: set<Service>)
    requires LeavesNodeBehind(stored, config, running)
    ensures ReleaseChanged(ChangedKeys(stored, config)) && config.version == ""
  {
    hide NodeEnvText, MonitorPairs, ProxyPairs, ChangedKeys;
    SkippedFilesRenderTheSame(stored, config);
  }

  /** After a commit every running process runs the new configuration exactly when the
      node is not left behind. */
  lemma CommitKeepsInSync(a: Moment, config: Config, b: Moment)
    requires Rendered(a.disk, a.stored) && InSync(a) && CommitStep(a, config, b)
    ensures InSync(b) <==> !LeavesNodeBehind(a.stored, config, a.running)
  {
    var changed := ChangedKeys(a.stored, config);
    CleanStepKeepsRendering(a, ConfigChanged(config), b);
    SkippedFilesRenderTheSame(a.stored, config);
    hide ChangedKeys, NodeEnvText, MonitorPairs, ProxyPairs, EnvText, NodeChanged, CredentialsChanged, ProxyChanged;
    forall s | s in b.running && (s != Node || !LeavesNodeBehind(a.stored, config, a.running))
      ensures s in b.launched && DataAt(b.launched[s].image, EnvFile(s)) == Some(EnvTextFor(config, s))
    {
      ServiceInSync(a, config, b, s);
    }
    if LeavesNodeBehind(a.stored, config, a.running) {
      assert Relaunched(a, config, b, Node);
      assert DataAt(b.launched[Node].image, EnvFile(Node)) == Some(EnvTextFor(a.stored, Node));
    }
  }

  lemma ServiceInSync(a: Moment, config: Config, b: Moment, s: Service)
    requires Rendered(b.disk, config) && InSync(a) && CommitStep(a, config, b) && s in b.running
    requires s == Node ==> !LeavesNodeBehind(a.stored, config, a.running)
    ensures s in b.launched && DataAt(b.launched[s].image, EnvFile(s)) == Some(EnvTextFor(config, s))
  {
    var changed := ChangedKeys(a.stored, config);
    SkippedFilesRenderTheSame(a.stored, config);
    hide ChangedKeys, NodeEnvText, MonitorPairs, ProxyPairs, EnvText, NodeChanged, CredentialsChanged, ProxyChanged;
    assert Relaunched(a, config, b, s);
    if RelaunchesService(config, changed, s) {
      assert At(b.launched[s].image, EnvFile(s)) == At(b.disk, EnvFile(s));
      assert DataAt(b.disk, EnvFile(s)) == Some(EnvTextFor(config, s));
    }
  }

  lemma ServiceStepKeepsInSync(a: Moment, b: Moment)
    requires Rendered(b.disk, b.stored) && InSync(a) && ServiceStep(a, b)
    ensures InSync(b)
  {
    hide NodeEnvText, MonitorPairs, ProxyPairs, EnvText;
    forall s | s in b.running
      ensures s in b.launched && DataAt(b.launched[s].image, EnvFile(s)) == Some(EnvTextFor(b.stored, s)) {
      assert ServiceKeptOrLaunched(a, b, s);
      if !(s in a.running && SameLaunch(s, a.launched, b.launched)) {
        assert At(b.launched[s].image, EnvFile(s)) == At(b.disk, EnvFile(s));
        assert DataAt(b.disk, EnvFile(s)) == Some(EnvTextFor(b.stored, s));
      }
    }
  }

  /** No config-changed event of the run leaves the node behind. */
  ghost predicate NeverLeavesNodeBehind(moments: seq<Moment>, events: seq<CharmEvent>)
    requires |moments| == |events| + 1
  {
    forall i | 0 <= i < |events| && events[i].ConfigChanged? ::
      !LeavesNodeBehind(moments[i].stored, events[i].config, moments[i].running)
  }

  /** Over every such run, every running process was launched with the rendering of the
      stored configuration. */
  lemma {:induction false} CleanRunsKeepInSync(moments: seq<Moment>, events: seq<CharmEvent>, n: nat)
    requires CleanRun(moments, events) && NeverLeavesNodeBehind(moments, events) && n < |moments|
    requires Rendered(moments[0].disk, moments[0].stored) && InSync(moments[0])
    ensures Rendered(moments[n].disk, moments[n].stored) && InSync(moments[n])
  {
    hide LeavesNodeBehind, CommitStep, ServiceStep, Rendered, InSync;
    if n > 0 {
      var a, e, b := moments[n - 1], events[n - 1], moments[n];
      CleanRunsKeepInSync(moments, events, n - 1);
      CleanStepKeepsRendering(a, e, b);
      if e.ConfigChanged? && CommitStep(a, e.config, b) {
        CommitKeepsInSync(a, e.config, b);
      } else {
        ServiceStepKeepsInSync(a, b);
      }
    }
  }

  /** After every clean run the services receive the credentials. The node has them as its
      last two arguments exactly if user and password are clean and the operator's arguments
      leave no quote open; the monitor and the proxy have the same ones exactly if user and
      password end with their lines, and from plain values they have the charm's own. */
  lemma CleanRunsCarryCredentials(moments: seq<Moment>, events: seq<CharmEvent>, n: nat)
    requires CleanRun(moments, events) && n < |moments|
    requires Rendered(moments[0].disk, moments[0].stored)
    ensures
      var disk, c := moments[n].disk, moments[n].stored;
      var node, monitor, proxy :=
        DataAt(disk, Managed(NodeEnv)), DataAt(disk, Managed(MonitorEnv)), DataAt(disk, Managed(ProxyEnv));
      && node.Some? && monitor.Some? && proxy.Some?
      && (HasCredentials(c) ==>
            (EndsWith(ReceivedArguments(node.value), UserOption(c), PasswordOption(c)) <==>
              && IsCleanValue(c.rpcUser) && IsCleanValue(c.rpcPassword)
              && ClosesQuotes(Hardened(c)) && Accepted(Hardened(c))))
      && (OneLineValues(c) ==> (SameCredentials(monitor.value, proxy.value) <==> CredentialsEndWithTheirLines(c)))
      && (AllPlain(MonitorPairs(c)) && AllPlain(ProxyPairs(c)) && HasCredentials(c) ==>
            && SameCredentials(monitor.value, proxy.value)
            && Lookup(ReadEnv(monitor.value), "BITCOIN_RPC_USER") == Some(c.rpcUser)
            && Lookup(ReadEnv(monitor.value), "BITCOIN_RPC_PASSWORD") == Some(c.rpcPassword))
  {
    var disk, c := moments[n].disk, moments[n].stored;
    CleanRunsKeepRendering(moments, events, n);
    NodeReceivesCredentials(c);
    CredentialsOfBothFiles(c);
    hide CleanRun, NodeEnvText, MonitorPairs, ProxyPairs, EnvText, ReadEnv, Lookup, EndsWith, ReceivedArguments;
    hide ClosesQuotes, Hardened, IsCleanValue, UserOption, PasswordOption, Accepted, AllPlain, SameCredentials,
      CredentialsEndWithTheirLines, OneLineValues;
    assert DataAt(disk, EnvFile(Node)) == Some(EnvTextFor(c, Node));
    assert DataAt(disk, EnvFile(Monitor)) == Some(EnvTextFor(c, Monitor));
    assert DataAt(disk, EnvFile(Proxy)) == Some(EnvTextFor(c, Proxy));
  }

  lemma CredentialsOfBothFiles(c: Config)
    ensures
      var monitor, proxy := EnvText(MonitorPairs(c)), EnvText(ProxyPairs(c));
      && (OneLineValues(c) ==> (SameCredentials(monitor, proxy) <==> CredentialsEndWithTheirLines(c)))
      && (AllPlain(MonitorPairs(c)) && AllPlain(ProxyPairs(c)) && HasCredentials(c) ==>
            && SameCredentials(monitor, proxy)
            && Lookup(ReadEnv(monitor), "BITCOIN_RPC_USER") == Some(c.rpcUser)
            && Lookup(ReadEnv(monitor), "BITCOIN_RPC_PASSWORD") == Some(c.rpcPassword))
  {
    hide MonitorPairs, ProxyPairs, EnvText, ReadEnv, Lookup, AllPlain, CredentialsEndWithTheirLines, OneLineValues;
    if OneLineValues(c) {
      MonitorAndProxyAgree(c);
    }
    if AllPlain(MonitorPairs(c)) && AllPlain(ProxyPairs(c)) {
      PlainCredentialsRead(c);
    }
  }

  // ------------------------------------------------------ after a failed rollback

  /** A commit repairs exactly the files it rewrites: afterwards all files render the new
      configuration if and only if each file it skipped rendered the stored one. */
  lemma CommitRepairsExactly(b: Moment, config: Config, c: Moment)
    requires CommitStep(b, config, c)
    ensures Rendered(c.disk, c.stored) <==> forall s ::
      Rewrites(ChangedKeys(b.stored, config), s) || DataAt(b.disk, EnvFile(s)) == Some(EnvTextFor(b.stored, s))
  {
    var changed := ChangedKeys(b.stored, config);
    SkippedFilesRenderTheSame(b.stored, config);
    hide ChangedKeys, NodeEnvText, MonitorPairs, ProxyPairs, EnvText, NodeChanged, CredentialsChanged, ProxyChanged;
    forall s ensures
      (DataAt(c.disk, EnvFile(s)) == Some(EnvTextFor(config, s))) <==>
      (Rewrites(changed, s) || DataAt(b.disk, EnvFile(s)) == Some(EnvTextFor(b.stored, s)))
    {
      assert DataAt(c.disk, EnvFile(s)) ==
        if Rewrites(changed, s) then Some(EnvTextFor(config, s)) else DataAt(b.disk, EnvFile(s));
    }
  }

  /** Attempts at one configuration that fail, with any rollback, and steps that touch
      only services. */
  ghost predicate Attempts(moments: seq<Moment>, config: Config) {
    && moments != []
    && forall i | 0 <= i < |moments| - 1 ::
        FailedStep(moments[i], config, moments[i + 1]) || ServiceStep(moments[i], moments[i + 1])
  }

  lemma {:induction false} AttemptsAreOneFailure(moments: seq<Moment>, config: Config, n: nat)
    requires Attempts(moments, config) && n < |moments|
    ensures FailedStep(moments[0], config, moments[n])
  {
    hide ChangedKeys, Rewrites;
    if n > 0 {
      AttemptsAreOneFailure(moments, config, n - 1);
      var a, b := moments[n - 1], moments[n];
      forall p | p !in GenerationArea(ChangedKeys(moments[0].stored, config))
        ensures At(b.disk, p) == At(moments[0].disk, p)
      {
        assert At(b.disk, p) == At(a.disk, p);
      }
    }
  }

  /** However often a configuration has failed from a rendered moment, and whatever the
      rollbacks left behind, committing it in the end renders all files. */
  lemma RetryRecovers(moments: seq<Moment>, config: Config, c: Moment)
    requires Attempts(moments, config) && Rendered(moments[0].disk, moments[0].stored)
    requires CommitStep(moments[|moments| - 1], config, c)
    ensures Rendered(c.disk, c.stored)
  {
    var a, b := moments[0], moments[|moments| - 1];
    AttemptsAreOneFailure(moments, config, |moments| - 1);
    CommitRepairsExactly(b, config, c);
    hide ChangedKeys, Rewrites, CommitStep, EnvTextFor;
    forall s | !Rewrites(ChangedKeys(b.stored, config), s)
      ensures DataAt(b.disk, EnvFile(s)) == Some(EnvTextFor(b.stored, s))
    {
      FailureKeepsOtherFiles(a, config, b, s);
      assert DataAt(a.disk, EnvFile(s)) == Some(EnvTextFor(a.stored, s));
    }
  }

  /** Going back to the stored configuration repairs nothing: no key has changed. */
  lemma RevertRepairsNothing(b: Moment, c: Moment)
    requires CommitStep(b, b.stored, c)
    ensures Rendered(c.disk, c.stored) <==> Rendered(b.disk, b.stored)
  {
    NoChange(b.stored, b.stored);
    CommitRepairsExactly(b, b.stored, c);
    hide ChangedKeys, EnvTextFor, CommitStep;
    assert forall s :: !Rewrites({}, s);
  }
}
