/** Where the limits of the run theorems are: concrete hosts and fault schedules on which a
    config-changed event ends just outside them. */
module Limits {
  import opened Text
  import opened Hosts
  import opened Configs
  import opened Rollbacks
  import opened Transactions
  import opened Charms
  import opened Units
  import F = Flags

  lemma DifferentUsersRenderDifferently(a: Config, b: Config)
    requires HasCredentials(a) && HasCredentials(b)
    requires a.serviceArgs == b.serviceArgs && a.disableWallet == b.disableWallet
    requires |a.rpcUser| == |b.rpcUser| && a.rpcUser[0] != b.rpcUser[0]
    ensures NodeEnvText(a) != NodeEnvText(b)
  {
    var prefix := "BITCOIND_CLI_ARGS=\"" + F.Harden(a.serviceArgs, a.disableWallet) + " -" + RPC_USER + "=";
    hide F.Harden;
    assert NodeEnvText(a)[|prefix|] == a.rpcUser[0];
    assert NodeEnvText(b)[|prefix|] == b.rpcUser[0];
  }

  const STORED := Config("a", "p", "", "31.0", "", true, "0.1.0", "0.0.0.0:8331", "", true)
  const NEW_USER := STORED.(rpcUser := "b")
  const NEW_USER_NO_VERSION := NEW_USER.(version := "")

  const WORKS := Reply(true, None, true, false, Some("31.0"), "", "", {})
  const FAILS := WORKS.(ok := false)
  /** A service command that fails and leaves a new process. */
  const FAILS_ANEW := FAILS.(relaunched := true)

  /** Every step works, but one kind of step never does. */
  function AllBut(broken: Op, reply: Reply): (nat, Op) -> Reply {
    (t: nat, op: Op) => if op == broken then reply else WORKS
  }

  lemma UsersRenderDifferently()
    ensures NodeEnvText(STORED) != NodeEnvText(NEW_USER) && NodeEnvText(STORED) != NodeEnvText(NEW_USER_NO_VERSION)
  {
    DifferentUsersRenderDifferently(STORED, NEW_USER);
    DifferentUsersRenderDifferently(STORED, NEW_USER_NO_VERSION);
  }

  lemma OnlyUserChanges()
    ensures
      var changed := ChangedKeys(STORED, NEW_USER);
      RpcUser in changed && ProxyVersion !in changed && !ReleaseChanged(changed)
    ensures STORED != NEW_USER
  {
    KeyUnchanged(STORED, NEW_USER, RpcUser);
    KeyUnchanged(STORED, NEW_USER, ProxyVersion);
    KeyUnchanged(STORED, NEW_USER, Version);
    KeyUnchanged(STORED, NEW_USER, BinaryUrl);
  }

  /** The three environment files as rendered from the stored configuration, and no other
      file: in particular, the proxy runs although its binary is gone. */
  function RenderedDisk(): Disk {
    map[
      Managed(NodeEnv) := File(NodeEnvText(STORED), DEFAULT_MODE),
      Managed(MonitorEnv) := File(EnvText(MonitorPairs(STORED)), DEFAULT_MODE),
      Managed(ProxyEnv) := File(EnvText(ProxyPairs(STORED)), DEFAULT_MODE)
    ]
  }

  lemma RenderedDiskIsRendered()
    ensures Rendered(RenderedDisk(), STORED)
  {
    hide NodeEnvText, MonitorPairs, ProxyPairs, EnvText;
    forall s ensures DataAt(RenderedDisk(), EnvFile(s)) == Some(EnvTextFor(STORED, s)) {
      match s
      case Node =>
      case Monitor =>
      case Proxy =>
    }
  }

  lemma ProxyIsMissing()
    ensures ProxyMissing(RenderedDisk(), {Node, Proxy}, NEW_USER, ChangedKeys(STORED, NEW_USER))
  {
    OnlyUserChanges();
    hide ChangedKeys, NodeEnvText, MonitorPairs, ProxyPairs, EnvText;
  }

  /** A broken step that belongs to rollbacks only. */
  ghost predicate InRollbacksOnly(broken: Op) {
    broken == Write(Temporary(Managed(NodeEnv))) || broken == Stop(Node)
  }

  lemma StepsWork(host: Host, broken: Op, reply: Reply, from: nat, to: nat)
    requires host.Genuine() && host.reply == AllBut(broken, reply) && to <= |host.trace|
    requires forall i | from <= i < to :: host.trace[i].op != broken
    ensures forall i | from <= i < to :: host.trace[i].reply == WORKS
  {
  }

  /** The changed user is written, then the event fails, because the proxy cannot be
      restarted: not during the capture, and without any setback. */
  lemma EventTurns(host: Host, r: Result, account: Account, broken: Op, reply: Reply)
    requires host.Genuine() && host.reply == AllBut(broken, reply) && InRollbacksOnly(broken) && !r.NoOp?
    requires Explained(host, r, STORED, NEW_USER, account, RenderedDisk(), {Node, Proxy}, 0)
    ensures r.RolledBack? || r.RollbackFailed?
    ensures account.turned <= |host.trace|
    ensures DataAt(account.left.disk, Managed(NodeEnv)) == Some(NodeEnvText(NEW_USER))
  {
    var changed := ChangedKeys(STORED, NEW_USER);
    OnlyUserChanges();
    ProxyIsMissing();
    hide ChangedKeys, NodeEnvText, MonitorPairs, ProxyPairs, EnvText, ProxyMissing, RenderedDisk, Shows, Undone;
    if r.CaptureFailed? {
      CaptureWorks(host, broken, reply);
    }
    ForwardWorks(host, changed, account.turned, broken, reply);
    assert CommittedFile(host, RenderedDisk(), NEW_USER, changed, account.download, account.release, NodeEnv)
        == At(account.left.disk, Managed(NodeEnv));
  }

  lemma CaptureWorks(host: Host, broken: Op, reply: Reply)
    requires host.Genuine() && host.reply == AllBut(broken, reply) && InRollbacksOnly(broken)
    requires forall i | 0 <= i < |host.trace| :: host.trace[i].op.Read?
    ensures !SomeFailed(host.trace, 0)
  {
    StepsWork(host, broken, reply, 0, |host.trace|);
  }

  lemma ForwardWorks(host: Host, changed: set<Key>, turned: nat, broken: Op, reply: Reply)
    requires host.Genuine() && host.reply == AllBut(broken, reply) && InRollbacksOnly(broken)
    requires turned <= |host.trace| && !ReleaseChanged(changed)
    requires forall i | 0 <= i < turned :: ForwardStep(host.trace[i], changed)
    ensures NoSetback(host, host.trace[..turned], 0, None)
  {
    assert forall i | 0 <= i < turned :: host.trace[i].op != broken;
    StepsWork(host, broken, reply, 0, turned);
  }

  /** The last step is a probe that asks the node with the user it no longer has. */
  ghost predicate EndsInMismatch(host: Host)
    reads host`trace
  {
    && host.trace != []
    && var op := host.trace[|host.trace| - 1].op;
    && op.Probe? && op.user == STORED.rpcUser && op.password == STORED.rpcPassword
    && op.process.Some? && LaunchedWith(op.process.value, Some(NodeEnvText(NEW_USER)))
  }

  /** On these hosts, starts leave their service running, and nothing but the broken step
      fails. */
  lemma RollbackSteps(host: Host, broken: Op, reply: Reply, from: nat)
    requires host.Genuine() && host.reply == AllBut(broken, reply) && InRollbacksOnly(broken) && !reply.ok
    ensures !Happened(host.trace, from, broken)
    ensures !Failed(host.trace, from, Start(Node)) && !StaysDown(host.trace, from, Node)
    ensures broken == Stop(Node) ==> !FileStepFailed(host.trace, from, Managed(NodeEnv))
  {
  }

  lemma NodeFileCaptured(snapshot: Snapshot)
    requires Shows(snapshot, RenderedDisk(), {Node, Proxy})
    ensures Managed(NodeEnv) in TRANSACTION_PATHS
    ensures Managed(NodeEnv) in snapshot.files && snapshot.files[Managed(NodeEnv)].Some?
  {
    assert TRANSACTION_PATHS[3] == Managed(NodeEnv);
  }

  /** The steps of the rollback as far as the node is concerned. */
  lemma NodeRolledBack(host: Host, errors: seq<RollbackError>, account: Account, broken: Op, reply: Reply)
    requires host.Genuine() && host.reply == AllBut(broken, reply) && InRollbacksOnly(broken) && !reply.ok
    requires Shows(account.snapshot, RenderedDisk(), {Node, Proxy})
    requires Undone(host, STORED, errors, account)
    ensures |host.trace| > account.turned + 2
    ensures Node in host.running && StartFailed(Node) !in errors
    ensures host.trace[|host.trace| - 1].op == Probe(STORED.rpcUser, STORED.rpcPassword, host.NodeProcess())
    ensures broken == Stop(Node) ==> StopFailed(Node) in errors && RestoreFailed(Managed(NodeEnv)) !in errors
    ensures broken == Stop(Node) && Survived(reply) ==>
      Node in host.launched && host.launched[Node].image == account.left.disk
    ensures broken == Write(Temporary(Managed(NodeEnv))) ==>
      && StopFailed(Node) !in errors && RestoreFailed(Managed(NodeEnv)) in errors
      && Node in host.launched && host.launched[Node].image == host.disk
  {
    hide RenderedDisk, TRANSACTION_PATHS, STORED, Happened, Failed, StaysDown, FileStepFailed, Host.Genuine;
    hide ReloadAccounted, GotVersion;
    RollbackSteps(host, broken, reply, account.turned);
    NodeFileCaptured(account.snapshot);
    var stop := host.trace[account.turned + 2];
    StopReply(host, broken, reply, account.turned + 2);
    assert FileAccounted(host.trace, account.turned, account.snapshot, errors, Managed(NodeEnv));
    assert ServiceAccounted(host.trace, account.turned, account.snapshot, errors, account.left,
      Services(host.running, host.launched, host.disk), Node, stop);
  }

  lemma StopReply(host: Host, broken: Op, reply: Reply, i: nat)
    requires host.Genuine() && host.reply == AllBut(broken, reply) && i < |host.trace|
    ensures host.trace[i].reply == if host.trace[i].op == broken then reply else WORKS
  {
  }

  lemma NotRendered(disk: Disk)
    requires DataAt(disk, Managed(NodeEnv)) == Some(NodeEnvText(NEW_USER))
    ensures !Rendered(disk, STORED)
  {
    UsersRenderDifferently();
    hide NodeEnvText, MonitorPairs, ProxyPairs, EnvText;
    assert DataAt(disk, EnvFile(Node)) != Some(EnvTextFor(STORED, Node));
  }

  /** When the node's file cannot be restored, the node is started again from the new one,
      and asked with the stored user. Reverting the change then is a no-op, and leaves the
      file as it is. */
  method FailedRestore() returns (charm: Charm, r: Result)
    ensures r.RollbackFailed? && RestoreFailed(Managed(NodeEnv)) in r.errors && StopFailed(Node) !in r.errors
    ensures EndsInMismatch(charm.host)
    ensures charm.stored == STORED && !Rendered(charm.host.disk, STORED)
    ensures NodeEnvText(STORED) != NodeEnvText(NEW_USER)
  {
    var broken := Write(Temporary(Managed(NodeEnv)));
    UsersRenderDifferently();
    OnlyUserChanges();
    hide RenderedDisk, Rendered, NodeEnvText, Explained, EndsInMismatch, Host.Genuine, STORED, NEW_USER, FAILS, AllBut;
    hide CommitStep, ServiceStep, FailedStep, CleanStep, MatchedProbe, NodeRestored;
    var host := new Host(AllBut(broken, FAILS), "", "", text => None, RenderedDisk(), map[], {Node, Proxy}, map[]);
    charm := new Charm(host, STORED);
    ghost var account;
    r, account := charm.OnConfigChanged(NEW_USER);
    EventTurns(host, r, account, broken, FAILS);
    RestoreFails(host, r, account);
    NotRendered(host.disk);
    var again, second := charm.OnConfigChanged(STORED);
  }

  lemma RestoreFails(host: Host, r: Result, account: Account)
    requires host.Genuine() && host.reply == AllBut(Write(Temporary(Managed(NodeEnv))), FAILS)
    requires r.RolledBack? || r.RollbackFailed?
    requires Explained(host, r, STORED, NEW_USER, account, RenderedDisk(), {Node, Proxy}, 0)
    requires DataAt(account.left.disk, Managed(NodeEnv)) == Some(NodeEnvText(NEW_USER))
    ensures r.RollbackFailed? && RestoreFailed(Managed(NodeEnv)) in r.errors && StopFailed(Node) !in r.errors
    ensures EndsInMismatch(host)
    ensures DataAt(host.disk, Managed(NodeEnv)) == Some(NodeEnvText(NEW_USER))
  {
    hide RenderedDisk, NodeEnvText, STORED, NEW_USER, Shows, Undone, AllBut, Host.Genuine, ChangedKeys;
    hide CommittedFiles, ForwardStep;
    NodeRolledBack(host, ErrorsOf(r), account, Write(Temporary(Managed(NodeEnv))), FAILS);
    assert At(host.disk, Managed(NodeEnv)) == At(account.left.disk, Managed(NodeEnv));
  }

  /** When the node survives its stop in a new process, it goes on with the new file,
      although that is restored, and is asked with the stored user. */
  method FailedStop() returns (charm: Charm, r: Result)
    ensures r.RollbackFailed? && StopFailed(Node) in r.errors && RestoreFailed(Managed(NodeEnv)) !in r.errors
    ensures EndsInMismatch(charm.host)
    ensures charm.stored == STORED
    ensures NodeEnvText(STORED) != NodeEnvText(NEW_USER)
  {
    UsersRenderDifferently();
    OnlyUserChanges();
    hide RenderedDisk, Rendered, NodeEnvText, Explained, EndsInMismatch, Host.Genuine, STORED, NEW_USER,
      FAILS_ANEW, AllBut;
    hide CommitStep, ServiceStep, FailedStep, CleanStep, MatchedProbe, NodeRestored;
    var host := new Host(AllBut(Stop(Node), FAILS_ANEW), "", "", text => None, RenderedDisk(), map[],
      {Node, Proxy}, map[]);
    charm := new Charm(host, STORED);
    ghost var account;
    r, account := charm.OnConfigChanged(NEW_USER);
    EventTurns(host, r, account, Stop(Node), FAILS_ANEW);
    StopFails(host, r, account);
  }

  lemma StopFails(host: Host, r: Result, account: Account)
    requires host.Genuine() && host.reply == AllBut(Stop(Node), FAILS_ANEW)
    requires r.RolledBack? || r.RollbackFailed?
    requires Explained(host, r, STORED, NEW_USER, account, RenderedDisk(), {Node, Proxy}, 0)
    requires DataAt(account.left.disk, Managed(NodeEnv)) == Some(NodeEnvText(NEW_USER))
    ensures r.RollbackFailed? && StopFailed(Node) in r.errors && RestoreFailed(Managed(NodeEnv)) !in r.errors
    ensures EndsInMismatch(host)
  {
    hide RenderedDisk, NodeEnvText, STORED, NEW_USER, Shows, Undone, AllBut, Host.Genuine, ChangedKeys, Turned;
    NodeRolledBack(host, ErrorsOf(r), account, Stop(Node), FAILS_ANEW);
  }

  // --------------------------------------------------------------- a node left behind

  lemma UserAndVersionChange()
    ensures
      var changed := ChangedKeys(STORED, NEW_USER_NO_VERSION);
      && Version in changed && ExpectedVersion(NEW_USER_NO_VERSION, changed) == None
      && LeavesNodeBehind(STORED, NEW_USER_NO_VERSION, {Node})
    ensures STORED != NEW_USER_NO_VERSION
  {
    UsersRenderDifferently();
    KeyUnchanged(STORED, NEW_USER_NO_VERSION, Version);
  }

  lemma AllStepsWork(host: Host)
    requires host.Genuine() && forall t, op :: host.reply(t, op) == WORKS
    ensures !SomeSetback(host, host.trace, 0, None)
  {
  }

  /** On a host where every step works, a new user together with an emptied version is
      committed, and leaves the running node with the old user. */
  method EmptiedVersionLeavesNodeBehind() returns (charm: Charm, r: Result, ghost before: Moment)
    ensures r.Committed? && CommitStep(before, NEW_USER_NO_VERSION, charm.Now())
    ensures Rendered(before.disk, before.stored) && InSync(before) && Node in before.running
    ensures Rendered(charm.host.disk, charm.stored) && !InSync(charm.Now())
  {
    UserAndVersionChange();
    RenderedDiskIsRendered();
    hide RenderedDisk, Rendered, NodeEnvText, CommitStep, ServiceStep, FailedStep, CleanStep,
      MatchedProbe, NodeRestored;
    hide STORED, NEW_USER_NO_VERSION, LeavesNodeBehind, ChangedKeys, Host.Genuine, NodeLeftAlone, Undone, Turned, Shows;
    var disk := RenderedDisk();
    var host := new Host((t: nat, op: Op) => WORKS, "", "", text => None, disk, map[], {Node},
      map[Node := Launch(disk, 0)]);
    charm := new Charm(host, STORED);
    before := charm.Now();
    NodeInSync(before);
    ghost var account;
    r, account := charm.OnConfigChanged(NEW_USER_NO_VERSION);
    AllStepsWork(host);
    CommitKeepsInSync(before, NEW_USER_NO_VERSION, charm.Now());
    CleanStepKeepsRendering(before, ConfigChanged(NEW_USER_NO_VERSION), charm.Now());
  }

  lemma NodeInSync(m: Moment)
    requires Rendered(m.disk, m.stored) && m.running == {Node}
    requires Node in m.launched && m.launched[Node].image == m.disk
    ensures InSync(m)
  {
  }
}
