/** What a commit does, told by the fields of the two configurations and in literal terms:
    which files it writes, from which downloads, and which services it relaunches. */
module Effects {
  import opened Text
  import opened Hosts
  import opened Configs
  import opened Rollbacks
  import opened Transactions

  /** The file has this content; an existing one keeps its mode, a new one has 0o644. */
  ghost predicate Written(before: Disk, after: Disk, file: ManagedFile, data: Bytes) {
    && Managed(file) in after && after[Managed(file)].data == data
    && after[Managed(file)].mode == if Managed(file) in before then before[Managed(file)].mode else 420
  }

  ghost predicate Kept(before: Disk, after: Disk, file: ManagedFile) {
    if Managed(file) in before then Managed(file) in after && after[Managed(file)] == before[Managed(file)]
    else Managed(file) !in after
  }

  /** The file is executable (0o755) and has this content. */
  ghost predicate Installed(after: Disk, file: ManagedFile, data: Bytes) {
    Managed(file) in after && after[Managed(file)] == File(data, 493)
  }

  /** The two binaries of a release that was staged since `from`. */
  ghost predicate ReleaseFrom(trace: seq<Event>, from: nat, after: Disk) {
    exists i | from <= i < |trace| ::
      && trace[i].op == Stage && trace[i].reply.ok
      && Installed(after, NodeBinary, trace[i].reply.first) && Installed(after, CliBinary, trace[i].reply.second)
  }

  ghost predicate ProxyBinaryFrom(trace: seq<Event>, from: nat, after: Disk) {
    exists i | from <= i < |trace| ::
      trace[i].op == Fetch && trace[i].reply.ok && Installed(after, ProxyBinary, trace[i].reply.first)
  }

  /** All ten files after a commit. */
  ghost predicate FilesFollow(host: Host, stored: Config, config: Config, before: Disk, after: Disk,
                              trace: seq<Event>, from: nat)
  {
    && (if NewRelease(stored, config) && config.version != "" then ReleaseFrom(trace, from, after)
        else Kept(before, after, NodeBinary) && Kept(before, after, CliBinary))
    && (if stored.proxyVersion != config.proxyVersion && config.proxyVersion != ""
        then ProxyBinaryFrom(trace, from, after) else Kept(before, after, ProxyBinary))
    && (if NewForNode(stored, config) then Written(before, after, NodeEnv, NodeEnvText(config))
        else Kept(before, after, NodeEnv))
    && (if NewCredentials(stored, config)
        then Written(before, after, MonitorEnv, EnvText(MonitorPairs(config)))
          && Written(before, after, MonitorScript, host.monitorTemplate)
        else Kept(before, after, MonitorEnv) && Kept(before, after, MonitorScript))
    && (if NewForProxy(stored, config)
        then Written(before, after, ProxyEnv, EnvText(ProxyPairs(config)))
          && Written(before, after, ProxyUnit, host.proxyUnitTemplate)
        else Kept(before, after, ProxyEnv) && Kept(before, after, ProxyUnit))
    && Kept(before, after, NodeUnit) && Kept(before, after, MonitorUnit)
  }

  /** A service that has to be relaunched runs a process launched since `from` from the files
      on disk; any other goes on, or stays down, as it was. */
  ghost predicate RelaunchedIff(needed: bool, before: Services, after: Services, s: Service, from: nat) {
    if needed && s in before.running then
      && s in after.running && s in after.launched && after.launched[s].at >= from
      && SameFiles(after.launched[s].image, after.disk)
    else SameProcess(before, after, s)
  }

  ghost predicate ServicesFollow(stored: Config, config: Config, before: Services, after: Services, from: nat) {
    && RelaunchedIff(NewForNode(stored, config) && (NewRelease(stored, config) ==> config.version != ""),
         before, after, Node, from)
    && RelaunchedIff(NewCredentials(stored, config), before, after, Monitor, from)
    && RelaunchedIff(NewForProxy(stored, config), before, after, Proxy, from)
  }

  /** What a running node has said since `from`: it answered if it was relaunched, and after
      a release with the version asked for. */
  ghost predicate NodeFollows(host: Host, stored: Config, config: Config, running: set<Service>, trace: seq<Event>,
                              from: nat)
  {
    Node in running ==>
      && (NewForNode(stored, config) && (NewRelease(stored, config) ==> config.version != "") ==>
            NodeAnswered(trace, from))
      && (NewRelease(stored, config) && config.version != "" ==> NodeReported(host, trace, from, config.version))
  }

  lemma WrittenInPlace(before: Disk, after: Disk, file: ManagedFile, data: Bytes)
    requires At(after, Managed(file)) == InPlace(before, Managed(file), data)
    ensures Written(before, after, file, data)
  {
  }

  lemma KeptAsItWas(before: Disk, after: Disk, file: ManagedFile)
    requires At(after, Managed(file)) == At(before, Managed(file))
    ensures Kept(before, after, file)
  {
  }

  lemma InstalledAs(after: Disk, file: ManagedFile, data: Bytes)
    requires At(after, Managed(file)) == Some(File(data, EXECUTABLE_MODE))
    ensures Installed(after, file, data)
  {
  }

  lemma StepSucceeded(host: Host, trace: seq<Event>, from: nat, i: nat, expected: Option<string>)
    requires NoSetback(host, trace, from, expected) && from <= i < |trace| && !trace[i].op.Reload?
    ensures trace[i].reply.ok
  {
    assert !Setback(host, trace[i], expected);
  }

  /** One file of a commit. */
  ghost predicate FileFollowing(host: Host, stored: Config, config: Config, before: Disk, after: Disk, download: Bytes,
                                release: Reply, file: ManagedFile)
  {
    match file
    case NodeBinary =>
      if NewRelease(stored, config) && config.version != "" then Installed(after, file, release.first)
      else Kept(before, after, file)
    case CliBinary =>
      if NewRelease(stored, config) && config.version != "" then Installed(after, file, release.second)
      else Kept(before, after, file)
    case ProxyBinary =>
      if stored.proxyVersion != config.proxyVersion && config.proxyVersion != "" then Installed(after, file, download)
      else Kept(before, after, file)
    case NodeEnv =>
      if NewForNode(stored, config) then Written(before, after, file, NodeEnvText(config))
      else Kept(before, after, file)
    case MonitorEnv =>
      if NewCredentials(stored, config) then Written(before, after, file, EnvText(MonitorPairs(config)))
      else Kept(before, after, file)
    case MonitorScript =>
      if NewCredentials(stored, config) then Written(before, after, file, host.monitorTemplate)
      else Kept(before, after, file)
    case ProxyEnv =>
      if NewForProxy(stored, config) then Written(before, after, file, EnvText(ProxyPairs(config)))
      else Kept(before, after, file)
    case ProxyUnit =>
      if NewForProxy(stored, config) then Written(before, after, file, host.proxyUnitTemplate)
      else Kept(before, after, file)
    case NodeUnit => Kept(before, after, file)
    case MonitorUnit => Kept(before, after, file)
  }

  lemma FileFollows(host: Host, stored: Config, config: Config, before: Disk, after: Disk, download: Bytes,
                    release: Reply, file: ManagedFile)
    requires CommittedFiles(host, before, after, config, ChangedKeys(stored, config), download, release)
    ensures FileFollowing(host, stored, config, before, after, download, release, file)
  {
    var changed := ChangedKeys(stored, config);
    ClassesAreFields(stored, config);
    assert At(after, Managed(file)) == CommittedFile(host, before, config, changed, download, release, file);
    hide ChangedKeys, NodeEnvText, MonitorPairs, ProxyPairs, EnvText, CommittedFiles, NodeChanged, CredentialsChanged,
      ProxyChanged, ReleaseChanged, NewRelease, NewCredentials, NewForNode, NewForProxy;
  }

  /** The files of a commit, and where its binaries come from. */
  lemma CommitFiles(host: Host, stored: Config, config: Config, before: Disk, after: Disk, account: Account, from: nat)
    requires
      var changed := ChangedKeys(stored, config);
      && CommittedFiles(host, before, after, config, changed, account.download, account.release)
      && Downloaded(host.trace, from, config, changed, account)
      && NoSetback(host, host.trace, from, ExpectedVersion(config, changed))
    ensures FilesFollow(host, stored, config, before, after, host.trace, from)
  {
    DownloadsFollow(host, stored, config, after, account, from);
    forall file
      ensures FileFollowing(host, stored, config, before, after, account.download, account.release, file)
    {
      FileFollows(host, stored, config, before, after, account.download, account.release, file);
    }
    hide *;
    AllFollow(host, stored, config, before, after, account.download, account.release, host.trace, from);
  }

  lemma AllFollow(host: Host, stored: Config, config: Config, before: Disk, after: Disk, download: Bytes,
                  release: Reply, trace: seq<Event>, from: nat)
    requires forall file :: FileFollowing(host, stored, config, before, after, download, release, file)
    requires
      && NewRelease(stored, config) && config.version != ""
      && Installed(after, NodeBinary, release.first) && Installed(after, CliBinary, release.second) ==>
        ReleaseFrom(trace, from, after)
    requires
      && stored.proxyVersion != config.proxyVersion && config.proxyVersion != ""
      && Installed(after, ProxyBinary, download) ==>
        ProxyBinaryFrom(trace, from, after)
    ensures FilesFollow(host, stored, config, before, after, trace, from)
  {
    hide NodeEnvText, MonitorPairs, ProxyPairs, EnvText, NewRelease, NewCredentials, NewForNode, NewForProxy, Written,
      Kept, Installed, ReleaseFrom, ProxyBinaryFrom;
    assert FileFollowing(host, stored, config, before, after, download, release, NodeBinary);
    assert FileFollowing(host, stored, config, before, after, download, release, CliBinary);
    assert FileFollowing(host, stored, config, before, after, download, release, ProxyBinary);
    assert FileFollowing(host, stored, config, before, after, download, release, NodeEnv);
    assert FileFollowing(host, stored, config, before, after, download, release, MonitorEnv);
    assert FileFollowing(host, stored, config, before, after, download, release, MonitorScript);
    assert FileFollowing(host, stored, config, before, after, download, release, ProxyEnv);
    assert FileFollowing(host, stored, config, before, after, download, release, ProxyUnit);
    assert FileFollowing(host, stored, config, before, after, download, release, NodeUnit);
    assert FileFollowing(host, stored, config, before, after, download, release, MonitorUnit);
  }

  lemma DownloadsFollow(host: Host, stored: Config, config: Config, after: Disk, account: Account, from: nat)
    requires
      var changed := ChangedKeys(stored, config);
      && Downloaded(host.trace, from, config, changed, account)
      && NoSetback(host, host.trace, from, ExpectedVersion(config, changed))
    ensures
      && NewRelease(stored, config) && config.version != ""
      && Installed(after, NodeBinary, account.release.first) && Installed(after, CliBinary, account.release.second) ==>
        ReleaseFrom(host.trace, from, after)
    ensures
      && stored.proxyVersion != config.proxyVersion && config.proxyVersion != ""
      && Installed(after, ProxyBinary, account.download) ==>
        ProxyBinaryFrom(host.trace, from, after)
  {
    ClassesAreFields(stored, config);
    var expected := ExpectedVersion(config, ChangedKeys(stored, config));
    hide ChangedKeys, NodeChanged, CredentialsChanged, ProxyChanged, ReleaseChanged, NewRelease, NewCredentials,
      NewForNode, NewForProxy, Installed, NoSetback, ExpectedVersion;
    if NewRelease(stored, config) && config.version != "" {
      var i :| from <= i < |host.trace| && host.trace[i].op == Stage && host.trace[i].reply == account.release;
      StepSucceeded(host, host.trace, from, i, expected);
    }
    if stored.proxyVersion != config.proxyVersion && config.proxyVersion != "" {
      var i :| from <= i < |host.trace| && host.trace[i].op == Fetch && host.trace[i].reply.first == account.download;
      StepSucceeded(host, host.trace, from, i, expected);
    }
  }

  /** The services of a commit. */
  lemma CommitServices(host: Host, stored: Config, config: Config, before: Services, from: nat)
    requires Generated(host, config, ChangedKeys(stored, config), before.running, before.launched, from)
    ensures ServicesFollow(stored, config, before, Services(host.running, host.launched, host.disk), from)
  {
    ClassesAreFields(stored, config);
    hide ChangedKeys, NodeChanged, CredentialsChanged, ProxyChanged, ReleaseChanged, NewRelease, NewCredentials,
      NewForNode, NewForProxy, SameFiles;
  }

  lemma CommitNode(host: Host, stored: Config, config: Config, running: set<Service>, from: nat)
    requires
      var changed := ChangedKeys(stored, config);
      && NoSetback(host, host.trace, from, ExpectedVersion(config, changed))
      && (Node in running && Relaunches(config, changed) ==> NodeAnswered(host.trace, from))
    ensures NodeFollows(host, stored, config, running, host.trace, from)
  {
    var changed := ChangedKeys(stored, config);
    ClassesAreFields(stored, config);
    hide ChangedKeys, CredentialsChanged, ProxyChanged, NewCredentials, NewForProxy;
    if Node in running && NewRelease(stored, config) && config.version != "" {
      var i :| from <= i < |host.trace| && Answered(host.trace[i]);
      assert !Setback(host, host.trace[i], ExpectedVersion(config, changed));
      AnswerReports(host, host.trace[i], config.version);
    }
  }

  // --------------------------------------------------- however the event ends

  /** No file changes, whatever happens, but for fields it depends on. */
  ghost predicate FootprintFollows(stored: Config, config: Config, before: Disk, after: Disk) {
    && (!NewRelease(stored, config) ==> Kept(before, after, NodeBinary) && Kept(before, after, CliBinary))
    && (stored.proxyVersion == config.proxyVersion ==> Kept(before, after, ProxyBinary))
    && (!NewForNode(stored, config) ==> Kept(before, after, NodeEnv))
    && (!NewCredentials(stored, config) ==> Kept(before, after, MonitorEnv) && Kept(before, after, MonitorScript))
    && (!NewForProxy(stored, config) ==> Kept(before, after, ProxyEnv) && Kept(before, after, ProxyUnit))
    && Kept(before, after, NodeUnit) && Kept(before, after, MonitorUnit)
    && forall name :: (Elsewhere(name) in before <==> Elsewhere(name) in after)
         && (Elsewhere(name) in before ==> after[Elsewhere(name)] == before[Elsewhere(name)])
  }

  lemma FootprintOfChange(stored: Config, config: Config, before: Disk, after: Disk)
    requires OnlyTouches(before, after, GenerationArea(ChangedKeys(stored, config)))
    ensures FootprintFollows(stored, config, before, after)
  {
    var changed := ChangedKeys(stored, config);
    ClassesAreFields(stored, config);
    hide ChangedKeys, NodeChanged, CredentialsChanged, ProxyChanged, ReleaseChanged, NewRelease, NewCredentials,
      NewForNode, NewForProxy, Kept;
    forall file | !Writes(changed, file) ensures Kept(before, after, file) {
      assert Managed(file) !in GenerationArea(changed);
      KeptAsItWas(before, after, file);
    }
    forall name ensures At(after, Elsewhere(name)) == At(before, Elsewhere(name)) {
      assert Elsewhere(name) !in GenerationArea(changed);
    }
  }

  /** When the proxy would have to be restarted without its binary. */
  lemma ProxyMissingWhen(stored: Config, config: Config, disk: Disk, running: set<Service>)
    ensures ProxyMissing(disk, running, config, ChangedKeys(stored, config)) <==>
      && NewForProxy(stored, config) && Proxy in running && Managed(ProxyBinary) !in disk
      && (stored.proxyVersion == config.proxyVersion || config.proxyVersion == "")
  {
    ClassesAreFields(stored, config);
    hide ChangedKeys, ProxyChanged, NewForProxy;
  }
}
