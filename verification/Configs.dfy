/** The charm's tracked configuration (src/charm.py), the change classes of a config
    transaction, and the three rendered environment files (src/utils.py). */
module Configs {
  import opened Text
  import opened Units
  import F = Flags

  datatype Config = Config(
    rpcUser: string,
    rpcPassword: string,
    serviceArgs: string,
    version: string,
    binaryUrl: string,
    proxyFilter: bool,
    proxyVersion: string,
    proxyListen: string,
    proxyExtendAllowlist: string,
    disableWallet: bool)

  datatype Key =
    | RpcUser | RpcPassword | ServiceArgs | Version | BinaryUrl
    | ProxyFilter | ProxyVersion | ProxyListen | ProxyExtendAllowlist | DisableWallet

  /** `_TRACKED_CONFIG` */
  const TRACKED_CONFIG := [
    RpcUser, RpcPassword, ServiceArgs, Version, BinaryUrl,
    ProxyFilter, ProxyVersion, ProxyListen, ProxyExtendAllowlist, DisableWallet
  ]

  predicate Differs(a: Config, b: Config, key: Key) {
    match key
    case RpcUser => a.rpcUser != b.rpcUser
    case RpcPassword => a.rpcPassword != b.rpcPassword
    case ServiceArgs => a.serviceArgs != b.serviceArgs
    case Version => a.version != b.version
    case BinaryUrl => a.binaryUrl != b.binaryUrl
    case ProxyFilter => a.proxyFilter != b.proxyFilter
    case ProxyVersion => a.proxyVersion != b.proxyVersion
    case ProxyListen => a.proxyListen != b.proxyListen
    case ProxyExtendAllowlist => a.proxyExtendAllowlist != b.proxyExtendAllowlist
    case DisableWallet => a.disableWallet != b.disableWallet
  }

  /** `a` with one field taken over from `b`. */
  function Assign(a: Config, b: Config, key: Key): Config {
    match key
    case RpcUser => a.(rpcUser := b.rpcUser)
    case RpcPassword => a.(rpcPassword := b.rpcPassword)
    case ServiceArgs => a.(serviceArgs := b.serviceArgs)
    case Version => a.(version := b.version)
    case BinaryUrl => a.(binaryUrl := b.binaryUrl)
    case ProxyFilter => a.(proxyFilter := b.proxyFilter)
    case ProxyVersion => a.(proxyVersion := b.proxyVersion)
    case ProxyListen => a.(proxyListen := b.proxyListen)
    case ProxyExtendAllowlist => a.(proxyExtendAllowlist := b.proxyExtendAllowlist)
    case DisableWallet => a.(disableWallet := b.disableWallet)
  }

  function ChangedKeys(stored: Config, config: Config): set<Key> {
    set key | key in TRACKED_CONFIG && Differs(stored, config, key)
  }

  lemma EveryKeyIsTracked(key: Key)
    ensures key in TRACKED_CONFIG
  {
    match key
    case RpcUser => assert TRACKED_CONFIG[0] == key;
    case RpcPassword => assert TRACKED_CONFIG[1] == key;
    case ServiceArgs => assert TRACKED_CONFIG[2] == key;
    case Version => assert TRACKED_CONFIG[3] == key;
    case BinaryUrl => assert TRACKED_CONFIG[4] == key;
    case ProxyFilter => assert TRACKED_CONFIG[5] == key;
    case ProxyVersion => assert TRACKED_CONFIG[6] == key;
    case ProxyListen => assert TRACKED_CONFIG[7] == key;
    case ProxyExtendAllowlist => assert TRACKED_CONFIG[8] == key;
    case DisableWallet => assert TRACKED_CONFIG[9] == key;
  }

  /** The classes of changes, field by field. */
  ghost predicate NewCredentials(a: Config, b: Config) {
    a.rpcUser != b.rpcUser || a.rpcPassword != b.rpcPassword
  }

  ghost predicate NewRelease(a: Config, b: Config) {
    a.version != b.version || a.binaryUrl != b.binaryUrl
  }

  ghost predicate NewForNode(a: Config, b: Config) {
    || a.rpcUser != b.rpcUser || a.rpcPassword != b.rpcPassword || a.serviceArgs != b.serviceArgs
    || a.disableWallet != b.disableWallet || a.version != b.version || a.binaryUrl != b.binaryUrl
  }

  ghost predicate NewForProxy(a: Config, b: Config) {
    || a.rpcUser != b.rpcUser || a.rpcPassword != b.rpcPassword || a.proxyFilter != b.proxyFilter
    || a.proxyVersion != b.proxyVersion || a.proxyListen != b.proxyListen
    || a.proxyExtendAllowlist != b.proxyExtendAllowlist
  }

  predicate CredentialsChanged(changed: set<Key>) {
    RpcUser in changed || RpcPassword in changed
  }

  predicate ReleaseChanged(changed: set<Key>) {
    Version in changed || BinaryUrl in changed
  }

  predicate NodeChanged(changed: set<Key>) {
    CredentialsChanged(changed) || ServiceArgs in changed || DisableWallet in changed || ReleaseChanged(changed)
  }

  predicate ProxyChanged(changed: set<Key>) {
    || CredentialsChanged(changed)
    || ProxyFilter in changed || ProxyVersion in changed || ProxyListen in changed || ProxyExtendAllowlist in changed
  }

  // ------------------------------------------------------------- the node's file

  const RPC_USER := "rpcuser"
  const RPC_PASSWORD := "rpcpassword"

  predicate HasCredentials(c: Config) {
    c.rpcUser != "" && c.rpcPassword != ""
  }

  function NodeArgs(c: Config): string {
    var hardened := F.Harden(c.serviceArgs, c.disableWallet);
    if HasCredentials(c)
    then hardened + " " + F.Assignment(RPC_USER, c.rpcUser) + " " + F.Assignment(RPC_PASSWORD, c.rpcPassword)
    else hardened
  }

  function NodeEnvText(c: Config): string {
    "BITCOIND_CLI_ARGS=\"" + NodeArgs(c) + "\""
  }

  // ------------------------------------------------- the monitor's and proxy's files

  const MONITOR_ENV: Env := [
    ("BITCOIN_RPC_SCHEME", "http"),
    ("BITCOIN_RPC_HOST", "localhost"),
    ("BITCOIN_RPC_PORT", F.BITCOIND_RPC_PORT),
    ("BITCOIN_RPC_USER", "default"),
    ("BITCOIN_RPC_PASSWORD", "default"),
    ("METRICS_PORT", "9332"),
    ("METRICS_ADDR", ""),
    ("LOG_LEVEL", "INFO"),
    ("BAN_ADDRESS_METRICS", "true")
  ]

  const PROXY_ENV: Env := [
    ("PROXY_LISTEN", "0.0.0.0:8331"),
    ("PROXY_ADMIN_LISTEN", "0.0.0.0:8360"),
    ("PROXY_UPSTREAM_URL", "http://127.0.0.1:8332"),
    ("PROXY_UPSTREAM_TIMEOUT", "30s"),
    ("PROXY_UPSTREAM_USER", "default"),
    ("PROXY_UPSTREAM_PASSWORD", "default"),
    ("PROXY_MAX_BODY_BYTES", "262144"),
    ("PROXY_EXTEND_ALLOWLIST", ""),
    ("PROXY_FILTER", "true"),
    ("PROXY_LOG_LEVEL", "info")
  ]

  function OrDefault(value: string, default: string): string {
    if value != "" then value else default
  }

  function MonitorValue(c: Config, key: string, default: string): string {
    if key == "BITCOIN_RPC_PASSWORD" then OrDefault(c.rpcPassword, default)
    else if key == "BITCOIN_RPC_USER" then OrDefault(c.rpcUser, default)
    else default
  }

  function ProxyValue(c: Config, key: string, default: string): string {
    if key == "PROXY_FILTER" then if c.proxyFilter then "true" else "false"
    else if key == "PROXY_LISTEN" then OrDefault(c.proxyListen, default)
    else if key == "PROXY_EXTEND_ALLOWLIST" then OrDefault(c.proxyExtendAllowlist, default)
    else if key == "PROXY_UPSTREAM_USER" then OrDefault(c.rpcUser, default)
    else if key == "PROXY_UPSTREAM_PASSWORD" then OrDefault(c.rpcPassword, default)
    else default
  }

  function MonitorPairs(c: Config): Env {
    seq(|MONITOR_ENV|, i requires 0 <= i < |MONITOR_ENV| =>
      (MONITOR_ENV[i].0, MonitorValue(c, MONITOR_ENV[i].0, MONITOR_ENV[i].1)))
  }

  function ProxyPairs(c: Config): Env {
    seq(|PROXY_ENV|, i requires 0 <= i < |PROXY_ENV| =>
      (PROXY_ENV[i].0, ProxyValue(c, PROXY_ENV[i].0, PROXY_ENV[i].1)))
  }

  function Line(pair: (string, string)): string {
    pair.0 + "=" + pair.1 + "\n"
  }

  function EnvText(pairs: Env): string {
    if pairs == [] then "" else EnvText(pairs[..|pairs| - 1]) + Line(pairs[|pairs| - 1])
  }

  /** `write_monitor_env_file`, up to the write */
  method RenderMonitorEnv(c: Config) returns (text: string)
    ensures text == EnvText(MonitorPairs(c))
  {
    hide MONITOR_ENV;
    text := "";
    var pairs := MonitorPairs(c);
    for i := 0 to |MONITOR_ENV|
      invariant text == EnvText(pairs[..i])
    {
      var (key, value) := MONITOR_ENV[i];
      if key == "BITCOIN_RPC_PASSWORD" && c.rpcPassword != "" {
        value := c.rpcPassword;
      }
      if key == "BITCOIN_RPC_USER" && c.rpcUser != "" {
        value := c.rpcUser;
      }
      assert (key, value) == pairs[i] by {
        assert |"BITCOIN_RPC_PASSWORD"| != |"BITCOIN_RPC_USER"|;
      }
      text := text + Line((key, value));
      assert pairs[..i + 1][..i] == pairs[..i];
    }
    assert pairs[..|pairs|] == pairs;
  }

  /** The truthy override of one proxy variable, if there is one. */
  function ProxyOverride(c: Config, key: string): string {
    if key == "PROXY_LISTEN" then c.proxyListen
    else if key == "PROXY_EXTEND_ALLOWLIST" then c.proxyExtendAllowlist
    else if key == "PROXY_UPSTREAM_USER" then c.rpcUser
    else if key == "PROXY_UPSTREAM_PASSWORD" then c.rpcPassword
    else ""
  }

  /** `write_rpc_proxy_env_file`, up to the write */
  method RenderProxyEnv(c: Config) returns (text: string)
    ensures text == EnvText(ProxyPairs(c))
  {
    hide PROXY_ENV, Line;
    text := "";
    var pairs := ProxyPairs(c);
    for i := 0 to |PROXY_ENV|
      invariant text == EnvText(pairs[..i])
    {
      var (key, value) := PROXY_ENV[i];
      if key == "PROXY_FILTER" {
        value := if c.proxyFilter then "true" else "false";
      } else if ProxyOverride(c, key) != "" {
        value := ProxyOverride(c, key);
      }
      assert (key, value) == pairs[i];
      text := text + Line((key, value));
      assert pairs[..i + 1][..i] == pairs[..i];
    }
    assert pairs[..|pairs|] == pairs;
  }

  lemma {:induction false} EnvTextFront(pairs: Env)
    requires pairs != []
    ensures EnvText(pairs) == Line(pairs[0]) + EnvText(pairs[1..])
  {
    if |pairs| > 1 {
      var front, n := pairs[..|pairs| - 1], |pairs|;
      EnvTextFront(front);
      assert pairs[1..][..n - 2] == front[1..];
      assert pairs[1..][n - 2] == pairs[n - 1];
    }
  }

  // ------------------------------------------------- what each rendered file depends on

  lemma KeyUnchanged(a: Config, b: Config, key: Key)
    ensures key in ChangedKeys(a, b) <==> Differs(a, b, key)
  {
    EveryKeyIsTracked(key);
  }

  /** The classes of changed keys are those of changed fields. */
  lemma ClassesAreFields(a: Config, b: Config)
    ensures
      var changed := ChangedKeys(a, b);
      && (CredentialsChanged(changed) <==> NewCredentials(a, b))
      && (ReleaseChanged(changed) <==> NewRelease(a, b))
      && (NodeChanged(changed) <==> NewForNode(a, b))
      && (ProxyChanged(changed) <==> NewForProxy(a, b))
      && (ProxyVersion in changed <==> a.proxyVersion != b.proxyVersion)
  {
    forall key ensures key in ChangedKeys(a, b) <==> Differs(a, b, key) {
      KeyUnchanged(a, b, key);
    }
    hide ChangedKeys;
    assert forall key :: key in ChangedKeys(a, b) <==> Differs(a, b, key);
  }

  lemma CredentialsUnchanged(a: Config, b: Config)
    requires !CredentialsChanged(ChangedKeys(a, b))
    ensures a.rpcUser == b.rpcUser && a.rpcPassword == b.rpcPassword
  {
    KeyUnchanged(a, b, RpcUser);
    KeyUnchanged(a, b, RpcPassword);
  }

  lemma MonitorPairsUnchanged(a: Config, b: Config)
    requires a.rpcUser == b.rpcUser && a.rpcPassword == b.rpcPassword
    ensures MonitorPairs(a) == MonitorPairs(b)
  {
    hide MONITOR_ENV;
  }

  lemma ProxyPairsUnchanged(a: Config, b: Config)
    requires a.rpcUser == b.rpcUser && a.rpcPassword == b.rpcPassword && a.proxyFilter == b.proxyFilter
    requires a.proxyListen == b.proxyListen && a.proxyExtendAllowlist == b.proxyExtendAllowlist
    ensures ProxyPairs(a) == ProxyPairs(b)
  {
    hide PROXY_ENV;
  }

  lemma NodeEnvUnchanged(a: Config, b: Config)
    requires !NodeChanged(ChangedKeys(a, b))
    ensures NodeEnvText(a) == NodeEnvText(b)
  {
    hide F.Harden, F.Assignment, RPC_USER, RPC_PASSWORD;
    CredentialsUnchanged(a, b);
    KeyUnchanged(a, b, ServiceArgs);
    KeyUnchanged(a, b, DisableWallet);
  }

  /** A file that the transaction does not rewrite renders the same before and after. */
  lemma SkippedFilesRenderTheSame(a: Config, b: Config)
    ensures
      var changed := ChangedKeys(a, b);
      && (!NodeChanged(changed) ==> NodeEnvText(a) == NodeEnvText(b))
      && (!CredentialsChanged(changed) ==> EnvText(MonitorPairs(a)) == EnvText(MonitorPairs(b)))
      && (!ProxyChanged(changed) ==> EnvText(ProxyPairs(a)) == EnvText(ProxyPairs(b)))
  {
    var changed := ChangedKeys(a, b);
    hide NodeEnvText, MonitorPairs, ProxyPairs;
    if !NodeChanged(changed) {
      NodeEnvUnchanged(a, b);
    }
    if !CredentialsChanged(changed) {
      CredentialsUnchanged(a, b);
      MonitorPairsUnchanged(a, b);
    }
    if !ProxyChanged(changed) {
      KeyUnchanged(a, b, ProxyFilter);
      KeyUnchanged(a, b, ProxyListen);
      KeyUnchanged(a, b, ProxyExtendAllowlist);
      ProxyPairsUnchanged(a, b);
    }
  }
}
