/** The three environment files, line by line as they are written. */
module Renderings {
  import opened Text
  import opened Libraries
  import opened Units
  import opened Configs
  import opened Deliveries
  import F = Flags

  /** Each line with its line end. */
  ghost function Lines(lines: seq<string>): string {
    if lines == [] then "" else Lines(lines[..|lines| - 1]) + lines[|lines| - 1] + "\n"
  }

  lemma {:induction false} EnvTextIsLines(pairs: Env, lines: seq<string>)
    requires |lines| == |pairs| && forall i | 0 <= i < |pairs| :: lines[i] == pairs[i].0 + "=" + pairs[i].1
    ensures EnvText(pairs) == Lines(lines)
    decreases |pairs|
  {
    if pairs != [] {
      var n := |pairs| - 1;
      EnvTextIsLines(pairs[..n], lines[..n]);
      assert Lines(lines[..n]) + (lines[n] + "\n") == Lines(lines[..n]) + lines[n] + "\n";
    }
  }

  lemma MonitorLines()
    ensures "BITCOIN_RPC_SCHEME" + "=" + "http" == "BITCOIN_RPC_SCHEME=http"
    ensures "BITCOIN_RPC_HOST" + "=" + "localhost" == "BITCOIN_RPC_HOST=localhost"
    ensures "BITCOIN_RPC_PORT" + "=" + "8332" == "BITCOIN_RPC_PORT=8332"
    ensures "METRICS_PORT" + "=" + "9332" == "METRICS_PORT=9332"
    ensures "METRICS_ADDR" + "=" + "" == "METRICS_ADDR="
    ensures "LOG_LEVEL" + "=" + "INFO" == "LOG_LEVEL=INFO"
    ensures "BAN_ADDRESS_METRICS" + "=" + "true" == "BAN_ADDRESS_METRICS=true"
  {
  }

  lemma KeyWithEquals(value: string)
    ensures "BITCOIN_RPC_USER" + "=" + value == "BITCOIN_RPC_USER=" + value
    ensures "BITCOIN_RPC_PASSWORD" + "=" + value == "BITCOIN_RPC_PASSWORD=" + value
  {
  }

  lemma ProxyKeyWithEquals(value: string)
    ensures "PROXY_LISTEN" + "=" + value == "PROXY_LISTEN=" + value
    ensures "PROXY_UPSTREAM_USER" + "=" + value == "PROXY_UPSTREAM_USER=" + value
    ensures "PROXY_UPSTREAM_PASSWORD" + "=" + value == "PROXY_UPSTREAM_PASSWORD=" + value
    ensures "PROXY_EXTEND_ALLOWLIST" + "=" + value == "PROXY_EXTEND_ALLOWLIST=" + value
    ensures "PROXY_FILTER" + "=" + value == "PROXY_FILTER=" + value
  {
  }

  lemma ProxyLines()
    ensures "PROXY_ADMIN_LISTEN" + "=" + "0.0.0.0:8360" == "PROXY_ADMIN_LISTEN=0.0.0.0:8360"
    ensures "PROXY_UPSTREAM_URL" + "=" + "http://127.0.0.1:8332" == "PROXY_UPSTREAM_URL=http://127.0.0.1:8332"
    ensures "PROXY_UPSTREAM_TIMEOUT" + "=" + "30s" == "PROXY_UPSTREAM_TIMEOUT=30s"
    ensures "PROXY_MAX_BODY_BYTES" + "=" + "262144" == "PROXY_MAX_BODY_BYTES=262144"
    ensures "PROXY_LOG_LEVEL" + "=" + "info" == "PROXY_LOG_LEVEL=info"
  {
  }

  ghost function Truthy(value: string, default: string): string {
    if value == "" then default else value
  }

  /** The monitor's file. */
  lemma MonitorFile(c: Config)
    ensures EnvText(MonitorPairs(c)) == Lines([
      "BITCOIN_RPC_SCHEME=http", "BITCOIN_RPC_HOST=localhost", "BITCOIN_RPC_PORT=8332",
      "BITCOIN_RPC_USER=" + Truthy(c.rpcUser, "default"), "BITCOIN_RPC_PASSWORD=" + Truthy(c.rpcPassword, "default"),
      "METRICS_PORT=9332", "METRICS_ADDR=", "LOG_LEVEL=INFO", "BAN_ADDRESS_METRICS=true"])
  {
    var pairs := MonitorPairs(c);
    MonitorLines();
    KeyWithEquals(Truthy(c.rpcUser, "default"));
    KeyWithEquals(Truthy(c.rpcPassword, "default"));
    var lines := [
      "BITCOIN_RPC_SCHEME=http", "BITCOIN_RPC_HOST=localhost", "BITCOIN_RPC_PORT=8332",
      "BITCOIN_RPC_USER=" + Truthy(c.rpcUser, "default"), "BITCOIN_RPC_PASSWORD=" + Truthy(c.rpcPassword, "default"),
      "METRICS_PORT=9332", "METRICS_ADDR=", "LOG_LEVEL=INFO", "BAN_ADDRESS_METRICS=true"];
    EnvTextIsLines(pairs, lines);
  }

  /** The proxy's file. */
  lemma ProxyFile(c: Config)
    ensures EnvText(ProxyPairs(c)) == Lines([
      "PROXY_LISTEN=" + Truthy(c.proxyListen, "0.0.0.0:8331"), "PROXY_ADMIN_LISTEN=0.0.0.0:8360",
      "PROXY_UPSTREAM_URL=http://127.0.0.1:8332", "PROXY_UPSTREAM_TIMEOUT=30s",
      "PROXY_UPSTREAM_USER=" + Truthy(c.rpcUser, "default"),
      "PROXY_UPSTREAM_PASSWORD=" + Truthy(c.rpcPassword, "default"),
      "PROXY_MAX_BODY_BYTES=262144", "PROXY_EXTEND_ALLOWLIST=" + c.proxyExtendAllowlist,
      "PROXY_FILTER=" + (if c.proxyFilter then "true" else "false"), "PROXY_LOG_LEVEL=info"])
  {
    var pairs, filter := ProxyPairs(c), if c.proxyFilter then "true" else "false";
    ProxyLines();
    ProxyKeyWithEquals(Truthy(c.proxyListen, "0.0.0.0:8331"));
    ProxyKeyWithEquals(Truthy(c.rpcUser, "default"));
    ProxyKeyWithEquals(Truthy(c.rpcPassword, "default"));
    ProxyKeyWithEquals(c.proxyExtendAllowlist);
    ProxyKeyWithEquals(filter);
    var lines := [
      "PROXY_LISTEN=" + Truthy(c.proxyListen, "0.0.0.0:8331"), "PROXY_ADMIN_LISTEN=0.0.0.0:8360",
      "PROXY_UPSTREAM_URL=http://127.0.0.1:8332", "PROXY_UPSTREAM_TIMEOUT=30s",
      "PROXY_UPSTREAM_USER=" + Truthy(c.rpcUser, "default"),
      "PROXY_UPSTREAM_PASSWORD=" + Truthy(c.rpcPassword, "default"),
      "PROXY_MAX_BODY_BYTES=262144", "PROXY_EXTEND_ALLOWLIST=" + c.proxyExtendAllowlist,
      "PROXY_FILTER=" + filter, "PROXY_LOG_LEVEL=info"];
    EnvTextIsLines(pairs, lines);
  }

  /** The node's file: the hardened arguments, and user and password behind them if both are
      set, all between double quotes. */
  lemma NodeFile(c: Config)
    ensures NodeEnvText(c) ==
      "BITCOIND_CLI_ARGS=\"" + F.Harden(c.serviceArgs, c.disableWallet)
      + (if c.rpcUser != "" && c.rpcPassword != ""
         then " -rpcuser=" + c.rpcUser + " -rpcpassword=" + c.rpcPassword else "")
      + "\""
  {
    hide F.Harden;
    var hardened := F.Harden(c.serviceArgs, c.disableWallet);
    if HasCredentials(c) {
      CredentialOptions(c);
      Joined(hardened, c.rpcUser, c.rpcPassword);
    } else {
      assert "BITCOIND_CLI_ARGS=\"" + hardened + "" + "\"" == "BITCOIND_CLI_ARGS=\"" + hardened + "\"";
    }
  }

  lemma CredentialOptions(c: Config)
    ensures F.Assignment(RPC_USER, c.rpcUser) == "-rpcuser=" + c.rpcUser
    ensures F.Assignment(RPC_PASSWORD, c.rpcPassword) == "-rpcpassword=" + c.rpcPassword
  {
    assert "-" + "rpcuser" + "=" == "-rpcuser=" && "-" + "rpcpassword" + "=" == "-rpcpassword=";
  }

  lemma Joined(hardened: string, user: string, password: string)
    ensures "BITCOIND_CLI_ARGS=\"" + (hardened + " " + ("-rpcuser=" + user) + " " + ("-rpcpassword=" + password)) + "\""
         == "BITCOIND_CLI_ARGS=\"" + hardened + (" -rpcuser=" + user + " -rpcpassword=" + password) + "\""
  {
    var a, b, text := "-rpcuser=" + user, "-rpcpassword=" + password, "BITCOIND_CLI_ARGS=\"";
    assert " " + "-rpcuser=" == " -rpcuser=" && " " + "-rpcpassword=" == " -rpcpassword=";
    assert " -rpcuser=" + user + " -rpcpassword=" + password == " " + a + (" " + b);
    assert text + (hardened + " " + a + " " + b) + "\"" == text + hardened + (" " + a + (" " + b)) + "\"";
  }
}
