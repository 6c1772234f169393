/** What the services receive: the environment files of the charm as their units read
    them (templates/bitcoind.service, templates/bitcoind-monitor.service and
    templates/bitcoin-rpc-proxy.service). */
module Deliveries {
  import opened Text
  import opened Libraries
  import opened Units
  import opened CommandLines
  import opened Configs
  import F = Flags

  // ----------------------------------------------- the monitor's and proxy's files

  ghost predicate AllNames(pairs: Env) {
    forall i | 0 <= i < |pairs| :: IsName(pairs[i].0)
  }

  ghost predicate AllPlain(pairs: Env) {
    forall i | 0 <= i < |pairs| :: IsPlain(pairs[i].1)
  }

  lemma LineParts(pair: (string, string), rest: string)
    ensures Line(pair) + rest == pair.0 + "=" + pair.1 + "\n" + rest
    ensures Line(pair) + rest == pair.0 + "=" + (pair.1 + "\n" + rest)
  {
  }

  /** Lines with plain values are read as they were written. */
  lemma {:induction false} PlainLinesRead(pairs: Env, rest: string)
    requires AllNames(pairs) && AllPlain(pairs)
    ensures Read(START, EnvText(pairs) + rest) == pairs + Read(START, rest)
  {
    hide IsPlain, IsName, Read, Line;
    if pairs == [] {
      assert "" + rest == rest;
    } else {
      var after := EnvText(pairs[1..]) + rest;
      EnvTextFront(pairs);
      assert Line(pairs[0]) + EnvText(pairs[1..]) + rest == Line(pairs[0]) + after;
      LineParts(pairs[0], after);
      LineRead(pairs[0].0, pairs[0].1, after);
      PlainLinesRead(pairs[1..], rest);
      assert pairs == [pairs[0]] + pairs[1..];
    }
  }

  lemma {:induction false} EnvTextWeight(pairs: Env)
    ensures |EnvText(pairs)| == Weight(pairs)
    ensures pairs != [] ==> EndsLine(EnvText(pairs))
  {
    if pairs != [] {
      EnvTextWeight(pairs[..|pairs| - 1]);
      WeightOfSum(pairs[..|pairs| - 1], [pairs[|pairs| - 1]]);
      assert pairs == pairs[..|pairs| - 1] + [pairs[|pairs| - 1]];
      assert Weight([pairs[|pairs| - 1]]) == |Line(pairs[|pairs| - 1])|;
    }
  }

  /** Values that are all read as themselves are plain. */
  lemma {:induction false} ReadAsWritten(pairs: Env)
    requires AllNames(pairs) && Accepted(EnvText(pairs)) && Read(START, EnvText(pairs)) == pairs
    ensures AllPlain(pairs)
  {
    hide IsName, IsPlain, Accepted, Read;
    if pairs != [] {
      var key, value, rest := pairs[0].0, pairs[0].1, EnvText(pairs[1..]);
      EnvTextFront(pairs);
      LineParts(pairs[0], rest);
      EnvTextWeight(pairs);
      EnvTextWeight(pairs[1..]);
      FirstValueIsPlain(key, value, rest, pairs);
      LineRead(key, value, rest);
      assert Read(START, rest) == ([(key, value)] + Read(START, rest))[1..] == pairs[1..];
      RestAccepted(EnvText(pairs), rest);
      ReadAsWritten(pairs[1..]);
      assert pairs == [pairs[0]] + pairs[1..];
    }
  }

  lemma RestAccepted(text: string, rest: string)
    requires Accepted(text) && |rest| <= |text| && text[|text| - |rest|..] == rest
    ensures Accepted(rest)
  {
    forall i | 0 <= i < |rest| ensures !IsRejected(rest[i]) {
      assert rest[i] == text[|text| - |rest| + i];
    }
  }

  lemma FirstValueIsPlain(key: string, value: string, rest: string, pairs: Env)
    requires IsName(key) && (rest == "" || EndsLine(rest))
    requires Accepted(key + "=" + (value + "\n" + rest))
    requires Read(START, key + "=" + (value + "\n" + rest)) == pairs
    requires pairs != [] && pairs[0] == (key, value) && Weight(pairs) == |key| + |value| + |rest| + 2
    ensures IsPlain(value)
  {
    hide IsName, Read, Weight;
    var text := value + "\n" + rest;
    NameRead(key, text);
    assert text[..|value|] == value && EndsLine(text);
    RestAccepted(key + "=" + text, text);
    assert Accepted(value) by {
      forall i | 0 <= i < |value| ensures !IsRejected(value[i]) {
        assert value[i] == text[i];
      }
    }
    TightValue(key, value, text);
  }

  lemma {:induction false} TextAccepted(pairs: Env)
    requires AllNames(pairs) && forall i | 0 <= i < |pairs| :: Accepted(pairs[i].1)
    ensures Accepted(EnvText(pairs))
  {
    if pairs != [] {
      var front, last := pairs[..|pairs| - 1], pairs[|pairs| - 1];
      TextAccepted(front);
      NameAccepted(last.0);
      SumAccepted(last.0, "=");
      SumAccepted(last.0 + "=", last.1);
      SumAccepted(last.0 + "=" + last.1, "\n");
      SumAccepted(EnvText(front), Line(last));
    }
  }

  lemma SumAccepted(a: string, b: string)
    requires Accepted(a) && Accepted(b)
    ensures Accepted(a + b)
  {
  }

  lemma NameAccepted(key: string)
    requires IsName(key)
    ensures Accepted(key)
  {
    assert forall i | 0 <= i < |key| :: IsNameCharacter(key[i]);
  }

  /** A unit reads a file of the charm as the pairs that were written exactly when every
      value is plain: no backslash, no line end, no blank at either end, and no quote at
      the front. */
  lemma EnvReadsBack(pairs: Env)
    requires AllNames(pairs)
    ensures ReadEnv(EnvText(pairs)) == pairs <==> AllPlain(pairs)
  {
    var text := EnvText(pairs);
    hide IsName, Accepted;
    if AllPlain(pairs) {
      TextAccepted(pairs);
      PlainLinesRead(pairs, "");
      assert text + "" == text && pairs + Read(START, "") == pairs;
      NamedWeight(pairs);
    }
    if ReadEnv(text) == pairs && pairs != [] {
      EnvTextWeight(pairs);
      WeightBound(START, text);
      NamedWeight(Read(START, text));
      ReadAsWritten(pairs);
    }
  }

  lemma {:induction false} EnvTextOfTwo(a: Env, b: Env)
    ensures EnvText(a + b) == EnvText(a) + EnvText(b)
  {
    if b == [] {
      assert a + b == a;
    } else {
      var front, last := b[..|b| - 1], b[|b| - 1];
      EnvTextOfTwo(a, front);
      assert (a + b)[..|a + b| - 1] == a + front && (a + b)[|a + b| - 1] == last;
      assert EnvText(a) + EnvText(front) + Line(last) == EnvText(a) + (EnvText(front) + Line(last));
    }
  }

  lemma LineIsPlain(key: string, value: string)
    requires IsName(key) && IsPlain(value)
    ensures IsPlain(key + "=" + value)
  {
    var line := key + "=" + value;
    NameAccepted(key);
    SumAccepted(key, "=");
    SumAccepted(key + "=", value);
    forall i | 0 <= i < |line| ensures line[i] != '\\' && !IsNewline(line[i]) {
      assert i < |key| ==> IsNameCharacter(line[i]);
    }
    assert IsNameCharacter(line[0]);
  }

  /** A value that ends in a backslash swallows the assignment on the next line. */
  lemma BackslashSwallowsNextLine(pairs: Env, i: nat, value: string)
    requires AllNames(pairs) && i + 1 < |pairs| && pairs[i].1 == value + "\\" && IsPlain(value)
    requires forall j | 0 <= j < |pairs| && j != i :: IsPlain(pairs[j].1)
    ensures ReadEnv(EnvText(pairs)) ==
      pairs[..i] + [(pairs[i].0, value + (pairs[i + 1].0 + "=" + pairs[i + 1].1))] + pairs[i + 2..]
  {
    hide IsName, IsPlain, Accepted, Read, EnvText;
    BackslashedAccepted(pairs, i, value);
    TwoLines(pairs, i, value);
    LinesBeforeRead(pairs, i, value);
    JoinedNames(pairs, i, value + (pairs[i + 1].0 + "=" + pairs[i + 1].1));
  }

  lemma JoinedNames(pairs: Env, i: nat, value: string)
    requires AllNames(pairs) && i + 1 < |pairs|
    ensures var joined := pairs[..i] + [(pairs[i].0, value)] + pairs[i + 2..]; Named(joined) == joined
  {
    hide IsName;
    var joined := pairs[..i] + [(pairs[i].0, value)] + pairs[i + 2..];
    forall j | 0 <= j < |joined| ensures IsName(joined[j].0) {
      assert joined[j].0 == pairs[if j <= i then j else j + 1].0;
    }
    NamedWeight(joined);
  }

  lemma BackslashedAccepted(pairs: Env, i: nat, value: string)
    requires AllNames(pairs) && i < |pairs| && pairs[i].1 == value + "\\" && IsPlain(value)
    requires forall j | 0 <= j < |pairs| && j != i :: IsPlain(pairs[j].1)
    ensures Accepted(EnvText(pairs))
  {
    BackslashAccepted(value);
    hide IsName, Accepted;
    forall j | 0 <= j < |pairs| ensures Accepted(pairs[j].1) {
      if j != i {
        assert IsPlain(pairs[j].1);
      }
    }
    TextAccepted(pairs);
  }

  lemma LinesBeforeRead(pairs: Env, i: nat, value: string)
    requires AllNames(pairs) && i + 1 < |pairs| && IsPlain(value)
    requires forall j | 0 <= j < |pairs| && j != i :: IsPlain(pairs[j].1)
    ensures
      var line, rest := pairs[i + 1].0 + "=" + pairs[i + 1].1, pairs[i + 2..];
      Read(START, EnvText(pairs[..i]) + (pairs[i].0 + "=" + (value + ("\\\n" + (line + ("\n" + EnvText(rest)))))))
        == pairs[..i] + [(pairs[i].0, value + line)] + rest
  {
    hide IsName, IsPlain, Read;
    var line, rest := pairs[i + 1].0 + "=" + pairs[i + 1].1, pairs[i + 2..];
    LineIsPlain(pairs[i + 1].0, pairs[i + 1].1);
    PlainLinesRead(pairs[..i], pairs[i].0 + "=" + (value + ("\\\n" + (line + ("\n" + EnvText(rest))))));
    BackslashJoinsLines(pairs[i].0, value, line, EnvText(rest));
    PlainLinesRead(rest, "");
    NothingLeft(EnvText(rest), rest);
    InThree(pairs[..i], (pairs[i].0, value + line), rest);
  }

  lemma NothingLeft(text: string, pairs: Env)
    ensures text + "" == text && pairs + Read(START, "") == pairs
  {
  }

  lemma InThree(a: Env, pair: (string, string), b: Env)
    ensures a + ([pair] + b) == a + [pair] + b
  {
  }

  lemma BackslashAccepted(value: string)
    requires Accepted(value)
    ensures Accepted(value + "\\")
  {
  }

  lemma TwoLines(pairs: Env, i: nat, value: string)
    requires i + 1 < |pairs| && pairs[i].1 == value + "\\"
    ensures
      var next, rest := pairs[i + 1], EnvText(pairs[i + 2..]);
      EnvText(pairs) ==
        EnvText(pairs[..i]) + (pairs[i].0 + "=" + (value + ("\\\n" + (next.0 + "=" + next.1 + ("\n" + rest)))))
  {
    var next, rest := pairs[i + 1], EnvText(pairs[i + 2..]);
    assert pairs == pairs[..i] + pairs[i..];
    EnvTextOfTwo(pairs[..i], pairs[i..]);
    EnvTextFront(pairs[i..]);
    EnvTextFront(pairs[i..][1..]);
    assert pairs[i..][1..][1..] == pairs[i + 2..] && pairs[i..][1..][0] == next;
    BackslashLine(pairs[i].0, value, Line(next) + rest);
    NextLine(next, rest);
  }

  lemma BackslashLine(key: string, value: string, rest: string)
    ensures Line((key, value + "\\")) + rest == key + "=" + (value + ("\\\n" + rest))
  {
  }

  lemma NextLine(pair: (string, string), rest: string)
    ensures Line(pair) + rest == pair.0 + "=" + pair.1 + ("\n" + rest)
  {
  }

  lemma MonitorRpcNames()
    ensures IsName("BITCOIN_RPC_SCHEME") && IsName("BITCOIN_RPC_HOST") && IsName("BITCOIN_RPC_PORT")
    ensures IsName("BITCOIN_RPC_USER") && IsName("BITCOIN_RPC_PASSWORD")
  {
  }

  lemma OtherMonitorNames()
    ensures IsName("METRICS_PORT") && IsName("METRICS_ADDR") && IsName("LOG_LEVEL") && IsName("BAN_ADDRESS_METRICS")
  {
  }

  lemma MonitorPairsAreNamed(c: Config)
    ensures AllNames(MonitorPairs(c))
  {
    MonitorRpcNames();
    OtherMonitorNames();
    hide IsName;
    assert AllNames(MONITOR_ENV);
  }

  lemma UpstreamNames()
    ensures IsName("PROXY_UPSTREAM_URL") && IsName("PROXY_UPSTREAM_TIMEOUT")
    ensures IsName("PROXY_UPSTREAM_USER") && IsName("PROXY_UPSTREAM_PASSWORD")
  {
  }

  lemma OtherProxyNames()
    ensures IsName("PROXY_LISTEN") && IsName("PROXY_ADMIN_LISTEN") && IsName("PROXY_MAX_BODY_BYTES")
    ensures IsName("PROXY_EXTEND_ALLOWLIST") && IsName("PROXY_FILTER") && IsName("PROXY_LOG_LEVEL")
  {
  }

  lemma ProxyPairsAreNamed(c: Config)
    ensures AllNames(ProxyPairs(c))
  {
    UpstreamNames();
    OtherProxyNames();
    hide IsName;
    assert AllNames(PROXY_ENV);
  }

  lemma {:induction false} LookupLast(pairs: Env, i: nat)
    requires i < |pairs|
    requires forall j | i < j < |pairs| :: |pairs[j].0| != |pairs[i].0|
    ensures Lookup(pairs, pairs[i].0) == Some(pairs[i].1)
    decreases |pairs|
  {
    if i < |pairs| - 1 {
      LookupLast(pairs[..|pairs| - 1], i);
    }
  }

  lemma MonitorCredentials(c: Config)
    ensures Lookup(MonitorPairs(c), "BITCOIN_RPC_USER") == Some(OrDefault(c.rpcUser, "default"))
    ensures Lookup(MonitorPairs(c), "BITCOIN_RPC_PASSWORD") == Some(OrDefault(c.rpcPassword, "default"))
  {
    LookupLast(MonitorPairs(c), 3);
    LookupLast(MonitorPairs(c), 4);
  }

  lemma ProxyCredentials(c: Config)
    ensures Lookup(ProxyPairs(c), "PROXY_UPSTREAM_USER") == Some(OrDefault(c.rpcUser, "default"))
    ensures Lookup(ProxyPairs(c), "PROXY_UPSTREAM_PASSWORD") == Some(OrDefault(c.rpcPassword, "default"))
  {
    LookupLast(ProxyPairs(c), 4);
    LookupLast(ProxyPairs(c), 5);
  }

  lemma {:induction false} LookupAt(pairs: Env, i: nat)
    requires i < |pairs| && forall j | i < j < |pairs| :: pairs[j].0 != pairs[i].0
    ensures Lookup(pairs, pairs[i].0) == Some(pairs[i].1)
    decreases |pairs|
  {
    if i < |pairs| - 1 {
      LookupAt(pairs[..|pairs| - 1], i);
    }
  }

  lemma ProxySwitches(c: Config)
    ensures Lookup(ProxyPairs(c), "PROXY_FILTER") == Some(if c.proxyFilter then "true" else "false")
    ensures Lookup(ProxyPairs(c), "PROXY_LISTEN") == Some(if c.proxyListen == "" then "0.0.0.0:8331" else c.proxyListen)
    ensures Lookup(ProxyPairs(c), "PROXY_EXTEND_ALLOWLIST") == Some(c.proxyExtendAllowlist)
  {
    assert "PROXY_LISTEN"[6] != "PROXY_FILTER"[6];
    LookupAt(ProxyPairs(c), 0);
    LookupAt(ProxyPairs(c), 7);
    LookupAt(ProxyPairs(c), 8);
  }

  /** From plain values the proxy receives its switch, its address and its allowlist. */
  lemma ProxyReceives(c: Config)
    requires AllPlain(ProxyPairs(c))
    ensures
      var proxy := ReadEnv(EnvText(ProxyPairs(c)));
      && Lookup(proxy, "PROXY_FILTER") == Some(if c.proxyFilter then "true" else "false")
      && Lookup(proxy, "PROXY_LISTEN") == Some(if c.proxyListen == "" then "0.0.0.0:8331" else c.proxyListen)
      && Lookup(proxy, "PROXY_EXTEND_ALLOWLIST") == Some(c.proxyExtendAllowlist)
  {
    ProxyPairsAreNamed(c);
    ProxySwitches(c);
    hide ProxyPairs, Lookup, ReadEnv, EnvText;
    EnvReadsBack(ProxyPairs(c));
  }

  /** From plain values the two services receive the user and the password themselves. */
  lemma PlainCredentialsRead(c: Config)
    requires AllPlain(MonitorPairs(c)) && AllPlain(ProxyPairs(c))
    ensures
      var monitor, proxy := ReadEnv(EnvText(MonitorPairs(c))), ReadEnv(EnvText(ProxyPairs(c)));
      && Lookup(monitor, "BITCOIN_RPC_USER") == Lookup(proxy, "PROXY_UPSTREAM_USER")
      && Lookup(monitor, "BITCOIN_RPC_PASSWORD") == Lookup(proxy, "PROXY_UPSTREAM_PASSWORD")
      && Lookup(monitor, "BITCOIN_RPC_USER") == Some(OrDefault(c.rpcUser, "default"))
      && Lookup(monitor, "BITCOIN_RPC_PASSWORD") == Some(OrDefault(c.rpcPassword, "default"))
  {
    MonitorPairsAreNamed(c);
    ProxyPairsAreNamed(c);
    MonitorCredentials(c);
    ProxyCredentials(c);
    hide MonitorPairs, ProxyPairs, Lookup, ReadEnv, EnvText;
    EnvReadsBack(MonitorPairs(c));
    EnvReadsBack(ProxyPairs(c));
  }

  /** With a password that ends in a backslash they never do: each swallows the line that
      follows the password in its own file. */
  lemma BackslashedPasswordsDiffer(c: Config, password: string)
    requires c.rpcPassword == password + "\\" && IsPlain(password)
    requires var rest := c.(rpcPassword := ""); AllPlain(MonitorPairs(rest)) && AllPlain(ProxyPairs(rest))
    ensures Lookup(ReadEnv(EnvText(MonitorPairs(c))), "BITCOIN_RPC_PASSWORD") == Some(password + "METRICS_PORT=9332")
    ensures Lookup(ReadEnv(EnvText(ProxyPairs(c))), "PROXY_UPSTREAM_PASSWORD")
         == Some(password + "PROXY_MAX_BODY_BYTES=262144")
    ensures password + "METRICS_PORT=9332" != password + "PROXY_MAX_BODY_BYTES=262144"
  {
    hide IsPlain, ReadEnv, EnvText;
    BackslashedMonitor(c, password);
    BackslashedProxy(c, password);
    assert |"METRICS_PORT=9332"| != |"PROXY_MAX_BODY_BYTES=262144"|;
  }

  lemma BackslashedMonitor(c: Config, password: string)
    requires c.rpcPassword == password + "\\" && IsPlain(password)
    requires AllPlain(MonitorPairs(c.(rpcPassword := "")))
    ensures Lookup(ReadEnv(EnvText(MonitorPairs(c))), "BITCOIN_RPC_PASSWORD") == Some(password + "METRICS_PORT=9332")
  {
    hide IsPlain, ReadEnv, EnvText;
    var pairs, rest := MonitorPairs(c), MonitorPairs(c.(rpcPassword := ""));
    MonitorPairsAreNamed(c);
    OnlyPasswordDiffers(c);
    assert pairs[4] == ("BITCOIN_RPC_PASSWORD", c.rpcPassword) && pairs[5] == ("METRICS_PORT", "9332");
    assert forall j | 0 <= j < |pairs| && j != 4 :: IsPlain(pairs[j].1) by {
      assert forall j | 0 <= j < |pairs| && j != 4 :: pairs[j] == rest[j];
    }
    BackslashSwallowsNextLine(pairs, 4, password);
    assert "METRICS_PORT" + "=" + "9332" == "METRICS_PORT=9332";
    LookupLast(pairs[..4] + [("BITCOIN_RPC_PASSWORD", password + "METRICS_PORT=9332")] + pairs[6..], 4);
  }

  lemma BackslashedProxy(c: Config, password: string)
    requires c.rpcPassword == password + "\\" && IsPlain(password)
    requires AllPlain(ProxyPairs(c.(rpcPassword := "")))
    ensures Lookup(ReadEnv(EnvText(ProxyPairs(c))), "PROXY_UPSTREAM_PASSWORD")
         == Some(password + "PROXY_MAX_BODY_BYTES=262144")
  {
    hide IsPlain, ReadEnv, EnvText;
    var pairs, rest := ProxyPairs(c), ProxyPairs(c.(rpcPassword := ""));
    ProxyPairsAreNamed(c);
    OnlyPasswordDiffers(c);
    assert pairs[5] == ("PROXY_UPSTREAM_PASSWORD", c.rpcPassword) && pairs[6] == ("PROXY_MAX_BODY_BYTES", "262144");
    assert forall j | 0 <= j < |pairs| && j != 5 :: IsPlain(pairs[j].1) by {
      assert forall j | 0 <= j < |pairs| && j != 5 :: pairs[j] == rest[j];
    }
    BackslashSwallowsNextLine(pairs, 5, password);
    assert "PROXY_MAX_BODY_BYTES" + "=" + "262144" == "PROXY_MAX_BODY_BYTES=262144";
    LookupLast(pairs[..5] + [("PROXY_UPSTREAM_PASSWORD", password + "PROXY_MAX_BODY_BYTES=262144")] + pairs[7..], 5);
  }

  lemma OnlyPasswordDiffers(c: Config)
    ensures forall j | 0 <= j < |MonitorPairs(c)| && j != 4 ::
      MonitorPairs(c)[j] == MonitorPairs(c.(rpcPassword := ""))[j]
    ensures forall j | 0 <= j < |ProxyPairs(c)| && j != 5 :: ProxyPairs(c)[j] == ProxyPairs(c.(rpcPassword := ""))[j]
  {
  }
}
