/** When the monitor and the proxy receive the same user and password: each unit reads its
    own file, and a value that does not end with its line goes on with a different next
    line in each. */
module Agreements {
  import opened Text
  import opened Libraries
  import opened Units
  import opened Configs
  import opened Deliveries

  const VALUE_START := Reader(PreValue, "", "", "")

  /** The value ends at the end of its line. */
  ghost predicate ClosesLine(value: string) {
    var mode := After(VALUE_START, value).mode;
    mode.PreValue? || mode.InValue?
  }

  /** The lines behind the value stand between its quotes. */
  ghost predicate LeavesQuoteOpen(value: string) {
    var mode := After(VALUE_START, value).mode;
    mode.SingleQuoted? || mode.DoubleQuoted? || mode.DoubleEscape?
  }

  /** What a value that ends with its line is read as. */
  ghost function Received(value: string): string {
    After(VALUE_START, value).value
  }

  /** What one that does not is read as, before the next line. */
  ghost function Opening(value: string): string {
    Next(After(VALUE_START, value), '\n').value
  }

  ghost predicate AllOneLine(pairs: Env) {
    forall i | 0 <= i < |pairs| :: HasNo(pairs[i].1, IsNewline)
  }

  // ------------------------------------------------------------- one line of a file

  lemma {:induction false} KeyKept(r: Reader, key: string, text: string)
    requires Tidy(r) && HasNo(text, IsNewline)
    ensures After(r.(key := key), text) == After(r, text).(key := key) && Tidy(After(r, text))
    decreases |text|
  {
    if text != "" {
      var c := text[0];
      assert !IsNewline(c);
      TidyStep(r, c);
      assert Next(r.(key := key), c) == Next(r, c).(key := key);
      hide Next;
      KeyKept(Next(r, c), key, text[1..]);
    }
  }

  lemma LineStarts(key: string, value: string, rest: string)
    requires IsName(key) && HasNo(value, IsNewline)
    ensures
      var r := After(VALUE_START, value).(key := key);
      Tidy(r) && Read(START, Line((key, value)) + rest) == Read(r, "\n" + rest)
  {
    hide IsName, Read, Next;
    LineParts((key, value), rest);
    assert value + "\n" + rest == value + ("\n" + rest);
    NameRead(key, value + ("\n" + rest));
    KeyKept(VALUE_START, key, value);
    OneLineRead(Reader(PreValue, key, "", ""), value, "\n" + rest);
  }

  /** A line end completes the value, or joins the next line to it. */
  lemma LineEnds(r: Reader, rest: string)
    requires Tidy(r)
    ensures r.mode.PreValue? || r.mode.InValue? ==> Read(r, "\n" + rest) == [(r.key, r.value)] + Read(START, rest)
    ensures
      var on := Next(r, '\n');
      r.mode.PreValue? || r.mode.InValue?
        || (Tidy(on) && TakesText(on.mode) && on.blanks == "" && on.key == r.key
            && Read(r, "\n" + rest) == Read(on, rest))
  {
    assert ("\n" + rest)[1..] == rest;
    assert [] + Read(Next(r, '\n'), rest) == Read(Next(r, '\n'), rest);
  }

  /** A line that is read inside another value. */
  lemma LineSwallowed(r: Reader, pair: (string, string), rest: string) returns (after: Reader)
    requires Tidy(r) && IsName(pair.0) && HasNo(pair.1, IsNewline)
    ensures Tidy(after) && after.key == r.key && Read(r, Line(pair) + rest) == Read(after, "\n" + rest)
  {
    var line := pair.0 + "=" + pair.1;
    assert HasNo(line, IsNewline) by {
      NameIsOneLine(pair.0);
    }
    hide IsName, Read, Next;
    assert Line(pair) + rest == line + ("\n" + rest);
    OneLineRead(r, line, "\n" + rest);
    after := After(r, line);
  }

  lemma NameIsOneLine(key: string)
    requires IsName(key)
    ensures HasNo(key, IsNewline) && HasNo(key, IsSpecial)
  {
    forall i | 0 <= i < |key| ensures !IsNewline(key[i]) && !IsSpecial(key[i]) {
      assert IsNameCharacter(key[i]);
    }
  }

  // --------------------------------------------------------------- the keys of a file

  ghost function Keys(pairs: Env): set<string> {
    set i | 0 <= i < |pairs| :: pairs[i].0
  }

  lemma KeysOfTwo(a: Env, b: Env)
    ensures Keys(a + b) == Keys(a) + Keys(b)
  {
    forall key | key in Keys(a) + Keys(b) ensures key in Keys(a + b) {
      if key in Keys(a) {
        var i :| 0 <= i < |a| && a[i].0 == key;
        assert (a + b)[i].0 == key;
      } else {
        var i :| 0 <= i < |b| && b[i].0 == key;
        assert (a + b)[|a| + i].0 == key;
      }
    }
    forall key | key in Keys(a + b) ensures key in Keys(a) + Keys(b) {
      var i :| 0 <= i < |a + b| && (a + b)[i].0 == key;
      assert i >= |a| ==> b[i - |a|].0 == key;
    }
  }

  lemma KeysOfRest(pairs: Env)
    requires pairs != []
    ensures Keys(pairs) == {pairs[0].0} + Keys(pairs[1..])
  {
    assert pairs == [pairs[0]] + pairs[1..];
    KeysOfTwo([pairs[0]], pairs[1..]);
    assert Keys([pairs[0]]) == {pairs[0].0};
  }

  /** Of one-line values no key is read but those of the file; and none for a line that is
      read inside another value. */
  lemma {:induction false} KeysRead(r: Reader, pairs: Env)
    requires AllNames(pairs) && AllOneLine(pairs) && (r == START || Tidy(r))
    ensures r == START ==> Keys(Read(r, EnvText(pairs))) <= Keys(pairs)
    ensures Tidy(r) ==>
      var read := Read(r, EnvText(pairs));
      read != [] && read[0].0 == r.key && Keys(read[1..]) <= (if pairs == [] then {} else Keys(pairs[1..]))
    decreases |pairs|, 1
  {
    assert !Tidy(START);
    hide IsName, Tidy, Next, Keys;
    if pairs == [] {
      NothingRead(r);
    } else {
      var rest := EnvText(pairs[1..]);
      EnvTextFront(pairs);
      KeysOfRest(pairs);
      var after: Reader;
      if r == START {
        LineStarts(pairs[0].0, pairs[0].1, rest);
        after := After(VALUE_START, pairs[0].1).(key := pairs[0].0);
      } else {
        after := LineSwallowed(r, pairs[0], rest);
      }
      KeysAfterLine(after, pairs, rest);
      hide Read;
      KeysOfRead(Read(after, "\n" + rest), pairs);
    }
  }

  lemma NothingRead(r: Reader)
    requires r == START || Tidy(r)
    ensures r == START ==> Read(r, "") == [] && Keys(Read(r, "")) == {}
    ensures Tidy(r) ==> Read(r, "") == [(r.key, r.value)] && Keys(Read(r, "")[1..]) == {}
  {
    assert Tidy(r) ==> Read(r, "")[1..] == [];
  }

  lemma KeysAfterLine(after: Reader, pairs: Env, rest: string)
    requires AllNames(pairs) && AllOneLine(pairs) && pairs != [] && rest == EnvText(pairs[1..]) && Tidy(after)
    ensures
      var read := Read(after, "\n" + rest);
      read != [] && read[0].0 == after.key && Keys(read[1..]) <= Keys(pairs[1..])
    decreases |pairs|, 0
  {
    hide IsName, Tidy, Next, Keys;
    LineEnds(after, rest);
    if after.mode.PreValue? || after.mode.InValue? {
      KeysRead(START, pairs[1..]);
      assert ([(after.key, after.value)] + Read(START, rest))[1..] == Read(START, rest);
    } else {
      KeysRead(Next(after, '\n'), pairs[1..]);
      if pairs[1..] != [] {
        KeysOfRest(pairs[1..]);
      }
    }
  }

  lemma KeysOfRead(read: Env, pairs: Env)
    requires read != [] && pairs != []
    ensures Keys(read) == {read[0].0} + Keys(read[1..])
  {
    KeysOfRest(read);
  }

  // --------------------------------------------------------------- two variables of a file

  /** What becomes of a value: itself as its line has it, or text that goes on with the
      first character of the next line. */
  ghost predicate ReadAs(read: string, value: string, next: char) {
    if ClosesLine(value) then read == Received(value)
    else |Opening(value)| < |read| && read[|Opening(value)|] == next
  }

  lemma OpenValueGoesOn(r: Reader, value: string, rest: string)
    requires Tidy(r) && TakesText(r.mode) && r.blanks == "" && r.value == Opening(value) && !ClosesLine(value)
    requires rest != "" && IsNameCharacter(rest[0])
    ensures Read(r, rest) != [] && ReadAs(Read(r, rest)[0].1, value, rest[0])
  {
    FirstRead(r, rest);
    assert Completed(r, rest[0]) == [];
    assert r.value + "" + [rest[0]] == r.value + [rest[0]];
    var after := Next(r, rest[0]);
    assert after.value == r.value + [rest[0]];
    assert Added(r, rest) == after.value[|r.value|..] + Added(after, rest[1..]);
    assert after.value[|r.value|..] == [rest[0]];
  }

  /** The first variable of a file, and what follows it. */
  lemma FirstVariable(pairs: Env)
    requires AllNames(pairs) && AllOneLine(pairs) && |pairs| > 1
    ensures
      var read := Read(START, EnvText(pairs));
      && read != [] && read[0].0 == pairs[0].0 && Keys(read[1..]) <= Keys(pairs[1..])
      && ReadAs(read[0].1, pairs[0].1, FirstOf(pairs[1].0))
      && (ClosesLine(pairs[0].1) ==> read[1..] == Read(START, EnvText(pairs[1..])))
  {
    var key, value, rest := pairs[0].0, pairs[0].1, EnvText(pairs[1..]);
    EnvTextFront(pairs);
    EnvTextFront(pairs[1..]);
    assert FirstOf(pairs[1].0) == pairs[1].0[0] == rest[0] && IsNameCharacter(rest[0]) by {
      assert IsName(pairs[1].0);
    }
    hide IsName, Read, Tidy, IsNameCharacter, Keys, Opening, ReadAs, EnvText, Line;
    LineStarts(key, value, rest);
    var r := After(VALUE_START, value).(key := key);
    LineEnds(r, rest);
    KeysAfterLine(r, pairs, rest);
    FirstReadAs(r, key, value, rest, pairs[1].0);
  }

  ghost function FirstOf(key: string): char {
    if key == "" then '=' else key[0]
  }

  lemma FirstReadAs(r: Reader, key: string, value: string, rest: string, nextKey: string)
    requires r == After(VALUE_START, value).(key := key) && Tidy(r)
    requires rest != "" && FirstOf(nextKey) == rest[0] && IsNameCharacter(rest[0])
    ensures
      var read := Read(r, "\n" + rest);
      && read != [] && ReadAs(read[0].1, value, FirstOf(nextKey))
      && (ClosesLine(value) ==> read[1..] == Read(START, rest))
  {
    LineEnds(r, rest);
    hide Read, Tidy, IsNameCharacter;
    if ClosesLine(value) {
      assert ([(key, r.value)] + Read(START, rest))[1..] == Read(START, rest);
    } else {
      OpenValueGoesOn(Next(r, '\n'), value, rest);
    }
  }

  lemma {:induction false} LookupNone(pairs: Env, key: string)
    requires key !in Keys(pairs)
    ensures Lookup(pairs, key) == None
    decreases |pairs|
  {
    if pairs != [] {
      var front, last := pairs[..|pairs| - 1], pairs[|pairs| - 1];
      assert pairs == front + [last];
      KeysOfTwo(front, [last]);
      assert last.0 in Keys([last]) by {
        assert [last][0] == last;
      }
      LookupNone(front, key);
    }
  }

  lemma {:induction false} LookupFound(before: Env, pair: (string, string), more: Env)
    requires pair.0 !in Keys(more)
    ensures Lookup(before + [pair] + more, pair.0) == Some(pair.1)
    decreases |more|
  {
    var all := before + [pair] + more;
    if more == [] {
      assert all == before + [pair];
    } else {
      var front, last := more[..|more| - 1], more[|more| - 1];
      assert more == front + [last];
      KeysOfTwo(front, [last]);
      assert last.0 in Keys([last]) by {
        assert [last][0] == last;
      }
      assert all[..|all| - 1] == before + [pair] + front && all[|all| - 1] == last;
      LookupFound(before, pair, front);
    }
  }

  /** If a file is read as it stands up to line `i`, the two variables of that line and the
      next are read as their values say; the second one if the first ends with its line. */
  lemma TwoVariables(pairs: Env, i: nat, before: Env)
    requires AllNames(pairs) && AllOneLine(pairs) && i + 2 < |pairs| && Accepted(EnvText(pairs))
    requires Read(START, EnvText(pairs)) == before + Read(START, EnvText(pairs[i..]))
    requires pairs[i].0 !in Keys(pairs[i + 1..]) && pairs[i + 1].0 !in Keys(pairs[i + 2..])
    ensures
      var first := Lookup(ReadEnv(EnvText(pairs)), pairs[i].0);
      first.Some? && ReadAs(first.value, pairs[i].1, FirstOf(pairs[i + 1].0))
    ensures
      var second := Lookup(ReadEnv(EnvText(pairs)), pairs[i + 1].0);
      ClosesLine(pairs[i].1) ==> second.Some? && ReadAs(second.value, pairs[i + 1].1, FirstOf(pairs[i + 2].0))
  {
    hide IsName, Accepted, EnvText, Read, ReadAs, Lookup, Keys, Named;
    EverythingNamed(pairs);
    Rests(pairs, i);
    FirstVariable(pairs[i..]);
    var read, more := Read(START, EnvText(pairs)), Read(START, EnvText(pairs[i..]));
    LookupFound(before, more[0], more[1..]);
    Around(before, more);
    if ClosesLine(pairs[i].1) {
      FirstVariable(pairs[i + 1..]);
      LookupFound(before + [more[0]], more[1..][0], more[1..][1..]);
      Around(before + [more[0]], more[1..]);
    }
  }

  lemma Around(before: Env, more: Env)
    requires more != []
    ensures before + [more[0]] + more[1..] == before + more
  {
  }

  lemma Rests(pairs: Env, i: nat)
    requires i + 2 < |pairs|
    ensures pairs[i..][1..] == pairs[i + 1..] && pairs[i + 1..][1..] == pairs[i + 2..]
    ensures AllNames(pairs) ==> AllNames(pairs[i..]) && AllNames(pairs[i + 1..])
    ensures AllOneLine(pairs) ==> AllOneLine(pairs[i..]) && AllOneLine(pairs[i + 1..])
  {
    hide IsName;
  }

  /** All keys that are read are variable names. */
  lemma EverythingNamed(pairs: Env)
    requires AllNames(pairs) && AllOneLine(pairs)
    ensures Named(Read(START, EnvText(pairs))) == Read(START, EnvText(pairs))
  {
    hide IsName;
    var read := Read(START, EnvText(pairs));
    KeysRead(START, pairs);
    forall i | 0 <= i < |read| ensures IsName(read[i].0) {
      assert read[i].0 in Keys(read);
      var j :| 0 <= j < |pairs| && pairs[j].0 == read[i].0;
    }
    NamedWeight(read);
  }

  // ------------------------------------------------------- before the two variables

  /** Text of the charm's own constants. */
  ghost predicate IsSimple(text: string) {
    forall i | 0 <= i < |text| :: IsNameCharacter(text[i]) || text[i] in ".:/"
  }

  lemma SimpleCharacter(c: char)
    requires IsNameCharacter(c) || c in ".:/"
    ensures !IsRejected(c) && !IsShellSpace(c) && !IsSpecial(c) && !IsNewline(c)
  {
  }

  lemma SimpleIsPlain(text: string)
    requires IsSimple(text)
    ensures IsPlain(text) && HasNo(text, IsNewline) && HasNo(text, IsSpecial)
  {
    hide IsRejected, IsShellSpace, IsSpecial, IsNewline, IsNameCharacter;
    forall i | 0 <= i < |text|
      ensures !IsRejected(text[i]) && !IsShellSpace(text[i]) && !IsSpecial(text[i]) && !IsNewline(text[i])
    {
      SimpleCharacter(text[i]);
    }
    SpecialCharacters();
    assert forall i | 0 <= i < |text| :: !IsQuote(text[i]) && text[i] != '\\';
  }

  lemma SpecialCharacters()
    ensures IsSpecial('\\') && forall c | IsQuote(c) :: IsSpecial(c)
  {
  }

  ghost predicate AllSimple(pairs: Env) {
    forall i | 0 <= i < |pairs| :: IsSimple(pairs[i].1)
  }

  lemma SimpleLinesRead(pairs: Env, rest: string)
    requires AllNames(pairs) && AllSimple(pairs)
    ensures Read(START, EnvText(pairs) + rest) == pairs + Read(START, rest)
  {
    hide IsName, IsSimple, IsPlain;
    forall i | 0 <= i < |pairs| ensures IsPlain(pairs[i].1) {
      SimpleIsPlain(pairs[i].1);
    }
    PlainLinesRead(pairs, rest);
  }

  /** The first lines of a file are constants. */
  lemma BehindConstants(pairs: Env, i: nat)
    requires AllNames(pairs) && i <= |pairs| && AllSimple(pairs[..i])
    ensures Read(START, EnvText(pairs)) == pairs[..i] + Read(START, EnvText(pairs[i..]))
  {
    hide IsName, IsSimple, Read, EnvText;
    assert pairs == pairs[..i] + pairs[i..];
    assert AllNames(pairs[..i]);
    EnvTextOfTwo(pairs[..i], pairs[i..]);
    SimpleLinesRead(pairs[..i], EnvText(pairs[i..]));
  }

  lemma {:induction false} QuotedRead(r: Reader, text: string, rest: string)
    requires (r.mode.SingleQuoted? || r.mode.DoubleQuoted?) && HasNo(text, IsSpecial)
    ensures Read(r, text + rest) == Read(r.(value := r.value + text), rest)
    decreases |text|
  {
    if text == "" {
      assert text + rest == rest && r.value + text == r.value;
    } else {
      assert !IsSpecial(text[0]) && (text + rest)[1..] == text[1..] + rest;
      var after := r.(value := r.value + [text[0]]);
      assert Next(r, text[0]) == after && Completed(r, text[0]) == [];
      QuotedRead(after, text[1..], rest);
      assert r.value + [text[0]] + text[1..] == r.value + text;
    }
  }

  lemma {:induction false} SimpleLinesHaveNoQuote(pairs: Env)
    requires AllNames(pairs) && AllSimple(pairs)
    ensures HasNo(EnvText(pairs), IsSpecial)
  {
    hide IsName, IsSimple;
    if pairs != [] {
      var last := pairs[|pairs| - 1];
      SimpleLinesHaveNoQuote(pairs[..|pairs| - 1]);
      NameIsOneLine(last.0);
      SimpleIsPlain(last.1);
    }
  }

  /** Where the first value of a file leaves a quote open, and the next lines are constants,
      the variable behind those is not read. */
  lemma QuoteHidesVariable(pairs: Env, i: nat)
    requires AllNames(pairs) && AllOneLine(pairs) && 0 < i < |pairs| && AllSimple(pairs[1..i])
    requires LeavesQuoteOpen(pairs[0].1)
    requires pairs[i].0 != pairs[0].0 && pairs[i].0 !in Keys(pairs[i + 1..])
    ensures Lookup(ReadEnv(EnvText(pairs)), pairs[i].0) == None
  {
    hide IsName, IsSimple, Accepted, Read, Keys, EnvText, Line, Lookup, Named;
    var key, value, rest := pairs[0].0, pairs[0].1, EnvText(pairs[1..]);
    EnvTextFront(pairs);
    LineStarts(key, value, rest);
    var r := After(VALUE_START, value).(key := key);
    LineEnds(r, rest);
    var on := Next(r, '\n');
    QuoteStays(r);
    assert pairs[1..] == pairs[1..i] + pairs[i..];
    EnvTextOfTwo(pairs[1..i], pairs[i..]);
    SimpleLinesHaveNoQuote(pairs[1..i]);
    QuotedRead(on, EnvText(pairs[1..i]), EnvText(pairs[i..]));
    var quoted := on.(value := on.value + EnvText(pairs[1..i]));
    QuotedIsTidy(on, quoted);
    var read := Read(quoted, EnvText(pairs[i..]));
    TailOf(pairs, i);
    KeysRead(quoted, pairs[i..]);
    KeysOfRead(read, pairs);
    LookupNone(read, pairs[i].0);
    NoVariable(pairs[i].0);
    EverythingNamed(pairs);
  }

  lemma NoVariable(key: string)
    ensures Lookup([], key) == None
  {
  }

  lemma QuoteStays(r: Reader)
    requires r.mode.SingleQuoted? || r.mode.DoubleQuoted? || r.mode.DoubleEscape?
    ensures var on := Next(r, '\n'); on.mode.SingleQuoted? || on.mode.DoubleQuoted?
  {
  }

  lemma QuotedIsTidy(r: Reader, longer: Reader)
    requires Tidy(r) && longer == r.(value := longer.value)
    ensures Tidy(longer)
  {
  }

  lemma TailOf(pairs: Env, i: nat)
    requires i < |pairs|
    ensures pairs[i..] != [] && pairs[i..][1..] == pairs[i + 1..]
    ensures AllNames(pairs) ==> AllNames(pairs[i..])
    ensures AllOneLine(pairs) ==> AllOneLine(pairs[i..])
  {
    hide IsName;
  }

  /** A value that ends in a backslash swallows one line of constants, and no more. */
  lemma BackslashHidesOneLine(pairs: Env) returns (before: Env)
    requires AllNames(pairs) && AllOneLine(pairs) && |pairs| > 1 && IsSimple(pairs[1].1)
    requires !ClosesLine(pairs[0].1) && !LeavesQuoteOpen(pairs[0].1)
    ensures Read(START, EnvText(pairs)) == before + Read(START, EnvText(pairs[2..]))
  {
    var key, value, rest := pairs[0].0, pairs[0].1, EnvText(pairs[1..]);
    var r := After(VALUE_START, value).(key := key);
    LineStarts(key, value, rest);
    LineEnds(r, rest);
    var on := Next(r, '\n');
    assert r.mode.Escape? && on.mode.InValue? && on.blanks == "";
    hide IsName, IsSimple, Read, EnvText, Line, IsPlain, Next, After;
    EnvTextFront(pairs);
    EnvTextFront(pairs[1..]);
    assert pairs[1..][1..] == pairs[2..] && pairs[1..][0] == pairs[1];
    SimpleIsPlain(pairs[1].1);
    LineIsPlain(pairs[1].0, pairs[1].1);
    before := PlainLineSwallowed(on, pairs[1], EnvText(pairs[2..]));
  }

  lemma PlainLineSwallowed(r: Reader, pair: (string, string), rest: string) returns (before: Env)
    requires r.mode.InValue? && r.blanks == "" && IsPlain(pair.0 + "=" + pair.1)
    ensures Read(r, Line(pair) + rest) == before + Read(START, rest)
  {
    var line := pair.0 + "=" + pair.1;
    assert Line(pair) + rest == line + ("\n" + rest);
    assert r == Reader(InValue, r.key, r.value, "");
    hide Read, Line;
    TextRead(r.key, r.value, "", line, "\n" + rest);
    LineEndRead(r.key, r.value + "" + line, rest);
    before := [(r.key, r.value + "" + line)];
  }

  lemma {:induction false} ValuesAccepted(pairs: Env)
    requires Accepted(EnvText(pairs))
    ensures forall i | 0 <= i < |pairs| :: Accepted(pairs[i].1)
  {
    if pairs != [] {
      var text, front, last := EnvText(pairs), pairs[..|pairs| - 1], pairs[|pairs| - 1];
      assert Accepted(EnvText(front)) by {
        assert forall i | 0 <= i < |EnvText(front)| :: EnvText(front)[i] == text[i];
      }
      assert Accepted(last.1) by {
        var start := |EnvText(front)| + |last.0| + 1;
        assert forall i | 0 <= i < |last.1| :: last.1[i] == text[start + i];
      }
      ValuesAccepted(front);
      forall i | 0 <= i < |pairs| ensures Accepted(pairs[i].1) {
        assert i < |front| ==> pairs[i] == front[i];
      }
    }
  }

  // ------------------------------------------------------------- the two services

  /** The operator's values have no line ends. */
  ghost predicate OneLineValues(c: Config) {
    && HasNo(c.rpcUser, IsNewline) && HasNo(c.rpcPassword, IsNewline)
    && HasNo(c.proxyListen, IsNewline) && HasNo(c.proxyExtendAllowlist, IsNewline)
  }

  ghost predicate AcceptedValues(c: Config) {
    && Accepted(c.rpcUser) && Accepted(c.rpcPassword)
    && Accepted(c.proxyListen) && Accepted(c.proxyExtendAllowlist)
  }

  /** From these files both services receive a user and a password, and the same ones. */
  ghost predicate SameCredentials(monitorFile: string, proxyFile: string) {
    var monitor, proxy := ReadEnv(monitorFile), ReadEnv(proxyFile);
    && Lookup(monitor, "BITCOIN_RPC_USER").Some? && Lookup(monitor, "BITCOIN_RPC_PASSWORD").Some?
    && Lookup(monitor, "BITCOIN_RPC_USER") == Lookup(proxy, "PROXY_UPSTREAM_USER")
    && Lookup(monitor, "BITCOIN_RPC_PASSWORD") == Lookup(proxy, "PROXY_UPSTREAM_PASSWORD")
  }

  ghost predicate ServicesAgree(c: Config) {
    SameCredentials(EnvText(MonitorPairs(c)), EnvText(ProxyPairs(c)))
  }

  /** Systemd accepts both files, user and password each end with their line, and the
      proxy's address leaves no quote open. */
  ghost predicate CredentialsEndWithTheirLines(c: Config) {
    AcceptedValues(c) && ClosesLine(c.rpcUser) && ClosesLine(c.rpcPassword) && !LeavesQuoteOpen(c.proxyListen)
  }

  lemma SimpleDefaults()
    ensures IsSimple("http") && IsSimple("localhost") && IsSimple("8332") && IsSimple("9332") && IsSimple("")
    ensures IsSimple("default") && IsSimple("true") && IsSimple("false") && IsSimple("info") && IsSimple("INFO")
  {
  }

  lemma SimpleProxyDefaults()
    ensures IsSimple("0.0.0.0:8331") && IsSimple("0.0.0.0:8360") && IsSimple("http://127.0.0.1:8332")
    ensures IsSimple("30s") && IsSimple("262144")
  {
  }

  /** The lines of the two files that an operator's value can reach. */
  lemma MonitorValues(c: Config)
    ensures
      var pairs := MonitorPairs(c);
      && |pairs| == 9
      && pairs[3] == ("BITCOIN_RPC_USER", OrDefault(c.rpcUser, "default"))
      && pairs[4] == ("BITCOIN_RPC_PASSWORD", OrDefault(c.rpcPassword, "default"))
      && pairs[5].0 == "METRICS_PORT"
      && forall i | 0 <= i < 9 && i != 3 && i != 4 :: IsSimple(pairs[i].1)
  {
    SimpleDefaults();
    hide IsSimple;
  }

  lemma ProxyValues(c: Config)
    ensures
      var pairs := ProxyPairs(c);
      && |pairs| == 10
      && pairs[0] == ("PROXY_LISTEN", OrDefault(c.proxyListen, "0.0.0.0:8331"))
      && pairs[4] == ("PROXY_UPSTREAM_USER", OrDefault(c.rpcUser, "default"))
      && pairs[5] == ("PROXY_UPSTREAM_PASSWORD", OrDefault(c.rpcPassword, "default"))
      && pairs[6].0 == "PROXY_MAX_BODY_BYTES"
      && pairs[7].1 == OrDefault(c.proxyExtendAllowlist, "")
      && forall i | 0 <= i < 10 && i != 0 && i != 4 && i != 5 && i != 7 :: IsSimple(pairs[i].1)
  {
    SimpleDefaults();
    SimpleProxyDefaults();
    hide IsSimple;
  }

  /** A default stands for an empty value, and reads like one. */
  lemma DefaultReads(value: string, default: string)
    requires IsSimple(default)
    ensures HasNo(OrDefault(value, default), IsNewline) <==> HasNo(value, IsNewline)
    ensures Accepted(OrDefault(value, default)) <==> Accepted(value)
    ensures ClosesLine(OrDefault(value, default)) <==> ClosesLine(value)
    ensures LeavesQuoteOpen(OrDefault(value, default)) <==> LeavesQuoteOpen(value)
  {
    SimpleIsPlain(default);
    SimpleCloses(VALUE_START, default);
  }

  lemma {:induction false} SimpleCloses(r: Reader, text: string)
    requires IsSimple(text) && (r.mode.PreValue? || r.mode.InValue?)
    ensures var mode := After(r, text).mode; mode.PreValue? || mode.InValue?
    decreases |text|
  {
    if text != "" {
      SimpleCharacter(text[0]);
      hide IsNameCharacter;
      SimpleCloses(Next(r, text[0]), text[1..]);
    }
  }

  /** Names of different length are different keys. */
  lemma KeyNotAmong(key: string, pairs: Env)
    requires forall i | 0 <= i < |pairs| :: |pairs[i].0| != |key|
    ensures key !in Keys(pairs)
  {
  }

  lemma MonitorReads(c: Config)
    requires OneLineValues(c) && Accepted(EnvText(MonitorPairs(c)))
    ensures
      var monitor := ReadEnv(EnvText(MonitorPairs(c)));
      var user, password := Lookup(monitor, "BITCOIN_RPC_USER"), Lookup(monitor, "BITCOIN_RPC_PASSWORD");
      && user.Some? && ReadAs(user.value, OrDefault(c.rpcUser, "default"), 'B')
      && (ClosesLine(c.rpcUser) ==>
            password.Some? && ReadAs(password.value, OrDefault(c.rpcPassword, "default"), 'M'))
  {
    var pairs := MonitorPairs(c);
    MonitorValues(c);
    MonitorPairsAreNamed(c);
    KeyNotAmong("BITCOIN_RPC_USER", pairs[4..]);
    KeyNotAmong("BITCOIN_RPC_PASSWORD", pairs[5..]);
    SimpleDefaults();
    hide MonitorPairs, IsName, IsSimple, Read, ReadAs, ReadEnv, Accepted, EnvText, Keys, OrDefault;
    DefaultReads(c.rpcUser, "default");
    DefaultReads(c.rpcPassword, "default");
    forall i | 0 <= i < |pairs| ensures HasNo(pairs[i].1, IsNewline) {
      if i != 3 && i != 4 {
        SimpleIsPlain(pairs[i].1);
      }
    }
    BehindConstants(pairs, 3);
    TwoVariables(pairs, 3, pairs[..3]);
  }

  lemma ProxyValuesAreOneLine(c: Config)
    requires OneLineValues(c)
    ensures AllNames(ProxyPairs(c)) && AllOneLine(ProxyPairs(c))
  {
    var pairs := ProxyPairs(c);
    ProxyValues(c);
    ProxyPairsAreNamed(c);
    SimpleDefaults();
    SimpleProxyDefaults();
    hide ProxyPairs, IsName, IsSimple, OrDefault;
    DefaultReads(c.proxyListen, "0.0.0.0:8331");
    DefaultReads(c.rpcUser, "default");
    DefaultReads(c.rpcPassword, "default");
    DefaultReads(c.proxyExtendAllowlist, "");
    forall i | 0 <= i < |pairs| ensures HasNo(pairs[i].1, IsNewline) {
      if i != 0 && i != 4 && i != 5 && i != 7 {
        SimpleIsPlain(pairs[i].1);
      }
    }
  }

  /** The lines before the proxy's credentials are read without loss, or but for one. */
  lemma BeforeProxyCredentials(c: Config) returns (before: Env)
    requires OneLineValues(c) && !LeavesQuoteOpen(c.proxyListen)
    ensures Read(START, EnvText(ProxyPairs(c))) == before + Read(START, EnvText(ProxyPairs(c)[4..]))
  {
    var pairs := ProxyPairs(c);
    ProxyValues(c);
    ProxyValuesAreOneLine(c);
    SimpleProxyDefaults();
    hide ProxyPairs, IsName, IsSimple, Read, Accepted, EnvText, Keys, OrDefault, ClosesLine, LeavesQuoteOpen, ReadAs;
    DefaultReads(c.proxyListen, "0.0.0.0:8331");
    if ClosesLine(pairs[0].1) {
      FirstVariable(pairs);
      BehindConstants(pairs[1..], 3);
      assert pairs[1..][3..] == pairs[4..];
      var read := Read(START, EnvText(pairs));
      before := [read[0]] + pairs[1..][..3];
      InTwo(read, pairs[1..][..3], Read(START, EnvText(pairs[4..])));
    } else {
      var first := BackslashHidesOneLine(pairs);
      BehindConstants(pairs[2..], 2);
      assert pairs[2..][2..] == pairs[4..];
      before := first + pairs[2..][..2];
      Associates(first, pairs[2..][..2], Read(START, EnvText(pairs[4..])));
    }
  }

  lemma InTwo(read: Env, a: Env, b: Env)
    requires read != [] && read[1..] == a + b
    ensures read == [read[0]] + a + b
  {
  }

  lemma Associates(a: Env, b: Env, c: Env)
    ensures a + (b + c) == a + b + c
  {
  }

  lemma ProxyReads(c: Config)
    requires OneLineValues(c) && Accepted(EnvText(ProxyPairs(c)))
    ensures
      var proxy := ReadEnv(EnvText(ProxyPairs(c)));
      var user, password := Lookup(proxy, "PROXY_UPSTREAM_USER"), Lookup(proxy, "PROXY_UPSTREAM_PASSWORD");
      if LeavesQuoteOpen(c.proxyListen) then user == None
      else
        && user.Some? && ReadAs(user.value, OrDefault(c.rpcUser, "default"), 'P')
        && (ClosesLine(c.rpcUser) ==>
              password.Some? && ReadAs(password.value, OrDefault(c.rpcPassword, "default"), 'P'))
  {
    var pairs := ProxyPairs(c);
    ProxyValues(c);
    ProxyValuesAreOneLine(c);
    KeyNotAmong("PROXY_UPSTREAM_USER", pairs[5..]);
    KeyNotAmong("PROXY_UPSTREAM_PASSWORD", pairs[6..]);
    assert |"PROXY_LISTEN"| != |"PROXY_UPSTREAM_USER"|;
    SimpleDefaults();
    SimpleProxyDefaults();
    hide ProxyPairs, IsName, IsSimple, Read, ReadAs, ReadEnv, Accepted, EnvText, Keys, OrDefault, ClosesLine,
      LeavesQuoteOpen;
    DefaultReads(c.proxyListen, "0.0.0.0:8331");
    DefaultReads(c.rpcUser, "default");
    if LeavesQuoteOpen(c.proxyListen) {
      QuoteHidesVariable(pairs, 4);
    } else {
      var before := BeforeProxyCredentials(c);
      TwoVariables(pairs, 4, before);
    }
  }

  lemma FilesAccepted(c: Config)
    ensures Accepted(EnvText(MonitorPairs(c))) <==> Accepted(c.rpcUser) && Accepted(c.rpcPassword)
    ensures Accepted(EnvText(ProxyPairs(c))) <==> AcceptedValues(c)
  {
    var monitor, proxy := MonitorPairs(c), ProxyPairs(c);
    MonitorValues(c);
    ProxyValues(c);
    MonitorPairsAreNamed(c);
    ProxyPairsAreNamed(c);
    SimpleDefaults();
    SimpleProxyDefaults();
    hide MonitorPairs, ProxyPairs, IsName, IsSimple, EnvText, Accepted, OrDefault, ClosesLine, LeavesQuoteOpen;
    DefaultReads(c.rpcUser, "default");
    DefaultReads(c.rpcPassword, "default");
    DefaultReads(c.proxyListen, "0.0.0.0:8331");
    DefaultReads(c.proxyExtendAllowlist, "");
    AcceptedIff(monitor, {3, 4});
    AcceptedIff(proxy, {0, 4, 5, 7});
  }

  lemma AcceptedIff(pairs: Env, open: set<nat>)
    requires AllNames(pairs) && forall i | i in open :: i < |pairs|
    requires forall i | 0 <= i < |pairs| && i !in open :: IsSimple(pairs[i].1)
    ensures Accepted(EnvText(pairs)) <==> forall i | i in open :: Accepted(pairs[i].1)
  {
    hide IsName, IsSimple, Accepted;
    forall i | 0 <= i < |pairs| && i !in open ensures Accepted(pairs[i].1) {
      SimpleIsPlain(pairs[i].1);
    }
    if Accepted(EnvText(pairs)) {
      ValuesAccepted(pairs);
    } else if forall i | i in open :: Accepted(pairs[i].1) {
      TextAccepted(pairs);
    }
  }

  /** Two readings of one value, before different lines, are the same exactly if the value
      ends with its line. */
  lemma SameReading(a: string, b: string, value: string, next: char, other: char)
    requires ReadAs(a, value, next) && ReadAs(b, value, other) && next != other
    ensures a == b <==> ClosesLine(value)
  {
    hide ClosesLine, Received, Opening;
  }

  lemma NothingAccepted(c: Config)
    ensures !Accepted(EnvText(MonitorPairs(c))) ==>
      Lookup(ReadEnv(EnvText(MonitorPairs(c))), "BITCOIN_RPC_USER") == None
    ensures !Accepted(EnvText(ProxyPairs(c))) ==>
      Lookup(ReadEnv(EnvText(ProxyPairs(c))), "PROXY_UPSTREAM_USER") == None
  {
    hide MonitorPairs, ProxyPairs, EnvText, Accepted;
  }

  lemma CredentialsAgree(c: Config)
    requires OneLineValues(c) && AcceptedValues(c) && !LeavesQuoteOpen(c.proxyListen)
    ensures ServicesAgree(c) <==> ClosesLine(c.rpcUser) && ClosesLine(c.rpcPassword)
    ensures ServicesAgree(c) ==>
      var monitor := ReadEnv(EnvText(MonitorPairs(c)));
      && Lookup(monitor, "BITCOIN_RPC_USER") == Some(Received(OrDefault(c.rpcUser, "default")))
      && Lookup(monitor, "BITCOIN_RPC_PASSWORD") == Some(Received(OrDefault(c.rpcPassword, "default")))
  {
    FilesAccepted(c);
    SimpleDefaults();
    hide MonitorPairs, ProxyPairs, IsSimple, EnvText, Accepted, OrDefault, ClosesLine, LeavesQuoteOpen, ReadEnv,
      Lookup, OneLineValues, Received, Opening;
    DefaultReads(c.rpcUser, "default");
    DefaultReads(c.rpcPassword, "default");
    MonitorReads(c);
    ProxyReads(c);
    var monitor, proxy := ReadEnv(EnvText(MonitorPairs(c))), ReadEnv(EnvText(ProxyPairs(c)));
    var user, password := OrDefault(c.rpcUser, "default"), OrDefault(c.rpcPassword, "default");
    SameReading(Lookup(monitor, "BITCOIN_RPC_USER").value, Lookup(proxy, "PROXY_UPSTREAM_USER").value, user, 'B', 'P');
    if ClosesLine(c.rpcUser) {
      SameReading(Lookup(monitor, "BITCOIN_RPC_PASSWORD").value, Lookup(proxy, "PROXY_UPSTREAM_PASSWORD").value,
        password, 'M', 'P');
    }
  }

  /** Without line ends in the operator's values, the two services receive the same user and
      the same password exactly if systemd accepts both files, user and password each end
      with their line, and the proxy's address leaves no quote open. */
  lemma MonitorAndProxyAgree(c: Config)
    requires OneLineValues(c)
    ensures ServicesAgree(c) <==> CredentialsEndWithTheirLines(c)
    ensures ServicesAgree(c) ==>
      var monitor := ReadEnv(EnvText(MonitorPairs(c)));
      && Lookup(monitor, "BITCOIN_RPC_USER") == Some(Received(OrDefault(c.rpcUser, "default")))
      && Lookup(monitor, "BITCOIN_RPC_PASSWORD") == Some(Received(OrDefault(c.rpcPassword, "default")))
  {
    FilesAccepted(c);
    SimpleDefaults();
    DefaultReads(c.rpcUser, "default");
    DefaultReads(c.rpcPassword, "default");
    NothingAccepted(c);
    hide MonitorPairs, ProxyPairs, IsSimple, EnvText, Accepted, OrDefault, ClosesLine, LeavesQuoteOpen, ReadAs, ReadEnv,
      Lookup, OneLineValues, Received;
    if AcceptedValues(c) {
      MonitorReads(c);
      ProxyReads(c);
      if !LeavesQuoteOpen(c.proxyListen) {
        CredentialsAgree(c);
      }
    }
  }
}
