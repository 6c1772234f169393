/** The arguments the node is launched with: the line `BITCOIND_CLI_ARGS="..."` that the
    charm writes (src/utils.py, `update_service_args`), as the unit reads it and splits it
    into words (templates/bitcoind.service). */
module NodeArguments {
  import opened Text
  import opened Libraries
  import opened Units
  import opened CommandLines
  import opened Configs
  import F = Flags

  const NODE_VARIABLE := "BITCOIND_CLI_ARGS"

  /** The words after the program on the node's command line. */
  ghost function ReceivedArguments(text: string): seq<string> {
    match Lookup(ReadEnv(text), NODE_VARIABLE)
    case None => []
    case Some(value) => Words(Between, value)
  }

  /** The reader behind the opening quote of the node's line. */
  const OPENED := Reader(DoubleQuoted, NODE_VARIABLE, "", "")

  ghost predicate EndsWith(tokens: seq<string>, a: string, b: string) {
    |tokens| >= 2 && tokens[|tokens| - 2] == a && tokens[|tokens| - 1] == b
  }

  /** Read by the unit's rules, these arguments end outside all quotes. */
  ghost predicate ClosesQuotes(args: string) {
    StateAfter(Between, After(OPENED, args).value).Word?
  }

  /** A value that the unit's rules leave alone wherever it stands in the line. */
  ghost predicate IsCleanValue(value: string) {
    IsClean(value) && Accepted(value)
  }

  // ----------------------------------------------------------- reading one line

  /** Ready for ordinary text. */
  ghost predicate Settled(r: Reader) {
    TakesText(r.mode) && r.blanks == ""
  }

  lemma {:induction false} CleanTextTaken(r: Reader, text: string)
    requires Settled(r) && IsClean(text)
    ensures After(r, text) == r.(value := r.value + text)
    decreases |text|
  {
    if text == "" {
      assert r.value + text == r.value;
    } else {
      var c := text[0];
      assert !IsSpecial(c) && !IsShellSpace(c);
      assert r.value + "" + [c] == r.value + [c];
      assert Next(r, c) == r.(value := r.value + [c]);
      CleanTextTaken(r.(value := r.value + [c]), text[1..]);
      assert r.value + [c] + text[1..] == r.value + text;
    }
  }

  /** A blank and a clean token are taken as they stand. */
  lemma TokenTaken(r: Reader, token: string)
    requires Settled(r) && IsClean(token) && token != ""
    ensures After(r, " " + token) == r.(value := r.value + " " + token)
  {
    hide Next;
    var first := r.(value := r.value + " " + [token[0]]);
    AfterBlank(r, token);
    FirstTaken(r, token[0]);
    CleanTextTaken(first, token[1..]);
    hide After;
    TokenInParts(r.value, token);
  }

  lemma TokenInParts(before: string, token: string)
    requires token != ""
    ensures before + " " + [token[0]] + token[1..] == before + " " + token
  {
  }

  lemma AfterBlank(r: Reader, token: string)
    requires token != ""
    ensures After(r, " " + token) == After(Next(Next(r, ' '), token[0]), token[1..])
  {
    assert (" " + token)[1..] == token;
  }

  lemma FirstTaken(r: Reader, c: char)
    requires Settled(r) && !IsSpecial(c) && !IsShellSpace(c)
    ensures Next(Next(r, ' '), c) == r.(value := r.value + " " + [c])
  {
    assert [' '] == " " && "" + " " == " ";
    assert r.value + [' '] + [c] == r.value + " " + [c];
  }

  /** Whatever came before, a blank and a clean token settle the reader. */
  lemma TokenSettles(r: Reader, token: string) returns (before: string)
    requires Tidy(r) && IsClean(token) && token != ""
    ensures Settled(After(r, " " + token)) && After(r, " " + token).value == before + token
  {
    hide Next;
    var c := token[0];
    var second := Next(Next(r, ' '), c);
    AfterBlank(r, token);
    FirstSettles(r, c);
    CleanTextTaken(second, token[1..]);
    before := second.value[..|second.value| - 1];
    assert before + [c] == second.value && [c] + token[1..] == token;
    assert before + [c] + token[1..] == before + ([c] + token[1..]);
  }

  lemma FirstSettles(r: Reader, c: char)
    requires Tidy(r) && !IsSpecial(c) && !IsShellSpace(c)
    ensures
      var second := Next(Next(r, ' '), c);
      Settled(second) && second.value != "" && second.value[|second.value| - 1] == c
  {
  }

  // ------------------------------------------------------ the hardened arguments

  lemma {:induction false} JoinLast(words: seq<string>)
    requires |words| > 1
    ensures Join(words) == Join(words[..|words| - 1]) + " " + words[|words| - 1]
  {
    var n := |words|;
    if n == 2 {
      assert words[..1] == [words[0]] && words[1..] == [words[1]];
    } else {
      JoinLast(words[1..]);
      assert words[1..][..n - 2] == words[..n - 1][1..];
      assert words[1..][n - 2] == words[n - 1];
    }
  }

  lemma {:induction false} JoinIsOneLine(words: seq<string>)
    requires AllWords(words, IsSpace)
    ensures HasNo(Join(words), IsNewline)
  {
    if words != [] {
      assert IsWord(words[0], IsSpace);
      JoinIsOneLine(words[1..]);
    }
  }

  lemma PinsAreClean(disableWallet: bool)
    ensures forall i | 0 <= i < |F.Pins(disableWallet)| ::
      IsClean(F.Pins(disableWallet)[i]) && F.Pins(disableWallet)[i] != "" && F.Pins(disableWallet)[i][0] == '-'
  {
    var pins := F.Pins(disableWallet);
    F.PinsQuoteFree(disableWallet);
    F.PinsAreWords(disableWallet);
    forall i | 0 <= i < |pins| ensures IsClean(pins[i]) && pins[i] != "" && pins[i][0] == '-' {
      assert QuoteFree(pins[i]) && IsWord(pins[i], IsSpace);
      hide F.Assignment;
      if i < 3 {
        assert pins[i] == F.RPC_PINS[i] && F.IsOption(pins[i]);
      } else {
        assert pins[i] == F.WALLET_PIN;
      }
    }
  }

  /** Hardened arguments end in two pins, and are one line. */
  lemma HardenedEnd(args: string, disableWallet: bool) returns (front: string, token: string, last: string)
    ensures F.Harden(args, disableWallet) == front + (" " + token) + (" " + last)
    ensures HasNo(F.Harden(args, disableWallet), IsNewline)
    ensures IsClean(token) && IsClean(last) && token != "" && last != "" && token[0] == '-'
    ensures last == F.Pins(disableWallet)[|F.Pins(disableWallet)| - 1]
  {
    var tokens, pins := F.HardenTokens(Split(args, IsSpace), disableWallet), F.Pins(disableWallet);
    var kept := F.Without(Split(args, IsSpace), F.Managed(disableWallet));
    F.HardenTokensShape(Split(args, IsSpace), disableWallet);
    F.WithoutWords(Split(args, IsSpace), F.Managed(disableWallet), IsSpace);
    F.PinsAreWords(disableWallet);
    PinsAreClean(disableWallet);
    assert |pins| >= 3;
    hide F.HardenTokens, F.Pins, F.Without, IsClean, Split;
    assert AllWords(tokens, IsSpace);
    JoinIsOneLine(tokens);
    front := JoinTwoLast(kept, pins);
    token, last := pins[|pins| - 2], pins[|pins| - 1];
  }

  lemma JoinTwoLast(a: seq<string>, b: seq<string>) returns (front: string)
    requires |b| >= 3
    ensures Join(a + b) == front + (" " + b[|b| - 2]) + (" " + b[|b| - 1])
  {
    var words, n := a + b, |a + b|;
    JoinLast(words);
    JoinLast(words[..n - 1]);
    front := Join(words[..n - 1][..n - 2]);
    assert words[n - 1] == b[|b| - 1] && words[..n - 1][n - 2] == b[|b| - 2];
    assert front + " " + b[|b| - 2] == front + (" " + b[|b| - 2]);
  }

  lemma TokenEntered(s: Splitter, token: string)
    requires IsClean(token) && token != ""
    ensures var after := StateAfter(s, token); (after.Word? || after.Quoted?) && token[0] in after.text
  {
    var c, rest := token[0], token[1..];
    assert !IsSpecial(c) && !IsShellSpace(c);
    var after := Step(s, c);
    assert IsClean(rest);
    assert (after.Word? || after.Quoted?) && c in after.text;
    CleanWord(after, rest);
  }

  lemma StateAfterBlank(s: Splitter, token: string)
    requires s.Word? || s.Quoted?
    ensures StateAfter(s, " " + token) == StateAfter(if s.Word? then Between else Longer(s, " "), token)
    ensures Emitted(s, " " + token) ==
      (if s.Word? then [s.text] else []) + Emitted(if s.Word? then Between else Longer(s, " "), token)
  {
    assert (" " + token)[1..] == token;
    assert [' '] == " ";
  }

  lemma LongerTwice(s: Splitter, a: string, b: string)
    requires s.Quoted?
    ensures Longer(Longer(s, a), b) == Longer(s, a + b)
  {
    assert s.text + a + b == s.text + (a + b);
  }

  lemma TokenFollows(s: Splitter, token: string)
    requires (s.Word? || s.Quoted?) && IsClean(token) && token != ""
    ensures StateAfter(s, " " + token) == if s.Word? then Word(token) else Longer(s, " " + token)
    ensures Emitted(s, " " + token) == if s.Word? then [s.text] else []
  {
    StateAfterBlank(s, token);
    hide StateAfter, Emitted, IsClean;
    if s.Word? {
      CleanWordBegins(token);
    } else {
      CleanWord(Longer(s, " "), token);
      LongerTwice(s, " ", token);
    }
  }

  /** Behind the hardened arguments the reader is settled, and the splitter stands at the
      end of the last pin, or inside a quote that has been open since before it. */
  ghost predicate AtPin(r: Reader, s: Splitter, pin: string) {
    && Settled(r) && r.key == NODE_VARIABLE && Count('\n', r.value) == Count('\r', r.value) == 0
    && s == StateAfter(Between, r.value)
    && (s == Word(pin) || (s.Quoted? && '-' in s.text))
  }

  lemma HardenedState(args: string, disableWallet: bool)
    ensures
      var hardened, pins := F.Harden(args, disableWallet), F.Pins(disableWallet);
      var r := After(OPENED, hardened);
      HasNo(hardened, IsNewline) && AtPin(r, StateAfter(Between, r.value), pins[|pins| - 1])
  {
    hide F.Harden, F.Pins;
    var front, token, last := HardenedEnd(args, disableWallet);
    var hardened := F.Harden(args, disableWallet);
    var before := ReaderAtPin(front, token, last, hardened);
    OneLineRead(OPENED, hardened, "");
    NoLineEnds(hardened);
    assert "" + Added(OPENED, hardened) == Added(OPENED, hardened);
    StateAtPin(before, token, last);
  }

  lemma ReaderAtPin(front: string, token: string, last: string, line: string) returns (before: string)
    requires line == front + (" " + token) + (" " + last) && HasNo(line, IsNewline)
    requires IsClean(token) && IsClean(last) && token != "" && last != ""
    ensures Settled(After(OPENED, line)) && After(OPENED, line).value == before + token + " " + last
  {
    var r0 := After(OPENED, front);
    assert line == front + ((" " + token) + (" " + last));
    PartIsOneLine(front, (" " + token) + (" " + last), line);
    OneLineRead(OPENED, front, "");
    before := TokenSettles(r0, token);
    TokenTaken(After(r0, " " + token), last);
    AfterTwo(OPENED, front + (" " + token), " " + last);
    AfterTwo(OPENED, front, " " + token);
  }

  lemma PartIsOneLine(a: string, b: string, whole: string)
    requires HasNo(whole, IsNewline) && whole == a + b
    ensures HasNo(a, IsNewline)
  {
    forall i | 0 <= i < |a| ensures !IsNewline(a[i]) {
      assert a[i] == whole[i];
    }
  }

  lemma NoLineEnds(line: string)
    requires HasNo(line, IsNewline)
    ensures Count('\n', Added(OPENED, line)) == Count('\r', Added(OPENED, line)) == 0
  {
    CountZero('\n', line);
    CountZero('\r', line);
    AddedCount(OPENED, line, '\n');
    AddedCount(OPENED, line, '\r');
  }

  lemma StateAtPin(before: string, token: string, last: string)
    requires IsClean(token) && IsClean(last) && token != "" && last != "" && token[0] == '-'
    ensures
      var s := StateAfter(Between, before + token + " " + last);
      s == Word(last) || (s.Quoted? && '-' in s.text)
  {
    StateAfterTwo(Between, before + token, " " + last);
    StateAfterTwo(Between, before, token);
    assert before + token + (" " + last) == before + token + " " + last;
    var s := StateAfter(Between, before);
    TokenEntered(s, token);
    TokenFollows(StateAfter(s, token), last);
  }

  // ---------------------------------------------------------- the node's variable

  lemma {:induction false} LookupFinds(pairs: Env, key: string) returns (j: nat)
    requires exists i :: 0 <= i < |pairs| && pairs[i].0 == key
    ensures j < |pairs| && pairs[j].0 == key && Lookup(pairs, key) == Some(pairs[j].1)
  {
    if pairs[|pairs| - 1].0 == key {
      j := |pairs| - 1;
    } else {
      var i :| 0 <= i < |pairs| && pairs[i].0 == key;
      assert pairs[..|pairs| - 1][i].0 == key;
      j := LookupFinds(pairs[..|pairs| - 1], key);
    }
  }

  lemma {:induction false} WeightOfLater(pairs: Env, j: nat)
    requires j < |pairs|
    ensures |pairs[j].0| + |pairs[j].1| + 2 <= Weight(pairs)
  {
    if j > 0 {
      WeightOfLater(pairs[1..], j - 1);
    }
  }

  /** The variable is the one the line assigns, or a later line is short. */
  lemma NodeValue(r: Reader, text: string) returns (value: string)
    requires Settled(r) && r.key == NODE_VARIABLE && IsName(NODE_VARIABLE)
    ensures Lookup(Named(Read(r, text)), NODE_VARIABLE) == Some(value)
    ensures value == r.value + Added(r, text) || |value| + |NODE_VARIABLE| < |text|
  {
    hide NODE_VARIABLE, IsName;
    FirstRead(r, text);
    var all := Read(r, text);
    var named := Named(all);
    assert named == [all[0]] + Named(all[1..]);
    assert named[0].0 == NODE_VARIABLE;
    var j := LookupFinds(named, NODE_VARIABLE);
    value := named[j].1;
    if j > 0 {
      WeightBound(r, text);
      NamedWeight(all);
      WeightOfLater(named[1..], j - 1);
    }
  }

  lemma NodeVariableIsName()
    ensures IsName(NODE_VARIABLE)
  {
  }

  /** What the unit receives from the node's line. */
  lemma ReceivedFromLine(args: string)
    ensures ReceivedArguments("BITCOIND_CLI_ARGS=\"" + args + "\"") ==
      if !Accepted(args) then []
      else
        match Lookup(Named(Read(OPENED, args + "\"")), NODE_VARIABLE)
        case None => []
        case Some(value) => Words(Between, value)
  {
    var text := "BITCOIND_CLI_ARGS=\"" + args + "\"";
    LineAccepted(args);
    if Accepted(args) {
      LineOpened(args);
    }
  }

  lemma LineAccepted(args: string)
    ensures Accepted("BITCOIND_CLI_ARGS=\"" + args + "\"") <==> Accepted(args)
  {
    assert Accepted("BITCOIND_CLI_ARGS=\"") && Accepted("\"");
    BothAccepted("BITCOIND_CLI_ARGS=\"" + args, "\"");
    BothAccepted("BITCOIND_CLI_ARGS=\"", args);
  }

  lemma BothAccepted(a: string, b: string)
    ensures Accepted(a + b) <==> Accepted(a) && Accepted(b)
  {
    var whole := a + b;
    assert forall i | 0 <= i < |a| :: whole[i] == a[i];
    assert forall i | 0 <= i < |b| :: whole[|a| + i] == b[i];
  }

  lemma LineOpened(args: string)
    ensures Read(START, "BITCOIND_CLI_ARGS=\"" + args + "\"") == Read(OPENED, args + "\"")
  {
    var rest := args + "\"";
    assert "BITCOIND_CLI_ARGS=\"" + args + "\"" == NODE_VARIABLE + "=" + ("\"" + rest);
    NodeVariableIsName();
    NameRead(NODE_VARIABLE, "\"" + rest);
    assert ("\"" + rest)[1..] == rest;
  }

  // --------------------------------------------------- two tokens behind the pins

  /** What follows the hardened arguments on the line: two tokens and the closing quote. */
  ghost function Tail(a: string, b: string): string {
    " " + a + " " + b + "\""
  }

  lemma EndsWithCounts(words: seq<string>, a: string, b: string, c: char)
    requires EndsWith(words, a, b)
    ensures Size(words) >= |a| + |b| + 2
    ensures CountAll(c, words) >= Count(c, a) + Count(c, b)
    ensures |words| > 2 ==> CountAll(c, words) >= Count(c, words[0]) + Count(c, a) + Count(c, b)
  {
    var front := words[..|words| - 2];
    assert words == front + [a, b];
    hide EndsWith, Count;
    SizeOfTwo(front, [a, b]);
    CountAllOfTwo(c, front, [a, b]);
    PairCounts(a, b, c);
    if |words| > 2 {
      assert front[0] == words[0];
    }
  }

  lemma PairCounts(a: string, b: string, c: char)
    ensures Size([a, b]) == |a| + |b| + 2 && CountAll(c, [a, b]) == Count(c, a) + Count(c, b)
  {
    assert [a, b] == [a] + [b];
    SizeOfTwo([a], [b]);
    CountAllOfTwo(c, [a], [b]);
  }

  lemma CountTail(a: string, b: string, c: char)
    requires c != ' ' && c != '"'
    ensures Count(c, a + " " + b + "\"") == Count(c, a) + Count(c, b)
  {
    CountOfTwo(c, a + " " + b, "\"");
    CountOfTwo(c, a + " ", b);
    CountOfTwo(c, a, " ");
    CountZero(c, " ");
    CountZero(c, "\"");
  }

  /** A later line is too short to hold both tokens. */
  lemma LaterLineIsShort(value: string, a: string, b: string)
    requires |value| + |NODE_VARIABLE| < |Tail(a, b)|
    ensures !EndsWith(Words(Between, value), a, b)
  {
    SizeBound(Between, value);
    if EndsWith(Words(Between, value), a, b) {
      EndsWithCounts(Words(Between, value), a, b, '-');
    }
  }

  /** The two tokens as they reach the splitter, without their first character. */
  lemma TailAdded(r: Reader, a: string, b: string) returns (after: Reader, rest: string)
    requires Settled(r) && a != "" && a[0] == '-'
    ensures after == r.(value := r.value + " -") && rest == a[1..] + " " + b + "\""
    ensures Added(r, Tail(a, b)) == " -" + Added(after, rest)
    ensures a + " " + b + "\"" == "-" + rest
  {
    after, rest := r.(value := r.value + " -"), a[1..] + " " + b + "\"";
    var blank := Next(r, ' ');
    TailInParts(a, b);
    assert Tail(a, b)[0] == ' ' && Tail(a, b)[1..] == "-" + rest && ("-" + rest)[1..] == rest;
    AddedStep(r, Tail(a, b));
    AddedStep(blank, "-" + rest);
    FirstTaken(r, '-');
    assert r.value + " " + ['-'] == r.value + " -";
    assert Next(blank, '-') == after;
    TwoSteps(r.value, blank.value, after.value, Added(after, rest));
  }

  lemma TailInParts(a: string, b: string)
    requires a != "" && a[0] == '-'
    ensures Tail(a, b) == " " + ("-" + (a[1..] + " " + b + "\""))
    ensures a + " " + b + "\"" == "-" + (a[1..] + " " + b + "\"")
  {
    assert a == "-" + a[1..];
  }

  lemma TwoSteps(first: string, second: string, third: string, rest: string)
    requires first <= second <= third && third == first + " -"
    ensures second[|first|..] + (third[|second|..] + rest) == " -" + rest
  {
  }

  lemma {:induction false} FirstWordGrows(s: Splitter, text: string)
    requires !s.Between?
    ensures Words(s, text) != [] && s.text <= Words(s, text)[0]
    decreases |text|
  {
    if text != "" && Finished(s, text[0]) == [] {
      FirstWordGrows(Step(s, text[0]), text[1..]);
    }
  }

  lemma {:induction false} CountOfPrefix(c: char, a: string, b: string)
    requires a <= b
    ensures Count(c, a) <= Count(c, b)
  {
    assert b == a + b[|a|..];
    CountOfTwo(c, a, b[|a|..]);
  }

  lemma WordsInQuote(r: Reader, s: Splitter, added: string)
    requires s == StateAfter(Between, r.value) && s.Quoted?
    ensures Words(Between, r.value + (" -" + added)) == Emitted(Between, r.value) + Words(Longer(s, " -"), added)
  {
    WordsOfTwo(Between, r.value, " -" + added);
    WordsOfTwo(s, " -", added);
    DashInQuote(s);
    hide Words, Emitted, StateAfter;
  }

  lemma DashInQuote(s: Splitter)
    requires s.Quoted?
    ensures StateAfter(s, " -") == Longer(s, " -") && Emitted(s, " -") == []
  {
    assert " " + "-" == " -";
    TokenFollows(s, "-");
  }

  lemma CountBehindDash(c: char, rest: string)
    ensures Count(c, "-" + rest) == (if c == '-' then 1 else 0) + Count(c, rest)
  {
    CountFirst(c, "-" + rest);
    assert ("-" + rest)[1..] == rest && [("-" + rest)[0]] == "-";
  }

  /** A line end of the tokens that the value lacks is missing from the words. */
  lemma LineEndMissing(value: string, added: string, rest: string, a: string, b: string, d: char)
    requires IsNewline(d) && Count(d, value) == 0 && Count(d, added) < Count(d, rest)
    requires a + " " + b + "\"" == "-" + rest
    ensures !EndsWith(Words(Between, value + (" -" + added)), a, b)
  {
    var all := value + (" -" + added);
    CountBound(d, Between, all);
    CountOfTwo(d, value, " -" + added);
    CountOfTwo(d, " -", added);
    CountZero(d, " -");
    CountTail(a, b, d);
    CountBehindDash(d, rest);
    if EndsWith(Words(Between, all), a, b) {
      EndsWithCounts(Words(Between, all), a, b, d);
    }
  }

  /** With all dashes of the tokens there, the open quote's word has too many of them. */
  lemma TooManyDashes(before: seq<string>, s: Splitter, added: string, rest: string, a: string, b: string)
    requires s.Quoted? && '-' in s.text && Count('-', added) == Count('-', rest)
    requires a + " " + b + "\"" == "-" + rest
    ensures !EndsWith(before + Words(Longer(s, " -"), added), a, b)
  {
    var words := Words(Longer(s, " -"), added);
    DashesInQuote(s);
    CountBound('-', Longer(s, " -"), added);
    CountTail(a, b, '-');
    CountBehindDash('-', rest);
    FirstWordGrows(Longer(s, " -"), added);
    CountOfPrefix('-', s.text + " -", words[0]);
    hide Words, Count, EndsWith;
    FirstWordHasMore(before, words, a, b, Count('-', s.text));
  }

  lemma DashesInQuote(s: Splitter)
    requires s.Quoted? && '-' in s.text
    ensures Count('-', Longer(s, " -").text) == Count('-', s.text) + 1 && Count('-', s.text) > 0
  {
    CountOfTwo('-', s.text, " -");
    CountFirst('-', " -");
    CountZero('-', s.text);
    assert " -"[1..] == "-";
  }

  lemma FirstWordHasMore(before: seq<string>, words: seq<string>, a: string, b: string, more: nat)
    requires words != [] && more > 0 && Count('-', words[0]) > more
    requires CountAll('-', words) == more + Count('-', a) + Count('-', b)
    ensures !EndsWith(before + words, a, b)
  {
    if EndsWith(before + words, a, b) {
      if |words| > 1 {
        assert EndsWith(words, a, b);
        EndsWithCounts(words, a, b, '-');
        if |words| == 2 {
          assert words == [a] + [b];
          CountAllOfTwo('-', [a], [b]);
        }
      }
    }
  }

  /** A quote that is still open behind the pins swallows the tokens, whatever they are. */
  lemma OpenQuoteSwallows(r: Reader, s: Splitter, pin: string, a: string, b: string)
    requires AtPin(r, s, pin) && s.Quoted? && a != "" && a[0] == '-'
    ensures !EndsWith(Words(Between, r.value + Added(r, Tail(a, b))), a, b)
  {
    var after, rest := TailAdded(r, a, b);
    var added := Added(after, rest);
    AddedCountExactly(after, rest, '-');
    WordsInQuote(r, s, added);
    if Count('\n', added) < Count('\n', rest) {
      LineEndMissing(r.value, added, rest, a, b, '\n');
    } else if Count('\r', added) < Count('\r', rest) {
      LineEndMissing(r.value, added, rest, a, b, '\r');
    } else {
      TooManyDashes(Emitted(Between, r.value), s, added, rest, a, b);
    }
  }

  // ------------------------------------------------------- quotes that are closed

  lemma WordsBehindPin(r: Reader, pin: string, added: string)
    requires StateAfter(Between, r.value) == Word(pin)
    ensures Words(Between, r.value + (" " + added)) == Emitted(Between, r.value) + [pin] + Words(Between, added)
  {
    WordsOfTwo(Between, r.value, " " + added);
    assert (" " + added)[1..] == added;
  }

  /** Words without anything removed are the blank-separated parts of a bare text. */
  lemma BareTokensAreClean(words: seq<string>, text: string, a: string, b: string)
    requires IsBare(text) && words == Split(text, IsShellSpace) && EndsWith(words, a, b)
    requires CountAll('\'', words) <= Count('\'', text) && CountAll('"', words) <= Count('"', text)
    requires CountAll('\\', words) <= Count('\\', text)
    ensures IsClean(a) && IsClean(b)
  {
    assert AllWords(words, IsShellSpace);
    forall c | IsSpecial(c) ensures c !in a && c !in b {
      CountZero(c, text);
      EndsWithCounts(words, a, b, c);
      CountZero(c, a);
      CountZero(c, b);
    }
  }

  lemma NothingLostIsClean(text: string, a: string, b: string)
    requires |text| <= |a| + |b| + 1
    requires EndsWith(Words(Between, text), a, b)
    ensures IsClean(a) && IsClean(b)
  {
    var words := Words(Between, text);
    EndsWithCounts(words, a, b, '-');
    SizeBound(Between, text);
    NothingLostIsBare(Between, text);
    BareWords(text);
    CountBound('\'', Between, text);
    CountBound('"', Between, text);
    CountBound('\\', Between, text);
    BareTokensAreClean(words, text, a, b);
  }

  lemma FinalQuoteLostIsClean(a: string, b: string)
    requires b != "" && EndsWith(Words(Between, a + " " + b + "\""), a, b)
    ensures IsClean(a) && IsClean(b)
  {
    var tokens, text := a + " " + b, a + " " + b + "\"";
    var words := Words(Between, text);
    EndsWithCounts(words, a, b, '\'');
    EndsWithCounts(words, a, b, '\\');
    CountTail(a, b, '\'');
    CountTail(a, b, '\\');
    OnlyFinalQuoteLost(Between, text);
    assert text[..|text| - 1] == tokens;
    BareWords(tokens);
    WordsOfTwo(Between, tokens, "\"");
    WordsOfTwo(Between, tokens, "");
    assert tokens + "" == tokens;
    FinalQuoteAfter(StateAfter(Between, tokens));
    assert words[|words| - 1] == Begun(StateAfter(Between, tokens));
    assert words == Words(Between, tokens);
    CountBound('\'', Between, tokens);
    CountBound('"', Between, tokens);
    CountBound('\\', Between, tokens);
    BareTokensAreClean(words, tokens, a, b);
  }

  lemma FinalQuoteAfter(s: Splitter)
    requires s.Between? || s.Word?
    ensures Words(s, "\"") == [Begun(s)] && Words(s, "") == if s.Between? then [] else [s.text]
  {
    assert "\""[1..] == "";
  }

  /** Tokens that arrive behind the pins are clean. */
  lemma ArrivedTokensAreClean(r: Reader, s: Splitter, pin: string, a: string, b: string)
    requires AtPin(r, s, pin) && s == Word(pin) && a != "" && a[0] == '-' && b != ""
    requires a != pin && b != pin
    requires EndsWith(Words(Between, r.value + Added(r, Tail(a, b))), a, b)
    ensures IsClean(a) && IsClean(b)
  {
    hide Words, EndsWith, IsClean, Added, Tail;
    var after, rest := TailAdded(r, a, b);
    var text := "-" + Added(after, rest);
    assert " -" + Added(after, rest) == " " + text;
    WordsBehindPin(r, pin, text);
    EndBehindPin(Emitted(Between, r.value), pin, Words(Between, text), a, b);
    if |text| <= |a| + |b| + 1 {
      NothingLostIsClean(text, a, b);
    } else {
      AddedAsItStands(after, rest);
      FinalQuoteLostIsClean(a, b);
    }
  }

  lemma AddedAsItStands(r: Reader, text: string)
    requires Settled(r) && text != "" && text[|text| - 1] == '"' && |Added(r, text)| >= |text|
    ensures Added(r, text) == text
  {
    AddedLength(r, text);
    if r.mode.DoubleQuoted? {
      AddedInDoubleQuotes(r, text);
    }
    AddedWhole(r, text);
    assert "" + text == text;
  }

  lemma EndBehindPin(before: seq<string>, pin: string, words: seq<string>, a: string, b: string)
    requires a != pin && b != pin && EndsWith(before + [pin] + words, a, b)
    ensures EndsWith(words, a, b)
  {
    assert (before + [pin] + words)[|before|] == pin;
  }

  // ------------------------------------------------------ clean tokens do arrive

  /** Clean tokens are read as they are; the closing quote may be read with them. */
  lemma CleanTailRead(r: Reader, a: string, b: string) returns (quote: string)
    requires Settled(r) && IsClean(a) && IsClean(b) && a != "" && b != ""
    ensures quote == "" || quote == "\""
    ensures r.value + Added(r, Tail(a, b)) == r.value + (" " + a + (" " + b)) + quote
    ensures Read(r, Tail(a, b)) == [(r.key, r.value + Added(r, Tail(a, b)))]
  {
    var tokens := " " + a + (" " + b);
    var after := r.(value := r.value + tokens);
    TailIsOneLine(a, b);
    OneLineRead(r, Tail(a, b), "");
    assert Tail(a, b) + "" == Tail(a, b);
    assert Tail(a, b) == tokens + "\"";
    TokensTaken(r, a, b);
    AfterTwo(r, tokens, "\"");
    assert "\""[1..] == "";
    quote := if r.mode.DoubleQuoted? then "" else "\"";
    assert Next(after, '"').value == after.value + quote by {
      assert "" + ['"'] == "\"";
    }
  }

  lemma TokensTaken(r: Reader, a: string, b: string)
    requires Settled(r) && IsClean(a) && IsClean(b) && a != "" && b != ""
    ensures After(r, " " + a + (" " + b)) == r.(value := r.value + (" " + a + (" " + b)))
  {
    hide After, IsClean;
    AfterTwo(r, " " + a, " " + b);
    TokenTaken(r, a);
    TokenTaken(r.(value := r.value + " " + a), b);
    TokensJoined(r.value, a, b);
  }

  lemma TokensJoined(before: string, a: string, b: string)
    ensures before + " " + a + " " + b == before + (" " + a + (" " + b))
  {
  }

  lemma TailIsOneLine(a: string, b: string)
    requires IsClean(a) && IsClean(b)
    ensures HasNo(Tail(a, b), IsNewline)
  {
    var tail := Tail(a, b);
    forall i | 0 <= i < |tail| ensures !IsNewline(tail[i]) {
      if 1 <= i < 1 + |a| {
        assert tail[i] == a[i - 1];
      } else if 2 + |a| <= i < |tail| - 1 {
        assert tail[i] == b[i - 2 - |a|];
      }
    }
  }

  lemma TokenWords(value: string, pin: string, a: string, b: string, quote: string)
    requires StateAfter(Between, value) == Word(pin)
    requires IsClean(a) && IsClean(b) && a != "" && b != "" && (quote == "" || quote == "\"")
    ensures Words(Between, value + (" " + a + (" " + b)) + quote) == Words(Between, value) + [a, b]
  {
    hide Words, Emitted, StateAfter, IsClean;
    var second, tokens := " " + b + quote, " " + a + (" " + b + quote);
    QuoteJoined(value, a, b, quote);
    assert value + "" == value;
    WordsOfTwo(Between, value, tokens);
    WordsOfTwo(Between, value, "");
    WordsOfTwo(Word(pin), " " + a, second);
    TokenFollows(Word(pin), a);
    WordsOfTwo(Word(a), " " + b, quote);
    TokenFollows(Word(a), b);
    FinalQuoteAfter(Word(b));
    FinalQuoteAfter(Word(pin));
    ThreeMore(Emitted(Between, value), pin, a, b);
  }

  lemma QuoteJoined(before: string, a: string, b: string, quote: string)
    ensures before + (" " + a + (" " + b)) + quote == before + (" " + a + (" " + b + quote))
  {
  }

  lemma ThreeMore(before: seq<string>, pin: string, a: string, b: string)
    ensures before + ([pin] + ([a] + [b])) == before + [pin] + [a, b]
  {
  }

  /** Clean tokens behind the pins are received as they are. */
  lemma CleanTokensArrive(r: Reader, s: Splitter, pin: string, a: string, b: string)
    requires AtPin(r, s, pin) && s == Word(pin)
    requires IsClean(a) && IsClean(b) && a != "" && b != ""
    ensures Lookup(Named(Read(r, Tail(a, b))), NODE_VARIABLE) == Some(r.value + Added(r, Tail(a, b)))
    ensures Words(Between, r.value + Added(r, Tail(a, b))) == Words(Between, r.value) + [a, b]
  {
    var quote := CleanTailRead(r, a, b);
    NodeVariableIsName();
    hide IsName, NODE_VARIABLE;
    var read := Read(r, Tail(a, b));
    assert read[1..] == [] && Named(read) == read;
    assert read[|read| - 1] == (r.key, r.value + Added(r, Tail(a, b)));
    TokenWords(r.value, pin, a, b, quote);
  }

  /** Without tokens, the last word is the pin. */
  lemma NothingBehindPin(r: Reader, s: Splitter, pin: string)
    requires AtPin(r, s, pin) && s == Word(pin)
    ensures Lookup(Named(Read(r, "\"")), NODE_VARIABLE).Some?
    ensures
      var words := Words(Between, Lookup(Named(Read(r, "\"")), NODE_VARIABLE).value);
      words == Words(Between, r.value) && words != [] && words[|words| - 1] == pin
  {
    NodeVariableIsName();
    hide IsName, NODE_VARIABLE;
    assert "\""[1..] == "" && "" + ['"'] == "\"";
    var after := Next(r, '"');
    var read := Read(r, "\"");
    assert read == [(r.key, after.value)];
    assert read[1..] == [] && Named(read) == read && read[..0] == [];
    WordsOfTwo(Between, r.value, "\"");
    WordsOfTwo(Between, r.value, "");
    assert r.value + "" == r.value;
    FinalQuoteAfter(s);
  }

  /** Two tokens behind the pins are the last words received exactly when no quote is open
      there and both are clean. */
  lemma TokensReceived(r: Reader, s: Splitter, pin: string, a: string, b: string)
    requires AtPin(r, s, pin) && a != "" && a[0] == '-' && b != "" && a != pin && b != pin
    ensures
      var value := Lookup(Named(Read(r, Tail(a, b))), NODE_VARIABLE);
      value.Some? && (EndsWith(Words(Between, value.value), a, b) <==> s.Word? && IsClean(a) && IsClean(b))
  {
    NodeVariableIsName();
    hide IsName, Tail, IsClean, Words, NODE_VARIABLE, Read, Added;
    var value := NodeValue(r, Tail(a, b));
    if value != r.value + Added(r, Tail(a, b)) {
      LaterLineIsShort(value, a, b);
    }
    if s.Quoted? {
      OpenQuoteSwallows(r, s, pin, a, b);
    } else if IsClean(a) && IsClean(b) {
      CleanTokensArrive(r, s, pin, a, b);
    } else if EndsWith(Words(Between, r.value + Added(r, Tail(a, b))), a, b) {
      ArrivedTokensAreClean(r, s, pin, a, b);
    }
  }

  // ------------------------------------------------------------- the main results

  ghost function UserOption(c: Config): (option: string)
    ensures option == "-rpcuser=" + c.rpcUser
  {
    F.Assignment(RPC_USER, c.rpcUser)
  }

  ghost function PasswordOption(c: Config): (option: string)
    ensures option == "-rpcpassword=" + c.rpcPassword
  {
    F.Assignment(RPC_PASSWORD, c.rpcPassword)
  }

  ghost function Hardened(c: Config): string {
    F.Harden(c.serviceArgs, c.disableWallet)
  }

  lemma OptionsAreNoPins(c: Config)
    ensures
      var pins := F.Pins(c.disableWallet);
      var pin := pins[|pins| - 1];
      UserOption(c) != pin && PasswordOption(c) != pin
    ensures UserOption(c) != "" && UserOption(c)[0] == '-' && PasswordOption(c) != ""
  {
    var user, password := UserOption(c), PasswordOption(c);
    assert user[4] == 'u' && password[5] == 'a' && user[1] == password[1] == 'r';
    assert F.RPC_PINS[2][4] == 'p' && F.RPC_PINS[2][5] == 'o' && F.WALLET_PIN[1] == 'd';
    var pins := F.Pins(c.disableWallet);
    assert pins[|pins| - 1] == if c.disableWallet then F.WALLET_PIN else F.RPC_PINS[2];
  }

  lemma OptionIsClean(name: string, value: string)
    requires IsClean(name)
    ensures IsClean(F.Assignment(name, value)) <==> IsClean(value)
  {
    var option := F.Assignment(name, value);
    assert forall i | 0 <= i < |name| :: option[i + 1] == name[i];
    assert forall i | 0 <= i < |value| :: option[i + |name| + 2] == value[i];
  }

  lemma CredentialNamesAreClean()
    ensures IsClean(RPC_USER) && IsClean(RPC_PASSWORD)
  {
  }

  lemma TokensAccepted(hardened: string, user: string, password: string)
    ensures Accepted(hardened + " " + F.Assignment(RPC_USER, user) + " " + F.Assignment(RPC_PASSWORD, password))
      <==> Accepted(hardened) && Accepted(user) && Accepted(password)
  {
    var a, b := F.Assignment(RPC_USER, user), F.Assignment(RPC_PASSWORD, password);
    assert Accepted(" ") && Accepted("-" + RPC_USER + "=") && Accepted("-" + RPC_PASSWORD + "=");
    BothAccepted(hardened + " " + a + " ", b);
    BothAccepted(hardened + " " + a, " ");
    BothAccepted(hardened + " ", a);
    BothAccepted(hardened, " ");
    BothAccepted("-" + RPC_USER + "=", user);
    BothAccepted("-" + RPC_PASSWORD + "=", password);
  }

  lemma LineInParts(hardened: string, a: string, b: string)
    ensures hardened + " " + a + " " + b + "\"" == hardened + Tail(a, b)
  {
  }

  lemma CredentialsReceived(c: Config)
    requires HasCredentials(c)
    ensures EndsWith(ReceivedArguments(NodeEnvText(c)), UserOption(c), PasswordOption(c)) <==>
      && IsCleanValue(c.rpcUser) && IsCleanValue(c.rpcPassword)
      && ClosesQuotes(Hardened(c)) && Accepted(Hardened(c))
  {
    var a, b, hardened, pins := UserOption(c), PasswordOption(c), Hardened(c), F.Pins(c.disableWallet);
    var pin, r := pins[|pins| - 1], After(OPENED, hardened);
    HardenedState(c.serviceArgs, c.disableWallet);
    OptionsAreNoPins(c);
    ReceivedFromLine(NodeArgs(c));
    TokensAccepted(hardened, c.rpcUser, c.rpcPassword);
    CredentialNamesAreClean();
    OptionIsClean(RPC_USER, c.rpcUser);
    OptionIsClean(RPC_PASSWORD, c.rpcPassword);
    LineInParts(hardened, a, b);
    hide F.Harden, F.Pins, F.Assignment, RPC_USER, RPC_PASSWORD, Read, Tail, IsClean, Words, EndsWith, Accepted;
    OneLineRead(OPENED, hardened, Tail(a, b));
    TokensReceived(r, StateAfter(Between, r.value), pin, a, b);
  }

  lemma PinIsLast(r: Reader, s: Splitter, pin: string, a: string, b: string)
    requires AtPin(r, s, pin) && s == Word(pin) && b != pin
    ensures
      var value := Lookup(Named(Read(r, "\"")), NODE_VARIABLE);
      value.Some? && !EndsWith(Words(Between, value.value), a, b)
  {
    NothingBehindPin(r, s, pin);
  }

  lemma NothingReceived(c: Config)
    requires !HasCredentials(c) && ClosesQuotes(Hardened(c))
    ensures !EndsWith(ReceivedArguments(NodeEnvText(c)), UserOption(c), PasswordOption(c))
  {
    var a, b, hardened, pins := UserOption(c), PasswordOption(c), Hardened(c), F.Pins(c.disableWallet);
    var pin, r := pins[|pins| - 1], After(OPENED, hardened);
    HardenedState(c.serviceArgs, c.disableWallet);
    OptionsAreNoPins(c);
    ReceivedFromLine(NodeArgs(c));
    hide F.Harden, F.Pins, F.Assignment, RPC_USER, RPC_PASSWORD, Read, Words, EndsWith, Accepted;
    OneLineRead(OPENED, hardened, "\"");
    PinIsLast(r, StateAfter(Between, r.value), pin, a, b);
    assert !EndsWith([], a, b) by {
      NoWordsEnd(a, b);
    }
  }

  lemma NoWordsEnd(a: string, b: string)
    ensures !EndsWith([], a, b)
  {
  }

  /** The arguments of the node end in the configured user and password exactly when both
      are set and clean, and the operator's arguments leave no quote open. (An open quote
      without credentials behind it may turn anything into the last two words.) */
  lemma NodeReceivesCredentials(c: Config)
    ensures HasCredentials(c) || ClosesQuotes(Hardened(c)) ==>
      (EndsWith(ReceivedArguments(NodeEnvText(c)), UserOption(c), PasswordOption(c)) <==>
        && HasCredentials(c) && IsCleanValue(c.rpcUser) && IsCleanValue(c.rpcPassword)
        && ClosesQuotes(Hardened(c)) && Accepted(Hardened(c)))
  {
    hide ReceivedArguments, NodeEnvText, EndsWith, ClosesQuotes, Hardened, IsCleanValue, Accepted;
    if HasCredentials(c) {
      CredentialsReceived(c);
    } else if ClosesQuotes(Hardened(c)) {
      NothingReceived(c);
    }
  }

  // ---------------------------------------------------- operator's arguments in quotes

  /** Between double quotes, text without quotes and backslashes is taken as it stands. */
  lemma {:induction false} BareTextTaken(r: Reader, text: string)
    requires r.mode.DoubleQuoted? && r.blanks == "" && IsBare(text)
    ensures After(r, text) == r.(value := r.value + text)
    decreases |text|
  {
    if text == "" {
      assert r.value + text == r.value;
    } else {
      assert !IsSpecial(text[0]);
      BareTextTaken(r.(value := r.value + [text[0]]), text[1..]);
      assert r.value + [text[0]] + text[1..] == r.value + text;
    }
  }

  lemma {:induction false} BareTextStaysQuoted(s: Splitter, text: string)
    requires s.Quoted? && IsBare(text)
    ensures StateAfter(s, text).Quoted?
    decreases |text|
  {
    if text != "" {
      assert !IsSpecial(text[0]);
      BareTextStaysQuoted(Step(s, text[0]), text[1..]);
    }
  }

  /** A bare line is received as its blank-separated words. */
  lemma BareLineReceived(args: string)
    requires IsBare(args) && Accepted(args)
    ensures ReceivedArguments("BITCOIND_CLI_ARGS=\"" + args + "\"") == Split(args, IsShellSpace)
  {
    ReceivedFromLine(args);
    BareTextTaken(OPENED, args);
    assert "" + args == args && "\""[1..] == "";
    ReadOn(OPENED, args, "\"");
    NodeVariableIsName();
    hide IsName, NODE_VARIABLE, Accepted;
    var read := Read(OPENED, args + "\"");
    assert read == [(NODE_VARIABLE, args)];
    assert read[1..] == [] && Named(read) == read;
    BareWords(args);
  }

  /** As long as no assignment is completed, reading goes on. */
  lemma {:induction false} ReadOn(r: Reader, text: string, rest: string)
    requires r.mode.DoubleQuoted? && r.blanks == "" && IsBare(text)
    ensures Read(r, text + rest) == Read(After(r, text), rest)
    decreases |text|
  {
    if text == "" {
      assert text + rest == rest;
    } else {
      assert !IsSpecial(text[0]) && (text + rest)[1..] == text[1..] + rest;
      ReadOn(Next(r, text[0]), text[1..], rest);
    }
  }

  /** Without quotes and backslashes the node receives exactly what the charm composed: the
      operator's tokens but for the managed options, the pins, and the credentials. */
  lemma QuoteFreeArgumentsReceived(c: Config)
    requires QuoteFree(c.serviceArgs) && Accepted(NodeArgs(c))
    requires HasCredentials(c) ==> IsCleanValue(c.rpcUser) && IsCleanValue(c.rpcPassword)
    ensures ReceivedArguments(NodeEnvText(c)) ==
      F.Without(Split(c.serviceArgs, IsSpace), F.Managed(c.disableWallet)) + F.Pins(c.disableWallet)
      + if HasCredentials(c) then [UserOption(c), PasswordOption(c)] else []
  {
    var hardened := Hardened(c);
    F.HardenSplits(c.serviceArgs, c.disableWallet);
    HardenedIsBare(c);
    CredentialNamesAreClean();
    OptionIsClean(RPC_USER, c.rpcUser);
    OptionIsClean(RPC_PASSWORD, c.rpcPassword);
    hide F.Harden, F.Pins, F.Without, F.Assignment, RPC_USER, RPC_PASSWORD, ReceivedArguments, Split, Accepted;
    if HasCredentials(c) {
      CleanTokensSplit(hardened, UserOption(c), PasswordOption(c));
    }
    BareLineReceived(NodeArgs(c));
  }

  lemma HardenedIsBare(c: Config)
    requires QuoteFree(c.serviceArgs)
    ensures IsBare(Hardened(c))
  {
    var tokens, managed := Split(c.serviceArgs, IsSpace), F.Managed(c.disableWallet);
    F.HardenTokensShape(tokens, c.disableWallet);
    F.SplitQuoteFree(c.serviceArgs, IsSpace);
    F.WithoutQuoteFree(tokens, managed);
    F.PinsQuoteFree(c.disableWallet);
    hide F.Pins, F.HardenTokens;
    F.JoinQuoteFree(F.HardenTokens(tokens, c.disableWallet));
  }

  lemma CleanTokensSplit(front: string, a: string, b: string)
    requires IsBare(front) && IsClean(a) && IsClean(b) && a != "" && b != ""
    ensures IsBare(front + " " + a + " " + b)
    ensures Split(front + " " + a + " " + b, IsShellSpace) == Split(front, IsShellSpace) + [a, b]
  {
    BareSum(front + " " + a, b);
    BareSum(front, a);
    SplitAtBlank(front + " " + a, b, IsShellSpace);
    SplitAtBlank(front, a, IsShellSpace);
    CleanTokenSplits(a);
    CleanTokenSplits(b);
    hide Split, IsClean, IsBare;
    assert Split(front, IsShellSpace) + [a] + [b] == Split(front, IsShellSpace) + [a, b];
  }

  lemma BareSum(a: string, b: string)
    requires IsBare(a) && IsBare(b)
    ensures IsBare(a + " " + b)
  {
  }

  lemma CleanTokenSplits(token: string)
    requires IsClean(token) && token != ""
    ensures Split(token, IsShellSpace) == [token]
  {
    WordThenRest(token, "", IsShellSpace);
    assert token + "" == token;
  }

  /** A value of several words in quotes leaves a quote open: the line's own quote ends at
      the first of them, and the second is then an ordinary character of the value, which
      opens a quote when the value is split. */
  lemma QuotedValueLeavesQuoteOpen(option: string, first: string, second: string, disableWallet: bool)
    requires IsClean(option) && IsClean(first) && IsClean(second)
    requires first != "" && second != ""
    requires IsWord(option + "\"" + first, IsSpace) && IsWord(second + "\"", IsSpace)
    requires F.OptName(option + "\"" + first) !in F.Managed(disableWallet)
    requires F.OptName(second + "\"") !in F.Managed(disableWallet)
    ensures !ClosesQuotes(F.Harden(option + "\"" + first + " " + (second + "\""), disableWallet))
  {
    var a, b, pins := option + "\"" + first, second + "\"", F.Pins(disableWallet);
    TwoTokens(a, b, disableWallet);
    PinsJoined(disableWallet);
    hide F.Harden, F.Pins, F.OptName, F.Managed, IsWord, ClosesQuotes, IsClean, IsBare;
    QuotedValueRead(option, first, second, " " + Join(pins));
    QuoteInParts(a, second, Join(pins));
  }

  lemma QuoteInParts(a: string, second: string, pins: string)
    ensures a + " " + (second + "\"" + " " + pins) == a + " " + (second + ("\"" + (" " + pins)))
  {
  }

  lemma PinsJoined(disableWallet: bool)
    ensures IsBare(" " + Join(F.Pins(disableWallet))) && HasNo(" " + Join(F.Pins(disableWallet)), IsNewline)
  {
    F.PinsQuoteFree(disableWallet);
    F.PinsAreWords(disableWallet);
    hide F.Pins;
    F.JoinQuoteFree(F.Pins(disableWallet));
    JoinIsOneLine(F.Pins(disableWallet));
  }

  /** At the end of a bare value, bare text on the same line is taken, but for blanks that
      may still turn out to stand at the end. */
  lemma {:induction false} BareTextInValue(r: Reader, text: string) returns (taken: string)
    requires r.mode.InValue? && IsBare(r.blanks) && IsBare(text) && HasNo(text, IsNewline)
    ensures After(r, text).value == r.value + taken && IsBare(taken)
    decreases |text|
  {
    if text == "" {
      taken := "";
      assert r.value + "" == r.value;
    } else {
      var c, after := text[0], Next(r, text[0]);
      assert !IsSpecial(c) && !IsNewline(c);
      var rest := BareTextInValue(after, text[1..]);
      var gain := if IsShellSpace(c) then "" else r.blanks + [c];
      assert after.value == r.value + gain;
      taken := gain + rest;
      assert r.value + gain + rest == r.value + (gain + rest);
    }
  }

  lemma QuotedValueRead(option: string, first: string, second: string, rest: string)
    requires IsClean(option) && IsClean(first) && IsClean(second) && first != "" && second != ""
    requires IsBare(rest) && HasNo(rest, IsNewline)
    ensures !ClosesQuotes(option + "\"" + first + " " + (second + ("\"" + rest)))
  {
    var r0, r1 := OPENED.(value := option), Reader(InValue, NODE_VARIABLE, option + first, "");
    var r2 := r1.(value := option + first + " " + second);
    var r3 := r1.(value := option + first + " " + second + "\"");
    QuotedParts(option, first, second, rest);
    AfterTwo(OPENED, option, "\"" + first + (" " + second + ("\"" + rest)));
    CleanTextTaken(OPENED, option);
    assert "" + option == option;
    AfterTwo(r0, "\"" + first, " " + second + ("\"" + rest));
    SecondPart(r0, first);
    AfterTwo(r1, " " + second, "\"" + rest);
    TokenTaken(r1, second);
    QuoteTaken(r2, rest);
    var taken := BareTextInValue(r3, rest);
    SplitterInQuote(option + first, second, taken);
  }

  lemma QuotedParts(option: string, first: string, second: string, rest: string)
    ensures option + "\"" + first + " " + (second + ("\"" + rest))
         == option + ("\"" + first + (" " + second + ("\"" + rest)))
  {
  }

  lemma SecondPart(r: Reader, first: string)
    requires r.mode.DoubleQuoted? && r.blanks == "" && IsClean(first) && first != ""
    ensures After(r, "\"" + first) == r.(mode := InValue, value := r.value + first)
  {
    assert ("\"" + first)[1..] == first && !IsSpecial(first[0]) && !IsShellSpace(first[0]);
    var begun := r.(mode := InValue, value := r.value + [first[0]]);
    CleanTextTaken(begun, first[1..]);
    assert r.value + [first[0]] + first[1..] == r.value + first;
  }

  lemma QuoteTaken(r: Reader, rest: string)
    requires r.mode.InValue? && r.blanks == ""
    ensures After(r, "\"" + rest) == After(r.(value := r.value + "\""), rest)
  {
    assert ("\"" + rest)[1..] == rest && r.value + "" + ['"'] == r.value + "\"";
  }

  lemma SplitterInQuote(word: string, second: string, rest: string)
    requires IsClean(word) && IsClean(second) && word != "" && second != "" && IsBare(rest)
    ensures StateAfter(Between, word + " " + second + "\"" + rest).Quoted?
  {
    assert word + " " + second + "\"" + rest == word + (" " + second + ("\"" + rest));
    StateAfterTwo(Between, word, " " + second + ("\"" + rest));
    CleanWordBegins(word);
    StateAfterTwo(Word(word), " " + second, "\"" + rest);
    TokenFollows(Word(word), second);
    assert ("\"" + rest)[1..] == rest;
    BareTextStaysQuoted(Quoted(second, '"'), rest);
  }

  lemma TwoTokens(a: string, b: string, disableWallet: bool)
    requires IsWord(a, IsSpace) && IsWord(b, IsSpace)
    requires F.OptName(a) !in F.Managed(disableWallet) && F.OptName(b) !in F.Managed(disableWallet)
    ensures F.Harden(a + " " + b, disableWallet) == a + " " + (b + " " + Join(F.Pins(disableWallet)))
  {
    var pins := F.Pins(disableWallet);
    TwoWords(a, b);
    F.HardenTokensShape([a, b], disableWallet);
    F.KeepAll([a, b], F.Managed(disableWallet));
    assert |pins| > 1;
    hide F.Pins, F.OptName, F.Managed, F.Without, F.HardenTokens, IsWord, Split;
    JoinTwo(a, b, pins);
  }

  lemma TwoWords(a: string, b: string)
    requires IsWord(a, IsSpace) && IsWord(b, IsSpace)
    ensures Split(a + " " + b, IsSpace) == [a, b]
  {
    SplitAtBlank(a, b, IsSpace);
    WordThenRest(a, "", IsSpace);
    WordThenRest(b, "", IsSpace);
    assert a + "" == a && b + "" == b;
  }

  lemma JoinTwo(a: string, b: string, rest: seq<string>)
    requires rest != []
    ensures Join([a, b] + rest) == a + " " + (b + " " + Join(rest))
  {
    assert ([a, b] + rest)[1..] == [b] + rest && ([b] + rest)[1..] == rest;
  }
}
