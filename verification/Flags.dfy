/** Hardening of operator arguments (src/utils.py) and parsing of effective
    command-line flags (src/bitcoin_metadata.py). */
module Flags {
  import opened Text
  import opened Libraries

  // ---------------------------------------------------------------- hardening

  const RPC_BIND := "rpcbind"
  const RPC_PORT := "rpcport"
  const DISABLE_WALLET := "disablewallet"
  const LOOPBACK_4 := "127.0.0.1"
  const LOOPBACK_6 := "[::1]"
  const BITCOIND_RPC_PORT := "8332"
  const RPC_BIND_OPTS := {RPC_BIND, "rpcallowip", RPC_PORT}
  const WALLET_OPTS := {DISABLE_WALLET, "wallet"}
  const RPC_PINS := [
    Assignment(RPC_BIND, LOOPBACK_4), Assignment(RPC_BIND, LOOPBACK_6), Assignment(RPC_PORT, BITCOIND_RPC_PORT)
  ]
  const WALLET_PIN := "-" + DISABLE_WALLET

  /** A command-line option in its `-name=value` form. */
  function Assignment(name: string, value: string): (token: string)
    ensures IsOption(token)
  {
    "-" + name + "=" + value
  }

  predicate IsDash(c: char) {
    c == '-'
  }

  function BeforeEquals(s: string): string {
    match Find(s, '=', 0)
    case None => s
    case Some(i) => s[..i]
  }

  function OptName(token: string): string {
    var name := BeforeEquals(StripLeft(token, IsDash));
    if |name| > 2 && name[..2] == "no" then name[2..] else name
  }

  function Without(tokens: seq<string>, dropped: set<string>): seq<string> {
    if tokens == [] then []
    else if OptName(tokens[0]) in dropped then Without(tokens[1..], dropped)
    else [tokens[0]] + Without(tokens[1..], dropped)
  }

  function HardenTokens(tokens: seq<string>, disableWallet: bool): seq<string> {
    var pinned := Without(tokens, RPC_BIND_OPTS) + RPC_PINS;
    if disableWallet then Without(pinned, WALLET_OPTS) + [WALLET_PIN] else pinned
  }

  function Harden(args: string, disableWallet: bool): string {
    Join(HardenTokens(Split(args, IsSpace), disableWallet))
  }

  /** The option names the charm reserves for itself. */
  ghost function Managed(disableWallet: bool): set<string> {
    if disableWallet then RPC_BIND_OPTS + WALLET_OPTS else RPC_BIND_OPTS
  }

  ghost function Pins(disableWallet: bool): seq<string> {
    if disableWallet then RPC_PINS + [WALLET_PIN] else RPC_PINS
  }

  ghost predicate PlainName(name: string) {
    && name != "" && name[0] != '-' && '=' !in name
    && (|name| > 2 ==> name[..2] != "no")
  }

  lemma AssignmentParts(name: string, value: string)
    requires PlainName(name)
    ensures StripLeft(Assignment(name, value), IsDash) == name + "=" + value
    ensures Find(name + "=" + value, '=', 0) == Some(|name|)
    ensures OptName(Assignment(name, value)) == name
  {
    var bare := name + "=" + value;
    assert Assignment(name, value)[1..] == bare;
    assert bare[..|name|] == name;
    FindAt(bare, '=', |name|);
  }

  lemma AssignmentIsWord(name: string, value: string, space: char -> bool)
    requires !space('-') && !space('=')
    ensures IsWord(Assignment(name, value), space) <==>
            HasNo(name, space) && HasNo(value, space)
  {
    var token := Assignment(name, value);
    assert forall i | 0 <= i < |name| :: token[i + 1] == name[i];
    assert forall i | 0 <= i < |value| :: token[i + |name| + 2] == value[i];
  }

  lemma PinNames()
    ensures OptName(RPC_PINS[0]) == RPC_BIND
    ensures OptName(RPC_PINS[1]) == RPC_BIND
    ensures OptName(RPC_PINS[2]) == RPC_PORT
  {
    AssignmentParts(RPC_BIND, LOOPBACK_4);
    AssignmentParts(RPC_BIND, LOOPBACK_6);
    AssignmentParts(RPC_PORT, BITCOIND_RPC_PORT);
  }

  lemma WalletPinName()
    ensures OptName(WALLET_PIN) == DISABLE_WALLET
    ensures Raw(WALLET_PIN) == DISABLE_WALLET
  {
    assert WALLET_PIN[1..] == DISABLE_WALLET;
    assert StripLeft(DISABLE_WALLET, IsDash) == DISABLE_WALLET;
    assert '=' !in DISABLE_WALLET[0..];
  }

  lemma PinsManaged(disableWallet: bool)
    ensures forall i | 0 <= i < |Pins(disableWallet)| :: OptName(Pins(disableWallet)[i]) in Managed(disableWallet)
  {
    var pins, managed := Pins(disableWallet), Managed(disableWallet);
    assert RPC_BIND in managed && RPC_PORT in managed && (disableWallet ==> DISABLE_WALLET in managed);
    forall i | 0 <= i < |pins| ensures OptName(pins[i]) in managed {
      if i < 3 {
        assert pins[i] == RPC_PINS[i];
        PinNames();
      } else {
        assert pins[i] == WALLET_PIN;
        WalletPinName();
      }
    }
  }

  lemma RpcPinsAreNotWalletOptions()
    ensures forall i | 0 <= i < |RPC_PINS| :: OptName(RPC_PINS[i]) !in WALLET_OPTS
  {
    PinNames();
    PinNameLengths();
    hide OptName, WALLET_OPTS, RPC_BIND, RPC_PORT, Assignment;
  }

  lemma PinNameLengths()
    ensures |RPC_BIND| == |RPC_PORT| == 7
    ensures forall name | name in WALLET_OPTS :: |name| == 6 || |name| == 13
  {
  }

  lemma {:induction false} WithoutAppend(a: seq<string>, b: seq<string>, dropped: set<string>)
    ensures Without(a + b, dropped) == Without(a, dropped) + Without(b, dropped)
  {
    if a == [] {
      assert a + b == b;
    } else {
      assert (a + b)[1..] == a[1..] + b;
      WithoutAppend(a[1..], b, dropped);
    }
  }

  lemma {:induction false} WithoutWithout(tokens: seq<string>, d: set<string>, e: set<string>)
    ensures Without(Without(tokens, d), e) == Without(tokens, d + e)
  {
    if tokens != [] {
      WithoutWithout(tokens[1..], d, e);
    }
  }

  /** Hardened token lists are the operator's unmanaged tokens followed by the pins. */
  lemma HardenTokensShape(tokens: seq<string>, disableWallet: bool)
    ensures HardenTokens(tokens, disableWallet) == Without(tokens, Managed(disableWallet)) + Pins(disableWallet)
  {
    if disableWallet {
      RpcPinsAreNotWalletOptions();
      WithoutAppend(Without(tokens, RPC_BIND_OPTS), RPC_PINS, WALLET_OPTS);
      WithoutWithout(tokens, RPC_BIND_OPTS, WALLET_OPTS);
      KeepAll(RPC_PINS, WALLET_OPTS);
    }
  }

  lemma {:induction false} KeepAll(tokens: seq<string>, dropped: set<string>)
    requires forall i | 0 <= i < |tokens| :: OptName(tokens[i]) !in dropped
    ensures Without(tokens, dropped) == tokens
  {
    if tokens != [] {
      KeepAll(tokens[1..], dropped);
    }
  }

  lemma {:induction false} DropAll(tokens: seq<string>, dropped: set<string>)
    requires forall i | 0 <= i < |tokens| :: OptName(tokens[i]) in dropped
    ensures Without(tokens, dropped) == []
  {
    if tokens != [] {
      DropAll(tokens[1..], dropped);
    }
  }

  lemma {:induction false} WithoutWords(tokens: seq<string>, dropped: set<string>, space: char -> bool)
    requires AllWords(tokens, space)
    ensures AllWords(Without(tokens, dropped), space)
  {
    if tokens != [] {
      WithoutWords(tokens[1..], dropped, space);
    }
  }

  lemma PinTextHasNoSpace()
    ensures forall s | s in [RPC_BIND, RPC_PORT, LOOPBACK_4, LOOPBACK_6, BITCOIND_RPC_PORT] :: HasNo(s, IsSpace)
  {
  }

  lemma RpcPinsAreWords()
    ensures AllWords(RPC_PINS, IsSpace)
  {
    PinTextHasNoSpace();
    hide Assignment, RPC_BIND, RPC_PORT, LOOPBACK_4, LOOPBACK_6, BITCOIND_RPC_PORT;
    AssignmentIsWord(RPC_BIND, LOOPBACK_4, IsSpace);
    AssignmentIsWord(RPC_BIND, LOOPBACK_6, IsSpace);
    AssignmentIsWord(RPC_PORT, BITCOIND_RPC_PORT, IsSpace);
  }

  lemma PinsAreWords(disableWallet: bool)
    ensures AllWords(Pins(disableWallet), IsSpace)
  {
    RpcPinsAreWords();
    var pins := Pins(disableWallet);
    forall i | 0 <= i < |pins| ensures IsWord(pins[i], IsSpace) {
      if i < 3 {
        assert pins[i] == RPC_PINS[i];
      } else {
        assert pins[i] == WALLET_PIN;
      }
    }
  }

  lemma HardenSplits(args: string, disableWallet: bool)
    ensures Split(Harden(args, disableWallet), IsSpace)
         == Without(Split(args, IsSpace), Managed(disableWallet)) + Pins(disableWallet)
    ensures Split(Harden(args, disableWallet), IsShellSpace) == Split(Harden(args, disableWallet), IsSpace)
  {
    var tokens := Split(args, IsSpace);
    var hardened := HardenTokens(tokens, disableWallet);
    HardenTokensShape(tokens, disableWallet);
    WithoutWords(tokens, Managed(disableWallet), IsSpace);
    PinsAreWords(disableWallet);
    assert AllWords(hardened, IsSpace);
    SplitJoin(hardened, IsSpace);
    assert AllWords(hardened, IsShellSpace) by {
      forall i | 0 <= i < |hardened| ensures IsWord(hardened[i], IsShellSpace) {
        assert IsWord(hardened[i], IsSpace);
      }
    }
    SplitJoin(hardened, IsShellSpace);
  }

  lemma HardenIdempotent(args: string, disableWallet: bool)
    ensures Harden(Harden(args, disableWallet), disableWallet) == Harden(args, disableWallet)
  {
    var tokens, managed, pins := Split(args, IsSpace), Managed(disableWallet), Pins(disableWallet);
    var again := Split(Harden(args, disableWallet), IsSpace);
    HardenSplits(args, disableWallet);
    HardenTokensShape(tokens, disableWallet);
    HardenTokensShape(again, disableWallet);
    HardenAgain(tokens, pins, managed) by {
      PinsManaged(disableWallet);
    }
  }

  lemma HardenAgain(tokens: seq<string>, pins: seq<string>, managed: set<string>)
    requires forall i | 0 <= i < |pins| :: OptName(pins[i]) in managed
    ensures Without(Without(tokens, managed) + pins, managed) == Without(tokens, managed)
  {
    WithoutAppend(Without(tokens, managed), pins, managed);
    WithoutWithout(tokens, managed, managed);
    assert managed + managed == managed;
    DropAll(pins, managed);
  }

  /** Where the tokens outside `dropped` stand, from index `i` on. */
  ghost function Positions(tokens: seq<string>, dropped: set<string>, i: nat): (at: seq<nat>)
    requires i <= |tokens|
    ensures forall k | 0 <= k < |at| :: i <= at[k] < |tokens|
    ensures forall j, k | 0 <= j < k < |at| :: at[j] < at[k]
    ensures forall j | i <= j < |tokens| :: j in at <==> OptName(tokens[j]) !in dropped
    decreases |tokens| - i
  {
    if i == |tokens| then []
    else if OptName(tokens[i]) in dropped then Positions(tokens, dropped, i + 1)
    else [i] + Positions(tokens, dropped, i + 1)
  }

  lemma {:induction false} WithoutIsAtPositions(tokens: seq<string>, dropped: set<string>, i: nat)
    requires i <= |tokens|
    ensures
      var kept, at := Without(tokens[i..], dropped), Positions(tokens, dropped, i);
      |kept| == |at| && forall k | 0 <= k < |at| :: kept[k] == tokens[at[k]]
    decreases |tokens| - i
  {
    hide OptName;
    if i < |tokens| {
      var kept, at := Without(tokens[i + 1..], dropped), Positions(tokens, dropped, i + 1);
      assert tokens[i..][1..] == tokens[i + 1..];
      WithoutIsAtPositions(tokens, dropped, i + 1);
      if OptName(tokens[i]) !in dropped {
        assert Without(tokens[i..], dropped) == [tokens[i]] + kept;
        assert Positions(tokens, dropped, i) == [i] + at;
      }
    }
  }

  /** After hardening, the operator's tokens that name no managed option stand first,
      each exactly once and in their old order; the charm's own options follow. */
  lemma HardenKeepsOperatorTokens(args: string, disableWallet: bool) returns (at: seq<nat>, kept: seq<string>)
    ensures Split(Harden(args, disableWallet), IsSpace) == kept + Pins(disableWallet)
    ensures forall j, k | 0 <= j < k < |at| :: at[j] < at[k]
    ensures |at| == |kept|
    ensures
      var before := Split(args, IsSpace);
      && (forall k | 0 <= k < |at| :: at[k] < |before| && kept[k] == before[at[k]])
      && (forall i | 0 <= i < |before| :: i in at <==> OptName(before[i]) !in Managed(disableWallet))
  {
    hide Pins;
    var before, managed := Split(args, IsSpace), Managed(disableWallet);
    HardenSplits(args, disableWallet);
    kept, at := Without(before, managed), Positions(before, managed, 0);
    WithoutIsAtPositions(before, managed, 0);
    assert before[0..] == before;
  }

  // ------------------------------------------------------------ parsing flags

  const SENSITIVE_KEY_PARTS := {
    "accesskey", "apikey", "authorization", "cookie", "credential", "credentials", "password",
    "privatekey", "rpcauth", "rpcpassword", "rpcuser", "secret", "sessiontoken", "token"
  }

  predicate IsAlphanumeric(c: char) {
    IsLower(c) || '0' <= c <= '9'
  }

  function Alphanumeric(s: string): string {
    if s == "" then "" else if IsAlphanumeric(s[0]) then [s[0]] + Alphanumeric(s[1..]) else Alphanumeric(s[1..])
  }

  predicate HasPart(s: string, parts: set<string>) {
    exists part | part in parts :: Contains(s, part)
  }

  predicate KeyIsSensitive(lib: Library, key: string) {
    HasPart(Alphanumeric(lib.casefold(key)), SENSITIVE_KEY_PARTS)
  }

  /** What the parser reads at one place: a token that is no option, an option with
      its value after `=`, an option with the next token as value, a lone option. */
  datatype Group =
    | Stray(token: string)
    | Inline(token: string)
    | Spaced(token: string, value: string)
    | Bare(token: string)

  predicate IsOption(token: string) {
    token != "" && token[0] == '-'
  }

  function Raw(token: string): string {
    StripLeft(token, IsDash)
  }

  ghost function Tokens(g: Group): seq<string> {
    if g.Spaced? then [g.token, g.value] else [g.token]
  }

  ghost function Flatten(groups: seq<Group>): seq<string> {
    if groups == [] then [] else Tokens(groups[0]) + Flatten(groups[1..])
  }

  ghost predicate Admissible(g: Group) {
    match g
    case Stray(token) => !IsOption(token)
    case Inline(token) => IsOption(token) && '=' in Raw(token)
    case Spaced(token, value) => IsOption(token) && '=' !in Raw(token) && !IsOption(value)
    case Bare(token) => IsOption(token) && '=' !in Raw(token)
  }

  /** A lone option never stands before a token it could take as its value. */
  ghost predicate WellGrouped(groups: seq<Group>) {
    && (forall i | 0 <= i < |groups| :: Admissible(groups[i]))
    && (forall i | 0 <= i < |groups| - 1 :: groups[i].Bare? ==> !groups[i + 1].Stray?)
  }

  ghost function FirstGroup(tokens: seq<string>): Group
    requires tokens != []
  {
    if !IsOption(tokens[0]) then Stray(tokens[0])
    else if '=' in Raw(tokens[0]) then Inline(tokens[0])
    else if |tokens| > 1 && !IsOption(tokens[1]) then Spaced(tokens[0], tokens[1])
    else Bare(tokens[0])
  }

  ghost function Grouped(tokens: seq<string>): seq<Group> {
    if tokens == [] then []
    else
      var g := FirstGroup(tokens);
      [g] + Grouped(tokens[|Tokens(g)|..])
  }

  /** Every token belongs to exactly one group. */
  lemma {:induction false} GroupedUsesEveryTokenOnce(tokens: seq<string>)
    ensures Flatten(Grouped(tokens)) == tokens
    ensures WellGrouped(Grouped(tokens))
  {
    if tokens != [] {
      var g := FirstGroup(tokens);
      var rest := tokens[|Tokens(g)|..];
      GroupedUsesEveryTokenOnce(rest);
      assert tokens == Tokens(g) + rest;
      assert Grouped(tokens)[1..] == Grouped(rest);
      if g.Bare? && rest != [] {
        assert rest[0] == tokens[1] && Grouped(rest)[0] == FirstGroup(rest);
      }
    }
  }

  /** No other well-formed grouping has the same tokens. */
  lemma {:induction false} GroupingIsUnique(groups: seq<Group>)
    requires WellGrouped(groups)
    ensures Grouped(Flatten(groups)) == groups
  {
    if groups != [] {
      var g, rest := groups[0], groups[1..];
      GroupingIsUnique(rest);
      var tokens := Flatten(groups);
      assert Admissible(g);
      assert tokens[|Tokens(g)|..] == Flatten(rest);
      if g.Bare? && rest != [] {
        assert Admissible(rest[0]) && !rest[0].Stray?;
        assert tokens[1] == Tokens(rest[0])[0] == rest[0].token;
      }
      assert FirstGroup(tokens) == g;
    }
  }

  /** The option name and value a group sets; a stray token sets nothing. */
  ghost function Setting(g: Group): Option<(string, string)> {
    match g
    case Stray(_) => None
    case Inline(token) =>
      (match Find(Raw(token), '=', 0)
       case None => Some((Raw(token), "1"))
       case Some(i) => Some((Raw(token)[..i], Raw(token)[i + 1..])))
    case Spaced(token, value) => Some((Raw(token), value))
    case Bare(token) => Some((Raw(token), "1"))
  }

  /** All values the command line gives to a casefolded name, in order. */
  ghost function ValuesOf(lib: Library, groups: seq<Group>, name: string): seq<string> {
    if groups == [] then []
    else
      var setting := Setting(groups[0]);
      (if setting.Some? && lib.casefold(setting.value.0) == name then [setting.value.1] else [])
      + ValuesOf(lib, groups[1..], name)
  }

  lemma {:induction false} ValuesOfAppend(lib: Library, a: seq<Group>, b: seq<Group>, name: string)
    ensures ValuesOf(lib, a + b, name) == ValuesOf(lib, a, name) + ValuesOf(lib, b, name)
  {
    if a == [] {
      assert a + b == b;
    } else {
      assert (a + b)[1..] == a[1..] + b;
      ValuesOfAppend(lib, a[1..], b, name);
    }
  }

  datatype Flag = One(value: string) | Many(values: seq<string>)

  ghost function Compact(values: seq<string>): Flag {
    if |values| == 1 then One(values[0]) else Many(values)
  }

  /** One name's entry: absent when the name is sensitive or never set, else all its
      values in order, as a scalar exactly when there is one. */
  ghost predicate Agrees(lib: Library, flags: map<string, Flag>, groups: seq<Group>, name: string) {
    if KeyIsSensitive(lib, name) || ValuesOf(lib, groups, name) == [] then name !in flags
    else name in flags && flags[name] == Compact(ValuesOf(lib, groups, name))
  }

  /** The exact multimap of a command line. */
  ghost predicate Represents(lib: Library, flags: map<string, Flag>, groups: seq<Group>) {
    forall name :: Agrees(lib, flags, groups, name)
  }

  ghost function Extended(flags: map<string, Flag>, name: string, value: string): Flag {
    if name !in flags then One(value)
    else if flags[name].Many? then Many(flags[name].values + [value])
    else Many([flags[name].value, value])
  }

  class FlagTable {
    var flags: map<string, Flag>

    constructor ()
      ensures flags == map[]
    {
      flags := map[];
    }

    /** `_add_flag` */
    method Add(lib: Library, name: string, value: string)
      modifies this
      ensures flags == if KeyIsSensitive(lib, name) then old(flags)
        else old(flags)[name := Extended(old(flags), name, value)]
    {
      hide KeyIsSensitive;
      if KeyIsSensitive(lib, name) {
        return;
      }
      if name !in flags {
        flags := flags[name := One(value)];
      } else if flags[name].Many? {
        flags := flags[name := Many(flags[name].values + [value])];
      } else {
        flags := flags[name := Many([flags[name].value, value])];
      }
    }
  }

  function CommandTokens(lib: Library, cmdline: string): seq<string> {
    match lib.shellSplit(cmdline)
    case Some(tokens) => tokens
    case None => Split(cmdline, IsSpace)
  }

  lemma NextGroup(tokens: seq<string>, index: nat, groups: seq<Group>)
    requires index < |tokens|
    requires groups + Grouped(tokens[index..]) == Grouped(tokens)
    ensures
      var g := FirstGroup(tokens[index..]);
      && index + |Tokens(g)| <= |tokens|
      && (groups + [g]) + Grouped(tokens[index + |Tokens(g)|..]) == Grouped(tokens)
  {
    var g := FirstGroup(tokens[index..]);
    assert tokens[index..][|Tokens(g)|..] == tokens[index + |Tokens(g)|..];
  }

  /** What an option at `index` sets, in the order the parser decides it. */
  lemma OptionSetting(tokens: seq<string>, index: nat)
    requires index < |tokens| && IsOption(tokens[index])
    ensures
      var g, raw := FirstGroup(tokens[index..]), Raw(tokens[index]);
      var equals, spaced := Find(raw, '=', 0), index + 1 < |tokens| && !IsOption(tokens[index + 1]);
      && |Tokens(g)| == (if equals.None? && spaced then 2 else 1)
      && Setting(g) == Some(
        if equals.Some? then (raw[..equals.value], raw[equals.value + 1..])
        else (raw, if spaced then tokens[index + 1] else "1"))
  {
    assert Raw(tokens[index])[0..] == Raw(tokens[index]);
  }

  /** `parse_effective_flags` */
  method ParseEffectiveFlags(lib: Library, cmdline: string) returns (flags: map<string, Flag>)
    ensures Represents(lib, flags, Grouped(CommandTokens(lib, cmdline)))
  {
    hide KeyIsSensitive, Represents, Extended, Setting, Raw, Grouped, ValuesOf;
    NothingGrouped();
    var tokens := CommandTokens(lib, cmdline);
    assert tokens[0..] == tokens;
    var table := new FlagTable();
    var index := 0;
    ghost var groups: seq<Group> := [];
    NothingRepresentsNothing(lib);
    while index < |tokens|
      invariant index <= |tokens|
      invariant groups + Grouped(tokens[index..]) == Grouped(tokens)
      invariant Represents(lib, table.flags, groups)
    {
      var token := tokens[index];
      ghost var g := FirstGroup(tokens[index..]);
      NextGroup(tokens, index, groups);
      if !IsOption(token) {
        index := index + 1;
        StrayAddsNothing(lib, table.flags, groups, g);
      } else {
        OptionSetting(tokens, index);
        var raw := Raw(token);
        var name, value := raw, "1";
        var equals := Find(raw, '=', 0);
        if equals.Some? {
          name, value := raw[..equals.value], raw[equals.value + 1..];
        } else if index + 1 < |tokens| && !IsOption(tokens[index + 1]) {
          value := tokens[index + 1];
          index := index + 1;
        }
        SettingAdds(lib, table.flags, groups, g, name, value);
        table.Add(lib, lib.casefold(name), value);
        index := index + 1;
      }
      groups := groups + [g];
    }
    flags := table.flags;
    assert tokens[|tokens|..] == [] && groups + [] == groups;
  }

  lemma NothingGrouped()
    ensures Grouped([]) == []
  {
  }

  lemma NothingRepresentsNothing(lib: Library)
    ensures Represents(lib, map[], [])
  {
  }

  lemma StrayAddsNothing(lib: Library, flags: map<string, Flag>, groups: seq<Group>, g: Group)
    requires g.Stray? && Represents(lib, flags, groups)
    ensures Represents(lib, flags, groups + [g])
  {
    hide KeyIsSensitive;
    forall n ensures Agrees(lib, flags, groups + [g], n) {
      assert Agrees(lib, flags, groups, n);
      ValuesOfAppend(lib, groups, [g], n);
    }
  }

  /** Adding a setting extends the represented command line by its group. */
  lemma SettingAdds(lib: Library, flags: map<string, Flag>, groups: seq<Group>, g: Group, name: string, value: string)
    requires Represents(lib, flags, groups)
    requires Setting(g) == Some((name, value))
    ensures
      var key := lib.casefold(name);
      var after := if KeyIsSensitive(lib, key) then flags else flags[key := Extended(flags, key, value)];
      Represents(lib, after, groups + [g])
  {
    hide KeyIsSensitive;
    var key := lib.casefold(name);
    var after := if KeyIsSensitive(lib, key) then flags else flags[key := Extended(flags, key, value)];
    forall n ensures Agrees(lib, after, groups + [g], n) {
      assert Agrees(lib, flags, groups, n);
      ValuesOfAppend(lib, groups, [g], n);
      assert ValuesOf(lib, [g], n) == if n == key then [value] else [];
    }
  }

  /** `_first_flag` without its default: in spite of its name it takes the last value. */
  ghost function FirstFlag(flags: map<string, Flag>, name: string): Option<Flag> {
    if name !in flags then None
    else if flags[name].Many? && flags[name].values != [] then Some(One(flags[name].values[|flags[name].values| - 1]))
    else Some(flags[name])
  }

  // ------------------------------------- what the parser reads after hardening

  ghost predicate AllQuoteFree(words: seq<string>) {
    forall i | 0 <= i < |words| :: QuoteFree(words[i])
  }

  lemma {:induction false} SplitQuoteFree(s: string, space: char -> bool)
    requires QuoteFree(s)
    ensures AllQuoteFree(Split(s, space))
    decreases |s|
  {
    if s != "" {
      if space(s[0]) {
        SplitQuoteFree(s[1..], space);
      } else {
        SplitQuoteFree(s[WordLength(s, space)..], space);
      }
    }
  }

  lemma {:induction false} WithoutQuoteFree(tokens: seq<string>, dropped: set<string>)
    requires AllQuoteFree(tokens)
    ensures AllQuoteFree(Without(tokens, dropped))
  {
    if tokens != [] {
      WithoutQuoteFree(tokens[1..], dropped);
    }
  }

  lemma {:induction false} JoinQuoteFree(words: seq<string>)
    requires AllQuoteFree(words)
    ensures QuoteFree(Join(words))
  {
    if |words| > 1 {
      JoinQuoteFree(words[1..]);
    }
  }

  lemma PinsQuoteFree(disableWallet: bool)
    ensures AllQuoteFree(Pins(disableWallet))
  {
    var pins := Pins(disableWallet);
    assert QuoteFree(RPC_PINS[0]) && QuoteFree(RPC_PINS[1]) && QuoteFree(RPC_PINS[2]) && QuoteFree(WALLET_PIN);
    forall i | 0 <= i < |pins| ensures QuoteFree(pins[i]) {
      if i < 3 {
        assert pins[i] == RPC_PINS[i];
      } else {
        assert pins[i] == WALLET_PIN;
      }
    }
  }

  lemma HardenedTokens(lib: Library, args: string, disableWallet: bool)
    requires lib.SplitsPlainly() && QuoteFree(args)
    ensures CommandTokens(lib, Harden(args, disableWallet))
         == Without(Split(args, IsSpace), Managed(disableWallet)) + Pins(disableWallet)
  {
    hide Pins;
    var tokens, managed := Split(args, IsSpace), Managed(disableWallet);
    HardenTokensShape(tokens, disableWallet);
    SplitQuoteFree(args, IsSpace);
    WithoutQuoteFree(tokens, managed);
    PinsQuoteFree(disableWallet);
    JoinQuoteFree(HardenTokens(tokens, disableWallet));
    HardenSplits(args, disableWallet);
  }

  /** Options that follow are never taken as the value of an earlier token. */
  lemma {:induction false} GroupedAppend(a: seq<string>, b: seq<string>)
    requires b != [] ==> IsOption(b[0])
    ensures Grouped(a + b) == Grouped(a) + Grouped(b)
  {
    if a == [] {
      assert a + b == b;
    } else {
      var g := FirstGroup(a);
      assert FirstGroup(a + b) == g;
      assert (a + b)[|Tokens(g)|..] == a[|Tokens(g)|..] + b;
      GroupedAppend(a[|Tokens(g)|..], b);
    }
  }

  lemma AssignmentGroup(name: string, value: string)
    requires PlainName(name)
    ensures Grouped([Assignment(name, value)]) == [Inline(Assignment(name, value))]
    ensures Setting(Inline(Assignment(name, value))) == Some((name, value))
  {
    var token, raw := Assignment(name, value), name + "=" + value;
    AssignmentParts(name, value);
    assert raw[|name|] == '=' && raw[|name|] in raw;
    assert raw[..|name|] == name && raw[|name| + 1..] == value;
  }

  lemma AssignmentValues(lib: Library, name: string, value: string, key: string)
    requires PlainName(name) && lib.casefold(name) == name
    ensures ValuesOf(lib, Grouped([Assignment(name, value)]), key) == if key == name then [value] else []
  {
    AssignmentGroup(name, value);
  }

  lemma WalletPinValues(lib: Library, key: string)
    requires lib.casefold(DISABLE_WALLET) == DISABLE_WALLET && key != DISABLE_WALLET
    ensures ValuesOf(lib, Grouped([WALLET_PIN]), key) == []
  {
    WalletPinName();
    assert Grouped([WALLET_PIN]) == [Bare(WALLET_PIN)];
  }

  lemma AppendedValues(lib: Library, tokens: seq<string>, option: string, key: string)
    requires IsOption(option)
    ensures ValuesOf(lib, Grouped(tokens + [option]), key)
         == ValuesOf(lib, Grouped(tokens), key) + ValuesOf(lib, Grouped([option]), key)
  {
    GroupedAppend(tokens, [option]);
    ValuesOfAppend(lib, Grouped(tokens), Grouped([option]), key);
  }

  lemma ThreeValues(lib: Library, kept: seq<string>, a: string, b: string, c: string, key: string)
    requires IsOption(a) && IsOption(b) && IsOption(c)
    ensures ValuesOf(lib, Grouped(kept + [a, b, c]), key)
         == ValuesOf(lib, Grouped(kept), key) + ValuesOf(lib, Grouped([a]), key)
            + ValuesOf(lib, Grouped([b]), key) + ValuesOf(lib, Grouped([c]), key)
  {
    hide Grouped, ValuesOf;
    AppendedValues(lib, kept, a, key);
    AppendedValues(lib, kept + [a], b, key);
    AppendedValues(lib, kept + [a] + [b], c, key);
    assert kept + [a, b, c] == kept + [a] + [b] + [c];
  }

  lemma PinnedValues(lib: Library, kept: seq<string>, disableWallet: bool, key: string)
    requires FoldsPinNames(lib) && key != DISABLE_WALLET
    ensures ValuesOf(lib, Grouped(kept + Pins(disableWallet)), key)
         == ValuesOf(lib, Grouped(kept), key)
            + (if key == RPC_BIND then [LOOPBACK_4] else [])
            + (if key == RPC_BIND then [LOOPBACK_6] else [])
            + (if key == RPC_PORT then [BITCOIND_RPC_PORT] else [])
  {
    var v4, v6, port := Assignment(RPC_BIND, LOOPBACK_4), Assignment(RPC_BIND, LOOPBACK_6),
      Assignment(RPC_PORT, BITCOIND_RPC_PORT);
    hide Assignment, Grouped, ValuesOf;
    ThreeValues(lib, kept, v4, v6, port, key);
    AssignmentValues(lib, RPC_BIND, LOOPBACK_4, key);
    AssignmentValues(lib, RPC_BIND, LOOPBACK_6, key);
    AssignmentValues(lib, RPC_PORT, BITCOIND_RPC_PORT, key);
    AppendedValues(lib, kept + RPC_PINS, WALLET_PIN, key);
    WalletPinValues(lib, key);
    assert kept + (RPC_PINS + [WALLET_PIN]) == kept + RPC_PINS + [WALLET_PIN];
  }

  ghost predicate FoldsPinNames(lib: Library) {
    lib.casefold(RPC_BIND) == RPC_BIND && lib.casefold(RPC_PORT) == RPC_PORT
      && lib.casefold(DISABLE_WALLET) == DISABLE_WALLET
  }

  lemma PinNamesFold(lib: Library)
    requires lib.FoldsPlainly()
    ensures FoldsPinNames(lib)
  {
    assert LowerCase(RPC_BIND) && LowerCase(RPC_PORT) && LowerCase(DISABLE_WALLET);
  }

  lemma PinNamesDiffer()
    ensures RPC_BIND != RPC_PORT && RPC_BIND != DISABLE_WALLET && RPC_PORT != DISABLE_WALLET
  {
    assert RPC_BIND[3] != RPC_PORT[3] && |DISABLE_WALLET| > |RPC_BIND| == |RPC_PORT|;
  }

  lemma PinnedPort(lib: Library, kept: seq<string>, disableWallet: bool)
    requires FoldsPinNames(lib)
    ensures ValuesOf(lib, Grouped(kept + Pins(disableWallet)), RPC_PORT)
         == ValuesOf(lib, Grouped(kept), RPC_PORT) + [BITCOIND_RPC_PORT]
  {
    PinNamesDiffer();
    hide Pins, Grouped, ValuesOf, RPC_BIND, RPC_PORT, DISABLE_WALLET, LOOPBACK_4, LOOPBACK_6, BITCOIND_RPC_PORT;
    PinnedValues(lib, kept, disableWallet, RPC_PORT);
  }

  lemma PinnedAddresses(lib: Library, kept: seq<string>, disableWallet: bool)
    requires FoldsPinNames(lib)
    ensures ValuesOf(lib, Grouped(kept + Pins(disableWallet)), RPC_BIND)
         == ValuesOf(lib, Grouped(kept), RPC_BIND) + [LOOPBACK_4, LOOPBACK_6]
  {
    PinNamesDiffer();
    hide Pins, Grouped, ValuesOf, RPC_BIND, RPC_PORT, DISABLE_WALLET, LOOPBACK_4, LOOPBACK_6, BITCOIND_RPC_PORT;
    PinnedValues(lib, kept, disableWallet, RPC_BIND);
    assert [LOOPBACK_4, LOOPBACK_6] == [LOOPBACK_4] + [LOOPBACK_6];
  }

  lemma {:induction false} LowerIsAlphanumeric(s: string)
    requires LowerCase(s)
    ensures Alphanumeric(s) == s
  {
    if s != "" {
      LowerIsAlphanumeric(s[1..]);
    }
  }

  lemma ContainsCharacters(s: string, part: string, c: char)
    requires Contains(s, part) && c in part
    ensures c in s
  {
    var i :| 0 <= i <= |s| && OccursAt(s, part, i);
    var k :| 0 <= k < |part| && part[k] == c;
    assert s[i..i + |part|][k] == s[i + k];
  }

  lemma NoPartOccurs(s: string, parts: set<string>)
    requires 'a' !in s && 'e' !in s
    requires forall part | part in parts :: 'a' in part || 'e' in part
    ensures !HasPart(s, parts)
  {
    forall part | part in parts ensures !Contains(s, part) {
      if Contains(s, part) {
        ContainsCharacters(s, part, if 'a' in part then 'a' else 'e');
      }
    }
  }

  lemma SensitivePartsHaveAOrE()
    ensures forall part | part in SENSITIVE_KEY_PARTS :: 'a' in part || 'e' in part
  {
  }

  lemma KeyWithoutAOrEIsNotSensitive(lib: Library, key: string)
    requires lib.FoldsPlainly()
    requires LowerCase(key)
    requires 'a' !in key && 'e' !in key
    ensures !KeyIsSensitive(lib, key)
  {
    hide HasPart;
    LowerIsAlphanumeric(key);
    SensitivePartsHaveAOrE();
    NoPartOccurs(key, SENSITIVE_KEY_PARTS);
  }

  lemma PinNamesAreNotSensitive(lib: Library)
    requires lib.FoldsPlainly()
    ensures !KeyIsSensitive(lib, RPC_PORT) && !KeyIsSensitive(lib, RPC_BIND)
  {
    hide KeyIsSensitive;
    KeyWithoutAOrEIsNotSensitive(lib, RPC_PORT);
    KeyWithoutAOrEIsNotSensitive(lib, RPC_BIND);
  }

  lemma EntryEndsWith(lib: Library, flags: map<string, Flag>, groups: seq<Group>, key: string,
                      before: seq<string>, tail: seq<string>)
    requires Represents(lib, flags, groups) && !KeyIsSensitive(lib, key)
    requires tail != [] && ValuesOf(lib, groups, key) == before + tail
    ensures FirstFlag(flags, key) == Some(One(tail[|tail| - 1]))
    ensures |tail| > 1 ==> key in flags && flags[key] == Many(before + tail)
  {
    hide KeyIsSensitive;
    assert Agrees(lib, flags, groups, key);
  }

  lemma PinnedFlags(lib: Library, kept: seq<string>, disableWallet: bool, flags: map<string, Flag>)
    requires FoldsPinNames(lib) && !KeyIsSensitive(lib, RPC_PORT) && !KeyIsSensitive(lib, RPC_BIND)
    requires Represents(lib, flags, Grouped(kept + Pins(disableWallet)))
    ensures FirstFlag(flags, RPC_PORT) == Some(One(BITCOIND_RPC_PORT))
    ensures RPC_BIND in flags
    ensures flags[RPC_BIND] == Many(ValuesOf(lib, Grouped(kept), RPC_BIND) + [LOOPBACK_4, LOOPBACK_6])
  {
    hide KeyIsSensitive, Pins, FirstFlag, ValuesOf, Grouped, Represents;
    hide RPC_BIND, RPC_PORT, LOOPBACK_4, LOOPBACK_6, BITCOIND_RPC_PORT;
    var groups := Grouped(kept + Pins(disableWallet));
    PinnedPort(lib, kept, disableWallet);
    PinnedAddresses(lib, kept, disableWallet);
    EntryEndsWith(lib, flags, groups, RPC_PORT, ValuesOf(lib, Grouped(kept), RPC_PORT), [BITCOIND_RPC_PORT]);
    EntryEndsWith(lib, flags, groups, RPC_BIND, ValuesOf(lib, Grouped(kept), RPC_BIND), [LOOPBACK_4, LOOPBACK_6]);
  }

  /** Whatever the operator wrote, in any letter case, the parser reads back the pinned
      port as the effective one, and a list of bind addresses in which the two loopback
      families follow any override that hardening let through. */
  lemma HardenedFlags(lib: Library, args: string, disableWallet: bool, flags: map<string, Flag>)
    requires lib.FoldsPlainly() && lib.SplitsPlainly() && QuoteFree(args)
    requires Represents(lib, flags, Grouped(CommandTokens(lib, Harden(args, disableWallet))))
    ensures FirstFlag(flags, RPC_PORT) == Some(One(BITCOIND_RPC_PORT))
    ensures RPC_BIND in flags
    ensures
      var kept := Without(Split(args, IsSpace), Managed(disableWallet));
      flags[RPC_BIND] == Many(ValuesOf(lib, Grouped(kept), RPC_BIND) + [LOOPBACK_4, LOOPBACK_6])
  {
    hide KeyIsSensitive, Pins, FirstFlag, ValuesOf, Grouped, Represents, Split, QuoteFree;
    hide RPC_BIND, RPC_PORT, LOOPBACK_4, LOOPBACK_6, BITCOIND_RPC_PORT;
    HardenedTokens(lib, args, disableWallet);
    PinNamesFold(lib);
    PinNamesAreNotSensitive(lib);
    PinnedFlags(lib, Without(Split(args, IsSpace), Managed(disableWallet)), disableWallet, flags);
  }
}
