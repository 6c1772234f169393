/** Hardening, flag parsing and the test for sensitive keys, stated over options as they are
    written: dashes, an optional "no", a literal name, and a value. */
module Options {
  import opened Text
  import opened Libraries
  import F = Flags

  ghost predicate AllDashes(s: string) {
    forall i | 0 <= i < |s| :: s[i] == '-'
  }

  // ---------------------------------------------------------------- hardening

  /** The token sets the option of this name, or its negation. */
  ghost predicate Writes(token: string, name: string) {
    exists dashes, rest :: WritesWith(token, name, dashes, rest)
  }

  ghost predicate WritesWith(token: string, name: string, dashes: string, rest: string) {
    && AllDashes(dashes) && (rest == "" || rest[0] == '=')
    && (token == dashes + name + rest || token == dashes + "no" + name + rest)
  }

  /** The options the charm reserves for itself. */
  ghost predicate Reserved(token: string, disableWallet: bool) {
    || Writes(token, "rpcbind") || Writes(token, "rpcallowip") || Writes(token, "rpcport")
    || (disableWallet && (Writes(token, "wallet") || Writes(token, "disablewallet")))
  }

  /** A name that can only be read as itself. */
  ghost predicate IsOptionName(name: string) {
    |name| > 2 && LowerCase(name) && !(name[0] == 'n' && name[1] == 'o')
  }

  lemma NameEnds(name: string, rest: string)
    requires LowerCase(name) && (rest == "" || rest[0] == '=')
    ensures F.BeforeEquals(name + rest) == name
  {
    var s := name + rest;
    assert forall i | 0 <= i < |name| :: s[i] == name[i];
    if rest == "" {
      assert s == name && forall i | 0 <= i < |s| :: s[0..][i] == name[i];
    } else {
      assert s[|name|] == '=';
      FindAt(s, '=', |name|);
      assert s[..|name|] == name;
    }
  }

  lemma WrittenName(token: string, dashes: string, no: string, name: string, rest: string)
    requires AllDashes(dashes) && (no == "" || no == "no") && IsOptionName(name) && (rest == "" || rest[0] == '=')
    requires token == dashes + no + name + rest
    ensures F.OptName(token) == name
  {
    HeadOf(no, name);
    hide IsOptionName, LowerCase;
    Regrouped(dashes, no, name, rest);
    StripLeftOf(dashes, (no + name) + rest, F.IsDash);
    NameEnds(no + name, rest);
  }

  lemma HeadOf(no: string, name: string)
    requires (no == "" || no == "no") && IsOptionName(name)
    ensures
      var head := no + name;
      && LowerCase(head) && head != "" && head[0] != '-'
      && (if |head| > 2 && head[..2] == "no" then head[2..] else head) == name
  {
    var head := no + name;
    assert no == "no" ==> head[..2] == "no" && head[2..] == name;
    assert no == "" ==> head == name && head[..2][0] == head[0] && head[..2][1] == head[1];
  }

  lemma NameWritten(token: string, name: string)
    requires IsOptionName(name)
    ensures F.OptName(token) == name <==> Writes(token, name)
  {
    if F.OptName(token) == name {
      OptionParts(token, name);
    }
    if Writes(token, name) {
      var dashes, rest :| WritesWith(token, name, dashes, rest);
      WrittenNames(token, name, dashes, rest);
    }
  }

  lemma WrittenNames(token: string, name: string, dashes: string, rest: string)
    requires IsOptionName(name) && WritesWith(token, name, dashes, rest)
    ensures F.OptName(token) == name
  {
    hide F.OptName, IsOptionName;
    if token == dashes + name + rest {
      assert dashes + name + rest == dashes + "" + name + rest;
      WrittenName(token, dashes, "", name, rest);
    } else {
      WrittenName(token, dashes, "no", name, rest);
    }
  }

  lemma OptionParts(token: string, name: string)
    requires F.OptName(token) == name
    ensures Writes(token, name)
  {
    var raw := StripLeft(token, F.IsDash);
    var dashes := StrippedParts(token, F.IsDash);
    var head := F.BeforeEquals(raw);
    var rest := raw[|head|..];
    assert raw == head + rest && (rest == "" || rest[0] == '=');
    assert AllDashes(dashes);
    if |head| > 2 && head[..2] == "no" {
      assert head == "no" + name;
      Regrouped(dashes, "no", name, rest);
    } else {
      assert head == name;
      Regrouped(dashes, "", name, rest);
      assert "" + name == name;
    }
    assert WritesWith(token, name, dashes, rest);
  }

  lemma Regrouped(a: string, b: string, c: string, d: string)
    ensures a + ((b + c) + d) == a + b + c + d && a + (c + d) == a + c + d
  {
  }

  lemma ReservedNames()
    ensures IsOptionName("rpcbind") && IsOptionName("rpcallowip") && IsOptionName("rpcport")
    ensures IsOptionName("wallet") && IsOptionName("disablewallet")
  {
  }

  /** The names behind the charm's test are exactly the reserved ones. */
  lemma ReservedIsManaged(token: string, disableWallet: bool)
    ensures F.OptName(token) in F.Managed(disableWallet) <==> Reserved(token, disableWallet)
  {
    ReservedNames();
    hide IsOptionName, F.OptName, Writes;
    NameWritten(token, "rpcbind");
    NameWritten(token, "rpcallowip");
    NameWritten(token, "rpcport");
    NameWritten(token, "wallet");
    NameWritten(token, "disablewallet");
  }

  /** The charm's own options, in order. */
  ghost function OwnOptions(disableWallet: bool): seq<string> {
    ["-rpcbind=127.0.0.1", "-rpcbind=[::1]", "-rpcport=8332"] + (if disableWallet then ["-disablewallet"] else [])
  }

  lemma PinsAreOwnOptions(disableWallet: bool)
    ensures F.Pins(disableWallet) == OwnOptions(disableWallet)
  {
    assert F.Assignment(F.RPC_BIND, F.LOOPBACK_4) == "-rpcbind=127.0.0.1";
    assert F.Assignment(F.RPC_BIND, F.LOOPBACK_6) == "-rpcbind=[::1]";
    assert F.Assignment(F.RPC_PORT, F.BITCOIND_RPC_PORT) == "-rpcport=8332";
    assert F.WALLET_PIN == "-disablewallet";
  }

  /** Hardening keeps exactly the operator's tokens that set no reserved option, in their
      order, and puts the charm's own options behind them, one blank between any two. No
      reserved option survives, however many dashes, whatever value, and negated or not. */
  lemma HardenByShape(args: string, disableWallet: bool) returns (at: seq<nat>, kept: seq<string>)
    ensures F.Harden(args, disableWallet) == Join(kept + OwnOptions(disableWallet))
    ensures |at| == |kept| && forall j, k | 0 <= j < k < |at| :: at[j] < at[k]
    ensures
      var before := Split(args, IsSpace);
      && (forall k | 0 <= k < |at| :: at[k] < |before| && kept[k] == before[at[k]])
      && (forall i | 0 <= i < |before| :: i in at <==> !Reserved(before[i], disableWallet))
  {
    var before := Split(args, IsSpace);
    PinsAreOwnOptions(disableWallet);
    forall i | 0 <= i < |before|
      ensures F.OptName(before[i]) in F.Managed(disableWallet) <==> Reserved(before[i], disableWallet)
    {
      ReservedIsManaged(before[i], disableWallet);
    }
    hide F.OptName, F.Managed, F.Pins, OwnOptions, Reserved;
    F.HardenTokensShape(before, disableWallet);
    F.WithoutIsAtPositions(before, F.Managed(disableWallet), 0);
    assert before[0..] == before;
    kept, at := F.Without(before, F.Managed(disableWallet)), F.Positions(before, F.Managed(disableWallet), 0);
  }

  // ------------------------------------------------------------- sensitive keys

  const SENSITIVE_WORDS := [
    "accesskey", "apikey", "authorization", "cookie", "credential", "credentials", "password",
    "privatekey", "rpcauth", "rpcpassword", "rpcuser", "secret", "sessiontoken", "token"
  ]

  /** Letters from a to z and digits are kept, in their order, and nothing else. */
  lemma {:induction false} AlphanumericKeeps(a: string, c: char, b: string)
    ensures F.Alphanumeric("") == ""
    ensures F.Alphanumeric(a + [c] + b) ==
      F.Alphanumeric(a) + (if 'a' <= c <= 'z' || '0' <= c <= '9' then [c] else "") + F.Alphanumeric(b)
    decreases |a|
  {
    var s := a + [c] + b;
    if a == "" {
      assert s[0] == c && s[1..] == b;
    } else {
      assert s[0] == a[0] && s[1..] == a[1..] + [c] + b;
      AlphanumericKeeps(a[1..], c, b);
    }
  }

  lemma ContainsMeans(s: string, part: string)
    ensures Contains(s, part) <==> exists before, after :: s == before + part + after
  {
    if Contains(s, part) {
      var i :| 0 <= i <= |s| && OccursAt(s, part, i);
      assert s == s[..i] + part + s[i + |part|..];
    }
    if before, after :| s == before + part + after {
      assert OccursAt(s, part, |before|);
    }
  }

  lemma SensitiveWordsAreParts()
    ensures forall word :: word in SENSITIVE_WORDS <==> word in F.SENSITIVE_KEY_PARTS
  {
    var w := SENSITIVE_WORDS;
    forall word | word in w ensures word in F.SENSITIVE_KEY_PARTS {
      var i :| 0 <= i < |w| && w[i] == word;
      assert i == 0 || i == 1 || i == 2 || i == 3 || i == 4 || i == 5 || i == 6 || i == 7 || i == 8 || i == 9
        || i == 10 || i == 11 || i == 12 || i == 13;
    }
    assert w[0] in w && w[1] in w && w[2] in w && w[3] in w && w[4] in w && w[5] in w && w[6] in w;
    assert w[7] in w && w[8] in w && w[9] in w && w[10] in w && w[11] in w && w[12] in w && w[13] in w;
  }

  /** A key is sensitive exactly if one of the words stands in it, once it is folded and
      everything but letters and digits is dropped. */
  lemma SensitiveExactly(lib: Library, key: string)
    ensures F.KeyIsSensitive(lib, key) <==> exists word, before, after ::
      word in SENSITIVE_WORDS && F.Alphanumeric(lib.casefold(key)) == before + word + after
  {
    SensitiveWordsAreParts();
    hide F.SENSITIVE_KEY_PARTS, SENSITIVE_WORDS, Contains;
    var s := F.Alphanumeric(lib.casefold(key));
    forall word ensures Contains(s, word) <==> exists before, after :: s == before + word + after {
      ContainsMeans(s, word);
    }
    if F.KeyIsSensitive(lib, key) {
      var word :| word in F.SENSITIVE_KEY_PARTS && Contains(s, word);
      assert word in SENSITIVE_WORDS;
    }
  }

  // -------------------------------------------------------------- parsing flags

  /** How options are written: a token that is none, `-name=value`, `-name value`, `-name`,
      with any number of dashes. */
  datatype Piece =
    | Word(token: string)
    | Assigned(dashes: string, name: string, value: string)
    | Followed(dashes: string, name: string, value: string)
    | Lone(dashes: string, name: string)

  ghost predicate NoDash(s: string) {
    s == "" || s[0] != '-'
  }

  ghost predicate Proper(p: Piece) {
    match p
    case Word(token) => NoDash(token)
    case Assigned(dashes, name, _) => ProperName(dashes, name)
    case Followed(dashes, name, value) => ProperName(dashes, name) && NoDash(value)
    case Lone(dashes, name) => ProperName(dashes, name)
  }

  ghost predicate ProperName(dashes: string, name: string) {
    dashes != "" && AllDashes(dashes) && NoDash(name) && '=' !in name
  }

  ghost function Written(p: Piece): seq<string> {
    match p
    case Word(token) => [token]
    case Assigned(dashes, name, value) => [dashes + (name + ("=" + value))]
    case Followed(dashes, name, value) => [dashes + name, value]
    case Lone(dashes, name) => [dashes + name]
  }

  ghost function AllWritten(pieces: seq<Piece>): seq<string> {
    if pieces == [] then [] else Written(pieces[0]) + AllWritten(pieces[1..])
  }

  /** A lone option never stands before a word, which would be its value. */
  ghost predicate ProperlyRead(pieces: seq<Piece>) {
    && (forall i | 0 <= i < |pieces| :: Proper(pieces[i]))
    && (forall i | 0 <= i < |pieces| - 1 :: pieces[i].Lone? ==> !pieces[i + 1].Word?)
  }

  /** All values a name is given, whatever the letter case, in order; a lone option is 1. */
  ghost function ValuesIn(lib: Library, pieces: seq<Piece>, key: string): seq<string> {
    if pieces == [] then []
    else
      var p, rest := pieces[0], ValuesIn(lib, pieces[1..], key);
      match p
      case Word(_) => rest
      case Assigned(_, name, value) => if lib.casefold(name) == key then [value] + rest else rest
      case Followed(_, name, value) => if lib.casefold(name) == key then [value] + rest else rest
      case Lone(_, name) => if lib.casefold(name) == key then ["1"] + rest else rest
  }

  ghost function GroupOf(p: Piece): F.Group {
    match p
    case Word(token) => F.Stray(token)
    case Assigned(dashes, name, value) => F.Inline(dashes + (name + ("=" + value)))
    case Followed(dashes, name, value) => F.Spaced(dashes + name, value)
    case Lone(dashes, name) => F.Bare(dashes + name)
  }

  ghost function GroupsOf(pieces: seq<Piece>): (groups: seq<F.Group>)
    ensures |groups| == |pieces| && forall i | 0 <= i < |pieces| :: groups[i] == GroupOf(pieces[i])
  {
    seq(|pieces|, i requires 0 <= i < |pieces| => GroupOf(pieces[i]))
  }

  lemma GroupOfPiece(p: Piece)
    requires Proper(p)
    ensures F.Admissible(GroupOf(p)) && F.Tokens(GroupOf(p)) == Written(p)
    ensures F.Setting(GroupOf(p)) ==
      match p
      case Word(_) => None
      case Assigned(_, name, value) => Some((name, value))
      case Followed(_, name, value) => Some((name, value))
      case Lone(_, name) => Some((name, "1"))
  {
    match p
    case Word(_) =>
    case Assigned(dashes, name, value) =>
      var raw := name + ("=" + value);
      RawOf(dashes, raw);
      assert raw[|name|] == '=' && raw[..|name|] == name && raw[|name| + 1..] == value;
      assert raw[|name|] in raw;
      FindAt(raw, '=', |name|);
    case Followed(dashes, name, value) => RawOf(dashes, name);
    case Lone(dashes, name) => RawOf(dashes, name);
  }

  lemma RawOf(dashes: string, raw: string)
    requires dashes != "" && AllDashes(dashes) && NoDash(raw)
    ensures F.Raw(dashes + raw) == raw && F.IsOption(dashes + raw)
  {
    StripLeftOf(dashes, raw, F.IsDash);
  }

  lemma {:induction false} GroupsOfPieces(lib: Library, pieces: seq<Piece>, key: string)
    requires ProperlyRead(pieces)
    ensures F.WellGrouped(GroupsOf(pieces)) && F.Flatten(GroupsOf(pieces)) == AllWritten(pieces)
    ensures F.ValuesOf(lib, GroupsOf(pieces), key) == ValuesIn(lib, pieces, key)
  {
    forall i | 0 <= i < |pieces| ensures F.Admissible(GroupsOf(pieces)[i]) {
      GroupOfPiece(pieces[i]);
    }
    if pieces != [] {
      GroupOfPiece(pieces[0]);
      assert GroupsOf(pieces)[1..] == GroupsOf(pieces[1..]);
      GroupsOfPieces(lib, pieces[1..], key);
    }
  }

  /** The tokens of a command line: the shell's, or, where it cannot split, what stands
      between blanks. */
  ghost predicate TokensOf(lib: Library, cmdline: string, tokens: seq<string>) {
    if lib.shellSplit(cmdline).Some? then tokens == lib.shellSplit(cmdline).value
    else tokens == Split(cmdline, IsSpace)
  }

  /** The parsed flags of a command line, key by key: no entry for a sensitive or unset key,
      a scalar for one value, and a list for more. */
  lemma ParsedFlags(lib: Library, cmdline: string, pieces: seq<Piece>, flags: map<string, F.Flag>, key: string)
    requires F.Represents(lib, flags, F.Grouped(F.CommandTokens(lib, cmdline)))
    requires ProperlyRead(pieces) && TokensOf(lib, cmdline, AllWritten(pieces))
    ensures
      var values := ValuesIn(lib, pieces, key);
      if F.KeyIsSensitive(lib, key) || values == [] then key !in flags
      else key in flags && flags[key] == if |values| == 1 then F.One(values[0]) else F.Many(values)
  {
    GroupsOfPieces(lib, pieces, key);
    F.GroupingIsUnique(GroupsOf(pieces));
    hide F.KeyIsSensitive, F.Grouped, F.ValuesOf, ValuesIn;
    assert F.Agrees(lib, flags, F.Grouped(F.CommandTokens(lib, cmdline)), key);
  }

  /** Every command line can be read so. */
  lemma {:induction false} PiecesExist(tokens: seq<string>) returns (pieces: seq<Piece>)
    ensures ProperlyRead(pieces) && AllWritten(pieces) == tokens
    ensures tokens != [] ==> pieces != [] && (pieces[0].Word? <==> NoDash(tokens[0]))
    decreases |tokens|
  {
    if tokens == [] {
      pieces := [];
    } else {
      var p, n := FirstPiece(tokens);
      var rest := PiecesExist(tokens[n..]);
      pieces := [p] + rest;
      assert pieces[1..] == rest && tokens == tokens[..n] + tokens[n..];
    }
  }

  lemma FirstPiece(tokens: seq<string>) returns (p: Piece, n: nat)
    requires tokens != []
    ensures Proper(p) && 0 < n <= |tokens| && Written(p) == tokens[..n]
    ensures p.Word? <==> NoDash(tokens[0])
    ensures p.Lone? && n < |tokens| ==> !NoDash(tokens[n])
  {
    var token := tokens[0];
    if NoDash(token) {
      p, n := Word(token), 1;
    } else {
      var raw := StripLeft(token, F.IsDash);
      var dashes := StrippedParts(token, F.IsDash);
      var equals := Find(raw, '=', 0);
      assert dashes != "";
      if equals.Some? {
        var name, value := raw[..equals.value], raw[equals.value + 1..];
        assert raw == name + ("=" + value) && raw[0..equals.value] == name;
        p, n := Assigned(dashes, name, value), 1;
      } else if |tokens| > 1 && NoDash(tokens[1]) {
        assert raw[0..] == raw;
        p, n := Followed(dashes, raw, tokens[1]), 2;
      } else {
        assert raw[0..] == raw;
        p, n := Lone(dashes, raw), 1;
      }
    }
  }
}
