/** Redaction of credentials in nested values and in serialized containers inside
    free text (src/bitcoin_metadata.py). */
module Redaction {
  import opened Text
  import opened Libraries
  import opened Scanner
  import F = Flags

  const REDACTED := "REDACTED"

  // ---------------------------------------------------------------- the code

  /** The number of nodes of a value; with the size of its text, the measure that
      bounds the mutual recursion below. */
  ghost function Nodes(v: Value): nat {
    match v
    case Dict(entries) => 1 + EntriesNodes(entries)
    case List(items) => 1 + ItemsNodes(items)
    case Tuple(members) => 1 + ItemsNodes(members)
    case Str(_) => 1
    case Atom(_, _) => 1
  }

  ghost function ItemsNodes(items: seq<Value>): nat {
    if items == [] then 0 else Nodes(items[0]) + ItemsNodes(items[1..])
  }

  ghost function EntriesNodes(entries: seq<Entry>): nat {
    if entries == [] then 0 else Nodes(entries[0].value) + EntriesNodes(entries[1..])
  }

  /** `_redact_value`; `None` when it raises, which only serializing a container does. */
  function RedactValue(lib: Library, v: Value, key: string): Option<Value>
    requires lib.ParseShrinks()
    decreases TextSize(v), Nodes(v), 0
  {
    hide F.KeyIsSensitive;
    if F.KeyIsSensitive(lib, key) then Some(Str(REDACTED))
    else
      match v
      case Dict(entries) =>
        var redacted := RedactEntries(lib, entries);
        if redacted.None? then None else Some(Dict(redacted.value))
      case List(items) =>
        var redacted := RedactItems(lib, items);
        if redacted.None? then None else Some(List(redacted.value))
      case Tuple(members) =>
        var redacted := RedactItems(lib, members);
        if redacted.None? then None else Some(Tuple(redacted.value))
      case Str(text) =>
        var redacted := RedactRuntimeValue(lib, text);
        if redacted.None? then None else Some(Str(redacted.value))
      case Atom(_, _) => Some(v)
  }

  function RedactItems(lib: Library, items: seq<Value>): Option<seq<Value>>
    requires lib.ParseShrinks()
    decreases ItemsTextSize(items), ItemsNodes(items), 1
  {
    hide F.KeyIsSensitive;
    if items == [] then Some([])
    else
      var first, rest := RedactValue(lib, items[0], ""), RedactItems(lib, items[1..]);
      if first.None? || rest.None? then None else Some([first.value] + rest.value)
  }

  function RedactEntries(lib: Library, entries: seq<Entry>): Option<seq<Entry>>
    requires lib.ParseShrinks()
    decreases EntriesTextSize(entries), EntriesNodes(entries), 1
  {
    hide F.KeyIsSensitive;
    if entries == [] then Some([])
    else
      var e := entries[0];
      var first, rest := RedactValue(lib, e.value, e.key), RedactEntries(lib, entries[1..]);
      if first.None? || rest.None? then None else Some([Entry(e.key, first.value)] + rest.value)
  }

  /** `redact_runtime_value` */
  function RedactRuntimeValue(lib: Library, value: string): Option<string>
    requires lib.ParseShrinks()
    decreases |value|, 0, |value| + 1
  {
    match RedactFragments(lib, value, 0)
    case Raises => None
    case GivesUp => Some(REDACTED)
    case Text(structured) => Some(lib.sweep(structured))
  }

  /** A parsed container redacted and serialized again. */
  function RedactSerialized(lib: Library, parsed: Value): Option<string>
    requires lib.ParseShrinks()
    decreases TextSize(parsed), Nodes(parsed), 1
  {
    hide F.KeyIsSensitive;
    var redacted := RedactValue(lib, parsed, "");
    if redacted.None? then None else lib.dumps(redacted.value)
  }

  /** How `_redact_serialized_fragments` ends: with a text, with None, or by raising. */
  datatype Fragments = Text(text: string) | GivesUp | Raises

  function Then(text: string, rest: Fragments): Fragments {
    if rest.Text? then Text(text + rest.text) else rest
  }

  function NextOpener(value: string, cursor: nat): (r: Option<nat>)
    requires cursor <= |value|
    ensures r.Some? ==> cursor <= r.value < |value| && (value[r.value] == '{' || value[r.value] == '[')
    ensures forall p | cursor <= p < |value| && (value[p] == '{' || value[p] == '[') :: r.Some? && r.value <= p
  {
    var braces, brackets := Find(value, '{', cursor), Find(value, '[', cursor);
    assert forall p | cursor <= p < |value| :: value[p] == value[cursor..][p - cursor];
    assert braces.Some? ==> forall p | cursor <= p < braces.value ::
      value[p] == value[cursor..braces.value][p - cursor];
    assert brackets.Some? ==> forall p | cursor <= p < brackets.value ::
      value[p] == value[cursor..brackets.value][p - cursor];
    if braces.None? then brackets
    else if brackets.None? then braces
    else Some(if braces.value < brackets.value then braces.value else brackets.value)
  }

  /** `_looks_serialized_start` */
  predicate LooksSerialized(value: string, start: nat)
    requires start < |value|
  {
    var remainder := StripLeft(value[start + 1..], IsSpace);
    if remainder == "" then true
    else if value[start] == '{' then remainder[0] in "'\"\\}"
    else
      || remainder[0] in "'\"\\[{]-0123456789"
      || "true" <= remainder || "false" <= remainder || "null" <= remainder
      || "True" <= remainder || "False" <= remainder || "None" <= remainder
  }

  /** The same quote stands right before and right after the container. */
  predicate IsWrapped(value: string, start: nat, e: nat)
    requires start <= e < |value|
  {
    start > 0 && e + 1 < |value| && IsQuote(value[start - 1]) && value[e + 1] == value[start - 1]
  }

  /** A container cut out of a text: the characters from `start` up to `end` leave the
      output. `wrapped` says that a quote before `start` is parsed with them. */
  datatype Cut = Cut(start: nat, end: nat, wrapped: bool)

  function CutAt(value: string, start: nat, e: nat): (c: Cut)
    requires start <= e < |value|
    ensures start < c.end <= |value|
  {
    if IsWrapped(value, start, e) then Cut(start, e + 2, true) else Cut(start, e + 1, false)
  }

  function Source(value: string, c: Cut): (source: string)
    requires c.start < c.end <= |value|
    requires c.wrapped ==> c.start > 0
    ensures |source| <= |value|
  {
    value[if c.wrapped then c.start - 1 else c.start .. c.end]
  }

  /** What the loop of `_redact_serialized_fragments` returns from `cursor` on. */
  function RedactFragments(lib: Library, value: string, cursor: nat): Fragments
    requires lib.ParseShrinks() && cursor <= |value|
    decreases |value|, 0, |value| - cursor
  {
    match NextOpener(value, cursor)
    case None => Text(value[cursor..])
    case Some(start) =>
      if !LooksSerialized(value, start) then
        Then(value[cursor..start + 1], RedactFragments(lib, value, start + 1))
      else
        ContainerEndExact(value, start);
        match ContainerEnd(value, start)
        case None => GivesUp
        case Some(e) =>
          assert EndsContainer(value, start, e);
          var c := CutAt(value, start, e);
          match lib.parse(Source(value, c))
          case None => GivesUp
          case Some(parsed) =>
            match RedactSerialized(lib, parsed)
            case None => Raises
            case Some(rendered) => Then(value[cursor..start] + rendered, RedactFragments(lib, value, c.end))
  }

  /** What is still to come when the loop stands at `cursor` with `output` written. */
  ghost function Remaining(lib: Library, value: string, output: string, cursor: nat): Fragments
    requires lib.ParseShrinks() && cursor <= |value|
  {
    Then(output, RedactFragments(lib, value, cursor))
  }

  /** One turn of the loop: text is kept up to and including an opener that does not
      look serialized, or a container that parses is replaced. */
  lemma TurnKeeps(lib: Library, value: string, output: string, cursor: nat)
    requires lib.ParseShrinks() && cursor <= |value|
    ensures
      var opener := NextOpener(value, cursor);
      && (opener.None? ==> Remaining(lib, value, output, cursor) == Text(output + value[cursor..]))
      && (opener.Some? && !LooksSerialized(value, opener.value) ==>
        Remaining(lib, value, output, cursor)
        == Remaining(lib, value, output + value[cursor..opener.value + 1], opener.value + 1))
  {
    hide F.KeyIsSensitive, LooksSerialized, RedactSerialized, RedactFragments;
    TurnAtText(lib, value, cursor);
    var opener := NextOpener(value, cursor);
    if opener.Some? && !LooksSerialized(value, opener.value) && RedactFragments(lib, value, opener.value + 1).Text? {
      var rest := RedactFragments(lib, value, opener.value + 1).text;
      Associate(output, value[cursor..opener.value + 1], rest);
    }
  }

  lemma TurnReplaces(lib: Library, value: string, output: string, cursor: nat, start: nat, e: nat)
    requires lib.ParseShrinks() && cursor <= |value|
    requires NextOpener(value, cursor) == Some(start) && LooksSerialized(value, start)
    requires start <= e < |value| && ContainerEnd(value, start) == Some(e)
    ensures
      var c := CutAt(value, start, e);
      var parsed := lib.parse(Source(value, c));
      Remaining(lib, value, output, cursor) ==
        if parsed.None? then GivesUp
        else
          var rendered := RedactSerialized(lib, parsed.value);
          if rendered.None? then Raises
          else Remaining(lib, value, output + value[cursor..start] + rendered.value, c.end)
  {
    hide F.KeyIsSensitive, LooksSerialized, RedactSerialized, RedactFragments;
    TurnAtContainer(lib, value, cursor, start);
    var c := CutAt(value, start, e);
    var parsed := lib.parse(Source(value, c));
    if parsed.Some? && RedactSerialized(lib, parsed.value).Some? && RedactFragments(lib, value, c.end).Text? {
      var rendered := RedactSerialized(lib, parsed.value).value;
      var rest := RedactFragments(lib, value, c.end).text;
      Regroup(output, value[cursor..start], rendered, rest);
    }
  }

  /** `_redact_serialized_fragments` */
  method RedactSerializedFragments(lib: Library, value: string) returns (r: Fragments)
    requires lib.ParseShrinks()
    ensures r == RedactFragments(lib, value, 0)
  {
    hide F.KeyIsSensitive, LooksSerialized, RedactSerialized, RedactFragments, EndsContainer, NextOpener, ContainerEnd;
    var output, cursor := "", 0;
    assert Remaining(lib, value, output, 0) == RedactFragments(lib, value, 0) by {
      assert forall rest: string :: output + rest == rest;
    }
    while cursor < |value|
      invariant cursor <= |value|
      invariant Remaining(lib, value, output, cursor) == RedactFragments(lib, value, 0)
    {
      var opener := NextOpener(value, cursor);
      TurnKeeps(lib, value, output, cursor);
      if opener.None? {
        output := output + value[cursor..];
        return Text(output);
      }
      var start := opener.value;
      if !LooksSerialized(value, start) {
        output := output + value[cursor..start + 1];
        cursor := start + 1;
        continue;
      }
      var end := FindContainerEnd(value, start);
      if end.None? {
        TurnAtContainer(lib, value, cursor, start);
        return GivesUp;
      }
      assert EndsContainer(value, start, end.value);
      ContainerEndAhead(value, start, end.value);
      TurnReplaces(lib, value, output, cursor, start, end.value);
      output := output + value[cursor..start];
      var c := CutAt(value, start, end.value);
      var parsed := lib.parse(Source(value, c));
      if parsed.None? {
        return GivesUp;
      }
      var rendered := RedactSerialized(lib, parsed.value);
      if rendered.None? {
        return Raises;
      }
      output := output + rendered.value;
      cursor := c.end;
    }
    TurnKeeps(lib, value, output, cursor);
    assert output + value[cursor..] == output;
    return Text(output);
  }

  lemma ContainerEndAhead(value: string, start: nat, e: nat)
    requires EndsContainer(value, start, e)
    ensures start < e < |value|
  {
  }

  // ------------------------------------------------- the tests of the loop, spelt out

  /** What follows the opener, without leading blanks, decides whether it looks serialized. */
  lemma LooksSerializedWhen(value: string, start: nat, blanks: string, rest: string)
    requires start < |value| && value[start + 1..] == blanks + rest
    requires forall i | 0 <= i < |blanks| :: IsSpace(blanks[i])
    requires rest != "" ==> !IsSpace(rest[0])
    ensures LooksSerialized(value, start) <==>
      || rest == ""
      || (value[start] == '{' && rest[0] in ['\'', '"', '\\', '}'])
      || (value[start] != '{'
          && (rest[0] in ['\'', '"', '\\', '[', '{', ']', '-'] || '0' <= rest[0] <= '9'
              || exists word | word in ["true", "false", "null", "True", "False", "None"] :: word <= rest))
  {
    StripLeftOf(blanks, rest, IsSpace);
    assert StripLeft(value[start + 1..], IsSpace) == rest;
    StartsWithWord(rest);
    hide StripLeft, IsSpace;
    if rest != "" {
      FirstCharacters(rest[0]);
    }
  }

  lemma StartsWithWord(rest: string)
    ensures (exists word | word in ["true", "false", "null", "True", "False", "None"] :: word <= rest) <==>
      "true" <= rest || "false" <= rest || "null" <= rest || "True" <= rest || "False" <= rest || "None" <= rest
  {
    var words := ["true", "false", "null", "True", "False", "None"];
    assert words[0] == "true" && words[1] == "false" && words[2] == "null";
    assert words[3] == "True" && words[4] == "False" && words[5] == "None";
    if word :| word in words && word <= rest {
      var i :| 0 <= i < |words| && words[i] == word;
      assert i == 0 || i == 1 || i == 2 || i == 3 || i == 4 || i == 5;
    } else {
      assert forall i | 0 <= i < |words| :: words[i] in words && !(words[i] <= rest);
      assert !(words[0] <= rest) && !(words[1] <= rest) && !(words[2] <= rest);
      assert !(words[3] <= rest) && !(words[4] <= rest) && !(words[5] <= rest);
    }
  }

  lemma FirstCharacters(c: char)
    ensures c in "'\"\\}" <==> c in ['\'', '"', '\\', '}']
    ensures c in "'\"\\[{]-0123456789" <==> c in ['\'', '"', '\\', '[', '{', ']', '-'] || '0' <= c <= '9'
  {
    if '0' <= c <= '9' {
      Digit(c);
    }
  }

  lemma Digit(c: char)
    requires '0' <= c <= '9'
    ensures c in "'\"\\[{]-0123456789"
  {
    var text, k := "'\"\\[{]-0123456789", c as int - '0' as int;
    assert k == 0 || k == 1 || k == 2 || k == 3 || k == 4 || k == 5 || k == 6 || k == 7 || k == 8 || k == 9;
    assert text[7 + k] == c;
  }

  /** A cut hands exactly its container to the parser, or with the quotes around it when the
      same quote stands on both sides. */
  lemma CutMeans(lib: Library, value: string, c: Cut) returns (e: nat)
    requires IsCut(lib, value, c)
    ensures EndsContainer(value, c.start, e) && c.start < e < |value|
    ensures
      if c.start > 0 && e + 1 < |value| && value[c.start - 1] == value[e + 1]
        && (value[e + 1] == '\'' || value[e + 1] == '"')
      then c.end == e + 2 && c.wrapped && Source(value, c) == value[c.start - 1..e + 2]
      else c.end == e + 1 && !c.wrapped && Source(value, c) == value[c.start..e + 1]
  {
    hide LooksSerialized;
    e :| EndsContainer(value, c.start, e) && c == CutAt(value, c.start, e);
  }

  // ------------------------------------------------- what the fragments loop does

  ghost predicate IsCut(lib: Library, value: string, c: Cut) {
    && c.start < c.end <= |value|
    && LooksSerialized(value, c.start)
    && (exists e: nat :: EndsContainer(value, c.start, e) && c == CutAt(value, c.start, e))
    && lib.parse(Source(value, c)).Some?
  }

  /** Between `cursor` and `limit` the cuts are in order and disjoint, each is one
      complete container that parses, and every opener kept in the output does not look
      serialized. */
  ghost predicate Covers(lib: Library, value: string, cursor: nat, limit: nat, cuts: seq<Cut>) {
    && limit <= |value|
    && (forall i | 0 <= i < |cuts| :: IsCut(lib, value, cuts[i]))
    && InOrder(cursor, limit, cuts)
    && OpenersCovered(value, cursor, limit, cuts)
  }

  ghost predicate InOrder(cursor: nat, limit: nat, cuts: seq<Cut>) {
    && (forall i | 0 <= i < |cuts| :: cursor <= cuts[i].start && cuts[i].end <= limit)
    && (forall i, j | 0 <= i < j < |cuts| :: cuts[i].end <= cuts[j].start)
  }

  ghost predicate OpenersCovered(value: string, cursor: nat, limit: nat, cuts: seq<Cut>)
    requires limit <= |value|
  {
    forall p | cursor <= p < limit && IsOpen(value[p]) && LooksSerialized(value, p) :: Covered(cuts, p)
  }

  ghost predicate Decomposes(lib: Library, value: string, cursor: nat, cuts: seq<Cut>) {
    Covers(lib, value, cursor, |value|, cuts)
  }

  /** At `start` stands an opener that looks serialized, and the loop ends there: it gives
      up if that is unclosed, or its container does not parse, and raises if its container
      cannot be rendered. */
  ghost predicate EndsLoop(lib: Library, value: string, start: nat, how: Fragments)
    requires lib.ParseShrinks()
  {
    && start < |value| && IsOpen(value[start]) && LooksSerialized(value, start)
    && match how
       case Text(_) => false
       case GivesUp =>
         forall e: nat | EndsContainer(value, start, e) :: lib.parse(Source(value, CutAt(value, start, e))).None?
       case Raises =>
         exists e: nat | EndsContainer(value, start, e) ::
           IsCut(lib, value, CutAt(value, start, e)) && !Renders(lib, value, CutAt(value, start, e))
  }

  /** Behind cuts that all can be rendered, the loop ends at `start`. */
  ghost predicate Blocked(lib: Library, value: string, cursor: nat, cuts: seq<Cut>, start: nat, how: Fragments)
    requires lib.ParseShrinks()
  {
    && cursor <= start && Covers(lib, value, cursor, start, cuts) && AllRender(lib, value, cuts)
    && EndsLoop(lib, value, start, how)
  }

  ghost predicate Covered(cuts: seq<Cut>, p: nat) {
    exists i | 0 <= i < |cuts| :: cuts[i].start <= p < cuts[i].end
  }

  /** The redacted container can be serialized. */
  ghost predicate Renders(lib: Library, value: string, c: Cut)
    requires lib.ParseShrinks() && IsCut(lib, value, c)
  {
    RedactSerialized(lib, lib.parse(Source(value, c)).value).Some?
  }

  ghost function Rendered(lib: Library, value: string, c: Cut): string
    requires lib.ParseShrinks() && IsCut(lib, value, c) && Renders(lib, value, c)
  {
    RedactSerialized(lib, lib.parse(Source(value, c)).value).value
  }

  ghost predicate AllRender(lib: Library, value: string, cuts: seq<Cut>)
    requires lib.ParseShrinks()
  {
    forall i | 0 <= i < |cuts| :: IsCut(lib, value, cuts[i]) && Renders(lib, value, cuts[i])
  }

  /** The kept pieces verbatim, each cut replaced by its redacted serialization. */
  ghost function Output(lib: Library, value: string, cursor: nat, cuts: seq<Cut>): string
    requires lib.ParseShrinks() && cursor <= |value|
    requires Decomposes(lib, value, cursor, cuts) && AllRender(lib, value, cuts)
    decreases |cuts|
  {
    if cuts == [] then value[cursor..]
    else
      RestCovers(lib, value, cursor, |value|, cuts);
      RestRenders(lib, value, cuts);
      value[cursor..cuts[0].start] + Rendered(lib, value, cuts[0]) + Output(lib, value, cuts[0].end, cuts[1..])
  }

  lemma RestRenders(lib: Library, value: string, cuts: seq<Cut>)
    requires lib.ParseShrinks() && AllRender(lib, value, cuts) && cuts != []
    ensures IsCut(lib, value, cuts[0]) && Renders(lib, value, cuts[0]) && AllRender(lib, value, cuts[1..])
  {
    hide IsCut, Renders;
  }

  lemma RestCovers(lib: Library, value: string, cursor: nat, limit: nat, cuts: seq<Cut>)
    requires Covers(lib, value, cursor, limit, cuts) && cuts != []
    ensures IsCut(lib, value, cuts[0]) && cursor <= cuts[0].start < cuts[0].end <= limit <= |value|
    ensures Covers(lib, value, cuts[0].end, limit, cuts[1..])
  {
    hide LooksSerialized, EndsContainer;
    assert IsCut(lib, value, cuts[0]);
    var rest := cuts[1..];
    forall p | cuts[0].end <= p < limit && IsOpen(value[p]) && LooksSerialized(value, p) ensures Covered(rest, p) {
      assert Covered(cuts, p);
      var i :| 0 <= i < |cuts| && cuts[i].start <= p < cuts[i].end;
      assert rest[i - 1] == cuts[i];
    }
  }

  /** A cursor may move over text without a serialized-looking opener. */
  lemma CoversFurther(lib: Library, value: string, cursor: nat, next: nat, limit: nat, cuts: seq<Cut>)
    requires cursor <= next <= limit <= |value|
    requires forall p | cursor <= p < next && IsOpen(value[p]) :: !LooksSerialized(value, p)
    ensures Covers(lib, value, cursor, limit, cuts) <==> Covers(lib, value, next, limit, cuts)
  {
    hide LooksSerialized;
    if Covers(lib, value, cursor, limit, cuts) {
      forall i | 0 <= i < |cuts| ensures next <= cuts[i].start {
        assert IsCut(lib, value, cuts[i]);
      }
    }
  }

  lemma SliceInTwo(s: string, i: nat, j: nat, k: nat)
    requires i <= j <= k <= |s|
    ensures s[i..k] == s[i..j] + s[j..k]
  {
  }

  lemma Associate(a: string, b: string, c: string)
    ensures a + (b + c) == (a + b) + c
  {
  }

  lemma Regroup(a: string, b: string, c: string, d: string)
    ensures (a + b) + c + d == a + (b + c + d)
  {
  }

  lemma OutputFurther(lib: Library, value: string, cursor: nat, next: nat, cuts: seq<Cut>)
    requires lib.ParseShrinks() && cursor <= next <= |value|
    requires Decomposes(lib, value, cursor, cuts) && Decomposes(lib, value, next, cuts)
    requires AllRender(lib, value, cuts)
    ensures Output(lib, value, cursor, cuts) == value[cursor..next] + Output(lib, value, next, cuts)
  {
    hide F.KeyIsSensitive, LooksSerialized, RedactSerialized, Renders, Rendered, IsCut, AllRender;
    if cuts != [] {
      RestCovers(lib, value, cursor, |value|, cuts);
      RestCovers(lib, value, next, |value|, cuts);
      RestRenders(lib, value, cuts);
      var c := cuts[0];
      var rest := Output(lib, value, c.end, cuts[1..]);
      SliceInTwo(value, cursor, next, c.start);
      Regroup(value[cursor..next], value[next..c.start], Rendered(lib, value, c), rest);
    } else {
      SliceInTwo(value, cursor, next, |value|);
    }
  }

  lemma CutSpan(lib: Library, value: string, c: Cut)
    requires IsCut(lib, value, c)
    ensures c.start < c.end <= |value|
  {
  }

  /** A cut at the first serialized-looking opener in front of other cuts. */
  lemma PrependCut(lib: Library, value: string, cursor: nat, c: Cut, limit: nat, rest: seq<Cut>)
    requires cursor <= c.start && IsCut(lib, value, c) && c.end <= limit
    requires forall p | cursor <= p < c.start && IsOpen(value[p]) :: !LooksSerialized(value, p)
    requires Covers(lib, value, c.end, limit, rest)
    ensures Covers(lib, value, cursor, limit, [c] + rest)
  {
    CutSpan(lib, value, c);
    hide LooksSerialized, IsCut, OpenersCovered, InOrder;
    PrependInOrder(cursor, c, limit, rest);
    PrependCovered(value, cursor, c, limit, rest);
  }

  lemma PrependInOrder(cursor: nat, c: Cut, limit: nat, rest: seq<Cut>)
    requires cursor <= c.start < c.end <= limit && InOrder(c.end, limit, rest)
    ensures InOrder(cursor, limit, [c] + rest)
  {
    var cuts := [c] + rest;
    forall i | 0 <= i < |cuts| ensures cursor <= cuts[i].start && cuts[i].end <= limit {
      if i > 0 {
        assert cuts[i] == rest[i - 1];
      }
    }
    forall i, j | 0 <= i < j < |cuts| ensures cuts[i].end <= cuts[j].start {
      assert cuts[j] == rest[j - 1];
      if i > 0 {
        assert cuts[i] == rest[i - 1];
      }
    }
  }

  lemma PrependCovered(value: string, cursor: nat, c: Cut, limit: nat, rest: seq<Cut>)
    requires cursor <= c.start < c.end <= limit <= |value|
    requires forall p | cursor <= p < c.start && IsOpen(value[p]) :: !LooksSerialized(value, p)
    requires OpenersCovered(value, c.end, limit, rest)
    ensures OpenersCovered(value, cursor, limit, [c] + rest)
  {
    hide LooksSerialized;
    var cuts := [c] + rest;
    forall p | cursor <= p < limit && IsOpen(value[p]) && LooksSerialized(value, p) ensures Covered(cuts, p) {
      if p < c.end {
        assert cuts[0].start <= p < cuts[0].end;
      } else {
        assert Covered(rest, p);
        var i :| 0 <= i < |rest| && rest[i].start <= p < rest[i].end;
        assert cuts[i + 1] == rest[i];
      }
    }
  }

  lemma TurnAtText(lib: Library, value: string, cursor: nat)
    requires lib.ParseShrinks() && cursor <= |value|
    ensures
      var opener := NextOpener(value, cursor);
      && (opener.None? ==> RedactFragments(lib, value, cursor) == Text(value[cursor..]))
      && (opener.Some? && !LooksSerialized(value, opener.value) ==>
        RedactFragments(lib, value, cursor)
        == Then(value[cursor..opener.value + 1], RedactFragments(lib, value, opener.value + 1)))
  {
    hide F.KeyIsSensitive, LooksSerialized, RedactSerialized;
  }

  /** One turn of the loop at a serialized-looking opener. */
  lemma TurnAtContainer(lib: Library, value: string, cursor: nat, start: nat)
    requires lib.ParseShrinks() && cursor <= |value|
    requires NextOpener(value, cursor) == Some(start) && LooksSerialized(value, start)
    ensures ContainerEnd(value, start).None? ==> RedactFragments(lib, value, cursor).GivesUp?
    ensures forall e :: ContainerEnd(value, start) == Some(e) ==>
      start <= e < |value| && var c := CutAt(value, start, e);
      && (lib.parse(Source(value, c)).Some? <==> IsCut(lib, value, c))
      && RedactFragments(lib, value, cursor) ==
         if !IsCut(lib, value, c) then GivesUp
         else if !Renders(lib, value, c) then Raises
         else Then(value[cursor..start] + Rendered(lib, value, c), RedactFragments(lib, value, c.end))
  {
    hide F.KeyIsSensitive, LooksSerialized, RedactSerialized;
    ContainerEndExact(value, start);
  }

  /** A result of the loop comes from a decomposition. */
  lemma {:induction false} FragmentsSound(lib: Library, value: string, cursor: nat) returns (cuts: seq<Cut>)
    requires lib.ParseShrinks() && cursor <= |value|
    requires RedactFragments(lib, value, cursor).Text?
    ensures Decomposes(lib, value, cursor, cuts) && AllRender(lib, value, cuts)
    ensures RedactFragments(lib, value, cursor) == Text(Output(lib, value, cursor, cuts))
    decreases |value| - cursor
  {
    hide F.KeyIsSensitive, LooksSerialized, RedactFragments, Renders, Rendered, IsCut;
    var opener := NextOpener(value, cursor);
    TurnAtText(lib, value, cursor);
    if opener.None? {
      cuts := [];
    } else if !LooksSerialized(value, opener.value) {
      var next := opener.value + 1;
      cuts := FragmentsSound(lib, value, next);
      CoversFurther(lib, value, cursor, next, |value|, cuts);
      OutputFurther(lib, value, cursor, next, cuts);
    } else {
      var start := opener.value;
      TurnAtContainer(lib, value, cursor, start);
      var c := CutAt(value, start, ContainerEnd(value, start).value);
      var rest := FragmentsSound(lib, value, c.end);
      PrependCut(lib, value, cursor, c, |value|, rest);
      PrependRenders(lib, value, c, rest);
      cuts := [c] + rest;
      OutputOfCut(lib, value, cursor, c, rest);
    }
  }

  lemma PrependRenders(lib: Library, value: string, c: Cut, rest: seq<Cut>)
    requires lib.ParseShrinks() && IsCut(lib, value, c) && Renders(lib, value, c) && AllRender(lib, value, rest)
    ensures AllRender(lib, value, [c] + rest)
  {
    hide IsCut, Renders;
    var cuts := [c] + rest;
    forall i | 0 <= i < |cuts| ensures IsCut(lib, value, cuts[i]) && Renders(lib, value, cuts[i]) {
      assert i > 0 ==> cuts[i] == rest[i - 1];
    }
  }

  lemma OutputOfCut(lib: Library, value: string, cursor: nat, c: Cut, rest: seq<Cut>)
    requires lib.ParseShrinks() && cursor <= |value|
    requires Decomposes(lib, value, cursor, [c] + rest) && AllRender(lib, value, [c] + rest)
    ensures IsCut(lib, value, c) && Renders(lib, value, c) && AllRender(lib, value, rest)
    ensures cursor <= c.start < c.end <= |value| && Decomposes(lib, value, c.end, rest)
    ensures Output(lib, value, cursor, [c] + rest)
         == value[cursor..c.start] + Rendered(lib, value, c) + Output(lib, value, c.end, rest)
  {
    hide F.KeyIsSensitive, LooksSerialized, RedactSerialized, Renders, Rendered;
    var cuts := [c] + rest;
    RestCovers(lib, value, cursor, |value|, cuts);
    RestRenders(lib, value, cuts);
    assert cuts[1..] == rest;
  }

  /** The first serialized-looking opener before the limit starts the first cut. */
  lemma FirstCutAtOpener(lib: Library, value: string, cursor: nat, limit: nat, cuts: seq<Cut>, start: nat)
    requires cursor <= |value| && Covers(lib, value, cursor, limit, cuts)
    requires NextOpener(value, cursor) == Some(start) && LooksSerialized(value, start) && start < limit
    ensures cuts != [] && cuts[0].start == start && IsCut(lib, value, cuts[0])
    ensures ContainerEnd(value, start).Some?
    ensures start < ContainerEnd(value, start).value < |value|
    ensures cuts[0] == CutAt(value, start, ContainerEnd(value, start).value)
  {
    hide LooksSerialized;
    assert Covered(cuts, start);
    var i :| 0 <= i < |cuts| && cuts[i].start <= start < cuts[i].end;
    assert IsCut(lib, value, cuts[0]) && IsCut(lib, value, cuts[i]);
    assert forall j | 0 < j < |cuts| :: cuts[0].end <= cuts[j].start;
    assert cuts[0].start == start;
    ContainerEndExact(value, start);
  }

  lemma NoCutWithoutOpener(lib: Library, value: string, cursor: nat, limit: nat, cuts: seq<Cut>)
    requires cursor <= |value| && Covers(lib, value, cursor, limit, cuts)
    requires NextOpener(value, cursor).None? || limit <= NextOpener(value, cursor).value
    ensures cuts == []
  {
    hide LooksSerialized;
    assert cuts != [] ==> IsCut(lib, value, cuts[0]);
  }

  /** Every decomposition that can be rendered is the one the loop finds. */
  lemma {:induction false} FragmentsComplete(lib: Library, value: string, cursor: nat, cuts: seq<Cut>)
    requires lib.ParseShrinks() && cursor <= |value|
    requires Decomposes(lib, value, cursor, cuts) && AllRender(lib, value, cuts)
    ensures RedactFragments(lib, value, cursor) == Text(Output(lib, value, cursor, cuts))
    decreases |value| - cursor
  {
    hide F.KeyIsSensitive, LooksSerialized, RedactFragments, Renders, Rendered, IsCut, Covers, AllRender;
    var opener := NextOpener(value, cursor);
    TurnAtText(lib, value, cursor);
    if opener.None? {
      NoCutWithoutOpener(lib, value, cursor, |value|, cuts);
    } else if !LooksSerialized(value, opener.value) {
      var next := opener.value + 1;
      CoversFurther(lib, value, cursor, next, |value|, cuts);
      FragmentsComplete(lib, value, next, cuts);
      OutputFurther(lib, value, cursor, next, cuts);
    } else {
      var start := opener.value;
      FirstCutAtOpener(lib, value, cursor, |value|, cuts, start);
      TurnAtContainer(lib, value, cursor, start);
      RestCovers(lib, value, cursor, |value|, cuts);
      RestRenders(lib, value, cuts);
      FragmentsComplete(lib, value, cuts[0].end, cuts[1..]);
    }
  }

  /** When the loop has no text to return, it has met an opener at which it ends. */
  lemma {:induction false} FragmentsBlocked(lib: Library, value: string, cursor: nat)
    returns (cuts: seq<Cut>, start: nat)
    requires lib.ParseShrinks() && cursor <= |value|
    requires !RedactFragments(lib, value, cursor).Text?
    ensures Blocked(lib, value, cursor, cuts, start, RedactFragments(lib, value, cursor))
    decreases |value| - cursor
  {
    hide F.KeyIsSensitive, LooksSerialized, RedactFragments, Renders, Rendered, IsCut, Covers, EndsLoop;
    TurnAtText(lib, value, cursor);
    var opener, how := NextOpener(value, cursor).value, RedactFragments(lib, value, cursor);
    if !LooksSerialized(value, opener) {
      cuts, start := FragmentsBlocked(lib, value, opener + 1);
      BlockedBefore(lib, value, start, how);
      CoversFurther(lib, value, cursor, opener + 1, start, cuts);
    } else {
      TurnAtContainer(lib, value, cursor, opener);
      LoopEndsAt(lib, value, opener, how);
      var end := ContainerEnd(value, opener);
      if end.None? || !IsCut(lib, value, CutAt(value, opener, end.value))
        || !Renders(lib, value, CutAt(value, opener, end.value))
      {
        cuts, start := [], opener;
        NothingCovered(lib, value, cursor, opener);
      } else {
        var c := CutAt(value, opener, end.value);
        var rest;
        rest, start := FragmentsBlocked(lib, value, c.end);
        PrependCut(lib, value, cursor, c, start, rest);
        PrependRenders(lib, value, c, rest);
        cuts := [c] + rest;
      }
    }
  }

  lemma BlockedBefore(lib: Library, value: string, start: nat, how: Fragments)
    requires lib.ParseShrinks() && EndsLoop(lib, value, start, how)
    ensures start < |value| && IsOpen(value[start]) && LooksSerialized(value, start) && !how.Text?
  {
  }

  lemma NothingCovered(lib: Library, value: string, cursor: nat, opener: nat)
    requires cursor <= |value| && NextOpener(value, cursor) == Some(opener)
    ensures Covers(lib, value, cursor, opener, [])
  {
  }

  lemma LoopEndsAt(lib: Library, value: string, start: nat, how: Fragments)
    requires lib.ParseShrinks()
    requires start < |value| && IsOpen(value[start]) && LooksSerialized(value, start)
    ensures ContainerEnd(value, start).Some? ==> start < ContainerEnd(value, start).value < |value|
    ensures EndsLoop(lib, value, start, how) <==>
      var end := ContainerEnd(value, start);
      match how
      case Text(_) => false
      case GivesUp => end.None? || !IsCut(lib, value, CutAt(value, start, end.value))
      case Raises =>
        end.Some? && IsCut(lib, value, CutAt(value, start, end.value))
          && !Renders(lib, value, CutAt(value, start, end.value))
  {
    hide LooksSerialized, Renders;
    ContainerEndExact(value, start);
    if ContainerEnd(value, start).Some? {
      assert EndsContainer(value, start, ContainerEnd(value, start).value);
    }
  }

  /** At such an opener the loop does end. */
  lemma {:induction false} BlockedEnds(lib: Library, value: string, cursor: nat, cuts: seq<Cut>, start: nat,
                                       how: Fragments)
    requires lib.ParseShrinks() && cursor <= |value|
    requires Blocked(lib, value, cursor, cuts, start, how)
    ensures RedactFragments(lib, value, cursor) == how
    decreases |value| - cursor, 1
  {
    hide F.KeyIsSensitive, LooksSerialized, RedactFragments, Renders, IsCut, Covers, AllRender, EndsLoop;
    BlockedBefore(lib, value, start, how);
    TurnAtText(lib, value, cursor);
    var opener := NextOpener(value, cursor).value;
    if !LooksSerialized(value, opener) {
      CoversFurther(lib, value, cursor, opener + 1, start, cuts);
      BlockedEnds(lib, value, opener + 1, cuts, start, how);
    } else {
      BlockedEndsAtContainer(lib, value, cursor, opener, cuts, start, how);
    }
  }

  lemma BlockedEndsAtContainer(lib: Library, value: string, cursor: nat, opener: nat, cuts: seq<Cut>, start: nat,
                               how: Fragments)
    requires lib.ParseShrinks() && cursor <= |value|
    requires Blocked(lib, value, cursor, cuts, start, how)
    requires NextOpener(value, cursor) == Some(opener) && LooksSerialized(value, opener)
    ensures RedactFragments(lib, value, cursor) == how
    decreases |value| - cursor, 0
  {
    hide F.KeyIsSensitive, LooksSerialized, RedactFragments, Renders, Rendered, IsCut, Covers, AllRender, EndsLoop;
    BlockedBefore(lib, value, start, how);
    TurnAtContainer(lib, value, cursor, opener);
    if opener < start {
      FirstCutAtOpener(lib, value, cursor, start, cuts, opener);
      RestCovers(lib, value, cursor, start, cuts);
      RestRenders(lib, value, cuts);
      BlockedEnds(lib, value, cuts[0].end, cuts[1..], start, how);
    } else {
      LoopEndsAt(lib, value, start, how);
    }
  }

  /** There is a text exactly when the value decomposes into cuts that can all be rendered,
      and it is the output of that decomposition; `FragmentsComplete` says that no
      decomposition has another output. */
  lemma FragmentsDecompose(lib: Library, value: string)
    requires lib.ParseShrinks()
    ensures RedactFragments(lib, value, 0).Text? <==>
      exists cuts :: Decomposes(lib, value, 0, cuts) && AllRender(lib, value, cuts)
    ensures RedactFragments(lib, value, 0).Text? ==> exists cuts ::
      Decomposes(lib, value, 0, cuts) && AllRender(lib, value, cuts)
        && RedactFragments(lib, value, 0) == Text(Output(lib, value, 0, cuts))
  {
    hide F.KeyIsSensitive, LooksSerialized, RedactFragments, Output, Decomposes, AllRender;
    if RedactFragments(lib, value, 0).Text? {
      var cuts := FragmentsSound(lib, value, 0);
    }
    forall cuts | Decomposes(lib, value, 0, cuts) && AllRender(lib, value, cuts)
      ensures RedactFragments(lib, value, 0).Text?
    {
      FragmentsComplete(lib, value, 0, cuts);
    }
  }

  /** The loop gives up exactly when a serialized-looking opener outside all cuts is
      unclosed or its container does not parse, and raises exactly when the container of
      such an opener cannot be rendered; all cuts before it can. */
  lemma FragmentsGiveUp(lib: Library, value: string)
    requires lib.ParseShrinks()
    ensures RedactFragments(lib, value, 0).GivesUp? <==>
      exists cuts, start :: Blocked(lib, value, 0, cuts, start, GivesUp)
    ensures RedactFragments(lib, value, 0).Raises? <==>
      exists cuts, start :: Blocked(lib, value, 0, cuts, start, Raises)
  {
    hide F.KeyIsSensitive, LooksSerialized, RedactFragments, Blocked;
    if !RedactFragments(lib, value, 0).Text? {
      var cuts, start := FragmentsBlocked(lib, value, 0);
    }
    forall cuts, start, how | Blocked(lib, value, 0, cuts, start, how) ensures RedactFragments(lib, value, 0) == how {
      BlockedEnds(lib, value, 0, cuts, start, how);
    }
  }

  // ------------------------------------------------------------ quoted fragments

  /** The characters of the text that a cut hands to the parser. */
  ghost predicate ParsedAt(c: Cut, p: int) {
    (if c.wrapped then c.start - 1 else c.start) <= p < c.end
  }

  /** The characters of the text that stay in the output. */
  ghost predicate Kept(value: string, cuts: seq<Cut>, p: nat) {
    p < |value| && !Covered(cuts, p)
  }

  /** No character is both kept and parsed exactly when no cut is wrapped in quotes. */
  lemma KeptAndParsedIffWrapped(lib: Library, value: string, cuts: seq<Cut>)
    requires Decomposes(lib, value, 0, cuts)
    ensures (exists i | 0 <= i < |cuts| :: cuts[i].wrapped) <==>
      exists i, p: nat | 0 <= i < |cuts| && ParsedAt(cuts[i], p) :: Kept(value, cuts, p)
  {
    hide LooksSerialized, IsCut;
    if i :| 0 <= i < |cuts| && cuts[i].wrapped {
      var first, p := FirstWrapped(lib, value, cuts, i);
      assert ParsedAt(cuts[first], p) && Kept(value, cuts, p);
    }
    forall i: nat, p: nat | i < |cuts| && ParsedAt(cuts[i], p) && Kept(value, cuts, p) ensures cuts[i].wrapped {
      KeptMeansWrapped(value, cuts, i, p);
    }
  }

  lemma KeptMeansWrapped(value: string, cuts: seq<Cut>, i: nat, p: nat)
    requires i < |cuts| && ParsedAt(cuts[i], p) && Kept(value, cuts, p)
    ensures cuts[i].wrapped
  {
  }

  /** The quote before the first wrapped cut is kept: a cut that ended there would end
      in a closing bracket. */
  lemma FirstWrapped(lib: Library, value: string, cuts: seq<Cut>, i: nat) returns (first: nat, p: nat)
    requires Decomposes(lib, value, 0, cuts) && i < |cuts| && cuts[i].wrapped
    ensures first < |cuts| && ParsedAt(cuts[first], p) && Kept(value, cuts, p)
  {
    hide LooksSerialized, IsCut, OpenersCovered;
    if j :| 0 <= j < i && cuts[j].wrapped {
      first, p := FirstWrapped(lib, value, cuts, j);
    } else {
      first := i;
      WrappedCutFollowsQuote(lib, value, cuts[i]);
      p := cuts[i].start - 1;
      if j :| 0 <= j < |cuts| && cuts[j].start <= p < cuts[j].end {
        CutBefore(cuts, i, j, |value|);
        UnwrappedCutEndsInBracket(lib, value, cuts[j]);
      }
    }
  }

  lemma CutBefore(cuts: seq<Cut>, i: nat, j: nat, limit: nat)
    requires InOrder(0, limit, cuts) && i < |cuts| && j < |cuts|
    requires cuts[i].start < cuts[i].end && cuts[j].start < cuts[i].start <= cuts[j].end
    ensures j < i && cuts[j].end == cuts[i].start
  {
  }

  lemma WrappedCutFollowsQuote(lib: Library, value: string, c: Cut)
    requires IsCut(lib, value, c) && c.wrapped
    ensures 0 < c.start < c.end <= |value| && IsQuote(value[c.start - 1])
  {
    hide LooksSerialized;
  }

  lemma UnwrappedCutEndsInBracket(lib: Library, value: string, c: Cut)
    requires IsCut(lib, value, c) && !c.wrapped
    ensures 0 < c.end <= |value| && IsClose(value[c.end - 1])
  {
    hide LooksSerialized;
    var e: nat :| EndsContainer(value, c.start, e) && c == CutAt(value, c.start, e);
  }

  /** A text that is one quoted container keeps its opening quote and loses its closing
      quote, whatever the container holds, unless that cannot be serialized. */
  lemma QuotedContainerKeepsOneQuote(lib: Library, quote: char, container: string)
    requires lib.ParseShrinks() && IsQuote(quote)
    requires container != "" && IsOpen(container[0]) && ContainerEnd(container, 0) == Some(|container| - 1)
    requires LooksSerialized([quote] + container + [quote], 1)
    requires lib.parse([quote] + container + [quote]).Some?
    ensures
      var value := [quote] + container + [quote];
      var rendered := RedactSerialized(lib, lib.parse(value).value);
      RedactFragments(lib, value, 0) == if rendered.None? then Raises else Text([quote] + rendered.value)
  {
    hide F.KeyIsSensitive, LooksSerialized, RedactSerialized, RedactFragments;
    var value := [quote] + container + [quote];
    var end := QuotedContainerEnd(quote, container);
    TurnAtContainer(lib, value, 0, 1);
    TurnAtText(lib, value, end);
    assert value[0..1] == [quote] && value[end..] == "";
    var c := Cut(1, end, true);
    assert Source(value, c) == value;
    if Renders(lib, value, c) {
      assert value[0..1] + Rendered(lib, value, c) + "" == [quote] + Rendered(lib, value, c);
    }
  }

  lemma QuotedContainerEnd(quote: char, container: string) returns (end: nat)
    requires IsQuote(quote) && container != "" && IsOpen(container[0])
    requires ContainerEnd(container, 0) == Some(|container| - 1)
    ensures
      var value := [quote] + container + [quote];
      && end == |value|
      && NextOpener(value, 0) == Some(1)
      && ContainerEnd(value, 1) == Some(|container|)
      && CutAt(value, 1, |container|) == Cut(1, end, true)
      && NextOpener(value, end).None?
  {
    var value, e := [quote] + container + [quote], |container|;
    end := |value|;
    ContainerEndExact(container, 0);
    assert EndsContainer(container, 0, e - 1);
    assert value[2..e] == container[1..e - 1];
    ContainerEndExact(value, 1);
    assert EndsContainer(value, 1, e);
    assert IsOpen(value[1]) && !IsOpen(value[0]);
  }

  // ------------------------------------------------------- redaction along paths

  ghost function Children(v: Value): seq<Value> {
    match v
    case Dict(entries) => seq(|entries|, i requires 0 <= i < |entries| => entries[i].value)
    case List(items) => items
    case Tuple(members) => members
    case Str(_) => []
    case Atom(_, _) => []
  }

  /** The key over a child; list and tuple members have none. */
  ghost function KeyOver(v: Value, i: nat): string {
    if v.Dict? && i < |v.entries| then v.entries[i].key else ""
  }

  ghost function Follow(v: Value, path: seq<nat>): Option<Value> {
    if path == [] then Some(v)
    else if path[0] < |Children(v)| then Follow(Children(v)[path[0]], path[1..])
    else None
  }

  /** Where a path leads: nowhere, to a value with no sensitive key over it, or, with
      its first `depth` steps, to a value right below the first sensitive key. */
  datatype Walk = Missing | Clear(target: Value) | Sensitive(depth: nat)

  ghost function WalkTo(lib: Library, v: Value, path: seq<nat>): Walk {
    if path == [] then Clear(v)
    else if path[0] >= |Children(v)| then Missing
    else if F.KeyIsSensitive(lib, KeyOver(v, path[0])) then Sensitive(1)
    else
      match WalkTo(lib, Children(v)[path[0]], path[1..])
      case Sensitive(depth) => Sensitive(depth + 1)
      case w => w
  }

  /** Same constructor, same keys, same length; other leaves are equal and a string is
      the redacted text of the old one. */
  ghost predicate Matches(lib: Library, before: Value, after: Value)
    requires lib.ParseShrinks()
  {
    match before
    case Dict(entries) =>
      after.Dict? && |after.entries| == |entries| && forall i | 0 <= i < |entries| ::
        after.entries[i].key == entries[i].key
    case List(items) => after.List? && |after.items| == |items|
    case Tuple(members) => after.Tuple? && |after.members| == |members|
    case Str(text) => after.Str? && RedactedText(lib, text, after.text)
    case Atom(_, _) => after == before
  }

  /** A text is replaced as a whole if the loop gives up on it; otherwise its cuts are
      replaced by their redacted serializations, and the result is swept. */
  ghost predicate RedactedText(lib: Library, text: string, after: string)
    requires lib.ParseShrinks()
  {
    || (after == "REDACTED" && GivesUpOn(lib, text))
    || exists cuts :: Decomposes(lib, text, 0, cuts) && AllRender(lib, text, cuts)
         && after == lib.sweep(Output(lib, text, 0, cuts))
  }

  ghost predicate GivesUpOn(lib: Library, text: string)
    requires lib.ParseShrinks()
  {
    exists cuts, start :: Blocked(lib, text, 0, cuts, start, GivesUp)
  }

  ghost predicate RaisesOn(lib: Library, text: string)
    requires lib.ParseShrinks()
  {
    exists cuts, start :: Blocked(lib, text, 0, cuts, start, Raises)
  }

  /** The redactor of texts returns a redacted text, unless it raises. */
  lemma RuntimeValueRedacted(lib: Library, text: string)
    requires lib.ParseShrinks()
    ensures RedactRuntimeValue(lib, text).None? <==> RaisesOn(lib, text)
    ensures RedactRuntimeValue(lib, text).Some? ==> RedactedText(lib, text, RedactRuntimeValue(lib, text).value)
  {
    FragmentsDecompose(lib, text);
    FragmentsGiveUp(lib, text);
    hide F.KeyIsSensitive, LooksSerialized, RedactFragments, Output, Decomposes, AllRender, Blocked;
  }

  /** No text has two redactions. */
  lemma RedactedTextIsUnique(lib: Library, text: string, after: string)
    requires lib.ParseShrinks() && RedactedText(lib, text, after)
    ensures RedactRuntimeValue(lib, text) == Some(after)
  {
    hide F.KeyIsSensitive, LooksSerialized, RedactFragments, Output, Decomposes, AllRender, Blocked;
    if after == "REDACTED" && GivesUpOn(lib, text) {
      FragmentsGiveUp(lib, text);
    } else {
      var cuts :| Decomposes(lib, text, 0, cuts) && AllRender(lib, text, cuts)
        && after == lib.sweep(Output(lib, text, 0, cuts));
      FragmentsComplete(lib, text, 0, cuts);
    }
  }

  lemma {:induction false} RedactItemsAt(lib: Library, items: seq<Value>)
    requires lib.ParseShrinks()
    ensures RedactItems(lib, items).None? <==> exists i | 0 <= i < |items| :: RedactValue(lib, items[i], "").None?
    ensures RedactItems(lib, items).Some? ==>
      && |RedactItems(lib, items).value| == |items|
      && forall i | 0 <= i < |items| ::
           RedactValue(lib, items[i], "") == Some(RedactItems(lib, items).value[i])
  {
    hide F.KeyIsSensitive, RedactValue;
    if items != [] {
      RedactItemsAt(lib, items[1..]);
      assert forall i | 0 < i < |items| :: items[i] == items[1..][i - 1];
    }
  }

  lemma {:induction false} RedactEntriesAt(lib: Library, entries: seq<Entry>)
    requires lib.ParseShrinks()
    ensures RedactEntries(lib, entries).None? <==>
      exists i | 0 <= i < |entries| :: RedactValue(lib, entries[i].value, entries[i].key).None?
    ensures RedactEntries(lib, entries).Some? ==>
      && |RedactEntries(lib, entries).value| == |entries|
      && forall i | 0 <= i < |entries| ::
           && RedactEntries(lib, entries).value[i].key == entries[i].key
           && RedactValue(lib, entries[i].value, entries[i].key) == Some(RedactEntries(lib, entries).value[i].value)
  {
    hide F.KeyIsSensitive, RedactValue;
    if entries != [] {
      RedactEntriesAt(lib, entries[1..]);
      assert forall i | 0 < i < |entries| :: entries[i] == entries[1..][i - 1];
    }
  }

  /** A child below which redaction raises. */
  ghost predicate ChildRaises(lib: Library, v: Value)
    requires lib.ParseShrinks()
  {
    exists i | 0 <= i < |Children(v)| :: RedactValue(lib, Children(v)[i], KeyOver(v, i)).None?
  }

  /** One node below no sensitive key: it is redacted child by child, and redaction raises
      exactly if it raises for a child, or for the text itself. */
  lemma RedactNode(lib: Library, v: Value, key: string)
    requires lib.ParseShrinks() && !F.KeyIsSensitive(lib, key)
    ensures
      var r := RedactValue(lib, v, key);
      && (r.None? <==> ChildRaises(lib, v) || (v.Str? && RaisesOn(lib, v.text)))
      && (r.Some? ==>
            && Matches(lib, v, r.value) && |Children(r.value)| == |Children(v)|
            && forall i | 0 <= i < |Children(v)| ::
                 RedactValue(lib, Children(v)[i], KeyOver(v, i)) == Some(Children(r.value)[i]))
  {
    hide F.KeyIsSensitive, RedactRuntimeValue, RedactedText, RaisesOn;
    match v
    case Dict(entries) =>
      RedactEntriesAt(lib, entries);
      RedactDict(lib, v, key);
    case List(items) =>
      RedactItemsAt(lib, items);
      RedactSequence(lib, v, items, key);
    case Tuple(members) =>
      RedactItemsAt(lib, members);
      RedactSequence(lib, v, members, key);
    case Str(text) => RuntimeValueRedacted(lib, text);
    case Atom(_, _) =>
  }

  lemma RedactDict(lib: Library, v: Value, key: string)
    requires lib.ParseShrinks() && v.Dict?
    ensures (exists i | 0 <= i < |v.entries| :: RedactValue(lib, v.entries[i].value, v.entries[i].key).None?) <==>
      ChildRaises(lib, v)
  {
    hide F.KeyIsSensitive, RedactValue;
    assert forall i | 0 <= i < |v.entries| :: Children(v)[i] == v.entries[i].value && KeyOver(v, i) == v.entries[i].key;
    if i :| 0 <= i < |v.entries| && RedactValue(lib, v.entries[i].value, v.entries[i].key).None? {
      assert RedactValue(lib, Children(v)[i], KeyOver(v, i)).None?;
    }
  }

  lemma RedactSequence(lib: Library, v: Value, items: seq<Value>, key: string)
    requires lib.ParseShrinks() && (v == List(items) || v == Tuple(items))
    ensures (exists i | 0 <= i < |items| :: RedactValue(lib, items[i], "").None?) <==> ChildRaises(lib, v)
  {
    hide F.KeyIsSensitive, RedactValue;
    assert forall i | 0 <= i < |items| :: Children(v)[i] == items[i] && KeyOver(v, i) == "";
    if i :| 0 <= i < |items| && RedactValue(lib, items[i], "").None? {
      assert RedactValue(lib, Children(v)[i], KeyOver(v, i)).None?;
    }
  }

  lemma RedactSensitive(lib: Library, v: Value, key: string)
    requires lib.ParseShrinks() && F.KeyIsSensitive(lib, key)
    ensures RedactValue(lib, v, key) == Some(Str(REDACTED))
  {
    hide F.KeyIsSensitive, REDACTED;
  }

  /** Redaction seen along one path: below the first sensitive key there is the literal
      "REDACTED" and nothing else; everywhere else the shape is unchanged. */
  ghost predicate RedactedAlong(lib: Library, before: Value, after: Value, path: seq<nat>)
    requires lib.ParseShrinks()
  {
    match WalkTo(lib, before, path)
    case Missing => Follow(after, path).None?
    case Clear(target) =>
      && Follow(before, path) == Some(target)
      && Follow(after, path).Some? && Matches(lib, target, Follow(after, path).value)
    case Sensitive(depth) =>
      && 0 < depth <= |path| && Follow(before, path[..depth]).Some?
      && Follow(after, path[..depth]) == Some(Str(REDACTED))
      && (depth < |path| ==> Follow(after, path).None?)
  }

  lemma {:induction false} RedactionAlongPath(lib: Library, v: Value, key: string, path: seq<nat>)
    requires lib.ParseShrinks() && !F.KeyIsSensitive(lib, key) && RedactValue(lib, v, key).Some?
    ensures RedactedAlong(lib, v, RedactValue(lib, v, key).value, path)
    decreases |path|
  {
    hide F.KeyIsSensitive, RedactValue, REDACTED, RedactedAlong;
    RedactNode(lib, v, key);
    var after := RedactValue(lib, v, key).value;
    if path == [] || path[0] >= |Children(v)| {
      AlongNoChild(lib, v, after, path);
    } else {
      var child, childKey := Children(v)[path[0]], KeyOver(v, path[0]);
      if F.KeyIsSensitive(lib, childKey) {
        RedactSensitive(lib, child, childKey);
        AlongSensitiveChild(lib, v, after, path);
      } else {
        RedactionAlongPath(lib, child, childKey, path[1..]);
        AlongClearChild(lib, v, after, path);
      }
    }
  }

  lemma AlongNoChild(lib: Library, v: Value, after: Value, path: seq<nat>)
    requires lib.ParseShrinks() && Matches(lib, v, after) && |Children(after)| == |Children(v)|
    requires path == [] || path[0] >= |Children(v)|
    ensures RedactedAlong(lib, v, after, path)
  {
    hide F.KeyIsSensitive, Matches;
  }

  lemma AlongSensitiveChild(lib: Library, v: Value, after: Value, path: seq<nat>)
    requires lib.ParseShrinks() && |Children(after)| == |Children(v)|
    requires path != [] && path[0] < |Children(v)| && F.KeyIsSensitive(lib, KeyOver(v, path[0]))
    requires Children(after)[path[0]] == Str(REDACTED)
    ensures RedactedAlong(lib, v, after, path)
  {
    hide F.KeyIsSensitive, Matches, REDACTED;
    var first := path[..1];
    assert first[0] == path[0] && first[1..] == [];
    assert Follow(v, first).Some? && Follow(after, first) == Some(Str(REDACTED));
    assert Children(Str(REDACTED)) == [];
    assert |path| > 1 ==> Follow(Str(REDACTED), path[1..]).None?;
  }

  lemma AlongClearChild(lib: Library, v: Value, after: Value, path: seq<nat>)
    requires lib.ParseShrinks() && |Children(after)| == |Children(v)|
    requires path != [] && path[0] < |Children(v)| && !F.KeyIsSensitive(lib, KeyOver(v, path[0]))
    requires RedactedAlong(lib, Children(v)[path[0]], Children(after)[path[0]], path[1..])
    ensures RedactedAlong(lib, v, after, path)
  {
    hide F.KeyIsSensitive, Matches, REDACTED;
    var w := WalkTo(lib, Children(v)[path[0]], path[1..]);
    if w.Sensitive? {
      assert path[..w.depth + 1][1..] == path[1..][..w.depth];
    }
  }

  /** `redact_output`, the public entry, redacts along every path of any payload, unless it
      raises: the empty key it starts with is not sensitive. */
  lemma OutputRedacted(lib: Library, v: Value, path: seq<nat>)
    requires lib.ParseShrinks() && lib.FoldsPlainly() && RedactValue(lib, v, "").Some?
    ensures RedactedAlong(lib, v, RedactValue(lib, v, "").value, path)
  {
    F.KeyWithoutAOrEIsNotSensitive(lib, "");
    RedactionAlongPath(lib, v, "", path);
  }

  /** What stands in the place of a cut is the serialization of its container, redacted
      along every path. */
  lemma CutRedacted(lib: Library, value: string, c: Cut) returns (after: Value)
    requires lib.ParseShrinks() && lib.FoldsPlainly() && IsCut(lib, value, c) && Renders(lib, value, c)
    ensures lib.dumps(after) == Some(Rendered(lib, value, c))
    ensures forall path :: RedactedAlong(lib, lib.parse(Source(value, c)).value, after, path)
  {
    var parsed := lib.parse(Source(value, c)).value;
    after := RedactValue(lib, parsed, "").value;
    hide F.KeyIsSensitive, LooksSerialized, RedactValue, RedactedAlong, Source;
    forall path ensures RedactedAlong(lib, parsed, after, path) {
      OutputRedacted(lib, parsed, path);
    }
  }

  // ------------------------------------------------------- when redaction raises

  /** With no sensitive key over it, the path leads to a text whose redaction raises. */
  ghost predicate TextRaises(lib: Library, v: Value, path: seq<nat>)
    requires lib.ParseShrinks()
  {
    var w := WalkTo(lib, v, path);
    w.Clear? && w.target.Str? && RaisesOn(lib, w.target.text)
  }

  /** Redaction raises exactly when it does for some text below no sensitive key; for a
      text, `FragmentsGiveUp` says when. */
  lemma RedactionRaises(lib: Library, v: Value, key: string)
    requires lib.ParseShrinks() && !F.KeyIsSensitive(lib, key)
    ensures RedactValue(lib, v, key).None? <==> exists path :: TextRaises(lib, v, path)
  {
    hide F.KeyIsSensitive, RedactValue, TextRaises;
    if RedactValue(lib, v, key).None? {
      var path := RaisingPath(lib, v, key);
    }
    forall path | TextRaises(lib, v, path) ensures RedactValue(lib, v, key).None? {
      RaisesAbove(lib, v, key, path);
    }
  }

  lemma {:induction false} RaisingPath(lib: Library, v: Value, key: string) returns (path: seq<nat>)
    requires lib.ParseShrinks() && !F.KeyIsSensitive(lib, key) && RedactValue(lib, v, key).None?
    ensures TextRaises(lib, v, path)
    decreases Nodes(v)
  {
    hide F.KeyIsSensitive, RedactValue, RaisesOn;
    RedactNode(lib, v, key);
    if v.Str? && RaisesOn(lib, v.text) {
      path := [];
    } else {
      var i: nat :| i < |Children(v)| && RedactValue(lib, Children(v)[i], KeyOver(v, i)).None?;
      if F.KeyIsSensitive(lib, KeyOver(v, i)) {
        RedactSensitive(lib, Children(v)[i], KeyOver(v, i));
      }
      ChildHasFewerNodes(v, i);
      var rest := RaisingPath(lib, Children(v)[i], KeyOver(v, i));
      path := [i] + rest;
      assert path[1..] == rest;
    }
  }

  lemma {:induction false} RaisesAbove(lib: Library, v: Value, key: string, path: seq<nat>)
    requires lib.ParseShrinks() && !F.KeyIsSensitive(lib, key) && TextRaises(lib, v, path)
    ensures RedactValue(lib, v, key).None?
    decreases |path|
  {
    hide F.KeyIsSensitive, RedactValue, RaisesOn;
    RedactNode(lib, v, key);
    if path != [] {
      RaisesAbove(lib, Children(v)[path[0]], KeyOver(v, path[0]), path[1..]);
    }
  }

  lemma {:induction false} ItemHasFewerNodes(items: seq<Value>, i: nat)
    requires i < |items|
    ensures Nodes(items[i]) <= ItemsNodes(items)
  {
    if i > 0 {
      ItemHasFewerNodes(items[1..], i - 1);
    }
  }

  lemma {:induction false} EntryHasFewerNodes(entries: seq<Entry>, i: nat)
    requires i < |entries|
    ensures Nodes(entries[i].value) <= EntriesNodes(entries)
  {
    if i > 0 {
      EntryHasFewerNodes(entries[1..], i - 1);
    }
  }

  lemma ChildHasFewerNodes(v: Value, i: nat)
    requires i < |Children(v)|
    ensures Nodes(Children(v)[i]) < Nodes(v)
  {
    match v
    case Dict(entries) => EntryHasFewerNodes(entries, i);
    case List(items) => ItemHasFewerNodes(items, i);
    case Tuple(members) => ItemHasFewerNodes(members, i);
    case Str(_) =>
    case Atom(_, _) =>
  }

  /** With no sensitive key over it, the path leads to something JSON has no form for, or to
      a text whose redaction raises. */
  ghost predicate Unwritable(lib: Library, v: Value, path: seq<nat>)
    requires lib.ParseShrinks()
  {
    TextRaises(lib, v, path)
      || (WalkTo(lib, v, path).Clear? && WalkTo(lib, v, path).target.Atom? && !WalkTo(lib, v, path).target.json)
  }

  lemma ForeignChild(v: Value)
    ensures HasForeignAtom(v) <==>
      (v.Atom? && !v.json) || exists i | 0 <= i < |Children(v)| :: HasForeignAtom(Children(v)[i])
  {
    match v
    case Dict(entries) =>
      assert forall i | 0 <= i < |entries| :: Children(v)[i] == entries[i].value;
      if i :| 0 <= i < |entries| && HasForeignAtom(entries[i].value) {
        assert HasForeignAtom(Children(v)[i]);
      }
    case List(items) => assert Children(v) == items;
    case Tuple(members) => assert Children(v) == members;
    case Str(_) =>
    case Atom(_, _) =>
  }

  /** What JSON has no form for survives redaction exactly where no sensitive key is over it. */
  lemma {:induction false} ForeignAfterRedaction(lib: Library, v: Value, key: string) returns (path: seq<nat>)
    requires lib.ParseShrinks() && !F.KeyIsSensitive(lib, key) && RedactValue(lib, v, key).Some?
    requires HasForeignAtom(RedactValue(lib, v, key).value)
    ensures Unwritable(lib, v, path)
    decreases Nodes(v)
  {
    hide F.KeyIsSensitive, RedactValue, RaisesOn, RedactedText, HasForeignAtom;
    var after := RedactValue(lib, v, key).value;
    RedactNode(lib, v, key);
    ForeignChild(after);
    if i: nat :| i < |Children(after)| && HasForeignAtom(Children(after)[i]) {
      if F.KeyIsSensitive(lib, KeyOver(v, i)) {
        RedactSensitive(lib, Children(v)[i], KeyOver(v, i));
        ForeignChild(Str(REDACTED));
      }
      ChildHasFewerNodes(v, i);
      var rest := ForeignAfterRedaction(lib, Children(v)[i], KeyOver(v, i));
      path := [i] + rest;
      assert path[1..] == rest;
    } else {
      path := [];
    }
  }

  lemma {:induction false} ForeignAtomSurvives(lib: Library, v: Value, key: string, path: seq<nat>)
    requires lib.ParseShrinks() && !F.KeyIsSensitive(lib, key) && RedactValue(lib, v, key).Some?
    requires WalkTo(lib, v, path).Clear?
    requires WalkTo(lib, v, path).target.Atom? && !WalkTo(lib, v, path).target.json
    ensures HasForeignAtom(RedactValue(lib, v, key).value)
    decreases |path|
  {
    hide F.KeyIsSensitive, RedactValue, RaisesOn, RedactedText, HasForeignAtom;
    RedactNode(lib, v, key);
    ForeignChild(RedactValue(lib, v, key).value);
    if path != [] {
      ForeignAtomSurvives(lib, Children(v)[path[0]], KeyOver(v, path[0]), path[1..]);
    }
  }

  /** A parsed container cannot be rendered exactly when, below no sensitive key, it holds
      something JSON has no form for, or a text whose own redaction raises. */
  lemma SerializationRaises(lib: Library, v: Value)
    requires lib.ParseShrinks() && lib.FoldsPlainly() && lib.DumpsPlainly()
    ensures RedactSerialized(lib, v).None? <==> exists path :: Unwritable(lib, v, path)
  {
    F.KeyWithoutAOrEIsNotSensitive(lib, "");
    hide F.KeyIsSensitive, RedactValue, HasForeignAtom, TextRaises, WalkTo;
    RedactionRaises(lib, v, "");
    if path :| TextRaises(lib, v, path) {
      assert Unwritable(lib, v, path);
    }
    if RedactValue(lib, v, "").Some? {
      if HasForeignAtom(RedactValue(lib, v, "").value) {
        var path := ForeignAfterRedaction(lib, v, "");
      }
      forall path | Unwritable(lib, v, path) ensures HasForeignAtom(RedactValue(lib, v, "").value) {
        ForeignAtomSurvives(lib, v, "", path);
      }
    }
  }

  const BYTES_IN_LIST := "[1, b'x']"

  lemma BytesContainer()
    ensures NextOpener(BYTES_IN_LIST, 0) == Some(0) && LooksSerialized(BYTES_IN_LIST, 0)
    ensures ContainerEnd(BYTES_IN_LIST, 0) == Some(8)
    ensures CutAt(BYTES_IN_LIST, 0, 8) == Cut(0, 9, false) && Source(BYTES_IN_LIST, Cut(0, 9, false)) == BYTES_IN_LIST
  {
    var value := BYTES_IN_LIST;
    assert |value| == 9 && value[0] == '[' && value[1] == '1';
    assert value[1..][0] == '1' && StripLeft(value[1..], IsSpace) == value[1..];
    var quote := Some('\'');
    assert ScanFrom(value, 8, [']'], None, false) == Some(8);
    assert ScanFrom(value, 7, [']'], quote, false) == Some(8);
    assert ScanFrom(value, 6, [']'], quote, false) == Some(8);
    assert ScanFrom(value, 5, [']'], None, false) == Some(8);
    assert ScanFrom(value, 4, [']'], None, false) == Some(8);
    assert ScanFrom(value, 3, [']'], None, false) == Some(8);
    assert ScanFrom(value, 2, [']'], None, false) == Some(8);
    assert ScanFrom(value, 1, [']'], None, false) == Some(8);
    assert value[0..9] == value;
  }

  lemma BytesUnwritable(lib: Library, one: Value, bytes: Value)
    requires lib.ParseShrinks() && lib.FoldsPlainly() && lib.DumpsPlainly()
    requires bytes.Atom? && !bytes.json
    ensures RedactSerialized(lib, List([one, bytes])).None?
  {
    F.KeyWithoutAOrEIsNotSensitive(lib, "");
    hide F.KeyIsSensitive, RedactSerialized;
    var parsed, path: seq<nat> := List([one, bytes]), [1];
    SerializationRaises(lib, parsed);
    assert path[1..] == [] && Children(parsed)[1] == bytes && WalkTo(lib, bytes, []) == Clear(bytes);
    assert WalkTo(lib, parsed, path) == Clear(bytes);
    assert Unwritable(lib, parsed, path);
  }

  /** A list with bytes in it, which `ast.literal_eval` reads and `json.dumps` refuses, makes
      the redactor raise. */
  lemma BytesMakeItRaise(lib: Library)
    requires lib.ParseShrinks() && lib.FoldsPlainly() && lib.DumpsPlainly()
    requires lib.parse(BYTES_IN_LIST) == Some(List([Atom("1", true), Atom("b'x'", false)]))
    ensures RedactRuntimeValue(lib, BYTES_IN_LIST) == None
  {
    BytesContainer();
    BytesUnwritable(lib, Atom("1", true), Atom("b'x'", false));
    hide F.KeyIsSensitive, LooksSerialized, RedactFragments, RedactSerialized, BYTES_IN_LIST, ContainerEnd, CutAt,
      NextOpener, Source, Rendered, Then, EndsContainer, REDACTED;
    TurnAtContainer(lib, BYTES_IN_LIST, 0, 0);
  }
}
