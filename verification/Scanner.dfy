/** Finding the end of a serialized container inside free text
    (src/bitcoin_metadata.py, `_container_end`). */
module Scanner {
  import opened Text

  predicate IsOpen(c: char) {
    c == '{' || c == '['
  }

  predicate IsClose(c: char) {
    c == '}' || c == ']'
  }

  function Closer(c: char): char {
    if c == '{' then '}' else ']'
  }

  /** `_quoted_char_state`: the new quote and escape state, and whether the character
      was consumed by quoting. */
  function QuotedCharState(c: char, quote: Option<char>, escaped: bool): (Option<char>, bool, bool) {
    if escaped then (quote, false, true)
    else if c == '\\' then (quote, true, true)
    else if quote.Some? then (if c == quote.value then None else quote, false, true)
    else if IsQuote(c) then (Some(c), false, true)
    else (quote, false, false)
  }

  // ------------------------------------------------------------- the grammar

  /** How many backslashes stand right before index `i`. */
  ghost function Backslashes(t: string, i: nat): nat
    requires i <= |t|
  {
    if i == 0 || t[i - 1] != '\\' then 0 else 1 + Backslashes(t, i - 1)
  }

  /** An odd run of backslashes stands before the index. */
  ghost predicate Escaped(t: string, i: nat)
    requires i <= |t|
  {
    Backslashes(t, i) % 2 == 1
  }

  /** The quotes of a text that are not escaped, in order. */
  ghost function Quotes(t: string): string {
    if t == "" then ""
    else
      var last := |t| - 1;
      Quotes(t[..last]) + (if (t[last] == '\'' || t[last] == '"') && !Escaped(t, last) then [t[last]] else "")
  }

  /** The quote that is left open when each quote is closed by the next one of its kind. */
  ghost function LeftOpen(quotes: string): Option<char>
    decreases |quotes|
  {
    if quotes == "" then None
    else
      match Find(quotes, quotes[0], 1)
      case None => Some(quotes[0])
      case Some(k) => LeftOpen(quotes[k + 1..])
  }

  /** What follows the text stands outside quotes and is not escaped. */
  ghost predicate InTheOpen(t: string) {
    !Escaped(t, |t|) && LeftOpen(Quotes(t)) == None
  }

  /** The brackets of a text that stand outside quotes and are not escaped. */
  ghost function Brackets(t: string): string {
    if t == "" then ""
    else
      var last := |t| - 1;
      Brackets(t[..last]) + (if t[last] in "{}[]" && InTheOpen(t[..last]) then [t[last]] else "")
  }

  ghost predicate Matching(open: char, close: char) {
    (open == '{' && close == '}') || (open == '[' && close == ']')
  }

  /** Words over the brackets in which every bracket is closed by its own kind:
      the empty word, or an opener, a balanced word, its closer, a balanced word. */
  ghost predicate Balanced(w: string)
    decreases |w|
  {
    w == "" || exists k | 0 < k < |w| :: OpensAndClosesAt(w, k) && Balanced(w[1..k]) && Balanced(w[k + 1..])
  }

  ghost predicate OpensAndClosesAt(w: string, k: int)
    requires 0 < k < |w|
  {
    Matching(w[0], w[k])
  }

  /** The brackets from `start` to `e` form one complete balanced word: the opener at
      `start`, a balanced word, and at `e`, in the open, the opener's closer. */
  ghost predicate EndsContainer(value: string, start: nat, e: nat) {
    && start < e < |value|
    && Matching(value[start], value[e])
    && InTheOpen(value[start + 1..e])
    && Balanced(Brackets(value[start + 1..e]))
  }

  // ------------------------------------- the scanner's states, and what they mean

  ghost function Visible(s: string, quote: Option<char>, escaped: bool): string {
    if s == "" then ""
    else
      var (q, e, consumed) := QuotedCharState(s[0], quote, escaped);
      (if !consumed && (IsOpen(s[0]) || IsClose(s[0])) then [s[0]] else "") + Visible(s[1..], q, e)
  }

  ghost function StateAfter(s: string, quote: Option<char>, escaped: bool): (Option<char>, bool) {
    if s == "" then (quote, escaped)
    else
      var (q, e, _) := QuotedCharState(s[0], quote, escaped);
      StateAfter(s[1..], q, e)
  }

  ghost predicate SeesCloser(c: char, state: (Option<char>, bool)) {
    IsClose(c) && !QuotedCharState(c, state.0, state.1).2
  }

  lemma {:induction false} LastState(s: string, c: char, quote: Option<char>, escaped: bool)
    ensures
      var (q, e) := StateAfter(s, quote, escaped);
      var (q', e', consumed) := QuotedCharState(c, q, e);
      && StateAfter(s + [c], quote, escaped) == (q', e')
      && Visible(s + [c], quote, escaped) ==
           Visible(s, quote, escaped) + (if !consumed && (IsOpen(c) || IsClose(c)) then [c] else "")
    decreases |s|
  {
    if s == "" {
      assert ("" + [c])[1..] == "";
    } else {
      var (q, e, _) := QuotedCharState(s[0], quote, escaped);
      assert (s + [c])[1..] == s[1..] + [c];
      LastState(s[1..], c, q, e);
    }
  }

  /** One more unescaped quote opens, closes, or is inside another one. */
  lemma {:induction false} OneMoreQuote(quotes: string, c: char)
    ensures LeftOpen(quotes + [c]) ==
      match LeftOpen(quotes)
      case None => Some(c)
      case Some(q) => if c == q then None else Some(q)
    decreases |quotes|
  {
    var more := quotes + [c];
    if quotes == "" {
      assert more[1..] == "";
    } else {
      var first := quotes[0];
      FindInLonger(quotes, c, first);
      match Find(quotes, first, 1) {
        case None =>
          assert c == first ==> more[|quotes| + 1..] == "";
        case Some(k) =>
          assert more[k + 1..] == quotes[k + 1..] + [c];
          OneMoreQuote(quotes[k + 1..], c);
      }
    }
  }

  lemma FindInLonger(s: string, c: char, sought: char)
    requires s != ""
    ensures Find(s + [c], sought, 1) ==
      if Find(s, sought, 1).Some? then Find(s, sought, 1) else if c == sought then Some(|s|) else None
  {
    var more := s + [c];
    assert more[1..] == s[1..] + [c];
    match Find(s, sought, 1) {
      case Some(k) =>
        assert more[1..k] == s[1..k];
        FindIsFirst(more, sought, 1, k);
      case None =>
        if c == sought {
          assert more[1..|s|] == s[1..];
          FindIsFirst(more, sought, 1, |s|);
        }
    }
  }

  lemma EscapedOneMore(s: string, c: char)
    ensures Escaped(s + [c], |s|) == Escaped(s, |s|)
    ensures Escaped(s + [c], |s| + 1) <==> c == '\\' && !Escaped(s, |s|)
  {
    BackslashesPrefix(s, c, |s|);
  }

  lemma {:induction false} BackslashesPrefix(s: string, c: char, i: nat)
    requires i <= |s|
    ensures Backslashes(s + [c], i) == Backslashes(s, i)
  {
    if i > 0 {
      BackslashesPrefix(s, c, i - 1);
    }
  }

  lemma FourBrackets(c: char)
    ensures c in "{}[]" <==> IsOpen(c) || IsClose(c)
    ensures c in "{}[]" ==> c != '\\' && !IsQuote(c)
  {
  }

  lemma {:induction false} OnlyQuotes(t: string)
    ensures forall i | 0 <= i < |Quotes(t)| :: IsQuote(Quotes(t)[i])
    decreases |t|
  {
    if t != "" {
      OnlyQuotes(t[..|t| - 1]);
    }
  }

  lemma {:induction false} LeftOpenIsOneOfThem(quotes: string)
    ensures LeftOpen(quotes).Some? ==> LeftOpen(quotes).value in quotes
    decreases |quotes|
  {
    if quotes != "" && Find(quotes, quotes[0], 1).Some? {
      LeftOpenIsOneOfThem(quotes[Find(quotes, quotes[0], 1).value + 1..]);
    }
  }

  /** What one character does to the state. */
  lemma StateStep(c: char, open: Option<char>, escaped: bool)
    requires open.Some? ==> IsQuote(open.value)
    ensures
      var (q, e, consumed) := QuotedCharState(c, open, escaped);
      && q == (if (c == '\'' || c == '"') && !escaped
               then (match open case None => Some(c) case Some(o) => if c == o then None else Some(o))
               else open)
      && e == (c == '\\' && !escaped)
      && (!consumed && (IsOpen(c) || IsClose(c)) <==> c in "{}[]" && !escaped && open == None)
  {
    FourBrackets(c);
  }

  lemma OpenQuoteIsQuote(t: string)
    ensures LeftOpen(Quotes(t)).Some? ==> IsQuote(LeftOpen(Quotes(t)).value)
  {
    OnlyQuotes(t);
    LeftOpenIsOneOfThem(Quotes(t));
    hide LeftOpen, Quotes;
  }

  lemma OneMoreCharacter(s: string, c: char)
    ensures Quotes(s + [c]) ==
      if (c == '\'' || c == '"') && !Escaped(s, |s|) then Quotes(s) + [c] else Quotes(s)
    ensures Brackets(s + [c]) == if c in "{}[]" && InTheOpen(s) then Brackets(s) + [c] else Brackets(s)
  {
    var t := s + [c];
    assert t[..|t| - 1] == s && t[|t| - 1] == c;
    EscapedOneMore(s, c);
    hide Escaped, InTheOpen;
    assert Quotes(s) + "" == Quotes(s) && Brackets(s) + "" == Brackets(s);
  }

  /** The scanner's state after a text, and the brackets it has seen there. */
  lemma {:induction false} StatesMean(t: string)
    ensures StateAfter(t, None, false) == (LeftOpen(Quotes(t)), Escaped(t, |t|))
    ensures Visible(t, None, false) == Brackets(t)
    decreases |t|
  {
    if t == "" {
      assert LeftOpen(Quotes(t)) == None && !Escaped(t, 0);
    } else {
      var last := |t| - 1;
      var s, c := t[..last], t[last];
      assert t == s + [c];
      StatesMean(s);
      LastState(s, c, None, false);
      EscapedOneMore(s, c);
      OneMoreQuote(Quotes(s), c);
      OpenQuoteIsQuote(s);
      StateStep(c, LeftOpen(Quotes(s)), Escaped(s, |s|));
      OneMoreCharacter(s, c);
      hide Escaped, LeftOpen, StateAfter, Visible, QuotedCharState, IsOpen, IsClose, IsQuote, Quotes, Brackets;
      assert Visible(s, None, false) + "" == Visible(s, None, false);
    }
  }

  lemma CloserMatches(open: char, close: char)
    requires IsOpen(open)
    ensures Matching(open, close) <==> close == Closer(open)
    ensures Matching(open, close) ==> IsClose(close)
  {
  }

  lemma EndsByState(value: string, start: nat, e: nat)
    ensures EndsContainer(value, start, e) <==>
      && start < e < |value|
      && IsOpen(value[start])
      && SeesCloser(value[e], StateAfter(value[start + 1..e], None, false))
      && value[e] == Closer(value[start])
      && Balanced(Visible(value[start + 1..e], None, false))
  {
    hide Balanced;
    if start < e < |value| {
      StatesMean(value[start + 1..e]);
      hide Escaped, LeftOpen, StateAfter, Visible, Quotes, Brackets;
      if IsOpen(value[start]) {
        CloserMatches(value[start], value[e]);
      }
      FourBrackets(value[e]);
    }
  }

  // ------------------------------------------------------------- the scanner

  function ScanFrom(value: string, index: nat, stack: seq<char>, quote: Option<char>, escaped: bool): Option<nat>
    requires index <= |value| && stack != []
    decreases |value| - index
  {
    if index == |value| then None
    else
      var c := value[index];
      var (q, e, consumed) := QuotedCharState(c, quote, escaped);
      if consumed then ScanFrom(value, index + 1, stack, q, e)
      else if IsOpen(c) then ScanFrom(value, index + 1, stack + [Closer(c)], q, e)
      else if !IsClose(c) then ScanFrom(value, index + 1, stack, q, e)
      else if c != stack[|stack| - 1] then None
      else if |stack| == 1 then Some(index)
      else ScanFrom(value, index + 1, stack[..|stack| - 1], q, e)
  }

  function ContainerEnd(value: string, start: nat): Option<nat>
    requires start < |value|
  {
    ScanFrom(value, start + 1, [Closer(value[start])], None, false)
  }

  /** `_container_end` */
  method FindContainerEnd(value: string, start: nat) returns (r: Option<nat>)
    requires start < |value| && IsOpen(value[start])
    ensures r == ContainerEnd(value, start)
    ensures r.Some? ==> EndsContainer(value, start, r.value)
    ensures forall e: nat :: EndsContainer(value, start, e) ==> r == Some(e)
  {
    ContainerEndExact(value, start);
    var stack := [Closer(value[start])];
    var quote: Option<char>, escaped := None, false;
    for index := start + 1 to |value|
      invariant stack != []
      invariant ContainerEnd(value, start) == ScanFrom(value, index, stack, quote, escaped)
    {
      var c := value[index];
      var state := QuotedCharState(c, quote, escaped);
      quote, escaped := state.0, state.1;
      if state.2 {
        continue;
      }
      if IsOpen(c) {
        stack := stack + [Closer(c)];
        continue;
      }
      if !IsClose(c) {
        continue;
      }
      if c != stack[|stack| - 1] {
        return None;
      }
      stack := stack[..|stack| - 1];
      if stack == [] {
        return Some(index);
      }
    }
    return None;
  }

  // ------------------------------------------- the scanner decides the grammar

  /** `w` closes all of `stack`, innermost last in the stack, exactly at its end. */
  ghost predicate Closes(stack: seq<char>, w: string)
    decreases |stack|
  {
    if stack == [] then w == ""
    else exists k | 0 <= k < |w| :: ClosesTopAt(stack, w, k) && Closes(stack[..|stack| - 1], w[k + 1..])
  }

  ghost predicate ClosesTopAt(stack: seq<char>, w: string, k: nat)
    requires stack != [] && k < |w|
  {
    w[k] == stack[|stack| - 1] && Balanced(w[..k])
  }

  lemma JoinCloses(stack: seq<char>, b: string, rest: string)
    requires stack != [] && Balanced(b) && Closes(stack[..|stack| - 1], rest)
    ensures Closes(stack, b + [stack[|stack| - 1]] + rest)
  {
    var w := b + [stack[|stack| - 1]] + rest;
    assert w[..|b|] == b && w[|b| + 1..] == rest;
    assert ClosesTopAt(stack, w, |b|);
  }

  lemma SplitCloses(stack: seq<char>, w: string) returns (b: string, rest: string)
    requires stack != [] && Closes(stack, w)
    ensures w == b + [stack[|stack| - 1]] + rest
    ensures Balanced(b) && Closes(stack[..|stack| - 1], rest)
  {
    var k :| 0 <= k < |w| && ClosesTopAt(stack, w, k) && Closes(stack[..|stack| - 1], w[k + 1..]);
    b, rest := w[..k], w[k + 1..];
  }

  lemma JoinBalanced(o: char, b1: string, b2: string)
    requires IsOpen(o) && Balanced(b1) && Balanced(b2)
    ensures Balanced([o] + b1 + [Closer(o)] + b2)
  {
    var w := [o] + b1 + [Closer(o)] + b2;
    var k := |b1| + 1;
    assert w[0] == o && w[k] == Closer(o);
    assert w[1..k] == b1;
    assert w[k + 1..] == b2;
    assert OpensAndClosesAt(w, k);
  }

  lemma SplitBalanced(b: string) returns (b1: string, b2: string)
    requires b != "" && Balanced(b)
    ensures IsOpen(b[0]) && b == [b[0]] + b1 + [Closer(b[0])] + b2
    ensures Balanced(b1) && Balanced(b2)
  {
    var k :| 0 < k < |b| && OpensAndClosesAt(b, k) && Balanced(b[1..k]) && Balanced(b[k + 1..]);
    b1, b2 := b[1..k], b[k + 1..];
  }

  lemma OpenThenCloses(stack: seq<char>, o: char, w: string)
    requires stack != [] && IsOpen(o)
    requires Closes(stack + [Closer(o)], w)
    ensures Closes(stack, [o] + w)
  {
    hide Closes, Balanced;
    var deeper, top := stack + [Closer(o)], stack[|stack| - 1];
    assert deeper[..|deeper| - 1] == stack;
    var b1, rest1 := SplitCloses(deeper, w);
    var b2, rest2 := SplitCloses(stack, rest1);
    JoinBalanced(o, b1, b2);
    JoinCloses(stack, [o] + b1 + [Closer(o)] + b2, rest2);
    assert [o] + w == [o] + b1 + [Closer(o)] + b2 + [top] + rest2;
  }

  lemma ClosesThenOpen(stack: seq<char>, o: char, w: string)
    requires stack != [] && IsOpen(o) && IsClose(stack[|stack| - 1])
    requires Closes(stack, [o] + w)
    ensures Closes(stack + [Closer(o)], w)
  {
    hide Closes, Balanced;
    var deeper, top := stack + [Closer(o)], stack[|stack| - 1];
    assert deeper[..|deeper| - 1] == stack;
    var b, rest := SplitCloses(stack, [o] + w);
    assert b != "" && b[0] == o by {
      assert ([o] + w)[0] == (b + [top] + rest)[0];
    }
    var b1, b2 := SplitBalanced(b);
    JoinCloses(stack, b2, rest);
    JoinCloses(deeper, b1, b2 + [top] + rest);
    OpenedWord(o, w, b1, Closer(o), b2, top, rest);
  }

  lemma OpenedWord(o: char, w: string, b1: string, close: char, b2: string, top: char, rest: string)
    requires [o] + w == [o] + b1 + [close] + b2 + [top] + rest
    ensures w == b1 + [close] + (b2 + [top] + rest)
  {
    assert [o] + w == [o] + (b1 + [close] + (b2 + [top] + rest));
    assert w == ([o] + w)[1..];
  }

  lemma ClosesThenClose(stack: seq<char>, c: char, w: string)
    requires stack != [] && IsClose(c)
    ensures Closes(stack, [c] + w) <==> c == stack[|stack| - 1] && Closes(stack[..|stack| - 1], w)
  {
    hide Closes;
    if c == stack[|stack| - 1] && Closes(stack[..|stack| - 1], w) {
      JoinCloses(stack, "", w);
      assert "" + [c] + w == [c] + w;
    }
    if Closes(stack, [c] + w) {
      var b, rest := SplitCloses(stack, [c] + w);
      assert ([c] + w)[0] == c;
      assert b == "";
      assert w == ([c] + w)[1..] == rest;
    }
  }

  ghost predicate EndsFrom(value: string, index: nat, stack: seq<char>, quote: Option<char>, escaped: bool, e: nat) {
    && index <= e < |value|
    && SeesCloser(value[e], StateAfter(value[index..e], quote, escaped))
    && Closes(stack, Visible(value[index..e], quote, escaped) + [value[e]])
  }

  ghost predicate AllClosers(stack: seq<char>) {
    forall i | 0 <= i < |stack| :: IsClose(stack[i])
  }

  lemma EndsLater(value: string, index: nat, stack: seq<char>, quote: Option<char>, escaped: bool, e: nat)
    requires index < e < |value| && stack != [] && AllClosers(stack)
    ensures
      var c := value[index];
      var (q, x, consumed) := QuotedCharState(c, quote, escaped);
      EndsFrom(value, index, stack, quote, escaped, e) <==>
        if consumed || !(IsOpen(c) || IsClose(c)) then EndsFrom(value, index + 1, stack, q, x, e)
        else if IsOpen(c) then EndsFrom(value, index + 1, stack + [Closer(c)], q, x, e)
        else c == stack[|stack| - 1] && EndsFrom(value, index + 1, stack[..|stack| - 1], q, x, e)
  {
    var c := value[index];
    var (q, x, consumed) := QuotedCharState(c, quote, escaped);
    assert value[index..e][0] == c && value[index..e][1..] == value[index + 1..e];
    var w := Visible(value[index + 1..e], q, x) + [value[e]];
    assert StateAfter(value[index..e], quote, escaped) == StateAfter(value[index + 1..e], q, x);
    if !consumed && IsOpen(c) {
      assert Visible(value[index..e], quote, escaped) + [value[e]] == [c] + w;
      if Closes(stack, [c] + w) {
        ClosesThenOpen(stack, c, w);
      }
      if Closes(stack + [Closer(c)], w) {
        OpenThenCloses(stack, c, w);
      }
    } else if !consumed && IsClose(c) {
      assert Visible(value[index..e], quote, escaped) + [value[e]] == [c] + w;
      ClosesThenClose(stack, c, w);
    } else {
      assert Visible(value[index..e], quote, escaped) + [value[e]] == w;
    }
  }

  lemma EndsHere(value: string, index: nat, stack: seq<char>, quote: Option<char>, escaped: bool)
    requires index < |value| && stack != []
    ensures EndsFrom(value, index, stack, quote, escaped, index) <==>
      SeesCloser(value[index], (quote, escaped)) && stack == [value[index]]
  {
    assert value[index..index] == "";
    if SeesCloser(value[index], (quote, escaped)) {
      assert "" + [value[index]] == [value[index]] + "";
      ClosesThenClose(stack, value[index], "");
    }
  }

  lemma {:induction false} ScanFromExact(value: string, index: nat, stack: seq<char>, quote: Option<char>,
        escaped: bool, e: nat)
    requires index <= |value| && stack != [] && AllClosers(stack)
    ensures ScanFrom(value, index, stack, quote, escaped) == Some(e) <==>
      EndsFrom(value, index, stack, quote, escaped, e)
    decreases |value| - index
  {
    if index < |value| {
      var c := value[index];
      var (q, x, consumed) := QuotedCharState(c, quote, escaped);
      EndsHere(value, index, stack, quote, escaped);
      if index < e < |value| {
        EndsLater(value, index, stack, quote, escaped, e);
      }
      if consumed || !(IsOpen(c) || IsClose(c)) {
        ScanFromExact(value, index + 1, stack, q, x, e);
      } else if IsOpen(c) {
        ScanFromExact(value, index + 1, stack + [Closer(c)], q, x, e);
      } else if c == stack[|stack| - 1] && |stack| > 1 {
        ScanFromExact(value, index + 1, stack[..|stack| - 1], q, x, e);
      }
    }
  }

  /** The scanner returns `e` exactly when the brackets from `start` to `e` form one
      complete balanced word; so there is at most one such `e`. */
  lemma ContainerEndExact(value: string, start: nat)
    requires start < |value| && IsOpen(value[start])
    ensures forall e: nat :: EndsContainer(value, start, e) <==> ContainerEnd(value, start) == Some(e)
  {
    var c := Closer(value[start]);
    forall e: nat ensures EndsContainer(value, start, e) <==> ContainerEnd(value, start) == Some(e) {
      EndsByState(value, start, e);
      ScanFromExact(value, start + 1, [c], None, false, e);
      if start < e < |value| {
        ClosesOne(c, Visible(value[start + 1..e], None, false), value[e]);
      }
    }
  }

  lemma ClosesOne(c: char, b: string, last: char)
    ensures Closes([c], b + [last]) <==> last == c && Balanced(b)
  {
    var w := b + [last];
    assert [c][..0] == [];
    if last == c && Balanced(b) {
      JoinCloses([c], b, "");
      assert b + [c] + "" == w;
    }
    if Closes([c], w) {
      var b', rest := SplitCloses([c], w);
      assert w[..|b|] == b && w[..|b|] == b';
    }
  }

  /** Text after the container has no influence on where it ends. */
  lemma ContainerEndIgnoresRest(value: string, start: nat, e: nat, rest: string)
    requires start < |value| && IsOpen(value[start])
    requires ContainerEnd(value, start) == Some(e)
    ensures start < e < |value| && ContainerEnd(value[..e + 1] + rest, start) == Some(e)
  {
    ContainerEndExact(value, start);
    assert EndsContainer(value, start, e);
    var other := value[..e + 1] + rest;
    assert other[start + 1..e] == value[start + 1..e];
    ContainerEndExact(other, start);
    assert EndsContainer(other, start, e);
  }
}
