/** What the service units (the files in templates) make of the files the charm writes:
    the syntax of `EnvironmentFile=`, systemd.exec(5), as systemd reads it character by
    character, and the splitting of an unbraced variable on the command line,
    systemd.service(5). */
module Units {
  import opened Text
  import opened Libraries

  type Env = seq<(string, string)>

  predicate IsNewline(c: char) {
    c == '\n' || c == '\r'
  }

  // ------------------------------------------------------ reading an environment file

  datatype Mode =
    | PreKey | InKey
    | PreValue | InValue | Escape | SingleQuoted | DoubleQuoted | DoubleEscape
    | Comment | CommentEscape

  /** `blanks` are blanks that belong to the key or value only if more of it follows. */
  datatype Reader = Reader(mode: Mode, key: string, value: string, blanks: string)

  const START := Reader(PreKey, "", "", "")

  predicate ReadsValue(mode: Mode) {
    mode.PreValue? || mode.InValue? || mode.Escape? || mode.SingleQuoted? || mode.DoubleQuoted? || mode.DoubleEscape?
  }

  /** Quotes count only before other text of a value; a backslash preserves the next
      character, or joins the next line; between double quotes it does so only before
      the characters that need it. */
  function Next(r: Reader, c: char): Reader {
    match r.mode
    case PreKey =>
      if c == '#' || c == ';' then Reader(Comment, "", "", "")
      else if IsShellSpace(c) then r
      else Reader(InKey, [c], "", "")
    case InKey =>
      if IsNewline(c) then START
      else if c == '=' then Reader(PreValue, r.key, "", "")
      else if IsShellSpace(c) then r.(blanks := r.blanks + [c])
      else r.(key := r.key + r.blanks + [c], blanks := "")
    case PreValue =>
      if IsNewline(c) then START
      else if c == '\'' then r.(mode := SingleQuoted)
      else if c == '"' then r.(mode := DoubleQuoted)
      else if c == '\\' then r.(mode := Escape)
      else if IsShellSpace(c) then r
      else Reader(InValue, r.key, r.value + [c], "")
    case InValue =>
      if IsNewline(c) then START
      else if c == '\\' then Reader(Escape, r.key, r.value + r.blanks, "")
      else if IsShellSpace(c) then r.(blanks := r.blanks + [c])
      else r.(value := r.value + r.blanks + [c], blanks := "")
    case Escape => Reader(InValue, r.key, if IsNewline(c) then r.value else r.value + [c], "")
    case SingleQuoted => if c == '\'' then r.(mode := PreValue) else r.(value := r.value + [c])
    case DoubleQuoted =>
      if c == '"' then r.(mode := PreValue)
      else if c == '\\' then r.(mode := DoubleEscape)
      else r.(value := r.value + [c])
    case DoubleEscape =>
      if c in "\"\\`$" then r.(mode := DoubleQuoted, value := r.value + [c])
      else if c == '\n' then r.(mode := DoubleQuoted)
      else r.(mode := DoubleQuoted, value := r.value + ['\\', c])
    case Comment =>
      if c == '\\' then r.(mode := CommentEscape) else if IsNewline(c) then START else r
    case CommentEscape =>
      if IsNewline(c) then START else r.(mode := Comment)
  }

  /** The assignment that a character completes. */
  function Completed(r: Reader, c: char): Env {
    if (r.mode.PreValue? || r.mode.InValue?) && IsNewline(c) then [(r.key, r.value)] else []
  }

  function Read(r: Reader, text: string): Env
    decreases |text|
  {
    if text == "" then if ReadsValue(r.mode) then [(r.key, r.value)] else []
    else Completed(r, text[0]) + Read(Next(r, text[0]), text[1..])
  }

  /** NUL, the byte order mark and the noncharacters of Unicode: a file with one of them
      is not read at all, which a unit that writes `-` before the path ignores. */
  predicate IsRejected(c: char) {
    || c == '\0' || c == '\U{FEFF}' || '\U{FDD0}' <= c <= '\U{FDEF}'
    || c as int % 0x1_0000 >= 0xFFFE
  }

  predicate Accepted(text: string) {
    forall i | 0 <= i < |text| :: !IsRejected(text[i])
  }

  predicate IsNameCharacter(c: char) {
    'a' <= c <= 'z' || 'A' <= c <= 'Z' || '0' <= c <= '9' || c == '_'
  }

  predicate IsName(key: string) {
    && key != "" && !('0' <= key[0] <= '9')
    && forall i | 0 <= i < |key| :: IsNameCharacter(key[i])
  }

  /** Assignments to anything but a variable name are dropped. */
  function Named(pairs: Env): Env {
    if pairs == [] then []
    else (if IsName(pairs[0].0) then [pairs[0]] else []) + Named(pairs[1..])
  }

  function ReadEnv(text: string): Env {
    if Accepted(text) then Named(Read(START, text)) else []
  }

  /** The last assignment to a variable wins. */
  function Lookup(pairs: Env, key: string): Option<string> {
    if pairs == [] then None
    else if pairs[|pairs| - 1].0 == key then Some(pairs[|pairs| - 1].1)
    else Lookup(pairs[..|pairs| - 1], key)
  }

  // ----------------------------------------------------------- values that read back

  /** A value that, written bare after the `=`, is read as itself. */
  ghost predicate IsPlain(value: string) {
    && Accepted(value)
    && (forall i | 0 <= i < |value| :: value[i] != '\\' && !IsNewline(value[i]))
    && (value != "" ==> !IsShellSpace(value[0]) && !IsQuote(value[0]) && !IsShellSpace(value[|value| - 1]))
  }

  lemma {:induction false} KeyRead(done: string, key: string, rest: string)
    requires forall i | 0 <= i < |key| :: key[i] != '=' && !IsShellSpace(key[i])
    ensures Read(Reader(InKey, done, "", ""), key + rest) == Read(Reader(InKey, done + key, "", ""), rest)
    decreases |key|
  {
    if key == "" {
      assert key + rest == rest && done + key == done;
    } else {
      assert (key + rest)[1..] == key[1..] + rest;
      assert done + "" + [key[0]] == done + [key[0]];
      assert done + [key[0]] + key[1..] == done + key;
      KeyRead(done + [key[0]], key[1..], rest);
    }
  }

  lemma NameRead(key: string, rest: string)
    requires IsName(key)
    ensures Read(START, key + "=" + rest) == Read(Reader(PreValue, key, "", ""), rest)
  {
    var text := key + "=" + rest;
    assert IsNameCharacter(key[0]);
    assert text[1..] == key[1..] + ("=" + rest);
    KeyRead([key[0]], key[1..], "=" + rest);
    assert [key[0]] + key[1..] == key;
    assert ("=" + rest)[1..] == rest;
  }

  /** Text without backslashes and line ends is taken as it stands. */
  lemma {:induction false} TextRead(key: string, done: string, blanks: string, text: string, rest: string)
    requires forall i | 0 <= i < |text| :: text[i] != '\\' && !IsNewline(text[i])
    requires if text == "" then blanks == "" else !IsShellSpace(text[|text| - 1])
    ensures Read(Reader(InValue, key, done, blanks), text + rest)
         == Read(Reader(InValue, key, done + blanks + text, ""), rest)
    decreases |text|
  {
    if text == "" {
      assert text + rest == rest && done + blanks + text == done;
    } else {
      var c := text[0];
      assert (text + rest)[1..] == text[1..] + rest;
      if IsShellSpace(c) {
        TextRead(key, done, blanks + [c], text[1..], rest);
        assert done + (blanks + [c]) + text[1..] == done + blanks + text;
      } else {
        TextRead(key, done + blanks + [c], "", text[1..], rest);
        assert done + blanks + [c] + "" + text[1..] == done + blanks + text;
      }
    }
  }

  /** A plain value is read up to the end of its line. */
  lemma PlainRead(key: string, value: string, rest: string)
    requires IsPlain(value) && value != ""
    ensures Read(Reader(PreValue, key, "", ""), value + rest) == Read(Reader(InValue, key, value, ""), rest)
  {
    assert (value + rest)[1..] == value[1..] + rest;
    assert "" + [value[0]] == [value[0]];
    TextRead(key, [value[0]], "", value[1..], rest);
    assert [value[0]] + "" + value[1..] == value;
  }

  lemma LineRead(key: string, value: string, rest: string)
    requires IsName(key) && IsPlain(value)
    ensures Read(START, key + "=" + value + "\n" + rest) == [(key, value)] + Read(START, rest)
  {
    var end := "\n" + rest;
    assert end[1..] == rest;
    assert key + "=" + value + "\n" + rest == key + "=" + (value + end);
    NameRead(key, value + end);
    if value == "" {
      assert value + end == end;
    } else {
      PlainRead(key, value, end);
    }
  }

  /** A backslash at the end of a value makes the next line part of it. */
  lemma BackslashJoinsLines(key: string, value: string, line: string, rest: string)
    requires IsName(key) && IsPlain(value) && IsPlain(line) && line != ""
    ensures Read(START, key + "=" + (value + ("\\\n" + (line + ("\n" + rest)))))
         == [(key, value + line)] + Read(START, rest)
  {
    hide IsName, Accepted, Read, Next, IsShellSpace;
    var end := "\n" + rest;
    NameRead(key, value + ("\\\n" + (line + end)));
    BackslashRead(key, value, line + end);
    TextRead(key, value, "", line, end);
    assert value + "" + line == value + line;
    LineEndRead(key, value + line, rest);
  }

  lemma LineEndRead(key: string, value: string, rest: string)
    ensures Read(Reader(InValue, key, value, ""), "\n" + rest) == [(key, value)] + Read(START, rest)
  {
    assert ("\n" + rest)[1..] == rest;
  }

  lemma BackslashRead(key: string, value: string, rest: string)
    requires IsPlain(value)
    ensures Read(Reader(PreValue, key, "", ""), value + ("\\\n" + rest)) == Read(Reader(InValue, key, value, ""), rest)
  {
    hide Accepted;
    var joined := "\\\n" + rest;
    assert joined[1..] == "\n" + rest && joined[1..][1..] == rest;
    if value == "" {
      assert value + joined == joined;
    } else {
      PlainRead(key, value, joined);
      assert value + "" == value;
    }
  }

  // --------------------------------- only plain values do, by counting characters

  ghost function Weight(pairs: Env): nat {
    if pairs == [] then 0 else |pairs[0].0| + |pairs[0].1| + 2 + Weight(pairs[1..])
  }

  /** A lower bound of the characters read since the last line end. */
  ghost function Held(r: Reader): nat {
    match r.mode
    case InKey => |r.key| + |r.blanks|
    case PreValue => |r.key| + |r.value| + 1
    case InValue => |r.key| + |r.value| + |r.blanks| + 1
    case Escape => |r.key| + |r.value| + 2
    case SingleQuoted => |r.key| + |r.value| + 2
    case DoubleQuoted => |r.key| + |r.value| + 2
    case DoubleEscape => |r.key| + |r.value| + 3
    case _ => 0
  }

  ghost predicate EndsLine(text: string) {
    text != "" && text[|text| - 1] == '\n'
  }

  lemma WeightOfStep(r: Reader, c: char)
    ensures Weight(Completed(r, c)) + Held(Next(r, c)) <= Held(r) + 1
    ensures c == '\n' ==> Weight(Completed(r, c) + Read(Next(r, c), "")) <= Held(r) + 1
  {
    assert forall pairs: Env :: [] + pairs == pairs && pairs + [] == pairs;
  }

  lemma WeightOfSum(a: Env, b: Env)
    ensures Weight(a + b) == Weight(a) + Weight(b)
  {
    if a == [] {
      assert a + b == b;
    } else {
      assert (a + b)[1..] == a[1..] + b;
      WeightOfSum(a[1..], b);
    }
  }

  /** What is read weighs no more than the text it is read from. */
  lemma {:induction false} WeightBound(r: Reader, text: string)
    ensures Weight(Read(r, text)) <= Held(r) + |text| + 1
    ensures EndsLine(text) ==> Weight(Read(r, text)) <= Held(r) + |text|
    decreases |text|
  {
    if text != "" {
      var c, rest := text[0], text[1..];
      WeightOfStep(r, c);
      WeightBound(Next(r, c), rest);
      WeightOfSum(Completed(r, c), Read(Next(r, c), rest));
    }
  }

  /** Nothing of the text is lost. */
  ghost predicate Tight(r: Reader, text: string) {
    EndsLine(text) && Weight(Read(r, text)) == Held(r) + |text|
  }

  lemma TightStep(r: Reader, text: string)
    requires Tight(r, text) && |text| > 1
    ensures Tight(Next(r, text[0]), text[1..])
    ensures Weight(Completed(r, text[0])) + Held(Next(r, text[0])) == Held(r) + 1
  {
    WeightOfStep(r, text[0]);
    WeightBound(Next(r, text[0]), text[1..]);
    WeightOfSum(Completed(r, text[0]), Read(Next(r, text[0]), text[1..]));
  }

  lemma LastCharacter(r: Reader, text: string)
    requires |text| == 1
    ensures Weight(Read(r, text)) ==
      Weight(Completed(r, text[0])) +
      (var last := Next(r, text[0]); if ReadsValue(last.mode) then |last.key| + |last.value| + 2 else 0)
  {
    assert text[1..] == "";
    WeightOfSum(Completed(r, text[0]), Read(Next(r, text[0]), ""));
  }

  /** Without loss an opened quote is never closed. */
  lemma {:induction false} TightQuoted(r: Reader, text: string)
    requires Tight(r, text) && (r.mode.SingleQuoted? || r.mode.DoubleQuoted?)
    ensures Read(r, text) == [(r.key, r.value + text)]
    decreases |text|
  {
    if |text| == 1 {
      assert text == "\n" && text[1..] == "";
    } else {
      var k := TightQuotedPart(r, text);
      hide Read, Tight;
      TightQuoted(r.(value := r.value + text[..k]), text[k..]);
      assert r.value + text[..k] + text[k..] == r.value + text;
    }
  }

  lemma TightQuotedPart(r: Reader, text: string) returns (k: nat)
    requires Tight(r, text) && (r.mode.SingleQuoted? || r.mode.DoubleQuoted?) && |text| > 1
    ensures 0 < k < |text|
    ensures
      var after := r.(value := r.value + text[..k]);
      Tight(after, text[k..]) && Read(r, text) == Read(after, text[k..])
  {
    if text[0] == '\\' && r.mode.DoubleQuoted? {
      TightDoubleEscape(r, text);
      k := 2;
    } else {
      TightStep(r, text);
      assert text[..1] == [text[0]];
      k := 1;
    }
  }

  /** Without loss, a backslash between double quotes is kept with the next character. */
  lemma TightDoubleEscape(r: Reader, text: string)
    requires Tight(r, text) && r.mode.DoubleQuoted? && |text| > 1 && text[0] == '\\'
    ensures
      var after := r.(value := r.value + text[..2]);
      |text| > 2 && Tight(after, text[2..]) && Read(r, text) == Read(after, text[2..])
  {
    var escape := Next(r, text[0]);
    TightStep(r, text);
    if |text| == 2 {
      LastCharacter(escape, text[1..]);
    } else {
      TightStep(escape, text[1..]);
      assert text[1..][1..] == text[2..] && text[..2] == ['\\', text[1]];
    }
  }

  lemma {:induction false} ShiftedText(text: string, first: char, last: char)
    requires text + [last] == [first] + text
    ensures first == last
    decreases |text|
  {
    assert (text + [last])[0] == ([first] + text)[0] == first;
    if text != "" {
      assert text == [first] + text[1..];
      assert text[1..] + [last] == (text + [last])[1..] == ([first] + text)[1..] == text;
      ShiftedText(text[1..], first, last);
    }
  }

  /** Without loss there is no backslash. */
  lemma NoTightEscape(r: Reader, text: string)
    requires r.mode.Escape? && EndsLine(text)
    ensures !Tight(r, text)
  {
    if Tight(r, text) {
      if |text| == 1 {
        LastCharacter(r, text);
      } else {
        TightStep(r, text);
      }
    }
  }

  /** Without loss, text up to a line end that is read as itself is taken as it stands. */
  lemma {:induction false} TightText(r: Reader, text: string, n: nat)
    requires r.mode.InValue? && Tight(r, text) && n < |text| && text[n] == '\n'
    requires Read(r, text)[0].1 == r.value + r.blanks + text[..n]
    ensures forall i | 0 <= i < n :: text[i] != '\\' && !IsNewline(text[i])
    ensures if n == 0 then r.blanks == "" else !IsShellSpace(text[n - 1])
    decreases n
  {
    if n > 0 {
      TightCharacter(r, text, n);
      var rest := text[1..];
      TightText(Next(r, text[0]), rest, n - 1);
      forall i | 0 < i < n ensures text[i] == rest[i - 1] {
      }
    }
  }

  lemma TightCharacter(r: Reader, text: string, n: nat)
    requires r.mode.InValue? && Tight(r, text) && 0 < n < |text| && text[n] == '\n'
    requires Read(r, text)[0].1 == r.value + r.blanks + text[..n]
    ensures text[0] != '\\' && !IsNewline(text[0])
    ensures
      var after := Next(r, text[0]);
      && after.mode.InValue? && Tight(after, text[1..])
      && Read(after, text[1..])[0].1 == after.value + after.blanks + text[1..][..n - 1]
  {
    var c := text[0];
    TightStep(r, text);
    if c == '\\' {
      NoTightEscape(Next(r, c), text[1..]);
    }
    assert Read(Next(r, c), text[1..]) == Read(r, text);
    hide Read, Tight, Held;
    Reassociate(r.value, r.blanks, c, text[1..][..n - 1]);
    FirstOfMany(text, n);
  }

  lemma FirstOfMany(text: string, n: nat)
    requires 0 < n <= |text|
    ensures text[..n] == [text[0]] + text[1..][..n - 1]
  {
  }

  lemma Reassociate(a: string, b: string, c: char, d: string)
    ensures a + b + ([c] + d) == a + (b + [c]) + d == (a + b + [c]) + "" + d
  {
  }

  /** Without loss, a value that is read as itself is plain. */
  lemma TightValue(key: string, value: string, text: string)
    requires Accepted(value) && |value| < |text| && text[..|value|] == value && text[|value|] == '\n'
    requires Tight(Reader(PreValue, key, "", ""), text)
    requires Read(Reader(PreValue, key, "", ""), text)[0].1 == value
    ensures IsPlain(value)
  {
    if value != "" {
      var r, c := Reader(PreValue, key, "", ""), value[0];
      hide Accepted, Read;
      if IsQuote(c) {
        TightQuotedValue(key, value, text);
      } else {
        TightStep(r, text);
        if c == '\\' {
          NoTightEscape(Next(r, c), text[1..]);
        } else {
          assert !IsShellSpace(c);
          TightBareValue(key, value, text);
        }
      }
    }
  }

  lemma TightQuotedValue(key: string, value: string, text: string)
    requires value != "" && IsQuote(value[0])
    requires |value| < |text| && text[..|value|] == value && text[|value|] == '\n'
    requires Tight(Reader(PreValue, key, "", ""), text)
    ensures Read(Reader(PreValue, key, "", ""), text)[0].1 != value
  {
    var r := Reader(PreValue, key, "", "");
    TightStep(r, text);
    TightQuoted(Next(r, text[0]), text[1..]);
    assert Read(r, text) == Read(Next(r, text[0]), text[1..]) == [(key, "" + text[1..])];
    if text[1..] == value {
      assert text == value + "\n" == [value[0]] + value;
      ShiftedText(value, value[0], '\n');
    }
  }

  lemma TightBareValue(key: string, value: string, text: string)
    requires value != "" && !IsQuote(value[0]) && value[0] != '\\' && !IsShellSpace(value[0])
    requires |value| < |text| && text[..|value|] == value && text[|value|] == '\n'
    requires Accepted(value) && Tight(Reader(PreValue, key, "", ""), text)
    requires Read(Reader(PreValue, key, "", ""), text)[0].1 == value
    ensures IsPlain(value)
  {
    hide Accepted, Read;
    var rest, n := text[1..], |value|;
    TightFirstCharacter(key, value, text);
    TightText(Reader(InValue, key, [value[0]], ""), rest, n - 1);
    assert forall i | 0 < i < n :: value[i] == rest[i - 1];
  }

  lemma FirstAndRest(value: string, text: string)
    requires value != "" && |value| < |text| && text[..|value|] == value
    ensures [value[0]] + "" + text[1..][..|value| - 1] == value
  {
  }

  lemma TightFirstCharacter(key: string, value: string, text: string)
    requires value != "" && !IsQuote(value[0]) && value[0] != '\\' && !IsShellSpace(value[0])
    requires |value| < |text| && text[..|value|] == value
    requires Tight(Reader(PreValue, key, "", ""), text)
    requires Read(Reader(PreValue, key, "", ""), text)[0].1 == value
    ensures
      var after := Reader(InValue, key, [value[0]], "");
      Tight(after, text[1..]) && Read(after, text[1..])[0].1 == [value[0]] + "" + text[1..][..|value| - 1]
  {
    var r, after := Reader(PreValue, key, "", ""), Reader(InValue, key, [value[0]], "");
    TightStep(r, text);
    assert "" + [value[0]] == [value[0]] && Next(r, text[0]) == after;
    assert Read(r, text) == [] + Read(after, text[1..]) == Read(after, text[1..]);
    hide Read, Tight;
    FirstAndRest(value, text);
  }

  lemma {:induction false} NamedWeight(pairs: Env)
    ensures Weight(Named(pairs)) <= Weight(pairs)
    ensures Weight(Named(pairs)) == Weight(pairs) ==> Named(pairs) == pairs
    ensures (forall i | 0 <= i < |pairs| :: IsName(pairs[i].0)) ==> Named(pairs) == pairs
  {
    if pairs != [] {
      NamedWeight(pairs[1..]);
      assert pairs == [pairs[0]] + pairs[1..];
      WeightOfSum(if IsName(pairs[0].0) then [pairs[0]] else [], Named(pairs[1..]));
    }
  }

  // ------------------------------------------------ what a text adds to a value

  /** The reader after a text. */
  function After(r: Reader, text: string): Reader
    decreases |text|
  {
    if text == "" then r else After(Next(r, text[0]), text[1..])
  }

  /** What the text adds to the value that is being read. */
  ghost function Added(r: Reader, text: string): string
    requires ReadsValue(r.mode)
    decreases |text|
  {
    if text == "" || Completed(r, text[0]) != [] then ""
    else
      ValueGrows(r, text[0]);
      var after := Next(r, text[0]);
      after.value[|r.value|..] + Added(after, text[1..])
  }

  /** A value only grows until it is complete. */
  lemma ValueGrows(r: Reader, c: char)
    requires ReadsValue(r.mode) && Completed(r, c) == []
    ensures var after := Next(r, c); ReadsValue(after.mode) && after.key == r.key && r.value <= after.value
  {
  }

  lemma Regrown(before: string, after: string, rest: string)
    requires before <= after
    ensures before + (after[|before|..] + rest) == after + rest
  {
  }

  lemma {:induction false} FirstRead(r: Reader, text: string)
    requires ReadsValue(r.mode)
    ensures Read(r, text) != [] && Read(r, text)[0] == (r.key, r.value + Added(r, text))
    decreases |text|
  {
    if text == "" || Completed(r, text[0]) != [] {
      assert r.value + "" == r.value;
    } else {
      var after := Next(r, text[0]);
      ValueGrows(r, text[0]);
      FirstRead(after, text[1..]);
      Regrown(r.value, after.value, Added(after, text[1..]));
    }
  }

  /** Modes in which ordinary characters are taken as they stand. */
  ghost predicate TakesText(mode: Mode) {
    mode.DoubleQuoted? || mode.SingleQuoted? || mode.InValue?
  }

  ghost predicate Tidy(r: Reader) {
    && ReadsValue(r.mode) && (r.mode.InValue? || r.blanks == "")
    && forall i | 0 <= i < |r.blanks| :: IsShellSpace(r.blanks[i])
  }

  lemma AddedStep(r: Reader, text: string)
    requires Tidy(r) && text != "" && Completed(r, text[0]) == []
    ensures
      var after := Next(r, text[0]);
      && Tidy(after) && r.value <= after.value
      && Added(r, text) == after.value[|r.value|..] + Added(after, text[1..])
  {
    ValueGrows(r, text[0]);
    TidyStep(r, text[0]);
    hide Next, Completed;
  }

  lemma TidyStep(r: Reader, c: char)
    requires Tidy(r) && Completed(r, c) == []
    ensures Tidy(Next(r, c))
  {
  }

  /** Reading adds no characters. */
  lemma {:induction false} AddedLength(r: Reader, text: string)
    requires Tidy(r)
    ensures |Added(r, text)| <= |r.blanks| + |text| + if r.mode.DoubleEscape? then 1 else 0
    decreases |text|
  {
    if text != "" && Completed(r, text[0]) == [] {
      AddedStep(r, text);
      AddedLength(Next(r, text[0]), text[1..]);
    }
  }

  /** If it loses none, it takes the text as it stands. */
  lemma {:induction false} AddedWhole(r: Reader, text: string)
    requires Tidy(r) && (r.mode.InValue? || r.mode.SingleQuoted?)
    requires |Added(r, text)| == |r.blanks| + |text|
    ensures Added(r, text) == r.blanks + text
    decreases |text|
  {
    if text != "" && Completed(r, text[0]) == [] {
      AddedWholeStep(r, text);
      hide Added, Next;
      AddedWhole(Next(r, text[0]), text[1..]);
      Taken(r, text[0], text[1..]);
      assert text == [text[0]] + text[1..];
    }
  }

  lemma AddedWholeStep(r: Reader, text: string)
    requires Tidy(r) && (r.mode.InValue? || r.mode.SingleQuoted?) && text != "" && Completed(r, text[0]) == []
    requires |Added(r, text)| == |r.blanks| + |text|
    ensures
      var after := Next(r, text[0]);
      && Tidy(after) && after.mode == r.mode && |Added(after, text[1..])| == |after.blanks| + |text[1..]|
      && r.value <= after.value && Added(r, text) == after.value[|r.value|..] + Added(after, text[1..])
  {
    AddedStep(r, text);
    AddedLength(Next(r, text[0]), text[1..]);
  }

  lemma Taken(r: Reader, c: char, rest: string)
    requires Tidy(r) && (r.mode.InValue? || r.mode.SingleQuoted?) && Completed(r, c) == []
    requires Next(r, c).mode == r.mode
    ensures Next(r, c).value[|r.value|..] + (Next(r, c).blanks + rest) == r.blanks + ([c] + rest)
  {
  }

  /** Inside double quotes a final double quote is lost, or a character before it. */
  lemma {:induction false} AddedInDoubleQuotes(r: Reader, text: string)
    requires Tidy(r) && (r.mode.DoubleQuoted? || r.mode.DoubleEscape?)
    requires text != "" && text[|text| - 1] == '"'
    ensures |Added(r, text)| < |text| + if r.mode.DoubleEscape? then 1 else 0
    decreases |text|
  {
    if Completed(r, text[0]) == [] {
      var after, rest := Next(r, text[0]), text[1..];
      AddedStep(r, text);
      if rest != "" && !after.mode.PreValue? {
        AddedInDoubleQuotes(after, rest);
      } else {
        AddedLength(after, rest);
      }
    }
  }

  /** What one character adds: pending blanks, itself, both, or an escape. */
  lemma Gain(r: Reader, c: char) returns (gain: string)
    requires Tidy(r) && Completed(r, c) == []
    ensures Next(r, c).value == r.value + gain && Next(r, c).value[|r.value|..] == gain
    ensures
      var after := Next(r, c);
      || (gain + after.blanks == r.blanks + [c])
      || (gain + after.blanks == r.blanks && (IsSpecial(c) || IsShellSpace(c)))
      || (r.mode.DoubleEscape? && gain == "\\" + [c] && after.blanks == "")
  {
    var after := Next(r, c);
    ValueGrows(r, c);
    gain := after.value[|r.value|..];
    assert after.value == r.value + gain;
    if r.mode.InValue? {
      assert gain == if c == '\\' then r.blanks else if IsShellSpace(c) then "" else r.blanks + [c];
    } else if r.mode.DoubleEscape? {
      assert gain in ["", [c], ['\\', c]];
    } else {
      assert gain in ["", [c]];
    }
  }

  lemma AddedCharacter(r: Reader, c: char, d: char)
    requires Tidy(r) && Completed(r, d) == [] && c != '\\'
    ensures
      var after := Next(r, d);
      var before := Count(c, r.blanks) + Count(c, [d]);
      var now := Count(c, after.value[|r.value|..]) + Count(c, after.blanks);
      && now <= before
      && (!IsSpecial(c) && !IsShellSpace(c) ==> now == before)
  {
    var after := Next(r, d);
    var gain := Gain(r, d);
    CountOfTwo(c, gain, after.blanks);
    CountOfTwo(c, r.blanks, [d]);
    CountOfTwo(c, "\\", [d]);
    CountZero(c, "\\");
    CountZero(c, [d]);
  }

  /** Reading loses ordinary characters only if it loses a line end. */
  lemma {:induction false} AddedCount(r: Reader, text: string, c: char)
    requires Tidy(r) && c != '\\'
    ensures Count(c, Added(r, text)) <= Count(c, r.blanks) + Count(c, text)
    decreases |text|
  {
    if text != "" && Completed(r, text[0]) == [] {
      var after, rest := Next(r, text[0]), text[1..];
      AddedStep(r, text);
      AddedCount(after, rest, c);
      AddedCharacter(r, c, text[0]);
      CountOfTwo(c, after.value[|r.value|..], Added(after, rest));
      CountFirst(c, text);
    }
  }

  /** Everything is read unless a line end completes the value early. */
  ghost predicate LosesLineEnd(r: Reader, text: string, d: char)
    requires ReadsValue(r.mode)
  {
    Count(d, Added(r, text)) < Count(d, r.blanks) + Count(d, text)
  }

  lemma NothingInBlanks(r: Reader, c: char)
    requires Tidy(r) && !IsShellSpace(c)
    ensures Count(c, r.blanks) == 0
  {
    CountZero(c, r.blanks);
  }

  lemma {:induction false} AddedCountExactly(r: Reader, text: string, c: char)
    requires Tidy(r) && !IsSpecial(c) && !IsShellSpace(c)
    ensures LosesLineEnd(r, text, '\n') || LosesLineEnd(r, text, '\r') || Count(c, Added(r, text)) == Count(c, text)
    decreases |text|
  {
    if text == "" {
    } else if Completed(r, text[0]) != [] {
      CountFirst(text[0], text);
    } else {
      var d, after, rest := text[0], Next(r, text[0]), text[1..];
      AddedStep(r, text);
      AddedCountExactly(after, rest, c);
      forall e | e == c || e == '\n' || e == '\r'
        ensures Count(e, Added(r, text)) == Count(e, after.value[|r.value|..]) + Count(e, Added(after, rest))
        ensures Count(e, text) == Count(e, [d]) + Count(e, rest)
        ensures Count(e, after.value[|r.value|..]) + Count(e, after.blanks) <= Count(e, r.blanks) + Count(e, [d])
      {
        AddedCharacter(r, e, d);
        CountOfTwo(e, after.value[|r.value|..], Added(after, rest));
        CountFirst(e, text);
      }
      AddedCharacter(r, c, d);
      NothingInBlanks(r, c);
      NothingInBlanks(after, c);
    }
  }

  // ----------------------------------------------------------- reading one line

  lemma {:induction false} AfterTwo(r: Reader, a: string, b: string)
    ensures After(r, a + b) == After(After(r, a), b)
    decreases |a|
  {
    if a == "" {
      assert a + b == b;
    } else {
      assert (a + b)[1..] == a[1..] + b;
      AfterTwo(Next(r, a[0]), a[1..], b);
    }
  }

  lemma {:induction false} OneLineRead(r: Reader, line: string, rest: string)
    requires Tidy(r) && HasNo(line, IsNewline)
    ensures
      var after := After(r, line);
      Tidy(after) && after.key == r.key && after.value == r.value + Added(r, line)
        && Read(r, line + rest) == Read(after, rest)
    decreases |line|
  {
    if line == "" {
      assert line + rest == rest;
      assert r.value + "" == r.value;
    } else {
      var c := line[0];
      assert !IsNewline(c);
      assert (line + rest)[1..] == line[1..] + rest;
      AddedStep(r, line);
      ValueGrows(r, c);
      hide Next, Added;
      OneLineRead(Next(r, c), line[1..], rest);
      Regrown(r.value, Next(r, c).value, Added(Next(r, c), line[1..]));
    }
  }

  // ------------------------------------------------------- the rules, spelt out

  lemma RejectedCodes(c: char)
    ensures IsRejected(c) <==>
      var code := c as int;
      || code == 0 || code == 0xFEFF || 0xFDD0 <= code <= 0xFDEF
      || exists plane: nat | plane <= 16 :: code == plane * 0x1_0000 + 0xFFFE || code == plane * 0x1_0000 + 0xFFFF
    ensures IsNewline(c) <==> c as int == 10 || c as int == 13
  {
    var code := c as int;
    var plane := code / 0x1_0000;
    assert code == plane * 0x1_0000 + code % 0x1_0000 && plane <= 16;
    forall p: nat | p <= 16 && (code == p * 0x1_0000 + 0xFFFE || code == p * 0x1_0000 + 0xFFFF)
      ensures code % 0x1_0000 >= 0xFFFE
    {
      assert p == plane;
    }
  }

  /** Variable names are letters, digits and underscores, and do not begin with a digit. */
  lemma NameCodes(key: string)
    ensures IsName(key) <==>
      && key != "" && !(48 <= key[0] as int <= 57)
      && forall i | 0 <= i < |key| ::
           var code := key[i] as int;
           48 <= code <= 57 || 65 <= code <= 90 || 97 <= code <= 122 || code == 95
  {
  }

  /** The last assignment to a variable counts. */
  lemma {:induction false} LastAssignment(pairs: Env, later: Env, key: string, value: string)
    requires forall i | 0 <= i < |later| :: later[i].0 != key
    ensures Lookup(pairs + [(key, value)] + later, key) == Some(value)
    decreases |later|
  {
    var all := pairs + [(key, value)] + later;
    if later != [] {
      var n := |later| - 1;
      assert all[..|all| - 1] == pairs + [(key, value)] + later[..n] && all[|all| - 1] == later[n];
      LastAssignment(pairs, later[..n], key, value);
    }
  }

  /** A comment takes the whole line. */
  lemma {:induction false} CommentSkipped(mark: char, line: string, rest: string)
    requires mark == '#' || mark == ';'
    requires forall i | 0 <= i < |line| :: line[i] != '\\' && line[i] != '\n' && line[i] != '\r'
    ensures Read(START, [mark] + line + "\n" + rest) == Read(START, rest)
  {
    assert ([mark] + line + "\n" + rest)[1..] == line + ("\n" + rest);
    CommentRead(line, rest);
  }

  lemma {:induction false} CommentRead(line: string, rest: string)
    requires forall i | 0 <= i < |line| :: line[i] != '\\' && line[i] != '\n' && line[i] != '\r'
    ensures Read(Reader(Comment, "", "", ""), line + ("\n" + rest)) == Read(START, rest)
    decreases |line|
  {
    var text := line + ("\n" + rest);
    if line == "" {
      assert text == "\n" + rest && text[1..] == rest;
    } else {
      assert text[1..] == line[1..] + ("\n" + rest);
      CommentRead(line[1..], rest);
    }
  }

  /** Between double quotes a backslash is dropped before the four characters that need it,
      joins the next line, and otherwise stays. */
  lemma DoubleQuotedEscape(key: string, value: string, c: char)
    ensures After(Reader(DoubleQuoted, key, value, ""), ['\\', c]) ==
      Reader(DoubleQuoted, key,
        if c == '"' || c == '\\' || c == '`' || c == '$' then value + [c]
        else if c == '\n' then value
        else value + ['\\', c], "")
  {
    var escape := Next(Reader(DoubleQuoted, key, value, ""), '\\');
    assert ['\\', c][1..] == [c] && [c][1..] == "";
    assert After(escape, [c]) == After(Next(escape, c), "") == Next(escape, c);
  }

  /** Outside quotes it is dropped before any character, and joins the next line. */
  lemma BareEscape(key: string, value: string, c: char)
    ensures After(Reader(InValue, key, value, ""), ['\\', c]) ==
      Reader(InValue, key, if c == '\n' || c == '\r' then value else value + [c], "")
  {
    var escape := Next(Reader(InValue, key, value, ""), '\\');
    assert ['\\', c][1..] == [c] && [c][1..] == "" && value + "" == value;
    assert After(escape, [c]) == After(Next(escape, c), "") == Next(escape, c);
  }

  /** Between single quotes everything but a single quote stands for itself. */
  lemma {:induction false} SingleQuotedText(key: string, value: string, text: string)
    requires '\'' !in text
    ensures After(Reader(SingleQuoted, key, value, ""), text + "'") == Reader(PreValue, key, value + text, "")
    decreases |text|
  {
    if text == "" {
      assert text + "'" == "'" && "'"[1..] == "" && value + text == value;
    } else {
      assert (text + "'")[1..] == text[1..] + "'";
      SingleQuotedText(key, value + [text[0]], text[1..]);
      assert value + [text[0]] + text[1..] == value + text;
    }
  }
}
