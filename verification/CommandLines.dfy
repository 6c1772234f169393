/** How systemd splits the value of an unbraced variable into the words of a command line:
    at blanks, with quotes respected and removed, systemd.service(5). A backslash
    preserves the next character, and a quote may be left open. */
module CommandLines {
  import opened Text
  import opened Libraries

  type Quote = c: char | IsQuote(c) witness '"'

  datatype Splitter =
    | Between
    | Word(text: string)
    | Quoted(text: string, quote: Quote)
    | Escaped(text: string, outer: Option<Quote>)

  function Step(s: Splitter, c: char): Splitter {
    match s
    case Between =>
      if IsShellSpace(c) then Between
      else if IsQuote(c) then Quoted("", c)
      else if c == '\\' then Escaped("", None)
      else Word([c])
    case Word(text) =>
      if IsShellSpace(c) then Between
      else if IsQuote(c) then Quoted(text, c)
      else if c == '\\' then Escaped(text, None)
      else Word(text + [c])
    case Quoted(text, quote) =>
      if c == quote then Word(text)
      else if c == '\\' then Escaped(text, Some(quote))
      else Quoted(text + [c], quote)
    case Escaped(text, outer) =>
      if outer.Some? then Quoted(text + [c], outer.value) else Word(text + [c])
  }

  /** The word that a character completes. */
  function Finished(s: Splitter, c: char): seq<string> {
    if s.Word? && IsShellSpace(c) then [s.text] else []
  }

  function Begun(s: Splitter): string {
    if s.Between? then "" else s.text
  }

  function Words(s: Splitter, text: string): seq<string>
    decreases |text|
  {
    if text == "" then if s.Between? then [] else [s.text]
    else Finished(s, text[0]) + Words(Step(s, text[0]), text[1..])
  }

  function StateAfter(s: Splitter, text: string): Splitter
    decreases |text|
  {
    if text == "" then s else StateAfter(Step(s, text[0]), text[1..])
  }

  /** The words that are complete after a text. */
  function Emitted(s: Splitter, text: string): seq<string>
    decreases |text|
  {
    if text == "" then [] else Finished(s, text[0]) + Emitted(Step(s, text[0]), text[1..])
  }

  lemma {:induction false} WordsOfTwo(s: Splitter, a: string, b: string)
    ensures Words(s, a + b) == Emitted(s, a) + Words(StateAfter(s, a), b)
    decreases |a|
  {
    if a == "" {
      assert a + b == b;
    } else {
      assert (a + b)[1..] == a[1..] + b;
      WordsOfTwo(Step(s, a[0]), a[1..], b);
    }
  }

  lemma {:induction false} StateAfterTwo(s: Splitter, a: string, b: string)
    ensures StateAfter(s, a + b) == StateAfter(StateAfter(s, a), b)
    decreases |a|
  {
    if a == "" {
      assert a + b == b;
    } else {
      assert (a + b)[1..] == a[1..] + b;
      StateAfterTwo(Step(s, a[0]), a[1..], b);
    }
  }

  // ------------------------------------------------------------- bare text

  ghost predicate IsBare(text: string) {
    forall i | 0 <= i < |text| :: !IsSpecial(text[i])
  }

  /** A word that the splitter leaves alone. */
  ghost predicate IsClean(word: string) {
    IsBare(word) && HasNo(word, IsShellSpace)
  }

  ghost function Longer(s: Splitter, more: string): Splitter
    requires s.Word? || s.Quoted?
  {
    match s
    case Word(text) => Word(text + more)
    case Quoted(text, quote) => Quoted(text + more, quote)
  }

  lemma {:induction false} CleanWord(s: Splitter, word: string)
    requires IsClean(word) && (s.Word? || s.Quoted?)
    ensures StateAfter(s, word) == Longer(s, word) && Emitted(s, word) == []
    decreases |word|
  {
    if word == "" {
      assert s.text + word == s.text;
    } else {
      assert !IsSpecial(word[0]) && !IsShellSpace(word[0]);
      assert Step(s, word[0]) == Longer(s, [word[0]]);
      CleanWord(Longer(s, [word[0]]), word[1..]);
      assert s.text + [word[0]] + word[1..] == s.text + word;
    }
  }

  lemma CleanWordBegins(word: string)
    requires IsClean(word) && word != ""
    ensures StateAfter(Between, word) == Word(word) && Emitted(Between, word) == []
  {
    CleanWord(Word([word[0]]), word[1..]);
    assert [word[0]] + word[1..] == word;
  }

  /** Text without quotes and backslashes is split at its blanks. */
  lemma {:induction false} BareWords(text: string)
    requires IsBare(text)
    ensures Words(Between, text) == Split(text, IsShellSpace)
    ensures StateAfter(Between, text).Between? || StateAfter(Between, text).Word?
    decreases |text|
  {
    if text != "" {
      if IsShellSpace(text[0]) {
        BareWords(text[1..]);
      } else {
        var n := WordLength(text, IsShellSpace);
        var word, rest := text[..n], text[n..];
        assert text == word + rest;
        CleanWordBegins(word);
        WordsOfTwo(Between, word, rest);
        StateAfterTwo(Between, word, rest);
        if rest != "" {
          BareWords(rest);
          assert IsShellSpace(rest[0]);
          assert Words(Word(word), rest) == [word] + Words(Between, rest[1..]);
          assert Split(rest, IsShellSpace) == Split(rest[1..], IsShellSpace);
          assert Words(Between, rest) == [] + Words(Between, rest[1..]);
        }
      }
    }
  }

  // --------------------------------------------------------- counting characters

  ghost function CountAll(c: char, words: seq<string>): nat {
    if words == [] then 0 else Count(c, words[0]) + CountAll(c, words[1..])
  }

  lemma {:induction false} CountAllOfTwo(c: char, a: seq<string>, b: seq<string>)
    ensures CountAll(c, a + b) == CountAll(c, a) + CountAll(c, b)
  {
    if a == [] {
      assert a + b == b;
    } else {
      assert (a + b)[1..] == a[1..] + b;
      CountAllOfTwo(c, a[1..], b);
    }
  }

  lemma CountStep(c: char, s: Splitter, d: char)
    ensures
      var before, after := Count(c, Begun(s)), CountAll(c, Finished(s, d)) + Count(c, Begun(Step(s, d)));
      && after <= before + Count(c, [d])
      && (!IsSpecial(c) && !IsShellSpace(c) ==> after == before + Count(c, [d]))
      && (d == c && IsSpecial(c) && (s.Between? || s.Word?) ==> after == before)
  {
    CountOfTwo(c, Begun(s), [d]);
    assert "" + [d] == [d];
    assert CountAll(c, [Begun(s)]) == Count(c, Begun(s)) + CountAll(c, []);
    assert IsShellSpace(d) || IsSpecial(d) ==> d == c || Count(c, [d]) == 0;
  }

  /** Splitting adds no character, and loses only blanks, quotes and backslashes. */
  lemma {:induction false} CountBound(c: char, s: Splitter, text: string)
    ensures CountAll(c, Words(s, text)) <= Count(c, Begun(s)) + Count(c, text)
    ensures !IsSpecial(c) && !IsShellSpace(c) ==>
      CountAll(c, Words(s, text)) == Count(c, Begun(s)) + Count(c, text)
    decreases |text|
  {
    if text != "" {
      var d, rest := text[0], text[1..];
      CountStep(c, s, d);
      CountBound(c, Step(s, d), rest);
      CountAllOfTwo(c, Finished(s, d), Words(Step(s, d), rest));
      CountOfTwo(c, [d], rest);
      assert text == [d] + rest;
    }
  }

  /** The characters of all words, with a blank after each. */
  ghost function Size(words: seq<string>): nat {
    if words == [] then 0 else |words[0]| + 1 + Size(words[1..])
  }

  lemma {:induction false} SizeOfTwo(a: seq<string>, b: seq<string>)
    ensures Size(a + b) == Size(a) + Size(b)
  {
    if a == [] {
      assert a + b == b;
    } else {
      assert (a + b)[1..] == a[1..] + b;
      SizeOfTwo(a[1..], b);
    }
  }

  lemma SizeStep(s: Splitter, c: char)
    ensures Size(Finished(s, c)) + |Begun(Step(s, c))| <= |Begun(s)| + 1
    ensures IsSpecial(c) && (s.Between? || s.Word?) ==> Size(Finished(s, c)) + |Begun(Step(s, c))| <= |Begun(s)|
  {
  }

  lemma {:induction false} SizeBound(s: Splitter, text: string)
    ensures Size(Words(s, text)) <= |Begun(s)| + |text| + 1
    decreases |text|
  {
    if text != "" {
      SizeStep(s, text[0]);
      SizeBound(Step(s, text[0]), text[1..]);
      SizeOfTwo(Finished(s, text[0]), Words(Step(s, text[0]), text[1..]));
    }
  }

  /** Inside double quotes, a final double quote is lost, or a character before it. */
  lemma {:induction false} FinalQuoteIsLost(s: Splitter, text: string)
    requires s.Quoted? && s.quote == '"' && text != "" && text[|text| - 1] == '"'
    ensures Size(Words(s, text)) <= |s.text| + |text|
    decreases |text|
  {
    var c, rest := text[0], text[1..];
    var after := Step(s, c);
    SizeOfTwo(Finished(s, c), Words(after, rest));
    if c == '"' || c == '\\' {
      SizeBound(after, rest);
    } else {
      FinalQuoteIsLost(after, rest);
    }
  }

  /** When nothing is lost there is nothing to remove. */
  lemma {:induction false} NothingLostIsBare(s: Splitter, text: string)
    requires s.Between? || s.Word?
    requires Size(Words(s, text)) == |Begun(s)| + |text| + 1
    ensures IsBare(text)
    decreases |text|
  {
    if text != "" {
      var c, after, rest := text[0], Step(s, text[0]), text[1..];
      SizeStep(s, c);
      SizeOfTwo(Finished(s, c), Words(after, rest));
      SizeBound(after, rest);
      assert !IsSpecial(c);
      NothingLostIsBare(after, rest);
      assert text == [c] + rest;
    }
  }

  /** When at most a final double quote is lost, either there is nothing to remove before
      it, or a single quote or backslash is lost. */
  lemma {:induction false} OnlyFinalQuoteLost(s: Splitter, text: string)
    requires s.Between? || s.Word?
    requires text != "" && text[|text| - 1] == '"'
    requires Size(Words(s, text)) >= |Begun(s)| + |text|
    ensures
      || IsBare(text[..|text| - 1])
      || CountAll('\'', Words(s, text)) < Count('\'', Begun(s)) + Count('\'', text)
      || CountAll('\\', Words(s, text)) < Count('\\', Begun(s)) + Count('\\', text)
    decreases |text|
  {
    var c, after, rest := text[0], Step(s, text[0]), text[1..];
    if |text| > 1 {
      SizeStep(s, c);
      SizeOfTwo(Finished(s, c), Words(after, rest));
      forall d | d == '\'' || d == '\\'
        ensures CountAll(d, Words(s, text)) == CountAll(d, Finished(s, c)) + CountAll(d, Words(after, rest))
        ensures Count(d, text) == Count(d, [c]) + Count(d, rest)
      {
        CountAllOfTwo(d, Finished(s, c), Words(after, rest));
        CountFirst(d, text);
      }
      CountStep('\'', s, c);
      CountStep('\\', s, c);
      if c == '"' {
        FinalQuoteIsLost(after, rest);
      } else if IsSpecial(c) {
        CountBound(c, after, rest);
        CountZero(c, [c]);
      } else {
        OnlyFinalQuoteLost(after, rest);
        assert text[..|text| - 1] == [c] + rest[..|rest| - 1];
      }
    }
  }

  // ------------------------------------------------------- the rules, spelt out

  /** Within a word, a quoted part stands for its text, blanks and all. */
  lemma {:induction false} QuotedPart(word: string, quote: Quote, text: string)
    requires quote !in text && '\\' !in text
    ensures StateAfter(Word(word), [quote] + text + [quote]) == Word(word + text)
  {
    assert ([quote] + text + [quote])[1..] == text + [quote];
    QuotedRest(word, quote, text);
  }

  lemma {:induction false} QuotedRest(word: string, quote: Quote, text: string)
    requires quote !in text && '\\' !in text
    ensures StateAfter(Quoted(word, quote), text + [quote]) == Word(word + text)
    decreases |text|
  {
    if text == "" {
      assert text + [quote] == [quote] && [quote][1..] == "" && word + text == word;
    } else {
      assert (text + [quote])[1..] == text[1..] + [quote];
      QuotedRest(word + [text[0]], quote, text[1..]);
      assert word + [text[0]] + text[1..] == word + text;
    }
  }

  /** A backslash preserves the next character, whatever it is, in quotes or out of them. */
  lemma EscapedCharacter(word: string, quote: Quote, c: char)
    ensures StateAfter(Word(word), ['\\', c]) == Word(word + [c])
    ensures StateAfter(Quoted(word, quote), ['\\', c]) == Quoted(word + [c], quote)
  {
    assert ['\\', c][1..] == [c] && [c][1..] == "";
    EscapeEnds(Step(Word(word), '\\'), c);
    EscapeEnds(Step(Quoted(word, quote), '\\'), c);
  }

  lemma EscapeEnds(s: Splitter, c: char)
    ensures StateAfter(s, [c]) == Step(s, c)
  {
    assert [c][1..] == "" && StateAfter(Step(s, c), "") == Step(s, c);
  }

  lemma BlankCodes(c: char)
    ensures IsShellSpace(c) <==> c as int == 32 || c as int == 9 || c as int == 13 || c as int == 10
  {
  }
}
