/** Strings the way the charm's Python code treats them: whitespace splitting,
    joining with one blank, stripping a leading character, and searching. */
module Text {
  datatype Option<+T> = None | Some(value: T)

  /** The characters `str.split()` and `str.lstrip()` regard as whitespace. */
  predicate IsSpace(c: char) {
    || c == ' ' || '\t' <= c <= '\r' || '\U{1c}' <= c <= '\U{1f}'
    || c == '\U{85}' || c == '\U{a0}' || c == '\U{1680}' || '\U{2000}' <= c <= '\U{200a}'
    || c == '\U{2028}' || c == '\U{2029}' || c == '\U{202f}' || c == '\U{205f}' || c == '\U{3000}'
  }

  predicate IsQuote(c: char) {
    c == '\'' || c == '"'
  }

  predicate IsSpecial(c: char) {
    IsQuote(c) || c == '\\'
  }

  ghost predicate HasNo(s: string, space: char -> bool) {
    forall i | 0 <= i < |s| :: !space(s[i])
  }

  /** A token as splitting produces it: not empty and without separators. */
  ghost predicate IsWord(w: string, space: char -> bool) {
    w != "" && HasNo(w, space)
  }

  ghost predicate AllWords(words: seq<string>, space: char -> bool) {
    forall i | 0 <= i < |words| :: IsWord(words[i], space)
  }

  function WordLength(s: string, space: char -> bool): (n: nat)
    ensures n <= |s|
    ensures forall i | 0 <= i < n :: !space(s[i])
    ensures n < |s| ==> space(s[n])
  {
    if s == "" || space(s[0]) then 0 else 1 + WordLength(s[1..], space)
  }

  function Split(s: string, space: char -> bool): (words: seq<string>)
    ensures AllWords(words, space)
  {
    if s == "" then []
    else if space(s[0]) then Split(s[1..], space)
    else
      var n := WordLength(s, space);
      [s[..n]] + Split(s[n..], space)
  }

  function Join(words: seq<string>): string {
    if |words| == 0 then ""
    else if |words| == 1 then words[0]
    else words[0] + " " + Join(words[1..])
  }

  /** The code points of Python's whitespace. */
  lemma SpaceCodes(c: char)
    ensures IsSpace(c) <==>
      var code := c as int;
      || 9 <= code <= 13 || 28 <= code <= 32 || code == 133 || code == 160 || code == 5760
      || 8192 <= code <= 8202 || code == 8232 || code == 8233 || code == 8239 || code == 8287 || code == 12288
  {
  }

  /** Where the words of a text stand: in order, with blanks between them, before and behind
      them, and nothing else. */
  ghost predicate WordsAt(s: string, words: seq<string>, at: seq<nat>, space: char -> bool) {
    && |at| == |words| && AllWords(words, space)
    && (forall k | 0 <= k < |at| :: StandsAt(s, words[k], at[k]))
    && (forall j, k | 0 <= j < k < |at| :: at[j] + |words[j]| < at[k])
    && (forall i | 0 <= i < |s| :: space(s[i]) || InWords(i, words, at))
  }

  ghost predicate StandsAt(s: string, word: string, i: nat) {
    i + |word| <= |s| && s[i..i + |word|] == word
  }

  lemma StandsLater(s: string, n: nat, word: string, i: nat)
    requires n <= |s| && StandsAt(s[n..], word, i)
    ensures StandsAt(s, word, i + n)
    ensures word != "" ==> i < |s[n..]| && word[0] == s[n..][i]
  {
    assert s[n..][i..i + |word|] == s[i + n..i + n + |word|];
  }

  ghost predicate InWords(i: nat, words: seq<string>, at: seq<nat>)
    requires |at| == |words|
  {
    exists k | 0 <= k < |at| :: at[k] <= i < at[k] + |words[k]|
  }

  ghost function Shifted(at: seq<nat>, n: nat): (shifted: seq<nat>)
    ensures |shifted| == |at| && forall k | 0 <= k < |at| :: shifted[k] == at[k] + n
  {
    seq(|at|, k requires 0 <= k < |at| => at[k] + n)
  }

  /** The words behind the first `n` characters, seen from the whole text. */
  lemma WordsLater(s: string, n: nat, words: seq<string>, at: seq<nat>, space: char -> bool)
    requires n <= |s| && WordsAt(s[n..], words, at, space)
    ensures forall k | 0 <= k < |at| :: StandsAt(s, words[k], at[k] + n) && words[k][0] == s[n..][at[k]]
    ensures forall i | n <= i < |s| :: space(s[i]) || InWords(i, words, Shifted(at, n))
  {
    forall k | 0 <= k < |at| ensures StandsAt(s, words[k], at[k] + n) && words[k][0] == s[n..][at[k]] {
      assert IsWord(words[k], space);
      StandsLater(s, n, words[k], at[k]);
    }
    hide StandsAt, IsWord;
    var shifted := Shifted(at, n);
    forall i | n <= i < |s| && !space(s[i]) ensures InWords(i, words, shifted) {
      assert s[n..][i - n] == s[i] && InWords(i - n, words, at);
      var k :| 0 <= k < |at| && at[k] <= i - n < at[k] + |words[k]|;
      assert shifted[k] <= i < shifted[k] + |words[k]|;
    }
  }

  lemma WordsBehindBlank(s: string, words: seq<string>, at: seq<nat>, space: char -> bool)
    requires s != "" && space(s[0]) && WordsAt(s[1..], words, at, space)
    ensures WordsAt(s, words, Shifted(at, 1), space)
  {
    WordsLater(s, 1, words, at, space);
    hide StandsAt, IsWord;
  }

  lemma WordsBehindWord(s: string, n: nat, words: seq<string>, at: seq<nat>, space: char -> bool)
    requires 0 < n <= |s| && IsWord(s[..n], space) && (n < |s| ==> space(s[n]))
    requires WordsAt(s[n..], words, at, space)
    ensures WordsAt(s, [s[..n]] + words, [0] + Shifted(at, n), space)
  {
    WordsLater(s, n, words, at, space);
    assert StandsAt(s, s[..n], 0);
    forall k | 0 <= k < |at| ensures 0 < at[k] {
      assert IsWord(words[k], space) && words[k][0] == s[n..][at[k]];
      assert at[k] == 0 ==> s[n..][0] == s[n];
    }
    WordInFront(s, s[..n], words, Shifted(at, n), space);
  }

  /** A word at the front of a text, in front of others. */
  lemma WordInFront(s: string, word: string, words: seq<string>, at: seq<nat>, space: char -> bool)
    requires |at| == |words| && IsWord(word, space) && AllWords(words, space) && StandsAt(s, word, 0)
    requires forall k | 0 <= k < |at| :: StandsAt(s, words[k], at[k]) && |word| < at[k]
    requires forall j, k | 0 <= j < k < |at| :: at[j] + |words[j]| < at[k]
    requires forall i | |word| <= i < |s| :: space(s[i]) || InWords(i, words, at)
    ensures WordsAt(s, [word] + words, [0] + at, space)
  {
    hide StandsAt, IsWord;
    var all, places := [word] + words, [0] + at;
    forall k | 0 <= k < |places| ensures StandsAt(s, all[k], places[k]) {
      assert k > 0 ==> all[k] == words[k - 1] && places[k] == at[k - 1];
    }
    forall i | 0 <= i < |s| && !space(s[i]) ensures InWords(i, all, places) {
      CoveredInFront(i, word, words, at);
    }
  }

  lemma CoveredInFront(i: nat, word: string, words: seq<string>, at: seq<nat>)
    requires |at| == |words| && (i < |word| || InWords(i, words, at))
    ensures InWords(i, [word] + words, [0] + at)
  {
    var all, places := [word] + words, [0] + at;
    if i < |word| {
      assert places[0] <= i < places[0] + |all[0]|;
    } else {
      var k :| 0 <= k < |at| && at[k] <= i < at[k] + |words[k]|;
      assert places[k + 1] <= i < places[k + 1] + |all[k + 1]|;
    }
  }

  /** Splitting finds exactly the words that stand between blanks. */
  lemma {:induction false} SplitFindsWords(s: string, space: char -> bool) returns (at: seq<nat>)
    ensures WordsAt(s, Split(s, space), at, space)
    decreases |s|
  {
    if s == "" {
      at := [];
    } else if space(s[0]) {
      at := SplitFindsWords(s[1..], space);
      WordsBehindBlank(s, Split(s[1..], space), at, space);
      at := Shifted(at, 1);
    } else {
      var n := WordLength(s, space);
      at := SplitFindsWords(s[n..], space);
      WordsBehindWord(s, n, Split(s[n..], space), at, space);
      at := [0] + Shifted(at, n);
    }
  }

  /** Joining puts one blank between two tokens. */
  lemma {:induction false} JoinOneMore(words: seq<string>, w: string)
    ensures Join([w]) == w
    ensures words != [] ==> Join(words + [w]) == Join(words) + " " + w
    decreases |words|
  {
    if |words| == 1 {
      assert (words + [w])[1..] == [w];
    } else if |words| > 1 {
      assert (words + [w])[1..] == words[1..] + [w];
      JoinOneMore(words[1..], w);
      assert Join(words + [w]) == words[0] + " " + (Join(words[1..]) + " " + w);
    }
  }

  lemma WordThenRest(w: string, rest: string, space: char -> bool)
    requires IsWord(w, space)
    requires rest != "" ==> space(rest[0])
    ensures Split(w + rest, space) == [w] + Split(rest, space)
  {
    var s := w + rest;
    var n := WordLength(s, space);
    assert forall i | 0 <= i < |w| :: s[i] == w[i];
    assert rest != "" ==> s[|w|] == rest[0];
    assert n == |w|;
    assert s[..n] == w && s[n..] == rest;
  }

  /** Splitting distributes over a blank between two texts. */
  lemma {:induction false} SplitAtBlank(a: string, b: string, space: char -> bool)
    requires space(' ')
    ensures Split(a + " " + b, space) == Split(a, space) + Split(b, space)
    decreases |a|
  {
    if a == "" {
      assert a + " " + b == " " + b;
      assert (" " + b)[1..] == b;
    } else if space(a[0]) {
      assert (a + " " + b)[1..] == a[1..] + " " + b;
      SplitAtBlank(a[1..], b, space);
    } else {
      SplitAtWordAndBlank(a, b, space);
      SplitAtBlank(a[WordLength(a, space)..], b, space);
    }
  }

  lemma SplitAtWordAndBlank(a: string, b: string, space: char -> bool)
    requires space(' ') && a != "" && !space(a[0])
    ensures
      var n := WordLength(a, space);
      && Split(a, space) == [a[..n]] + Split(a[n..], space)
      && Split(a + " " + b, space) == [a[..n]] + Split(a[n..] + " " + b, space)
  {
    var n := WordLength(a, space);
    var rest := a[n..] + " " + b;
    assert a[..n] + rest == a + " " + b;
    assert rest[0] == if n < |a| then a[n] else ' ';
    WordThenRest(a[..n], rest, space);
  }

  /** Joining and splitting again gives the token list back exactly when every
      token is a word. */
  lemma {:induction false} SplitJoin(words: seq<string>, space: char -> bool)
    requires space(' ')
    ensures Split(Join(words), space) == words <==> AllWords(words, space)
  {
    if AllWords(words, space) {
      JoinedWordsSplit(words, space);
    }
  }

  lemma {:induction false} JoinedWordsSplit(words: seq<string>, space: char -> bool)
    requires space(' ')
    requires AllWords(words, space)
    ensures Split(Join(words), space) == words
  {
    if |words| > 0 {
      WordThenRest(words[0], "", space);
      assert words[0] + "" == words[0];
      if |words| > 1 {
        SplitAtBlank(words[0], Join(words[1..]), space);
        JoinedWordsSplit(words[1..], space);
      }
    }
  }

  /** `str.lstrip` with a set of characters given by a test. */
  function StripLeft(s: string, drop: char -> bool): string {
    if s != "" && drop(s[0]) then StripLeft(s[1..], drop) else s
  }

  lemma {:induction false} StrippedParts(s: string, drop: char -> bool) returns (dropped: string)
    ensures s == dropped + StripLeft(s, drop)
    ensures forall i | 0 <= i < |dropped| :: drop(dropped[i])
    ensures StripLeft(s, drop) == "" || !drop(StripLeft(s, drop)[0])
    decreases |s|
  {
    dropped := "";
    if s != "" && drop(s[0]) {
      var rest := StrippedParts(s[1..], drop);
      dropped := [s[0]] + rest;
    }
  }

  /** It drops the longest such prefix and nothing else. */
  lemma {:induction false} StripLeftOf(dropped: string, rest: string, drop: char -> bool)
    requires forall i | 0 <= i < |dropped| :: drop(dropped[i])
    requires rest != "" ==> !drop(rest[0])
    ensures StripLeft(dropped + rest, drop) == rest
    decreases |dropped|
  {
    if dropped == "" {
      assert dropped + rest == rest;
    } else {
      assert (dropped + rest)[1..] == dropped[1..] + rest;
      StripLeftOf(dropped[1..], rest, drop);
    }
  }

  /** The index `str.find` returns for one character, searching from `i`. */
  function Find(s: string, c: char, i: nat): (r: Option<nat>)
    requires i <= |s|
    ensures r.Some? ==> i <= r.value < |s| && s[r.value] == c && c !in s[i..r.value]
    ensures r.None? ==> c !in s[i..]
    decreases |s| - i
  {
    if i == |s| then None else if s[i] == c then Some(i) else Find(s, c, i + 1)
  }

  lemma FindAt(s: string, c: char, i: nat)
    requires i < |s| && s[i] == c && c !in s[..i]
    ensures Find(s, c, 0) == Some(i)
  {
    assert s[i] in s[0..];
    var at := Find(s, c, 0).value;
    assert at == i;
  }

  lemma FindIsFirst(s: string, c: char, i: nat, k: nat)
    requires i <= k < |s| && s[k] == c && c !in s[i..k]
    ensures Find(s, c, i) == Some(k)
  {
    assert s[k] == s[i..][k - i] && s[k] in s[i..];
    var at := Find(s, c, i).value;
    assert forall j | i <= j < k :: s[j] == s[i..k][j - i];
    assert forall j | i <= j < at :: s[j] == s[i..at][j - i];
  }

  predicate OccursAt(s: string, part: string, i: int) {
    0 <= i <= |s| - |part| && s[i..i + |part|] == part
  }

  /** The `in` test between two strings. */
  predicate Contains(s: string, part: string) {
    exists i | 0 <= i <= |s| :: OccursAt(s, part, i)
  }

  // --------------------------------------------------------- counting characters

  ghost function Count(c: char, text: string): nat {
    if text == "" then 0 else (if text[0] == c then 1 else 0) + Count(c, text[1..])
  }

  lemma {:induction false} CountOfTwo(c: char, a: string, b: string)
    ensures Count(c, a + b) == Count(c, a) + Count(c, b)
  {
    if a == "" {
      assert a + b == b;
    } else {
      assert (a + b)[1..] == a[1..] + b;
      CountOfTwo(c, a[1..], b);
    }
  }

  lemma {:induction false} CountZero(c: char, text: string)
    ensures Count(c, text) == 0 <==> c !in text
  {
    if text != "" {
      CountZero(c, text[1..]);
      assert text == [text[0]] + text[1..];
    }
  }

  lemma CountFirst(c: char, text: string)
    requires text != ""
    ensures Count(c, text) == Count(c, [text[0]]) + Count(c, text[1..])
  {
    assert text == [text[0]] + text[1..];
    CountOfTwo(c, [text[0]], text[1..]);
  }
}
