/** Free-text search: every word must occur literally in some column.  The
    escaped word is handed to LIKE, so the promise is about the matcher. */
module LikeSearch {
  import opened Common

  // ---- The matcher: LIKE with backslash as its escape character ----

  /** An escape character with nothing behind it is an error to the database. */
  predicate WellFormed(pattern: string) {
    if pattern == "" then true
    else if pattern[0] == '\\' then |pattern| >= 2 && WellFormed(pattern[2..])
    else WellFormed(pattern[1..])
  }

  predicate Matches(text: string, pattern: string)
    decreases |pattern|, |text|
  {
    if pattern == "" then text == ""
    else if pattern[0] == '%' then Matches(text, pattern[1..]) || (text != "" && Matches(text[1..], pattern))
    else if text == "" then false
    else if pattern[0] == '_' then Matches(text[1..], pattern[1..])
    else if pattern[0] == '\\' then |pattern| >= 2 && text[0] == pattern[1] && Matches(text[1..], pattern[2..])
    else text[0] == pattern[0] && Matches(text[1..], pattern[1..])
  }

  function LowerChar(c: char): char {
    if 'A' <= c <= 'Z' then (c as int + 32) as char else c
  }

  function Lower(s: string): (r: string)
    ensures |r| == |s|
  {
    seq(|s|, i requires 0 <= i < |s| => LowerChar(s[i]))
  }

  /** SQL's three truth values. */
  datatype Truth = True | False | Unknown

  function Not3(t: Truth): Truth {
    match t case True => False case False => True case Unknown => Unknown
  }

  function Or3(a: Truth, b: Truth): Truth {
    if a == True || b == True then True else if a == Unknown || b == Unknown then Unknown else False
  }

  function And3(a: Truth, b: Truth): Truth {
    Not3(Or3(Not3(a), Not3(b)))
  }

  /** `column ILIKE pattern ESCAPE '\'`; a NULL column is neither true nor false. */
  function ILike(column: Option<string>, pattern: string): Truth {
    if column.None? then Unknown
    else if Matches(Lower(column.value), Lower(pattern)) then True
    else False
  }

  // ---- The search ----

  /** `str.replace` for a single character. */
  function Replace(s: string, c: char, sub: string): string {
    if s == "" then "" else (if s[0] == c then sub else [s[0]]) + Replace(s[1..], c, sub)
  }

  function EscapeLike(word: string): string {
    Replace(Replace(Replace(word, '\\', "\\\\"), '%', "\\%"), '_', "\\_")
  }

  function WordEnd(s: string): (n: nat)
    ensures n <= |s| && (forall i :: 0 <= i < n ==> !IsSpace(s[i])) && (n < |s| ==> IsSpace(s[n]))
  {
    if s == "" || IsSpace(s[0]) then 0 else 1 + WordEnd(s[1..])
  }

  /** `str.split` */
  function Split(s: string): seq<string>
    decreases |s|
  {
    if s == "" then []
    else if IsSpace(s[0]) then Split(s[1..])
    else [s[..WordEnd(s)]] + Split(s[WordEnd(s)..])
  }

  function SomeColumn(word: string, columns: seq<Option<string>>): Truth {
    if columns == [] then False
    else Or3(ILike(columns[0], "%" + EscapeLike(word) + "%"), SomeColumn(word, columns[1..]))
  }

  function EveryWord(words: seq<string>, columns: seq<Option<string>>): Truth {
    if words == [] then True else And3(SomeColumn(words[0], columns), EveryWord(words[1..], columns))
  }

  function MatchWords(text: string, columns: seq<Option<string>>): Truth {
    EveryWord(Split(text), columns)
  }

  // ---- Escaping, one character at a time ----

  function EscapeChar(c: char): string {
    if c == '\\' || c == '%' || c == '_' then ['\\', c] else [c]
  }

  function Escaped(word: string): string {
    if word == "" then "" else EscapeChar(word[0]) + Escaped(word[1..])
  }

  lemma {:induction false} ReplaceAppend(s: string, t: string, c: char, sub: string)
    ensures Replace(s + t, c, sub) == Replace(s, c, sub) + Replace(t, c, sub)
  {
    if s == "" {
      assert s + t == t;
    } else {
      ReplaceAppend(s[1..], t, c, sub);
      ReplaceCons(s[0], s[1..] + t, c, sub);
      assert s + t == [s[0]] + (s[1..] + t);
      Associate(if s[0] == c then sub else [s[0]], Replace(s[1..], c, sub), Replace(t, c, sub));
    }
  }

  lemma Associate(a: string, b: string, c: string)
    ensures (a + b) + c == a + (b + c)
  {
  }

  lemma ReplaceCons(x: char, s: string, c: char, sub: string)
    ensures Replace([x] + s, c, sub) == (if x == c then sub else [x]) + Replace(s, c, sub)
  {
    assert ([x] + s)[1..] == s;
  }

  lemma ReplaceOne(x: char, c: char, sub: string)
    ensures Replace([x], c, sub) == if x == c then sub else [x]
  {
    assert [x][1..] == "";
  }

  /** The three passes do not see each other's work: together they escape each
      character once. */
  lemma {:induction false} EscapeIsPerCharacter(word: string)
    ensures EscapeLike(word) == Escaped(word)
  {
    if word != "" {
      var c, rest := word[0], word[1..];
      assert word == [c] + rest;
      EscapeIsPerCharacter(rest);
      ReplaceAppend([c], rest, '\\', "\\\\");
      var one := Replace([c], '\\', "\\\\");
      ReplaceAppend(one, Replace(rest, '\\', "\\\\"), '%', "\\%");
      var two := Replace(one, '%', "\\%");
      ReplaceAppend(two, Replace(Replace(rest, '\\', "\\\\"), '%', "\\%"), '_', "\\_");
      EscapeOne(c);
    }
  }

  lemma EscapeOne(c: char)
    ensures EscapeLike([c]) == EscapeChar(c)
  {
    ReplaceOne(c, '\\', "\\\\");
    ReplaceOne(c, '%', "\\%");
    ReplaceOne(c, '_', "\\_");
    ReplacePair('\\', c, '%', "\\%");
    ReplacePair('\\', c, '_', "\\_");
    ReplacePair('\\', '\\', '%', "\\%");
    ReplacePair('\\', '\\', '_', "\\_");
    ReplacePair('\\', '%', '_', "\\_");
    assert "\\\\" == ['\\', '\\'] && "\\%" == ['\\', '%'] && "\\_" == ['\\', '_'];
  }

  lemma ReplacePair(x: char, y: char, c: char, sub: string)
    requires x != c
    ensures Replace([x, y], c, sub) == [x] + if y == c then sub else [y]
  {
    ReplaceOne(y, c, sub);
    assert [x, y][1..] == [y];
  }

  // ---- The promise ----

  predicate OccursAt(text: string, word: string, i: nat) {
    i + |word| <= |text| && text[i..i + |word|] == word
  }

  predicate Contains(text: string, word: string) {
    exists i: nat :: i <= |text| && OccursAt(text, word, i)
  }

  lemma EscapedCharMatchesItself(text: string, c: char, rest: string)
    ensures Matches(text, EscapeChar(c) + rest) <==> text != "" && text[0] == c && Matches(text[1..], rest)
  {
    var e := EscapeChar(c);
    assert (e + rest)[|e|..] == rest;
  }

  /** An escaped word matches itself and nothing else. */
  lemma {:induction false} EscapedMatchesItself(text: string, word: string, rest: string)
    ensures Matches(text, Escaped(word) + rest) <==> word <= text && Matches(text[|word|..], rest)
  {
    if word == "" {
      assert Escaped(word) + rest == rest;
      assert text[0..] == text;
    } else {
      var tail := Escaped(word[1..]) + rest;
      assert Escaped(word) + rest == EscapeChar(word[0]) + tail;
      EscapedCharMatchesItself(text, word[0], tail);
      if text != "" {
        EscapedMatchesItself(text[1..], word[1..], rest);
        ConsPrefix(word, text);
        if word <= text { assert text[1..][|word| - 1..] == text[|word|..]; }
      }
    }
  }

  lemma ConsPrefix(a: string, b: string)
    requires a != "" && b != ""
    ensures a <= b <==> a[0] == b[0] && a[1..] <= b[1..]
  {
    assert a == [a[0]] + a[1..] && b == [b[0]] + b[1..];
    if a <= b { assert b[..|a|] == a; }
  }

  lemma {:induction false} PercentMatchesAll(text: string)
    ensures Matches(text, "%")
  {
    assert "%"[1..] == "";
    if text != "" { PercentMatchesAll(text[1..]); }
  }

  predicate MatchesFrom(text: string, pattern: string, i: nat) {
    i <= |text| && Matches(text[i..], pattern)
  }

  lemma {:induction false} LeadingPercent(text: string, pattern: string)
    ensures Matches(text, "%" + pattern) <==> exists i: nat :: i <= |text| && MatchesFrom(text, pattern, i)
  {
    assert ("%" + pattern)[1..] == pattern;
    assert text[0..] == text;
    assert MatchesFrom(text, pattern, 0) <==> Matches(text, pattern);
    if text != "" {
      LeadingPercent(text[1..], pattern);
      forall i: nat | i < |text|
        ensures MatchesFrom(text, pattern, i + 1) <==> MatchesFrom(text[1..], pattern, i)
      {
        assert text[1..][i..] == text[i + 1..];
      }
      forall i: nat | i <= |text|
        ensures i > 0 ==> (MatchesFrom(text, pattern, i) <==> MatchesFrom(text[1..], pattern, i - 1))
      {
        if i > 0 { assert text[1..][i - 1..] == text[i..]; }
      }
    }
  }

  /** `%word%` with the word escaped matches exactly when the word is there,
      whatever wildcards and backslashes it is made of. */
  lemma PatternFindsWord(text: string, word: string)
    ensures Matches(text, "%" + Escaped(word) + "%") <==> Contains(text, word)
  {
    var pattern := Escaped(word) + "%";
    assert "%" + Escaped(word) + "%" == "%" + pattern;
    LeadingPercent(text, pattern);
    forall i: nat | i <= |text|
      ensures MatchesFrom(text, pattern, i) <==> OccursAt(text, word, i)
    {
      EscapedMatchesItself(text[i..], word, "%");
      if word <= text[i..] {
        PercentMatchesAll(text[i..][|word|..]);
        assert text[i..][..|word|] == text[i..i + |word|];
      } else if i <= |text| - |word| {
        assert text[i..i + |word|] <= text[i..];
      }
    }
  }

  lemma {:induction false} EscapedIsWellFormed(word: string, rest: string)
    ensures WellFormed(Escaped(word) + rest) == WellFormed(rest)
  {
    if word == "" {
      assert Escaped(word) + rest == rest;
    } else {
      EscapedIsWellFormed(word[1..], rest);
      EscapedCharIsWellFormed(word[0], Escaped(word[1..]) + rest);
      Associate(EscapeChar(word[0]), Escaped(word[1..]), rest);
    }
  }

  lemma EscapedCharIsWellFormed(c: char, rest: string)
    ensures WellFormed(EscapeChar(c) + rest) == WellFormed(rest)
  {
    var e := EscapeChar(c);
    assert (e + rest)[|e|..] == rest;
  }

  lemma LowerAppend(s: string, t: string)
    ensures Lower(s + t) == Lower(s) + Lower(t)
  {
  }

  lemma {:induction false} LowerEscaped(word: string)
    ensures Lower(Escaped(word)) == Escaped(Lower(word))
  {
    if word != "" {
      LowerEscaped(word[1..]);
      LowerAppend(EscapeChar(word[0]), Escaped(word[1..]));
      assert Lower(word)[1..] == Lower(word[1..]);
      assert Lower(EscapeChar(word[0])) == EscapeChar(LowerChar(word[0]));
    }
  }

  /** One column, one word: never an error, and true exactly when the word is in
      the column with letter case set aside. */
  lemma ColumnFindsWord(column: Option<string>, word: string)
    ensures WellFormed("%" + EscapeLike(word) + "%")
    ensures ILike(column, "%" + EscapeLike(word) + "%") == True
       <==> column.Some? && Contains(Lower(column.value), Lower(word))
  {
    EscapeIsPerCharacter(word);
    EscapedIsWellFormed(word, "%");
    assert ("%" + EscapeLike(word) + "%")[1..] == Escaped(word) + "%";
    LowerAppend("%" + Escaped(word), "%");
    LowerAppend("%", Escaped(word));
    assert Lower("%") == "%";
    LowerEscaped(word);
    if column.Some? { PatternFindsWord(Lower(column.value), Lower(word)); }
  }

  predicate Found(column: Option<string>, word: string) {
    column.Some? && Contains(Lower(column.value), Lower(word))
  }

  predicate FoundSomewhere(columns: seq<Option<string>>, word: string) {
    exists i :: 0 <= i < |columns| && Found(columns[i], word)
  }

  /** The same letter, in either case, or the same other character. */
  predicate SameButCase(a: char, b: char) {
    || a == b
    || ('A' <= a <= 'Z' && b as int == a as int + 32)
    || ('A' <= b <= 'Z' && a as int == b as int + 32)
  }

  predicate ReadsAt(text: string, word: string, i: nat) {
    i + |word| <= |text| && forall j :: 0 <= j < |word| ==> SameButCase(text[i + j], word[j])
  }

  /** A word is found where it is spelled in any case. */
  lemma FoundIgnoresCase(column: Option<string>, word: string)
    ensures Found(column, word) <==> column.Some? && exists i: nat :: ReadsAt(column.value, word, i)
  {
    if column.Some? {
      var text := column.value;
      forall i: nat ensures OccursAt(Lower(text), Lower(word), i) <==> ReadsAt(text, word, i) {
        LowersAlike(text, word, i);
      }
      if Found(column, word) {
        var i: nat :| OccursAt(Lower(text), Lower(word), i);
        assert ReadsAt(text, word, i);
      }
      if i: nat :| ReadsAt(text, word, i) {
        assert OccursAt(Lower(text), Lower(word), i);
      }
    }
  }

  lemma LowersAlike(text: string, word: string, i: nat)
    ensures OccursAt(Lower(text), Lower(word), i) <==> ReadsAt(text, word, i)
  {
    if i + |word| <= |text| {
      forall j | 0 <= j < |word|
        ensures Lower(text)[i..i + |word|][j] == Lower(word)[j] <==> SameButCase(text[i + j], word[j])
      {
        LowerAlike(text[i + j], word[j]);
      }
    }
  }

  lemma LowerAlike(a: char, b: char)
    ensures LowerChar(a) == LowerChar(b) <==> SameButCase(a, b)
  {
  }

  lemma {:induction false} SomeColumnMeans(word: string, columns: seq<Option<string>>)
    ensures SomeColumn(word, columns) == True <==> FoundSomewhere(columns, word)
  {
    if columns != [] {
      var rest := columns[1..];
      ColumnFindsWord(columns[0], word);
      SomeColumnMeans(word, rest);
      assert FoundSomewhere(columns, word) <==> Found(columns[0], word) || FoundSomewhere(rest, word) by {
        assert forall i :: 0 <= i < |rest| ==> rest[i] == columns[i + 1];
        assert forall i :: 1 <= i < |columns| ==> columns[i] == rest[i - 1];
      }
    }
  }

  /** A row is selected exactly when every word occurs, case set aside, in one
      of its columns. */
  lemma {:induction false} EveryWordMeans(words: seq<string>, columns: seq<Option<string>>)
    ensures EveryWord(words, columns) == True <==> forall w :: w in words ==> FoundSomewhere(columns, w)
  {
    if words != [] {
      SomeColumnMeans(words[0], columns);
      EveryWordMeans(words[1..], columns);
      assert forall w :: w in words <==> w == words[0] || w in words[1..];
    }
  }

  // ---- What the words of a text are ----

  predicate WordAt(s: string, i: int, j: int) {
    && 0 <= i < j <= |s|
    && (forall k :: i <= k < j ==> !IsSpace(s[k]))
    && (i == 0 || IsSpace(s[i - 1]))
    && (j == |s| || IsSpace(s[j]))
  }

  lemma ShiftWord(s: string, n: nat, i: nat, j: nat)
    requires 1 <= n <= |s| && (IsSpace(s[n - 1]) || n == |s| || IsSpace(s[n]))
    ensures WordAt(s[n..], i, j) <==> WordAt(s, i + n, j + n)
    ensures WordAt(s[n..], i, j) ==> s[n..][i..j] == s[i + n..j + n]
  {
    var rest := s[n..];
    if WordAt(s, i + n, j + n) {
      assert forall k :: i <= k < j ==> rest[k] == s[k + n];
    }
  }

  lemma {:induction false} SplitHoldsWords(s: string, w: string)
    requires w in Split(s)
    ensures exists i: nat, j: nat :: WordAt(s, i, j) && s[i..j] == w
    decreases |s|
  {
    var n := if IsSpace(s[0]) then 1 else WordEnd(s);
    if !IsSpace(s[0]) && w == s[..n] {
      assert WordAt(s, 0, n);
    } else {
      SplitHoldsWords(s[n..], w);
      var i: nat, j: nat :| WordAt(s[n..], i, j) && s[n..][i..j] == w;
      ShiftWord(s, n, i, j);
    }
  }

  lemma {:induction false} SplitMissesNone(s: string, i: nat, j: nat)
    requires WordAt(s, i, j)
    ensures s[i..j] in Split(s)
    decreases |s|
  {
    var n := if IsSpace(s[0]) then 1 else WordEnd(s);
    if i >= n {
      var k, l, rest := i - n, j - n, s[n..];
      ShiftWord(s, n, k, l);
      SplitMissesNone(rest, k, l);
      assert rest[k..l] == s[i..j];
      SplitTail(s, s[i..j]);
    } else {
      FirstWord(s, i, j);
    }
  }

  lemma SplitTail(s: string, w: string)
    requires s != "" && w in Split(s[if IsSpace(s[0]) then 1 else WordEnd(s)..])
    ensures w in Split(s)
  {
  }

  lemma FirstWord(s: string, i: nat, j: nat)
    requires WordAt(s, i, j) && i < if IsSpace(s[0]) then 1 else WordEnd(s)
    ensures s[i..j] in Split(s)
  {
    var n := WordEnd(s);
    assert i == 0;
    assert j == n;
    assert Split(s)[0] == s[..n];
  }

  /** The words are the maximal runs of characters that are not whitespace; so a
      row is selected exactly when each of them occurs in one of its columns. */
  lemma MatchWordsMeans(text: string, columns: seq<Option<string>>)
    ensures MatchWords(text, columns) == True
       <==> forall i: nat, j: nat :: WordAt(text, i, j) ==> FoundSomewhere(columns, text[i..j])
  {
    EveryWordMeans(Split(text), columns);
    if MatchWords(text, columns) == True {
      forall i: nat, j: nat | WordAt(text, i, j) ensures FoundSomewhere(columns, text[i..j]) {
        SplitMissesNone(text, i, j);
      }
    } else {
      var w :| w in Split(text) && !FoundSomewhere(columns, w);
      SplitHoldsWords(text, w);
    }
  }
}
