/** The IBAN check: structure, then MOD 97-10 (ISO/IEC 7064:2003) over the
    number rotated by four characters and spelled in base 36. */
module Iban {
  import opened Common
  import opened Decimal

  // ---- Characters and structure ----

  predicate IsLetter(c: char) { 'A' <= c <= 'Z' }

  predicate Alnum(c: char) { IsDigit(c) || IsLetter(c) }

  /** `[A-Z]{2}\d{2}[A-Z0-9]{4,30}` */
  predicate Structured(s: string) {
    && 8 <= |s| <= 34
    && IsLetter(s[0]) && IsLetter(s[1]) && IsDigit(s[2]) && IsDigit(s[3])
    && forall i :: 4 <= i < |s| ==> Alnum(s[i])
  }

  /** Two letters, two digits, and four to thirty of either. */
  lemma StructuredMeans(country: string, check: string, account: string)
    requires |country| == 2 && |check| == 2
    ensures Structured(country + check + account) <==>
      && (forall i :: 0 <= i < |country| ==> 'A' <= country[i] <= 'Z')
      && (forall i :: 0 <= i < |check| ==> '0' <= check[i] <= '9')
      && 4 <= |account| <= 30
      && (forall i :: 0 <= i < |account| ==> 'A' <= account[i] <= 'Z' || '0' <= account[i] <= '9')
  {
    var s := country + check + account;
    assert s[0] == country[0] && s[1] == country[1] && s[2] == check[0] && s[3] == check[1];
    assert forall i :: 0 <= i < |account| ==> s[i + 4] == account[i];
    assert forall i :: 4 <= i < |s| ==> s[i] == account[i - 4];
  }

  /** `IBAN_PATTERN.match`: the `$` also matches before one final newline. */
  predicate PatternMatches(s: string) {
    Structured(s) || (s != "" && s[|s| - 1] == '\n' && Structured(s[..|s| - 1]))
  }

  /** `int(c, 36)`; None is the ValueError of a character that is no digit. */
  function Base36(c: char): (v: Option<nat>)
    ensures v.Some? ==> v.value < 36
  {
    if IsDigit(c) then Some(DigitValue(c))
    else if IsLetter(c) then Some(c as int - 'A' as int + 10)
    else if 'a' <= c <= 'z' then Some(c as int - 'a' as int + 10)
    else None
  }

  /** `int(c, 36)` counts on from 9 with A, in either case. */
  lemma LettersFollowDigits(k: nat)
    requires k < 36
    ensures k < 10 ==> Base36(('0' as int + k) as char) == Some(k)
    ensures k >= 10 ==> Base36(('A' as int + k - 10) as char) == Some(k) && Base36(('a' as int + k - 10) as char) == Some(k)
  {
  }

  function Rotate(s: string): string
    requires |s| >= 4
  {
    s[4..] + s[..4]
  }

  /** The decimal text of the base-36 values, one after the other. */
  function Expand(s: string): (r: Option<string>)
    ensures r.Some? ==> AllDigits(r.value)
    ensures (forall i :: 0 <= i < |s| ==> Alnum(s[i])) ==> r.Some?
    ensures r.Some? ==> forall i :: 0 <= i < |s| ==> Base36(s[i]).Some?
  {
    if s == "" then Some("")
    else
      var init := Expand(s[..|s| - 1]);
      var last := Base36(s[|s| - 1]);
      if init.None? || last.None? then None else Some(init.value + Format(last.value))
  }

  /** None is the ValueError Python raises. */
  function Mod97Ok(value: string): Option<bool>
    requires |value| >= 4
  {
    var digits := Expand(Rotate(value));
    if digits.None? then None else Some(Parse(digits.value) % 97 == 1)
  }

  function ValidateIbanFormat(iban: string): Option<bool> {
    if !PatternMatches(iban) then Some(false) else Mod97Ok(iban)
  }

  datatype Outcome = Accepted | MalformedIban | InvalidIban | Crash

  function RefuseInvalidIban(value: Option<string>): Outcome {
    if value.None? then Accepted
    else if !PatternMatches(value.value) then MalformedIban
    else
      match Mod97Ok(value.value)
      case None => Crash
      case Some(ok) => if ok then Accepted else InvalidIban
  }

  // ---- Normalisation ----

  function Upper(c: char): char {
    if 'a' <= c <= 'z' then (c as int - 32) as char else c
  }

  function Normalize(s: string): string {
    if s == "" then ""
    else Normalize(s[..|s| - 1]) + if IsSpace(s[|s| - 1]) then "" else [Upper(s[|s| - 1])]
  }

  lemma {:induction false} NormalizeAppend(s: string, t: string)
    ensures Normalize(s + t) == Normalize(s) + Normalize(t)
  {
    if t == "" {
      assert s + t == s;
    } else {
      NormalizeAppend(s, t[..|t| - 1]);
      assert (s + t)[..|s + t| - 1] == s + t[..|t| - 1];
    }
  }

  /** Case is presentation too: a small letter is stored as its capital, any other
      character but whitespace as it is, in the order typed. */
  lemma NormalizeMeans(before: string, c: char, after: string)
    ensures Normalize(before + [c] + after) == Normalize(before) + Normalize([c]) + Normalize(after)
    ensures IsSpace(c) ==> Normalize([c]) == ""
    ensures !IsSpace(c) && !('a' <= c <= 'z') ==> Normalize([c]) == [c]
    ensures 'a' <= c <= 'z' ==> exists d :: Normalize([c]) == [d] && IsLetter(d) && d as int - 'A' as int == c as int - 'a' as int
  {
    NormalizeAppend(before + [c], after);
    NormalizeAppend(before, [c]);
    assert [c][..0] == "";
    assert !IsSpace(c) ==> Normalize([c]) == [Upper(c)];
  }

  /** Grouping is presentation: whitespace put in or taken out anywhere makes no
      difference. */
  lemma GroupingIsPresentation(before: string, space: char, after: string)
    requires IsSpace(space)
    ensures Normalize(before + [space] + after) == Normalize(before + after)
  {
    NormalizeAppend(before + [space], after);
    NormalizeAppend(before, [space]);
    NormalizeAppend(before, after);
    assert [space][..0] == "";
  }

  lemma {:induction false} NormalizedHasNoSpace(s: string)
    ensures forall c :: c in Normalize(s) ==> !IsSpace(c)
  {
    if s != "" { NormalizedHasNoSpace(s[..|s| - 1]); }
  }

  /** The one text that gets past the pattern and breaks the arithmetic is a
      structured number with a newline behind it. */
  lemma CrashesOnTrailingNewline(s: string)
    ensures RefuseInvalidIban(Some(s)) == Crash <==> s != "" && s[|s| - 1] == '\n' && Structured(s[..|s| - 1])
  {
    if PatternMatches(s) {
      if s[|s| - 1] == '\n' {
        assert Rotate(s)[|s| - 5] == '\n';
        assert Base36('\n') == None;
      } else {
        assert forall i :: 0 <= i < |s| ==> Alnum(s[i]);
      }
    }
  }

  /** After normalisation the validator never crashes. */
  lemma NormalizedNeverCrashes(s: string)
    ensures RefuseInvalidIban(Some(Normalize(s))) != Crash
  {
    var n := Normalize(s);
    NormalizedHasNoSpace(s);
    assert n != "" ==> n[|n| - 1] in n;
    CrashesOnTrailingNewline(n);
  }

  // ---- The number the text spells ----

  /** Nothing but digits and capitals is ever asked for. */
  function Value(c: char): (v: nat)
    ensures (IsDigit(c) ==> v < 10) && (IsLetter(c) ==> 10 <= v < 36)
  {
    if IsDigit(c) then DigitValue(c) else if IsLetter(c) then c as int - 'A' as int + 10 else 0
  }

  lemma ValueIsBase36(c: char)
    requires Alnum(c)
    ensures Base36(c) == Some(Value(c))
  {
  }

  predicate AllAlnum(s: string) {
    forall i :: 0 <= i < |s| ==> Alnum(s[i])
  }

  /** One more character at the end: one decimal digit, or two for a letter. */
  function Shift(n: int, c: char): int {
    if IsDigit(c) then 10 * n else 100 * n
  }

  function Number(s: string): (n: int)
    ensures n >= 0
  {
    if s == "" then 0 else Shift(Number(s[..|s| - 1]), s[|s| - 1]) + Value(s[|s| - 1])
  }

  /** What one unit at position `j` adds to the number. */
  function Weight(s: string, j: nat): (w: int)
    requires j < |s|
    ensures w > 0
  {
    if j == |s| - 1 then 1 else Shift(Weight(s[..|s| - 1], j), s[|s| - 1])
  }

  lemma {:induction false} ExpandSpellsNumber(s: string)
    requires AllAlnum(s)
    ensures Parse(Expand(s).value) == Number(s)
  {
    if s != "" {
      var init, v := s[..|s| - 1], Value(s[|s| - 1]);
      ExpandSpellsNumber(init);
      ValueIsBase36(s[|s| - 1]);
      AppendValue(Expand(init).value, v);
    }
  }

  lemma AppendValue(digits: string, v: nat)
    requires AllDigits(digits) && v < 36
    ensures AllDigits(digits + Format(v)) && Parse(digits + Format(v)) == (if v < 10 then 10 else 100) * Parse(digits) + v
  {
    ParseAppend(digits, Format(v));
    ParseFormat(v);
    if v < 10 {
      assert Power10(1) == 10;
    } else {
      assert Format(v) == Format(v / 10) + [Digit(v % 10)] && |Format(v / 10)| == 1;
      assert Power10(1) == 10 && Power10(2) == 100;
    }
  }

  /** The remainder taken one decimal digit at a time, as a checker that never
      holds the whole number would. */
  function Streamed(digits: string): (r: nat)
    requires AllDigits(digits)
    ensures r < 97
  {
    if digits == "" then 0 else (Streamed(digits[..|digits| - 1]) * 10 + DigitValue(digits[|digits| - 1])) % 97
  }

  lemma {:induction false} StreamedIsRemainder(digits: string)
    requires AllDigits(digits)
    ensures Streamed(digits) == Parse(digits) % 97
  {
    if digits != "" {
      StreamedIsRemainder(digits[..|digits| - 1]);
      var n, d := Parse(digits[..|digits| - 1]), DigitValue(digits[|digits| - 1]);
      assert n * 10 + d == (n % 97) * 10 + d + 97 * (10 * (n / 97));
      AddMultiple((n % 97) * 10 + d, 10 * (n / 97));
    }
  }

  lemma AddMultiple(x: int, k: int)
    ensures (x + 97 * k) % 97 == x % 97
  {
  }

  /** What `mod_97_ok` decides for any text of digits and capitals: the spelled
      integer, and equally the streamed remainder, is 1 modulo 97. */
  lemma Mod97OkMeans(s: string)
    requires |s| >= 4 && AllAlnum(s)
    ensures AllAlnum(Rotate(s))
    ensures Mod97Ok(s) == Some(Number(Rotate(s)) % 97 == 1)
    ensures Mod97Ok(s) == Some(Streamed(Expand(Rotate(s)).value) == 1)
  {
    ExpandSpellsNumber(Rotate(s));
    StreamedIsRemainder(Expand(Rotate(s)).value);
  }

  predicate Valid(s: string) {
    ValidateIbanFormat(s) == Some(true)
  }

  lemma ValidMeans(s: string)
    ensures Valid(s) <==> Structured(s) && Number(Rotate(s)) % 97 == 1
  {
    if Structured(s) {
      Mod97OkMeans(s);
    } else if PatternMatches(s) {
      CrashesOnTrailingNewline(s);
    }
  }

  /** What the field validator answers, for every value. */
  lemma RefuseMeans(value: Option<string>)
    ensures value.None? ==> RefuseInvalidIban(value) == Accepted
    ensures value.Some? ==> var s := value.value;
      && (RefuseInvalidIban(value) == Accepted <==> Structured(s) && Number(Rotate(s)) % 97 == 1)
      && (RefuseInvalidIban(value) == InvalidIban <==> Structured(s) && Number(Rotate(s)) % 97 != 1)
      && (RefuseInvalidIban(value) == MalformedIban <==>
            !Structured(s) && !(s != "" && s[|s| - 1] == '\n' && Structured(s[..|s| - 1])))
  {
    if value.Some? {
      ValidMeans(value.value);
      CrashesOnTrailingNewline(value.value);
    }
  }

  // ---- Arithmetic modulo 97 ----

  /** Ten is invertible modulo 97. */
  lemma TenIsInvertible(x: int)
    ensures (10 * x) % 97 == 0 <==> x % 97 == 0
  {
  }

  lemma ShiftDistributes(d: int, w: int, c: char)
    ensures Shift(d * w, c) == d * Shift(w, c)
  {
  }

  /** Every weight is invertible. */
  lemma {:induction false} WeightIsInvertible(d: int, s: string, j: nat)
    requires j < |s|
    ensures (d * Weight(s, j)) % 97 == 0 <==> d % 97 == 0
  {
    if j < |s| - 1 {
      var init := s[..|s| - 1];
      WeightIsInvertible(d, init, j);
      ShiftDistributes(d, Weight(init, j), s[|s| - 1]);
      TenIsInvertible(d * Weight(init, j));
      TenIsInvertible(10 * (d * Weight(init, j)));
    }
  }

  lemma SameRemainder(x: int, y: int)
    requires x % 97 == 1
    ensures y % 97 == 1 <==> (y - x) % 97 == 0
  {
  }

  lemma MovedRemainder(n: int, m: int, d: int, s: string, j: nat)
    requires j < |s| && n % 97 == 1 && m - n == d * Weight(s, j)
    ensures m % 97 == 1 <==> d % 97 == 0
  {
    WeightIsInvertible(d, s, j);
    SameRemainder(n, m);
  }

  lemma {:induction false} SubstitutionMoves(s: string, j: nat, c: char)
    requires j < |s| && IsDigit(c) == IsDigit(s[j])
    ensures Number(s[j := c]) - Number(s) == (Value(c) - Value(s[j])) * Weight(s, j)
  {
    var t, n := s[j := c], |s| - 1;
    if j == n {
      assert t[..n] == s[..n];
    } else {
      SubstitutionMoves(s[..n], j, c);
      assert t[..n] == s[..n][j := c];
      ShiftDistributes(Value(c) - Value(s[j]), Weight(s[..n], j), s[n]);
      assert t[n] == s[n];
    }
  }

  function Pair(x: char, y: char): int {
    Shift(Value(x), y) + Value(y)
  }

  function Swap(s: string, i: nat): string
    requires i + 1 < |s|
  {
    s[i := s[i + 1]][i + 1 := s[i]]
  }

  lemma NumberAppend(p: string, c: char)
    ensures Number(p + [c]) == Shift(Number(p), c) + Value(c)
  {
    assert (p + [c])[..|p|] == p;
  }

  lemma NumberOfTwoMore(p: string, x: char, y: char)
    ensures Number(p + [x, y]) == Shift(Shift(Number(p), x), y) + Pair(x, y)
  {
    NumberAppend(p, x);
    NumberAppend(p + [x], y);
    assert p + [x] + [y] == p + [x, y];
  }

  lemma ShiftsCommute(n: int, x: char, y: char)
    ensures Shift(Shift(n, x), y) == Shift(Shift(n, y), x)
  {
  }

  lemma SwapMovesAtTheEnd(p: string, x: char, y: char)
    ensures Number(p + [y, x]) - Number(p + [x, y]) == Pair(y, x) - Pair(x, y)
  {
    NumberOfTwoMore(p, x, y);
    NumberOfTwoMore(p, y, x);
    ShiftsCommute(Number(p), x, y);
  }

  lemma ShiftSubtracts(a: int, b: int, m: int, c: char)
    requires a - b == m
    ensures Shift(a, c) - Shift(b, c) == Shift(m, c)
  {
  }

  /** A move in front of one more character grows as the weights do. */
  lemma MoveCarries(p: string, q: string, c: char, move: int)
    requires Number(q) - Number(p) == move
    ensures Number(q + [c]) - Number(p + [c]) == Shift(move, c)
  {
    NumberAppend(p, c);
    NumberAppend(q, c);
    ShiftSubtracts(Number(q), Number(p), move, c);
  }

  lemma {:induction false} SwapMoves(s: string, j: nat)
    requires j + 1 < |s|
    ensures Number(Swap(s, j)) - Number(s) == Gained(s[j], s[j + 1], Weight(s, j + 1))
  {
    var n := |s| - 1;
    if j + 1 == n {
      assert s == s[..j] + [s[j], s[j + 1]] && Swap(s, j) == s[..j] + [s[j + 1], s[j]];
      SwapMovesAtTheEnd(s[..j], s[j], s[j + 1]);
    } else {
      var p, q, c, move := s[..n], Swap(s[..n], j), s[n], Gained(s[j], s[j + 1], Weight(s[..n], j + 1));
      SwapMoves(p, j);
      MoveCarries(p, q, c, move);
      GainedCarries(s[j], s[j + 1], Weight(p, j + 1), c);
      assert s == p + [c] && Swap(s, j) == q + [c];
    }
  }

  function Gained(x: char, y: char, weight: int): int {
    (Pair(y, x) - Pair(x, y)) * weight
  }

  lemma GainedCarries(x: char, y: char, w: int, c: char)
    ensures Shift(Gained(x, y, w), c) == Gained(x, y, Shift(w, c)) && Gained(x, y, 1) == Pair(y, x) - Pair(x, y)
  {
    ShiftDistributes(Pair(y, x) - Pair(x, y), w, c);
  }

  // ---- What the check catches ----

  function Place(n: nat, i: nat): nat
    requires 8 <= n && i < n
  {
    if i >= 4 then i - 4 else n - 4 + i
  }

  lemma RotateIndex(s: string, i: nat, c: char)
    requires 8 <= |s| && i < |s|
    ensures |Rotate(s)| == |s| && Rotate(s)[Place(|s|, i)] == s[i]
    ensures Rotate(s[i := c]) == Rotate(s)[Place(|s|, i) := c]
  {
  }

  lemma SubstitutionBreaksRemainder(r: string, j: nat, c: char)
    requires j < |r| && Number(r) % 97 == 1 && c != r[j]
    requires (IsDigit(c) && IsDigit(r[j])) || (IsLetter(c) && IsLetter(r[j]))
    ensures Number(r[j := c]) % 97 != 1
  {
    var d := Value(c) - Value(r[j]);
    assert d % 97 != 0;
    SubstitutionMoves(r, j, c);
    MovedRemainder(Number(r), Number(r[j := c]), d, r, j);
  }

  /** Replacing one character by a different one of its class is always caught. */
  lemma SubstitutionIsCaught(s: string, i: nat, c: char)
    requires Valid(s) && i < |s| && c != s[i]
    requires (IsDigit(c) && IsDigit(s[i])) || (IsLetter(c) && IsLetter(s[i]))
    ensures !Valid(s[i := c])
  {
    ValidMeans(s);
    ValidMeans(s[i := c]);
    RotateIndex(s, i, c);
    SubstitutionBreaksRemainder(Rotate(s), Place(|s|, i), c);
  }

  predicate Blind(x: char, y: char) {
    (x == 'B' && y == '1') || (x == 'M' && y == '2') || (x == 'X' && y == '3')
  }

  lemma MixedPair(d: nat, l: nat)
    requires d < 10 && 10 <= l < 36
    ensures (99 * d - 9 * l) % 97 == 0 <==> (d == 1 && l == 11) || (d == 2 && l == 22) || (d == 3 && l == 33)
  {
    assert 99 * d - 9 * l == 97 * d + (2 * d - 9 * l);
    AddMultiple(2 * d - 9 * l, d);
  }

  lemma LetterDigit(x: char, y: char)
    requires IsLetter(x) && IsDigit(y)
    ensures (Pair(y, x) - Pair(x, y)) % 97 == 0 <==> Blind(x, y)
  {
    var d: int, l: int := Value(y), Value(x);
    assert Pair(y, x) - Pair(x, y) == 99 * d - 9 * l;
    MixedPair(d, l);
    assert Blind(x, y) <==> (d == 1 && l == 11) || (d == 2 && l == 22) || (d == 3 && l == 33);
  }

  lemma SameClass(x: char, y: char)
    requires x != y && ((IsDigit(x) && IsDigit(y)) || (IsLetter(x) && IsLetter(y)))
    ensures (Pair(y, x) - Pair(x, y)) % 97 != 0
  {
    var d: int := Value(y) - Value(x);
    if IsDigit(x) {
      assert Pair(y, x) - Pair(x, y) == 9 * d;
    } else {
      assert Pair(y, x) - Pair(x, y) == 2 * d + 97 * d;
      AddMultiple(2 * d, d);
    }
  }

  /** The three letter-digit pairs are the ones whose two orders spell the same
      remainder. */
  lemma SwappedPair(x: char, y: char)
    requires Alnum(x) && Alnum(y) && x != y
    ensures (Pair(y, x) - Pair(x, y)) % 97 == 0 <==> Blind(x, y) || Blind(y, x)
  {
    if IsLetter(x) && IsDigit(y) {
      LetterDigit(x, y);
    } else if IsDigit(x) && IsLetter(y) {
      LetterDigit(y, x);
      Opposite(Pair(y, x) - Pair(x, y));
    } else {
      SameClass(x, y);
    }
  }

  lemma Opposite(gap: int)
    ensures gap % 97 == 0 <==> -gap % 97 == 0
  {
  }

  lemma SwapAwayFromTheSeam(s: string, i: nat)
    requires Structured(s) && i + 1 < |s| && i != 3
    ensures Rotate(Swap(s, i)) == Swap(Rotate(s), Place(|s|, i)) && Place(|s|, i + 1) == Place(|s|, i) + 1
  {
  }

  // Across the seam of the rotation the two characters are the last and the
  // first of the rotated text, so their weights are 1 and a power of ten.

  /** The power of ten that is the weight of position `j`. */
  function Exponent(s: string, j: nat): (e: nat)
    requires j < |s|
    ensures |s| - 1 - j <= e <= 2 * (|s| - 1 - j)
  {
    if j == |s| - 1 then 0 else Exponent(s[..|s| - 1], j) + if IsDigit(s[|s| - 1]) then 1 else 2
  }

  /** Powers of ten modulo 97, as far as the longest IBAN reaches. */
  function Residue(e: nat): nat
    requires e <= 66
  {
    match e
    case 0 => 1 case 1 => 10 case 2 => 3 case 3 => 30 case 4 => 9 case 5 => 90 case 6 => 27 case 7 => 76
    case 8 => 81 case 9 => 34 case 10 => 49 case 11 => 5 case 12 => 50 case 13 => 15 case 14 => 53 case 15 => 45
    case 16 => 62 case 17 => 38 case 18 => 89 case 19 => 17 case 20 => 73 case 21 => 51 case 22 => 25 case 23 => 56
    case 24 => 75 case 25 => 71 case 26 => 31 case 27 => 19 case 28 => 93 case 29 => 57 case 30 => 85 case 31 => 74
    case 32 => 61 case 33 => 28 case 34 => 86 case 35 => 84 case 36 => 64 case 37 => 58 case 38 => 95 case 39 => 77
    case 40 => 91 case 41 => 37 case 42 => 79 case 43 => 14 case 44 => 43 case 45 => 42 case 46 => 32 case 47 => 29
    case 48 => 96 case 49 => 87 case 50 => 94 case 51 => 67 case 52 => 88 case 53 => 7 case 54 => 70 case 55 => 21
    case 56 => 16 case 57 => 63 case 58 => 48 case 59 => 92 case 60 => 47 case 61 => 82 case 62 => 44 case 63 => 52
    case 64 => 35 case 65 => 59
    case _ => 8
  }

  /** `b` is the remainder of ten times `a`, which is below 97. */
  predicate Follows(a: int, b: int) {
    0 <= b < 97 &&
    (10 * a == b || 10 * a == 97 + b || 10 * a == 194 + b || 10 * a == 291 + b || 10 * a == 388 + b
     || 10 * a == 485 + b || 10 * a == 582 + b || 10 * a == 679 + b || 10 * a == 776 + b || 10 * a == 873 + b)
  }

  lemma FirstResidues(e: nat)
    requires e < 22
    ensures Follows(Residue(e), Residue(e + 1)) && Residue(e + 1) != 1
  {
  }

  lemma MiddleResidues(e: nat)
    requires 22 <= e < 44
    ensures Follows(Residue(e), Residue(e + 1)) && Residue(e + 1) != 1
  {
  }

  lemma LastResidues(e: nat)
    requires 44 <= e < 66
    ensures Follows(Residue(e), Residue(e + 1)) && Residue(e + 1) != 1
  {
  }

  /** The table is right, and ten does not come back to 1 in it: its order
      modulo 97 is 96, beyond the length of any IBAN. */
  lemma ResidueStep(e: nat)
    requires e < 66
    ensures Follows(Residue(e), Residue(e + 1)) && Residue(e + 1) != 1
  {
    if e < 22 { FirstResidues(e); } else if e < 44 { MiddleResidues(e); } else { LastResidues(e); }
  }

  lemma TimesTen(w: int, a: int, b: int)
    requires w % 97 == a && Follows(a, b)
    ensures (10 * w) % 97 == b
  {
    var q, k := w / 97, Carry(a, b);
    assert w == 97 * q + a;
    assert 10 * w == b + 97 * (10 * q + k);
    AddMultiple(b, 10 * q + k);
  }

  function Carry(a: int, b: int): (k: int)
    requires Follows(a, b)
    ensures 10 * a == 97 * k + b
  {
    if 10 * a == b then 0 else if 10 * a == 97 + b then 1 else if 10 * a == 194 + b then 2
    else if 10 * a == 291 + b then 3 else if 10 * a == 388 + b then 4 else if 10 * a == 485 + b then 5
    else if 10 * a == 582 + b then 6 else if 10 * a == 679 + b then 7 else if 10 * a == 776 + b then 8 else 9
  }

  /** A list of successive powers of ten modulo 97 that never returns to 1. */
  ghost predicate Powers(table: seq<int>) {
    |table| == 67 && table[0] == 1 && forall e :: 0 <= e < 66 ==> PowerAfter(table, e)
  }

  predicate PowerAfter(table: seq<int>, e: nat)
    requires e + 1 < |table|
  {
    Follows(table[e], table[e + 1]) && table[e + 1] != 1
  }

  lemma {:induction false} WeightIsAPower(s: string, j: nat, table: seq<int>)
    requires j < |s| <= 34 && Powers(table)
    ensures Weight(s, j) % 97 == table[Exponent(s, j)]
  {
    if j < |s| - 1 {
      var init, last := s[..|s| - 1], s[|s| - 1];
      var w, e := Weight(init, j), Exponent(init, j);
      assert PowerAfter(table, e);
      WeightIsAPower(init, j, table);
      TimesTen(w, table[e], table[e + 1]);
      if !IsDigit(last) {
        assert PowerAfter(table, e + 1);
        TimesTen(10 * w, table[e + 1], table[e + 2]);
      }
    }
  }

  lemma WeightIsNotOne(s: string, j: nat)
    requires j + 1 < |s| <= 34
    ensures Weight(s, j) % 97 != 1
  {
    var table := seq(67, e requires 0 <= e <= 66 => Residue(e));
    forall e | 0 <= e < 66 ensures PowerAfter(table, e) {
      ResidueStep(e);
    }
    PowerIsNotOne(s, j, table);
  }

  lemma PowerIsNotOne(s: string, j: nat, table: seq<int>)
    requires j + 1 < |s| <= 34 && Powers(table)
    ensures Weight(s, j) % 97 != 1
  {
    WeightIsAPower(s, j, table);
    assert PowerAfter(table, Exponent(s, j) - 1);
  }

  function Inverse(d: nat): (v: nat)
    requires 1 <= d <= 9
    ensures (v * d) % 97 == 1
  {
    [1, 49, 65, 73, 39, 81, 14, 85, 54][d - 1]
  }

  lemma DigitIsInvertible(d: nat, x: int)
    requires 1 <= d <= 9 && (d * x) % 97 == 0
    ensures x % 97 == 0
  {
    var v := Inverse(d);
    var w, q := v * d / 97, d * x / 97;
    Regroup(v, d, x);
    assert (v * d) * x == (97 * w + 1) * x;
    assert v * (97 * q) == 97 * (v * q);
    assert (97 * w + 1) * x == 97 * (w * x) + x;
    AddMultiple(0, v * q - w * x);
  }

  lemma Regroup(v: int, d: int, x: int)
    ensures v * (d * x) == (v * d) * x
  {
  }

  lemma SeamSwapMoves(r: string)
    requires |r| >= 2 && IsDigit(r[0]) && IsDigit(r[|r| - 1])
    ensures var n := |r| - 1;
      Number(r[0 := r[n]][n := r[0]]) - Number(r) == (Value(r[n]) - Value(r[0])) * (Weight(r, 0) - 1)
  {
    var n, a, b := |r| - 1, r[0], r[|r| - 1];
    var r1 := r[0 := b];
    SubstitutionMoves(r, 0, b);
    LastMoves(r1, a);
    OneLess(Value(b) - Value(a), Weight(r, 0));
  }

  lemma LastMoves(r: string, c: char)
    requires r != "" && IsDigit(c) && IsDigit(r[|r| - 1])
    ensures Number(r[|r| - 1 := c]) - Number(r) == Value(c) - Value(r[|r| - 1])
  {
    SubstitutionMoves(r, |r| - 1, c);
  }

  lemma OneLess(d: int, w: int)
    ensures d * (w - 1) == d * w - d
  {
  }

  lemma SeamSwapBreaksRemainder(r: string)
    requires 2 <= |r| <= 34 && IsDigit(r[0]) && IsDigit(r[|r| - 1]) && r[0] != r[|r| - 1] && Number(r) % 97 == 1
    ensures Number(r[0 := r[|r| - 1]][|r| - 1 := r[0]]) % 97 != 1
  {
    SeamSwapMoves(r);
    WeightIsNotOne(r, 0);
    SeamArithmetic(Number(r), Number(r[0 := r[|r| - 1]][|r| - 1 := r[0]]), Value(r[|r| - 1]) - Value(r[0]), Weight(r, 0));
  }

  lemma SeamArithmetic(n: int, m: int, d: int, w: int)
    requires n % 97 == 1 && m - n == d * (w - 1) && d != 0 && -9 <= d <= 9 && w % 97 != 1
    ensures m % 97 != 1
  {
    NotAMultiple(d, w - 1);
    SameRemainder(n, m);
  }

  lemma NotAMultiple(d: int, x: int)
    requires d != 0 && -9 <= d <= 9 && x % 97 != 0
    ensures (d * x) % 97 != 0
  {
    if (d * x) % 97 == 0 {
      if d > 0 {
        DigitIsInvertible(d, x);
      } else {
        assert (-d) * x == -(d * x);
        DigitIsInvertible(-d, x);
      }
    }
  }

  lemma SeamOfTheRotation(s: string)
    requires Structured(s)
    ensures Rotate(s)[0] == s[4] && Rotate(s)[|s| - 1] == s[3]
    ensures Rotate(Swap(s, 3)) == Rotate(s)[0 := s[3]][|s| - 1 := s[4]]
  {
  }

  lemma SwapBreaksRemainder(r: string, j: nat)
    requires j + 1 < |r| && Alnum(r[j]) && Alnum(r[j + 1]) && r[j] != r[j + 1] && Number(r) % 97 == 1
    ensures Number(Swap(r, j)) % 97 == 1 <==> Blind(r[j], r[j + 1]) || Blind(r[j + 1], r[j])
  {
    var x, y := r[j], r[j + 1];
    var gap := Gap(r, j);
    SwappedPair(x, y);
  }

  lemma Gap(r: string, j: nat) returns (gap: int)
    requires j + 1 < |r| && Number(r) % 97 == 1
    ensures gap == Pair(r[j + 1], r[j]) - Pair(r[j], r[j + 1])
    ensures Number(Swap(r, j)) % 97 == 1 <==> gap % 97 == 0
  {
    gap := Pair(r[j + 1], r[j]) - Pair(r[j], r[j + 1]);
    SwapMoves(r, j);
    MovedRemainder(Number(r), Number(Swap(r, j)), gap, r, j + 1);
  }

  /** Swapping two different neighbours of a valid IBAN is caught everywhere,
      across the seam of the rotation too, except for the pairs B1, M2 and X3 in
      the account part. */
  lemma SwapIsCaughtExceptBlindPairs(s: string, i: nat)
    requires Valid(s) && i + 1 < |s| && s[i] != s[i + 1]
    ensures Valid(Swap(s, i)) <==> i >= 4 && (Blind(s[i], s[i + 1]) || Blind(s[i + 1], s[i]))
  {
    ValidMeans(s);
    ValidMeans(Swap(s, i));
    if i == 3 { SwapAtTheSeam(s); } else { SwapElsewhere(s, i); }
  }

  lemma SwapAtTheSeam(s: string)
    requires Structured(s) && Number(Rotate(s)) % 97 == 1 && s[3] != s[4]
    ensures !(Structured(Swap(s, 3)) && Number(Rotate(Swap(s, 3))) % 97 == 1)
  {
    SeamOfTheRotation(s);
    if IsDigit(s[4]) { SeamSwapBreaksRemainder(Rotate(s)); }
  }

  lemma SwapElsewhere(s: string, i: nat)
    requires Structured(s) && Number(Rotate(s)) % 97 == 1 && i + 1 < |s| && i != 3 && s[i] != s[i + 1]
    ensures Structured(Swap(s, i)) && Number(Rotate(Swap(s, i))) % 97 == 1
       <==> i >= 4 && (Blind(s[i], s[i + 1]) || Blind(s[i + 1], s[i]))
  {
    SwapAwayFromTheSeam(s, i);
    RotateIndex(s, i, s[i]);
    RotateIndex(s, i + 1, s[i]);
    SwapBreaksRemainder(Rotate(s), Place(|s|, i));
  }

  // ---- Check digits ----

  function WithCheck(country: string, check: nat, account: string): string
    requires check < 100
  {
    country + [Digit(check / 10), Digit(check % 10)] + account
  }

  predicate Parts(country: string, account: string) {
    && |country| == 2 && IsLetter(country[0]) && IsLetter(country[1])
    && 4 <= |account| <= 30 && forall i :: 0 <= i < |account| ==> Alnum(account[i])
  }

  lemma NumberWithCheck(country: string, check: nat, account: string)
    requires Parts(country, account) && check < 100
    ensures Structured(WithCheck(country, check, account))
    ensures Number(Rotate(WithCheck(country, check, account))) == 100 * Number(account + country) + check
  {
    var s := WithCheck(country, check, account);
    var r := Rotate(s);
    var d, e := Digit(check / 10), Digit(check % 10);
    assert r == account + country + [d, e];
    assert r[..|r| - 1] == account + country + [d];
    assert r[..|r| - 1][..|r| - 2] == account + country;
  }

  lemma ValidWithCheck(country: string, check: nat, account: string)
    requires Parts(country, account) && check < 100
    ensures Valid(WithCheck(country, check, account)) <==> (100 * Number(account + country) + check) % 97 == 1
  {
    NumberWithCheck(country, check, account);
    ValidMeans(WithCheck(country, check, account));
  }

  /** The check digits the standard computes: 98 minus the remainder with 00 in
      their place. */
  function CheckDigits(country: string, account: string): (check: nat)
    ensures 2 <= check <= 98
  {
    98 - (100 * Number(account + country)) % 97
  }

  /** Of the pairs 02 to 98 exactly the computed one validates; the code does not
      refuse 00, 01 and 99, which validate where their alias 97, 98 or 02 does. */
  lemma OneCheckPairValidates(country: string, account: string, check: nat)
    requires Parts(country, account) && check < 100
    ensures Valid(WithCheck(country, check, account)) <==> check % 97 == CheckDigits(country, account) % 97
    ensures 2 <= check <= 98 ==> (Valid(WithCheck(country, check, account)) <==> check == CheckDigits(country, account))
  {
    ValidWithCheck(country, check, account);
    RemaindersCancel(100 * Number(account + country), check);
  }

  lemma RemaindersCancel(n: int, check: nat)
    requires check < 100
    ensures (n + check) % 97 == 1 <==> check % 97 == (98 - n % 97) % 97
  {
    var q, r := n / 97, n % 97;
    assert n + check == (r + check) + 97 * q;
    AddMultiple(r + check, q);
  }
}
