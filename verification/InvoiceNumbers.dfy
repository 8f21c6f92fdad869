/** Document numbers: the per-year invoice counters after the seed and after the
    migration, and the next free member number. */
module InvoiceNumbers {
  import opened Common
  import Decimal
  import LikeSearch

  // ---- Reading numbers ----

  /** `int()` on text without a minus sign: surrounding whitespace, one `+`, and
      single underscores between digits are allowed. */
  function PythonInt(s: string): Option<nat> {
    var t := Strip(s);
    var u := if t != "" && t[0] == '+' then t[1..] else t;
    if Numeral(u) then Some(Decimal.Parse(NoUnderscores(u))) else None
  }

  predicate Numeral(u: string) {
    && u != "" && Decimal.IsDigit(u[0]) && Decimal.IsDigit(u[|u| - 1])
    && (forall i :: 0 <= i < |u| ==> Decimal.IsDigit(u[i]) || u[i] == '_')
    && (forall i :: 0 < i < |u| && u[i] == '_' ==> u[i - 1] != '_')
  }

  function NoUnderscores(u: string): (r: string)
    requires forall i :: 0 <= i < |u| ==> Decimal.IsDigit(u[i]) || u[i] == '_'
    ensures Decimal.AllDigits(r) && (Decimal.AllDigits(u) ==> r == u)
  {
    if u == "" then "" else
      var rest := NoUnderscores(u[1..]);
      if u[0] == '_' then rest else [u[0]] + rest
  }

  lemma PlainDigits(s: string)
    requires s != "" && Decimal.AllDigits(s)
    ensures PythonInt(s) == Some(Decimal.Parse(s))
  {
    LeftIsTrimmed(s);
    RightKeepsLeft(s);
  }

  /** `int()` puts up with whitespace in front, */
  lemma PythonIntStrips(c: char, s: string)
    requires IsSpace(c)
    ensures PythonInt([c] + s) == PythonInt(s)
  {
    assert ([c] + s)[1..] == s;
    assert StripLeft([c] + s) == StripLeft(s);
  }

  /** with a plus sign, */
  lemma PythonIntTakesPlus(s: string)
    requires s != "" && Decimal.AllDigits(s)
    ensures PythonInt("+" + s) == Some(Decimal.Parse(s))
  {
    assert ("+" + s)[1..] == s;
    AlreadyTrimmed("+" + s);
  }

  /** and with an underscore between digits. */
  lemma PythonIntTakesUnderscore(s: string, t: string)
    requires s != "" && Decimal.AllDigits(s) && t != "" && Decimal.AllDigits(t)
    ensures Decimal.AllDigits(s + t) && PythonInt(s + "_" + t) == Some(Decimal.Parse(s + t))
  {
    var u := s + "_" + t;
    AlreadyTrimmed(u);
    WithoutUnderscore(s, t);
    assert Numeral(u);
  }

  lemma AlreadyTrimmed(s: string)
    requires s != "" && !IsSpace(s[0]) && !IsSpace(s[|s| - 1])
    ensures Strip(s) == s
  {
    LeftIsTrimmed(s);
    RightKeepsLeft(s);
  }

  lemma {:induction false} WithoutUnderscore(s: string, t: string)
    requires Decimal.AllDigits(s) && Decimal.AllDigits(t)
    ensures forall i :: 0 <= i < |s + "_" + t| ==> Decimal.IsDigit((s + "_" + t)[i]) || (s + "_" + t)[i] == '_'
    ensures NoUnderscores(s + "_" + t) == s + t
  {
    var u := s + "_" + t;
    if s == "" {
      assert u[1..] == t;
    } else {
      WithoutUnderscore(s[1..], t);
      assert u[1..] == s[1..] + "_" + t;
      assert s + t == [s[0]] + (s[1..] + t);
    }
  }

  /** What is before and after the last dash. */
  function LastDash(s: string): Option<(string, string)> {
    if s == "" then None
    else
      var n := |s| - 1;
      if s[n] == '-' then Some((s[..n], ""))
      else match LastDash(s[..n])
        case None => None
        case Some(cut) => Some((cut.0, cut.1 + [s[n]]))
  }

  lemma {:induction false} LastDashCuts(a: string, b: string)
    requires '-' !in b
    ensures LastDash(a + "-" + b) == Some((a, b))
  {
    var s := a + "-" + b;
    if b == "" {
      assert s[..|s| - 1] == a;
    } else {
      assert s[..|s| - 1] == a + "-" + b[..|b| - 1];
      LastDashCuts(a, b[..|b| - 1]);
      assert b[..|b| - 1] + [b[|b| - 1]] == b;
    }
  }

  datatype Reading = Reading(year: nat, sequence: nat)

  /** The seed's reading of a receipt number: selected by an unescaped LIKE, its
      last two dash-separated parts as integers. */
  function SeedReading(prefix: string, number: string): Option<Reading> {
    if !LikeSearch.Matches(number, prefix + "-%") || LastDash(number).None? then None
    else
      var (before, last) := LastDash(number).value;
      if LastDash(before).None? then None
      else
        var year, sequence := PythonInt(LastDash(before).value.1), PythonInt(last);
        if year.Some? && sequence.Some? then Some(Reading(year.value, sequence.value)) else None
  }

  /** The migration's: four digits, a dash and digits at the very end. */
  function MigrationReading(number: string): Option<Reading> {
    if LastDash(number).None? then None
    else
      var (before, last) := LastDash(number).value;
      if last != "" && Decimal.AllDigits(last) && |before| >= 4 && Decimal.AllDigits(before[|before| - 4..])
      then Some(Reading(Decimal.Parse(before[|before| - 4..]), Decimal.Parse(last)))
      else None
  }

  /** An empty prefix falls back to FAC. */
  function Prefix(configured: Option<string>): string {
    if configured.None? || configured.value == "" then "FAC" else configured.value
  }

  function SeedReadings(prefix: string, numbers: seq<string>): (r: seq<Option<Reading>>)
    ensures |r| == |numbers| && forall i :: 0 <= i < |numbers| ==> r[i] == SeedReading(prefix, numbers[i])
  {
    seq(|numbers|, i requires 0 <= i < |numbers| => SeedReading(prefix, numbers[i]))
  }

  function MigrationReadings(numbers: seq<string>): (r: seq<Option<Reading>>)
    ensures |r| == |numbers| && forall i :: 0 <= i < |numbers| ==> r[i] == MigrationReading(numbers[i])
  {
    seq(|numbers|, i requires 0 <= i < |numbers| => MigrationReading(numbers[i]))
  }

  /** The migration reads exactly the numbers that end in four digits, a dash and
      digits, whatever is before them. */
  lemma MigrationReadingMeans(number: string, before: string, year: string, sequence: string)
    ensures number == before + year + "-" + sequence && |year| == 4 && Decimal.AllDigits(year)
            && sequence != "" && Decimal.AllDigits(sequence)
      ==> MigrationReading(number) == Some(Reading(Decimal.Parse(year), Decimal.Parse(sequence)))
    ensures MigrationReading(number).Some? ==> EndsInYearAndSequence(number)
  {
    if number == before + year + "-" + sequence && |year| == 4 && Decimal.AllDigits(year)
       && sequence != "" && Decimal.AllDigits(sequence)
    {
      LastDashCuts(before + year, sequence);
      assert (before + year)[|before|..] == year;
    }
    if MigrationReading(number).Some? {
      LastDashJoins(number);
      var (a, last) := LastDash(number).value;
      assert a == a[..|a| - 4] + a[|a| - 4..];
      assert number == a[..|a| - 4] + a[|a| - 4..] + "-" + last;
    }
  }

  ghost predicate EndsInYearAndSequence(number: string) {
    exists before, year, sequence ::
      && number == before + year + "-" + sequence && |year| == 4
      && Decimal.AllDigits(year) && sequence != "" && Decimal.AllDigits(sequence)
  }

  lemma {:induction false} LastDashJoins(s: string)
    ensures LastDash(s).Some? ==> s == LastDash(s).value.0 + "-" + LastDash(s).value.1
  {
    if s != "" && s[|s| - 1] != '-' { LastDashJoins(s[..|s| - 1]); }
  }

  // ---- The counters ----

  function Max(a: int, b: int): int {
    if a < b then b else a
  }

  /** The highest sequence number read in each year. */
  function Highest(readings: seq<Option<Reading>>): map<nat, nat> {
    if readings == [] then map[]
    else
      var h, r := Highest(readings[..|readings| - 1]), readings[|readings| - 1];
      if r.None? then h
      else h[r.value.year := Max(r.value.sequence, if r.value.year in h then h[r.value.year] else 0)]
  }

  lemma {:induction false} HighestMeans(readings: seq<Option<Reading>>, y: nat)
    ensures y in Highest(readings) <==> exists i :: 0 <= i < |readings| && readings[i].Some? && readings[i].value.year == y
    ensures forall i :: 0 <= i < |readings| && readings[i].Some? && readings[i].value.year == y ==>
      readings[i].value.sequence <= Highest(readings)[y]
    ensures y in Highest(readings) ==> Some(Reading(y, Highest(readings)[y])) in readings
  {
    if readings != [] {
      var before, r := readings[..|readings| - 1], readings[|readings| - 1];
      HighestMeans(before, y);
      assert readings == before + [r];
    }
  }

  /** `x or 1` */
  function Or1(x: int): int {
    if x == 0 then 1 else x
  }

  /** The number a year's counter would issue next. */
  function Next(years: map<nat, int>, y: nat): int {
    if y in years then Or1(years[y]) else 1
  }

  /** Where the sync leaves the counter of a year it read numbers of. */
  function Moved(years: map<nat, int>, y: nat, highest: nat): int {
    if y !in years || Or1(years[y]) <= highest then highest + 1 else years[y]
  }

  function Synced(years: map<nat, int>, highest: map<nat, nat>): map<nat, int> {
    map y | y in years.Keys + highest.Keys :: if y in highest then Moved(years, y, highest[y]) else years[y]
  }

  /** The items of the dictionary; their order only decides what is printed first. */
  predicate Lists(items: seq<Reading>, highest: map<nat, nat>) {
    && (forall i, j :: 0 <= i < j < |items| ==> items[i].year != items[j].year)
    && (forall i :: 0 <= i < |items| ==> items[i].year in highest && highest[items[i].year] == items[i].sequence)
    && (forall y :: y in highest ==> Reading(y, highest[y]) in items)
  }

  function SyncedInTurn(years: map<nat, int>, items: seq<Reading>): map<nat, int> {
    if items == [] then years
    else
      var before, r := SyncedInTurn(years, items[..|items| - 1]), items[|items| - 1];
      before[r.year := Moved(before, r.year, r.sequence)]
  }

  lemma {:induction false} InTurnMeans(years: map<nat, int>, items: seq<Reading>, y: nat)
    requires forall i, j :: 0 <= i < j < |items| ==> items[i].year != items[j].year
    ensures var t := SyncedInTurn(years, items);
      && (forall i :: 0 <= i < |items| && items[i].year == y ==> y in t && t[y] == Moved(years, y, items[i].sequence))
      && ((forall i :: 0 <= i < |items| ==> items[i].year != y) ==> (y in t <==> y in years) && (y in years ==> t[y] == years[y]))
    decreases |items|
  {
    if items != [] {
      var before, r := items[..|items| - 1], items[|items| - 1];
      InTurnMeans(years, before, y);
      assert forall i :: 0 <= i < |before| ==> before[i] == items[i];
    }
  }

  lemma InTurnIsSynced(years: map<nat, int>, items: seq<Reading>, highest: map<nat, nat>)
    requires Lists(items, highest)
    ensures SyncedInTurn(years, items) == Synced(years, highest)
  {
    var t, s := SyncedInTurn(years, items), Synced(years, highest);
    forall y: nat ensures y in t <==> y in s
      ensures y in t ==> t[y] == s[y]
    {
      InTurnMeans(years, items, y);
      if y in highest {
        var i :| 0 <= i < |items| && items[i] == Reading(y, highest[y]);
      }
    }
  }

  predicate IsTop(top: int, highest: map<nat, nat>) {
    top in highest.Values && forall y :: y in highest ==> highest[y] <= top
  }

  /** What becomes of the club-wide counter. */
  ghost predicate CaughtUp(before: Option<int>, after: Option<int>, highest: map<nat, nat>) {
    if highest == map[] then after == before
    else exists top :: IsTop(top, highest) && after == if OrOne(before) <= top then Some(top + 1) else before
  }

  function OrOne(x: Option<int>): int {
    if x.None? then 1 else Or1(x.value)
  }

  method MaxValue(h: map<nat, nat>) returns (top: nat)
    requires h != map[]
    ensures IsTop(top, h)
  {
    var year :| year in h;
    top := h[year];
    var left := h.Keys - {year};
    while left != {}
      invariant left <= h.Keys && top in h.Values
      invariant forall y :: y in h && y !in left ==> h[y] <= top
      decreases |left|
    {
      year :| year in left;
      if h[year] > top { top := h[year]; }
      left := left - {year};
    }
  }

  method Items(highest: map<nat, nat>) returns (items: seq<Reading>)
    ensures Lists(items, highest)
  {
    items := [];
    var left := highest.Keys;
    while left != {}
      invariant left <= highest.Keys
      invariant forall i, j :: 0 <= i < j < |items| ==> items[i].year != items[j].year
      invariant forall i :: 0 <= i < |items| ==>
        items[i].year in highest && items[i].year !in left && highest[items[i].year] == items[i].sequence
      invariant forall y :: y in highest && y !in left ==> Reading(y, highest[y]) in items
      decreases |left|
    {
      var year :| year in left;
      items := items + [Reading(year, highest[year])];
      left := left - {year};
    }
  }

  method ReadHighest(readings: seq<Option<Reading>>) returns (highest: map<nat, nat>)
    ensures highest == Highest(readings)
  {
    highest := map[];
    for i := 0 to |readings|
      invariant highest == Highest(readings[..i])
    {
      assert readings[..i + 1][..i] == readings[..i];
      var r := readings[i];
      if r.Some? {
        highest := highest[r.value.year := Max(r.value.sequence, if r.value.year in highest then highest[r.value.year] else 0)];
      }
    }
    assert readings[..|readings|] == readings;
  }

  /** The counters, by year and for the whole club. */
  class Books {
    var years: map<nat, int>
    var overall: Option<int>

    constructor (years: map<nat, int>, overall: Option<int>)
      ensures this.years == years && this.overall == overall
    {
      this.years, this.overall := years, overall;
    }

    /** The migration creates the table and fills it from the receipts. */
    method Backfill(numbers: seq<string>)
      modifies this
      ensures years == map y | y in Highest(MigrationReadings(numbers)) :: Highest(MigrationReadings(numbers))[y] + 1
      ensures overall == old(overall)
    {
      var highest := ReadHighest(MigrationReadings(numbers));
      years := map y | y in highest :: highest[y] + 1;
    }

    /** One step per year read: a counter that is already past it stays. */
    method SyncYears(items: seq<Reading>)
      modifies this`years
      ensures years == SyncedInTurn(old(years), items)
    {
      for i := 0 to |items|
        invariant years == SyncedInTurn(old(years), items[..i])
      {
        assert items[..i + 1][..i] == items[..i];
        var year, sequence := items[i].year, items[i].sequence;
        if year !in years || Or1(years[year]) <= sequence {
          years := years[year := sequence + 1];
        }
      }
      assert items[..|items|] == items;
    }

    /** The seed's sync; without an organization row there is nothing to sync. */
    method Sync(organization: bool, configured: Option<string>, numbers: seq<string>)
      modifies this
      ensures !organization ==> years == old(years) && overall == old(overall)
      ensures organization ==> years == Synced(old(years), Highest(SeedReadings(Prefix(configured), numbers)))
      ensures organization ==> CaughtUp(old(overall), overall, Highest(SeedReadings(Prefix(configured), numbers)))
    {
      if !organization { return; }
      var highest := ReadHighest(SeedReadings(Prefix(configured), numbers));
      CatchUp(highest);
    }

    method CatchUp(highest: map<nat, nat>)
      modifies this
      ensures years == Synced(old(years), highest)
      ensures CaughtUp(old(overall), overall, highest)
    {
      if highest == map[] {
        assert Synced(years, highest) == years;
        return;
      }
      var items := Items(highest);
      SyncYears(items);
      InTurnIsSynced(old(years), items, highest);
      var top := MaxValue(highest);
      if OrOne(overall) <= top {
        overall := Some(top + 1);
      }
    }
  }

  // ---- What the sync promises ----

  /** Every year's next number becomes the larger of what it was and one past the
      highest number read, so no counter moves back. */
  lemma SyncMovesPast(years: map<nat, int>, highest: map<nat, nat>, y: nat)
    ensures Next(Synced(years, highest), y) == if y in highest then Max(Next(years, y), highest[y] + 1) else Next(years, y)
    ensures y in years ==> y in Synced(years, highest) && Or1(Synced(years, highest)[y]) >= Or1(years[y])
  {
    var _ := Synced(years, highest).Keys;
  }

  /** A counter that was never set, or set to nothing, stands at 1. */
  lemma UnsetStandsAtOne(y: nat, n: int)
    ensures Next(map[], y) == 1 && Next(map[y := 0], y) == 1 && (n != 0 ==> Next(map[y := n], y) == n)
    ensures OrOne(None) == 1 && OrOne(Some(0)) == 1 && (n != 0 ==> OrOne(Some(n)) == n)
    ensures Synced(map[y := 0], map[y := 0]) == map[y := 0]
  {
  }

  lemma SecondSyncChangesNothing(years: map<nat, int>, highest: map<nat, nat>)
    ensures Synced(Synced(years, highest), highest) == Synced(years, highest)
  {
    var once := Synced(years, highest);
    var twice := Synced(once, highest);
    assert twice.Keys == once.Keys;
    forall y | y in once ensures twice[y] == once[y] {
      SyncMovesPast(years, highest, y);
    }
  }

  /** The club-wide counter ends past every number read, never moves back, and a
      second sync leaves it. */
  lemma ClubCounterMovesPast(before: Option<int>, after: Option<int>, again: Option<int>, highest: map<nat, nat>)
    requires CaughtUp(before, after, highest) && CaughtUp(after, again, highest)
    ensures again == after && OrOne(before) <= OrOne(after)
    ensures forall y :: y in highest ==> highest[y] < OrOne(after)
  {
  }

  // ---- No number is drawn twice ----

  function Padded(n: nat): (s: string)
    ensures s != "" && Decimal.AllDigits(s)
  {
    var numeral := Decimal.Format(n);
    if |numeral| < 4 then seq(4 - |numeral|, _ => '0') + numeral else numeral
  }

  /** The number drawn from a year's counter. */
  function Issued(prefix: string, year: nat, n: nat): string {
    prefix + "-" + Decimal.Format(year) + "-" + Padded(n)
  }

  lemma {:induction false} FormatWidth(n: nat)
    ensures |Decimal.Format(n)| == if n < 10 then 1 else |Decimal.Format(n / 10)| + 1
    ensures n > 0 ==> Decimal.Format(n)[0] != '0'
  {
    if n >= 10 {
      FormatWidth(n / 10);
      assert Decimal.Format(n)[0] == Decimal.Format(n / 10)[0];
    }
  }

  /** Four digits, and more only where the number needs them. */
  lemma PaddedWidth(n: nat)
    ensures |Padded(n)| >= 4
    ensures n < 10000 <==> |Padded(n)| == 4
    ensures |Padded(n)| > 4 ==> Padded(n)[0] != '0'
  {
    FormatWidth(n);
    FormatWidth(n / 10);
    FormatWidth(n / 10 / 10);
    FormatWidth(n / 10 / 10 / 10);
    FormatWidth(n / 10 / 10 / 10 / 10);
  }

  /** Without a prefix of its own a club numbers its series FAC. */
  lemma PrefixMeans(configured: string)
    ensures Prefix(None) == "FAC" && Prefix(Some("")) == "FAC"
    ensures configured != "" ==> Prefix(Some(configured)) == configured
  {
  }

  lemma PaddedReads(n: nat)
    ensures PythonInt(Padded(n)) == Some(n) && Decimal.Parse(Padded(n)) == n
  {
    var numeral := Decimal.Format(n);
    Decimal.ParseFormat(n);
    if |numeral| < 4 { Decimal.ParseZeros(4 - |numeral|, numeral); }
    PlainDigits(Padded(n));
  }

  lemma {:induction false} PercentMatches(text: string)
    ensures LikeSearch.Matches(text, "%")
  {
    assert "%"[1..] == "";
    if text != "" { PercentMatches(text[1..]); }
  }

  /** A prefix without a backslash selects its own numbers, wildcards or not. */
  lemma {:induction false} PrefixSelectsItself(prefix: string, rest: string)
    requires '\\' !in prefix
    ensures LikeSearch.Matches(prefix + "-" + rest, prefix + "-%")
    decreases |prefix|
  {
    var text, pattern := prefix + "-" + rest, prefix + "-%";
    if prefix == "" {
      PercentMatches(rest);
      assert text[1..] == rest && pattern[1..] == "%";
    } else {
      PrefixSelectsItself(prefix[1..], rest);
      assert text[1..] == prefix[1..] + "-" + rest && pattern[1..] == prefix[1..] + "-%";
      if prefix[0] == '%' { PercentSkips(text, pattern); }
    }
  }

  lemma PercentSkips(text: string, pattern: string)
    requires pattern != "" && pattern[0] == '%' && text != "" && LikeSearch.Matches(text[1..], pattern[1..])
    ensures LikeSearch.Matches(text, pattern)
  {
    assert LikeSearch.Matches(text[1..], pattern);
  }

  lemma Cuts(prefix: string, year: string, sequence: string)
    requires Decimal.AllDigits(year) && Decimal.AllDigits(sequence)
    ensures LastDash(prefix + "-" + year + "-" + sequence) == Some((prefix + "-" + year, sequence))
    ensures LastDash(prefix + "-" + year) == Some((prefix, year))
  {
    LastDashCuts(prefix + "-" + year, sequence);
    LastDashCuts(prefix, year);
  }

  /** Both readers see what was written, however many dashes the prefix has. */
  lemma SeedReadsAsWritten(prefix: string, year: string, sequence: string)
    requires '\\' !in prefix
    requires year != "" && Decimal.AllDigits(year) && sequence != "" && Decimal.AllDigits(sequence)
    ensures SeedReading(prefix, prefix + "-" + year + "-" + sequence)
         == Some(Reading(Decimal.Parse(year), Decimal.Parse(sequence)))
  {
    assert LikeSearch.Matches(prefix + "-" + year + "-" + sequence, prefix + "-%") by {
      assert prefix + "-" + year + "-" + sequence == prefix + "-" + (year + "-" + sequence);
      PrefixSelectsItself(prefix, year + "-" + sequence);
    }
    Cuts(prefix, year, sequence);
    PlainDigits(year);
    PlainDigits(sequence);
  }

  lemma MigrationReadsAsWritten(prefix: string, year: string, sequence: string)
    requires |year| == 4 && Decimal.AllDigits(year) && sequence != "" && Decimal.AllDigits(sequence)
    ensures MigrationReading(prefix + "-" + year + "-" + sequence)
         == Some(Reading(Decimal.Parse(year), Decimal.Parse(sequence)))
  {
    Cuts(prefix, year, sequence);
    var before := prefix + "-" + year;
    assert before[|before| - 4..] == year;
  }

  /** The sync sees a drawn number exactly when the LIKE selects it. */
  predicate Selected(prefix: string, y: nat, n: nat) {
    LikeSearch.Matches(Issued(prefix, y, n), prefix + "-%")
  }

  lemma IssuedReads(prefix: string, y: nat, n: nat)
    ensures SeedReading(prefix, Issued(prefix, y, n)) == if Selected(prefix, y, n) then Some(Reading(y, n)) else None
  {
    Decimal.ParseFormat(y);
    PaddedReads(n);
    Cuts(prefix, Decimal.Format(y), Padded(n));
    PlainDigits(Decimal.Format(y));
    PlainDigits(Padded(n));
  }

  /** `n`, drawn from the synced counter of a year, is on a receipt already. */
  predicate Redrawn(prefix: string, numbers: seq<string>, years: map<nat, int>, y: nat, n: nat) {
    n >= Next(Synced(years, Highest(SeedReadings(prefix, numbers))), y) && Issued(prefix, y, n) in numbers
  }

  /** Whatever the prefix: a number can be drawn that a receipt already has
      exactly when the LIKE does not select that number. */
  lemma RedrawnIffUnselected(prefix: string, y: nat, n: nat)
    ensures (exists numbers, years :: Redrawn(prefix, numbers, years, y, n)) <==> !Selected(prefix, y, n)
  {
    IssuedReads(prefix, y, n);
    if Selected(prefix, y, n) {
      forall numbers, years ensures !Redrawn(prefix, numbers, years, y, n) {
        NotAmong(numbers, SeedReadings(prefix, numbers), Issued(prefix, y, n), Reading(y, n), years);
      }
    } else {
      Unseen(prefix, Issued(prefix, y, n));
      var years: map<nat, int> := map[y := if n == 0 then -1 else n];
      assert Synced(years, map[]) == years;
      assert Redrawn(prefix, [Issued(prefix, y, n)], years, y, n);
    }
  }

  lemma Unseen(prefix: string, number: string)
    requires SeedReading(prefix, number) == None
    ensures Highest(SeedReadings(prefix, [number])) == map[]
  {
    var readings := SeedReadings(prefix, [number]);
    assert readings[..0] == [] && readings[0] == None;
  }

  lemma DrawnNumberIsNew(prefix: string, numbers: seq<string>, years: map<nat, int>, y: nat, n: nat)
    requires '\\' !in prefix
    ensures !Redrawn(prefix, numbers, years, y, n)
  {
    PrefixSelectsItself(prefix, Decimal.Format(y) + "-" + Padded(n));
    assert Issued(prefix, y, n) == prefix + "-" + (Decimal.Format(y) + "-" + Padded(n));
    RedrawnIffUnselected(prefix, y, n);
  }

  /** `InvoicePrefix` as the settings API accepts it; unset, the sync reads FAC. */
  predicate Accepted(configured: Option<string>) {
    configured.None? || (1 <= |configured.value| <= 10 && forall i :: 0 <= i < |configured.value| ==> Alphanumeric(configured.value[i]))
  }

  predicate Alphanumeric(c: char) {
    'A' <= c <= 'Z' || 'a' <= c <= 'z' || '0' <= c <= '9'
  }

  /** With every prefix the API accepts, no number drawn after a sync is on a
      receipt: not from the counter of a year, and not, where numbering does not
      start over each year, from the club's. */
  lemma AcceptedPrefixDrawsNewNumbers(configured: Option<string>, numbers: seq<string>, years: map<nat, int>,
                                      before: Option<int>, after: Option<int>, y: nat, n: nat)
    requires Accepted(configured)
    requires CaughtUp(before, after, Highest(SeedReadings(Prefix(configured), numbers)))
    ensures !Redrawn(Prefix(configured), numbers, years, y, n)
    ensures n >= OrOne(after) ==> Issued(Prefix(configured), y, n) !in numbers
  {
    assert '\\' !in Prefix(configured);
    DrawnNumberIsNew(Prefix(configured), numbers, years, y, n);
    ClubDrawnNumberIsNew(Prefix(configured), numbers, before, after, y, n);
  }

  /** A number at or past the club's counter is new in whichever year it is drawn. */
  lemma ClubDrawnNumberIsNew(prefix: string, numbers: seq<string>, before: Option<int>, after: Option<int>, y: nat, n: nat)
    requires '\\' !in prefix && CaughtUp(before, after, Highest(SeedReadings(prefix, numbers)))
    ensures n >= OrOne(after) ==> Issued(prefix, y, n) !in numbers
  {
    PrefixSelectsItself(prefix, Decimal.Format(y) + "-" + Padded(n));
    assert Issued(prefix, y, n) == prefix + "-" + (Decimal.Format(y) + "-" + Padded(n));
    IssuedReads(prefix, y, n);
    BelowClubCounter(numbers, SeedReadings(prefix, numbers), Issued(prefix, y, n), Reading(y, n), before, after);
  }

  lemma BelowClubCounter(numbers: seq<string>, readings: seq<Option<Reading>>, number: string, r: Reading,
                         before: Option<int>, after: Option<int>)
    requires |readings| == |numbers| && forall i :: 0 <= i < |numbers| && numbers[i] == number ==> readings[i] == Some(r)
    requires CaughtUp(before, after, Highest(readings))
    ensures r.sequence >= OrOne(after) ==> number !in numbers
  {
    HighestMeans(readings, r.year);
    ClubCounterMovesPast(before, after, after, Highest(readings));
    assert forall i :: 0 <= i < |numbers| && numbers[i] == number ==> readings[i].Some? && r.sequence <= Highest(readings)[r.year];
  }

  lemma NotAmong(numbers: seq<string>, readings: seq<Option<Reading>>, number: string, r: Reading, years: map<nat, int>)
    requires |readings| == |numbers| && forall i :: 0 <= i < |numbers| && numbers[i] == number ==> readings[i] == Some(r)
    ensures r.sequence >= Next(Synced(years, Highest(readings)), r.year) ==> number !in numbers
  {
    HighestMeans(readings, r.year);
    SyncMovesPast(years, Highest(readings), r.year);
    assert forall i :: 0 <= i < |numbers| && numbers[i] == number ==> readings[i].Some? && r.sequence <= Highest(readings)[r.year];
  }

  predicate Lag(s: string) {
    forall i :: 0 <= i < |s| ==> s[i] == '\\' || s[i] == '_'
  }

  /** Behind a backslash the pattern runs ahead of the text and never comes back:
      `lag` is what it still has to match of the prefix's own characters. */
  lemma {:induction false} LagsForever(lag: string, ahead: string, rest: string)
    requires lag != "" && Lag(lag) && '%' !in ahead
    ensures !LikeSearch.Matches(lag + ahead + "-" + rest, ahead + "-%")
    decreases |ahead|
  {
    var text, pattern := lag + ahead + "-" + rest, ahead + "-%";
    assert text[0] == lag[0];
    if ahead == "" {
      assert pattern[0] == '-' && Lag(lag);
    } else if ahead[0] == '_' {
      LagsForever(lag[1..] + "_", ahead[1..], rest);
      assert text[1..] == lag[1..] + "_" + ahead[1..] + "-" + rest;
      assert pattern[1..] == ahead[1..] + "-%";
    } else if ahead[0] == '\\' && |ahead| >= 2 && ahead[1] == lag[0] {
      LagsForever(lag[1..] + ahead[..2], ahead[2..], rest);
      assert text[1..] == lag[1..] + ahead[..2] + ahead[2..] + "-" + rest;
      assert pattern[2..] == ahead[2..] + "-%";
    }
  }

  lemma {:induction false} BackslashHidesItself(prefix: string, rest: string)
    requires '%' !in prefix && '\\' in prefix
    ensures !LikeSearch.Matches(prefix + "-" + rest, prefix + "-%")
    decreases |prefix|
  {
    var text, pattern := prefix + "-" + rest, prefix + "-%";
    assert text[0] == prefix[0] == pattern[0];
    if prefix[0] != '\\' {
      BackslashHidesItself(prefix[1..], rest);
      assert text[1..] == prefix[1..] + "-" + rest && pattern[1..] == prefix[1..] + "-%";
    } else if |prefix| >= 2 && prefix[1] == '\\' {
      LagsForever("\\", prefix[2..], rest);
      assert text[1..] == "\\" + prefix[2..] + "-" + rest;
      assert pattern[2..] == prefix[2..] + "-%";
    }
  }

  /** Without a `%` in it, a prefix keeps every drawn number new exactly when it
      has no backslash either: the LIKE that reads the series back is unescaped. */
  lemma DrawnNumbersAreNewIff(prefix: string)
    requires '%' !in prefix
    ensures '\\' !in prefix <==> forall numbers, years, y, n :: !Redrawn(prefix, numbers, years, y, n)
  {
    if '\\' in prefix {
      BackslashHidesItself(prefix, Decimal.Format(2026) + "-" + Padded(1));
      assert Issued(prefix, 2026, 1) == prefix + "-" + (Decimal.Format(2026) + "-" + Padded(1));
      RedrawnIffUnselected(prefix, 2026, 1);
    } else {
      forall numbers, years, y, n ensures !Redrawn(prefix, numbers, years, y, n) {
        DrawnNumberIsNew(prefix, numbers, years, y, n);
      }
    }
  }

  // ---- The seed and the migration agree ----

  /** A prefix, a four-digit year and a sequence number, whatever the prefix. */
  ghost predicate InSeries(prefix: string, number: string) {
    exists year, sequence ::
      |year| == 4 && Decimal.AllDigits(year) && sequence != "" && Decimal.AllDigits(sequence)
      && number == prefix + "-" + year + "-" + sequence
  }

  lemma SeedAndMigrationAgree(prefix: string, numbers: seq<string>)
    requires '\\' !in prefix && forall i :: 0 <= i < |numbers| ==> InSeries(prefix, numbers[i])
    ensures MigrationReadings(numbers) == SeedReadings(prefix, numbers)
    ensures Synced(map[], Highest(SeedReadings(prefix, numbers)))
         == map y | y in Highest(MigrationReadings(numbers)) :: Highest(MigrationReadings(numbers))[y] + 1
  {
    forall i | 0 <= i < |numbers| ensures MigrationReading(numbers[i]) == SeedReading(prefix, numbers[i]) {
      var year, sequence :| |year| == 4 && Decimal.AllDigits(year) && sequence != "" && Decimal.AllDigits(sequence)
        && numbers[i] == prefix + "-" + year + "-" + sequence;
      SeedReadsAsWritten(prefix, year, sequence);
      MigrationReadsAsWritten(prefix, year, sequence);
    }
    assert MigrationReadings(numbers) == SeedReadings(prefix, numbers);
  }

  // ---- Member numbers ----

  function MemberReading(value: Option<string>): Option<nat> {
    if value.None? || !LikeSearch.Matches(value.value, "M-%") then None
    else
      var digits := if |value.value| < 2 then "" else value.value[2..];
      if digits != "" && Decimal.AllDigits(digits) then Some(Decimal.Parse(digits)) else None
  }

  /** Read are exactly `M-` and digits, of any length. */
  lemma MemberReadingMeans(value: string)
    ensures MemberReading(Some(value)).Some? <==>
      |value| >= 3 && value[0] == 'M' && value[1] == '-' && Decimal.AllDigits(value[2..])
    ensures MemberReading(Some(value)).Some? ==> MemberReading(Some(value)) == Some(Decimal.Parse(value[2..]))
    ensures MemberReading(None) == None
  {
    StartsWithM(value);
  }

  lemma StartsWithM(value: string)
    ensures LikeSearch.Matches(value, "M-%") <==> |value| >= 2 && value[0] == 'M' && value[1] == '-'
  {
    assert "M-%"[1..] == "-%" && "-%"[1..] == "%";
    if |value| >= 2 {
      PercentMatches(value[2..]);
      assert value[1..][1..] == value[2..];
    }
  }

  /** One past the highest `M-` number held, and so never one already held. */
  method NextMemberNumber(values: seq<Option<string>>) returns (number: string)
    ensures Some(number) !in values
    ensures MemberReading(Some(number)).Some?
    ensures var n := MemberReading(Some(number)).value;
      && (forall i :: 0 <= i < |values| && MemberReading(values[i]).Some? ==> MemberReading(values[i]).value < n)
      && (if exists i :: 0 <= i < |values| && MemberReading(values[i]).Some?
          then exists i :: 0 <= i < |values| && MemberReading(values[i]) == Some(n - 1)
          else n == 1)
  {
    var highest: Option<nat> := None;
    for i := 0 to |values|
      invariant highest.None? <==> forall j :: 0 <= j < i ==> MemberReading(values[j]).None?
      invariant highest.Some? ==> exists j :: 0 <= j < i && MemberReading(values[j]) == highest
      invariant forall j :: 0 <= j < i && MemberReading(values[j]).Some? ==> MemberReading(values[j]).value <= highest.value
    {
      var n := MemberReading(values[i]);
      if n.Some? && (highest.None? || n.value > highest.value) { highest := n; }
    }
    var next := if highest.None? then 1 else highest.value + 1;
    MemberNumberReads(next);
    return "M-" + Padded(next);
  }

  lemma MemberNumberReads(n: nat)
    ensures MemberReading(Some("M-" + Padded(n))) == Some(n)
  {
    var number := "M-" + Padded(n);
    PrefixSelectsItself("M", Padded(n));
    assert "M" + "-" + Padded(n) == number && "M" + "-%" == "M-%";
    assert number[2..] == Padded(n);
    PaddedReads(n);
  }
}
