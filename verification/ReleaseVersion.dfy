/** Calendar release versions: YYYY.M.D, YYYY.M.D-beta.N and YYYY.M.D-N. */
module ReleaseVersion {
  import opened Wrappers
  import opened Decimal
  import opened Calendar

  // ---- trimming --------------------------------------------------------------------------------

  /** What `String.prototype.trim` removes: white space and line terminators. */
  predicate IsBlank(c: char) {
    '\U{0009}' <= c <= '\U{000D}' || c == ' ' || c == '\U{00A0}' || c == '\U{1680}' ||
    '\U{2000}' <= c <= '\U{200A}' || c == '\U{2028}' || c == '\U{2029}' || c == '\U{202F}' ||
    c == '\U{205F}' || c == '\U{3000}' || c == '\U{FEFF}'
  }

  function TrimStart(s: string): string {
    if s != "" && IsBlank(s[0]) then TrimStart(s[1..]) else s
  }

  function TrimEnd(s: string): string {
    if s != "" && IsBlank(s[|s| - 1]) then TrimEnd(s[..|s| - 1]) else s
  }

  function Trim(s: string): string {
    TrimEnd(TrimStart(s))
  }

  // ---- the patterns ----------------------------------------------------------------------------

  function DigitRun(s: string): (n: nat)
    ensures n <= |s| && AllDigits(s[..n]) && (n < |s| ==> !IsDigit(s[n]))
  {
    if s == "" || !IsDigit(s[0]) then 0
    else
      var n := 1 + DigitRun(s[1..]);
      assert s[..n] == [s[0]] + s[1..][..n - 1];
      n
  }

  lemma {:induction false} RunOf(digits: string, rest: string)
    requires AllDigits(digits) && (rest != "" ==> !IsDigit(rest[0]))
    ensures DigitRun(digits + rest) == |digits|
  {
    if digits == "" {
      assert digits + rest == rest;
    } else {
      assert (digits + rest)[1..] == digits[1..] + rest;
      RunOf(digits[1..], rest);
    }
  }

  /** A run of digits up to a dot, and what follows the dot. */
  datatype Field = Field(digits: string, after: string)

  function ReadField(s: string): (r: Option<Field>)
    ensures r.Some? ==> AllDigits(r.value.digits) && s == r.value.digits + "." + r.value.after
  {
    var n := DigitRun(s);
    if n < |s| && s[n] == '.' then Some(Field(s[..n], s[n + 1..])) else None
  }

  lemma ReadFieldComplete(digits: string, after: string)
    requires AllDigits(digits)
    ensures ReadField(digits + "." + after) == Some(Field(digits, after))
  {
    var s, tail := digits + "." + after, "." + after;
    assert s == digits + tail;
    RunOf(digits, tail);
    assert s[..|digits|] == digits && s[|digits| + 1..] == after;
  }

  datatype DateMatch = DateMatch(year: string, month: string, day: string, rest: string)

  /** One or two digits; a release version allows no leading zero in them. */
  predicate OneOrTwo(s: string, zeros: bool) {
    1 <= |s| <= 2 && AllDigits(s) && (zeros || s[0] != '0')
  }

  /** The parts of a date as the patterns allow them. */
  predicate PartsOk(m: DateMatch, zeros: bool) {
    |m.year| == 4 && AllDigits(m.year) && OneOrTwo(m.month, zeros) && OneOrTwo(m.day, zeros) &&
    (m.rest != "" ==> !IsDigit(m.rest[0]))
  }

  function AfterMonth(m: DateMatch): string {
    m.day + m.rest
  }

  function AfterYear(m: DateMatch): string {
    m.month + "." + AfterMonth(m)
  }

  /** The common head of the patterns: four digits, a dot, one or two digits, a dot, one or two digits,
      the last run not followed by another digit. */
  predicate HasDate(s: string, m: DateMatch, zeros: bool) {
    s == m.year + "." + AfterYear(m) && PartsOk(m, zeros)
  }

  function MatchDate(s: string, zeros: bool): (r: Option<DateMatch>)
    ensures r.Some? ==> HasDate(s, r.value, zeros)
  {
    var year := ReadField(s);
    if year.None? || |year.value.digits| != 4 then None
    else
      var month := ReadField(year.value.after);
      if month.None? || !OneOrTwo(month.value.digits, zeros) then None
      else MatchDay(year.value.digits, month.value.digits, month.value.after, zeros)
  }

  function MatchDay(year: string, month: string, s: string, zeros: bool): (r: Option<DateMatch>)
    ensures r.Some? ==> r.value.year == year && r.value.month == month && AfterMonth(r.value) == s &&
                        OneOrTwo(r.value.day, zeros) && (r.value.rest != "" ==> !IsDigit(r.value.rest[0]))
  {
    var n := DigitRun(s);
    if OneOrTwo(s[..n], zeros) then
      assert s[..n] + s[n..] == s;
      Some(DateMatch(year, month, s[..n], s[n..]))
    else None
  }

  /** The matcher finds the date whenever the pattern allows one, and there is only one way to read it. */
  lemma MatchDateComplete(s: string, m: DateMatch, zeros: bool)
    requires HasDate(s, m, zeros)
    ensures MatchDate(s, zeros) == Some(m)
  {
    ReadFieldComplete(m.year, AfterYear(m));
    ReadFieldComplete(m.month, AfterMonth(m));
    MatchDayComplete(m, zeros);
  }

  lemma MatchDayComplete(m: DateMatch, zeros: bool)
    requires PartsOk(m, zeros)
    ensures MatchDay(m.year, m.month, AfterMonth(m), zeros) == Some(m)
  {
    RunOf(m.day, m.rest);
    assert AfterMonth(m)[..|m.day|] == m.day && AfterMonth(m)[|m.day|..] == m.rest;
  }

  datatype Suffix = Plain | Beta(digits: string) | Correction(digits: string) | Unsupported

  function ReadSuffix(rest: string): Suffix {
    if rest == "" then Plain
    else if |rest| > 6 && rest[..6] == "-beta." && NoLeadingZero(rest[6..]) then Beta(rest[6..])
    else if |rest| > 1 && rest[..1] == "-" && NoLeadingZero(rest[1..]) then Correction(rest[1..])
    else Unsupported
  }

  function WriteSuffix(x: Suffix): string
    requires !x.Unsupported?
  {
    match x
    case Plain => ""
    case Beta(digits) => "-beta." + digits
    case Correction(digits) => "-" + digits
  }

  lemma SuffixReadsBack(rest: string)
    ensures !ReadSuffix(rest).Unsupported? ==> WriteSuffix(ReadSuffix(rest)) == rest
  {
    if |rest| > 6 { assert rest == rest[..6] + rest[6..]; }
    if |rest| > 1 { assert rest == rest[..1] + rest[1..]; }
  }

  // ---- parsing ---------------------------------------------------------------------------------

  datatype Channel = StableChannel | BetaChannel

  datatype Parsed = Parsed(
    version: string, baseVersion: string, channel: Channel, year: nat, month: nat, day: nat,
    betaNumber: Option<nat>, correctionNumber: Option<nat>, time: int)

  lemma SmallNumber(s: string)
    requires AllDigits(s) && |s| <= 4
    ensures Value(s) < 10_000 && ParseInt(s) == Some(Value(s))
  {
    ValueBelow(s);
    Pow10Grows(|s|, 4);
    assert Pow10(4) == 10_000;
    ReadsExactly(s);
  }

  datatype DateValue = DateValue(year: nat, month: nat, day: nat, time: int)

  /** Numbers in range, and a date that survives being built and read back. */
  function DateFrom(year: nat, month: nat, day: nat): Option<DateValue> {
    if month < 1 || month > 12 || day < 1 || day > 31 then None
    else
      var time := DateUTC(year, month - 1, day);
      ReadsBackExactly(year, month - 1, day);
      if Read(time) != Ymd(year, month - 1, day) then None else Some(DateValue(year, month, day, time))
  }

  /** The date is accepted exactly when the calendar has it and its year is at least 100. */
  lemma DateFromExactly(year: nat, month: nat, day: nat)
    ensures DateFrom(year, month, day) ==
            if year >= 100 && Exists(year, month - 1, day)
            then Some(DateValue(year, month, day, MakeDay(year, month - 1, day) * MS_PER_DAY)) else None
  {
    if 1 <= month <= 12 && 1 <= day <= 31 { ReadsBackExactly(year, month - 1, day); }
  }

  function ReadDate(m: DateMatch): Option<DateValue>
    requires AllDigits(m.year) && AllDigits(m.month) && AllDigits(m.day)
    requires |m.year| == 4 && |m.month| <= 2 && |m.day| <= 2
  {
    SmallNumber(m.year);
    SmallNumber(m.month);
    SmallNumber(m.day);
    DateFrom(ParseInt(m.year).value, ParseInt(m.month).value, ParseInt(m.day).value)
  }

  lemma ReadDateExactly(m: DateMatch)
    requires PartsOk(m, false)
    ensures Value(m.year) <= 9999 && ReadDate(m) == DateFrom(Value(m.year), Value(m.month), Value(m.day))
  {
    SmallNumber(m.year);
    SmallNumber(m.month);
    SmallNumber(m.day);
  }

  /** A counter must be a finite number of at least one. */
  function ReadCounter(digits: string): Option<nat>
    requires AllDigits(digits)
  {
    var n := ParseInt(digits);
    if n.None? || n.value < 1 then None else n
  }

  /** The numbers of a date, joined by dots. */
  function BaseVersion(year: nat, month: nat, day: nat): string {
    Print(year) + "." + Print(month) + "." + Print(day)
  }

  /** The three patterns; each failed check makes the version unsupported. */
  function ParseParts(version: string, m: DateMatch, x: Suffix): Option<Parsed>
    requires PartsOk(m, false) && (x.Beta? || x.Correction? ==> AllDigits(x.digits))
  {
    var date := ReadDate(m);
    if date.None? || x.Unsupported? then None
    else
      var DateValue(year, month, day, time) := date.value;
      var base := BaseVersion(year, month, day);
      if x.Plain? then Some(Parsed(version, base, StableChannel, year, month, day, None, None, time))
      else
        var counter := ReadCounter(x.digits);
        if counter.None? then None
        else if x.Beta? then Some(Parsed(version, base, BetaChannel, year, month, day, counter, None, time))
        else Some(Parsed(version, base, StableChannel, year, month, day, None, counter, time))
  }

  function ParseReleaseVersion(version: string): Option<Parsed> {
    var trimmed := Trim(version);
    var m := MatchDate(trimmed, false);
    if m.None? then None else ParseParts(trimmed, m.value, ReadSuffix(m.value.rest))
  }

  /** The calendar part of a parsed version. */
  ghost predicate Dated(p: Parsed) {
    100 <= p.year <= 9999 && Exists(p.year, p.month - 1, p.day) &&
    p.time == MakeDay(p.year, p.month - 1, p.day) * MS_PER_DAY
  }

  /** What a parsed version is, field by field, in terms of its text. */
  ghost predicate Describes(trimmed: string, p: Parsed, m: DateMatch, x: Suffix) {
    HasDate(trimmed, m, false) && !x.Unsupported? && m.rest == WriteSuffix(x) && x == ReadSuffix(m.rest) &&
    p.version == trimmed && p.baseVersion == BaseVersion(p.year, p.month, p.day) && p.year == Value(m.year) && p.month == Value(m.month) && p.day == Value(m.day) &&
    p.channel == (if x.Beta? then BetaChannel else StableChannel) && Counter(p) == CounterOf(x) &&
    (!x.Plain? ==> CounterOf(x) >= 1) && (p.correctionNumber.Some? <==> x.Correction?) && Dated(p)
  }

  function OrZero(n: Option<nat>): nat {
    if n.None? then 0 else n.value
  }

  /** The counter that decides between versions of one day and channel. */
  function Counter(p: Parsed): nat {
    if p.channel == BetaChannel then OrZero(p.betaNumber) else OrZero(p.correctionNumber)
  }

  /** The counter a suffix writes, as a double. */
  function CounterOf(x: Suffix): nat {
    if x.Beta? && AllDigits(x.digits) then OrZero(ParseInt(x.digits))
    else if x.Correction? && AllDigits(x.digits) then OrZero(ParseInt(x.digits))
    else 0
  }

  lemma PartsDescribe(version: string, m: DateMatch, x: Suffix, p: Parsed)
    requires PartsOk(m, false) && (x.Beta? || x.Correction? ==> NoLeadingZero(x.digits))
    requires ParseParts(version, m, x) == Some(p)
    ensures Dated(p) && p.version == version && !x.Unsupported? && p.baseVersion == BaseVersion(p.year, p.month, p.day)
    ensures p.year == Value(m.year) && p.month == Value(m.month) && p.day == Value(m.day)
    ensures p.channel == (if x.Beta? then BetaChannel else StableChannel)
    ensures p.correctionNumber.Some? <==> x.Correction?
    ensures Counter(p) == CounterOf(x) && (!x.Plain? ==> CounterOf(x) >= 1)
  {
    DateDescribes(m);
    CounterDescribes(x);
  }

  lemma DateDescribes(m: DateMatch)
    requires PartsOk(m, false) && ReadDate(m).Some?
    ensures var d := ReadDate(m).value;
            d.year == Value(m.year) && d.month == Value(m.month) && d.day == Value(m.day) &&
            100 <= d.year <= 9999 && Exists(d.year, d.month - 1, d.day) &&
            d.time == MakeDay(d.year, d.month - 1, d.day) * MS_PER_DAY
  {
    ReadDateExactly(m);
    DateFromExactly(Value(m.year), Value(m.month), Value(m.day));
  }

  lemma CounterDescribes(x: Suffix)
    requires x.Beta? || x.Correction? ==> AllDigits(x.digits) && ReadCounter(x.digits).Some?
    ensures x.Beta? || x.Correction? ==> ReadCounter(x.digits) == Some(CounterOf(x)) && CounterOf(x) >= 1
    ensures x.Plain? ==> CounterOf(x) == 0
  {
  }

  lemma MatchedDescribes(trimmed: string, m: DateMatch, x: Suffix, p: Parsed)
    requires HasDate(trimmed, m, false) && x == ReadSuffix(m.rest) && ParseParts(trimmed, m, x) == Some(p)
    ensures Describes(trimmed, p, m, x)
  {
    SuffixReadsBack(m.rest);
    PartsDescribe(trimmed, m, x, p);
  }

  lemma ParsedDescribes(version: string, p: Parsed) returns (m: DateMatch, x: Suffix)
    requires ParseReleaseVersion(version) == Some(p)
    ensures Describes(Trim(version), p, m, x)
  {
    m := MatchDate(Trim(version), false).value;
    x := ReadSuffix(m.rest);
    MatchedDescribes(Trim(version), m, x, p);
  }

  lemma PrintsBack(s: string)
    requires NoLeadingZero(s)
    ensures Print(Value(s)) == s
  {
    ValueAtLeast(s);
    PrintNoZero(Value(s));
    OneSpelling(Print(Value(s)), s);
  }

  lemma {:induction false} PrintNoZero(n: nat)
    requires n >= 1
    ensures NoLeadingZero(Print(n))
  {
    if n < 10 {
      assert DigitValue(Digit(n)) == n;
    } else {
      PrintNoZero(n / 10);
    }
  }

  lemma NoZeroFromThousand(s: string)
    requires AllDigits(s) && |s| == 4
    ensures Value(s) >= 1000 <==> NoLeadingZero(s)
  {
    if NoLeadingZero(s) {
      ValueAtLeast(s);
      assert Pow10(3) == 1000;
    } else {
      ValueAppend(s[..1], s[1..]);
      assert s == s[..1] + s[1..] && s[..1][..0] == "";
      ValueBelow(s[1..]);
      assert Pow10(3) == 1000;
    }
  }

  /** From year 1000 on, and only then, the base version is the text without its suffix: below that the
      year loses its leading zero. */
  lemma BaseVersionIsPrefix(version: string, p: Parsed) returns (m: DateMatch, x: Suffix)
    requires ParseReleaseVersion(version) == Some(p)
    ensures Describes(Trim(version), p, m, x)
    ensures Trim(version) == p.baseVersion + WriteSuffix(x) <==> p.year >= 1000
  {
    m, x := ParsedDescribes(version, p);
    PrintsBack(m.month);
    PrintsBack(m.day);
    NoZeroFromThousand(m.year);
    JoinedText(m, p.baseVersion, Print(p.year));
    if p.year >= 1000 {
      PrintsBack(m.year);
    } else {
      PrintNoZero(p.year);
    }
  }

  lemma JoinedText(m: DateMatch, base: string, year: string)
    requires base == year + "." + m.month + "." + m.day
    ensures m.year + "." + AfterYear(m) == base + m.rest <==> m.year == year
  {
    var tail := "." + AfterYear(m);
    assert base + m.rest == year + tail;
    assert m.year + "." + AfterYear(m) == m.year + tail;
    if m.year + tail == year + tail {
      assert |m.year| == |year|;
      assert m.year == (m.year + tail)[..|m.year|] && year == (year + tail)[..|year|];
    }
  }

  /** The texts the parser accepts: an existing date from year 100 on and a finite counter. */
  ghost predicate Acceptable(trimmed: string, m: DateMatch, x: Suffix) {
    HasDate(trimmed, m, false) && !x.Unsupported? && m.rest == WriteSuffix(x) &&
    (!x.Plain? ==> NoLeadingZero(x.digits) && ParseInt(x.digits).Some?) &&
    Value(m.year) >= 100 && Exists(Value(m.year), Value(m.month) - 1, Value(m.day))
  }

  lemma WrittenSuffixReads(x: Suffix)
    requires !x.Unsupported? && (!x.Plain? ==> NoLeadingZero(x.digits))
    ensures ReadSuffix(WriteSuffix(x)) == x
  {
    var rest := WriteSuffix(x);
    if x.Beta? {
      assert rest[..6] == "-beta." && rest[6..] == x.digits;
    } else if x.Correction? {
      assert rest[..1] == "-" && rest[1..] == x.digits && rest[1] == x.digits[0];
      assert "-beta."[1] == 'b' && (|rest| > 6 ==> rest[..6][1] == rest[1]);
    }
  }

  lemma PositiveCounter(digits: string)
    requires NoLeadingZero(digits) && ParseInt(digits).Some?
    ensures ParseInt(digits).value >= 1
  {
    ValueAtLeast(digits);
    RoundIsExactBelow(Value(digits));
  }

  lemma PartsParse(version: string, m: DateMatch, x: Suffix)
    requires PartsOk(m, false) && !x.Unsupported? && (!x.Plain? ==> NoLeadingZero(x.digits) && ParseInt(x.digits).Some?)
    requires Value(m.year) >= 100 && Exists(Value(m.year), Value(m.month) - 1, Value(m.day))
    ensures ParseParts(version, m, x).Some?
  {
    ReadDateExactly(m);
    DateFromExactly(Value(m.year), Value(m.month), Value(m.day));
    if !x.Plain? { PositiveCounter(x.digits); }
  }

  lemma AcceptableParses(version: string, m: DateMatch, x: Suffix)
    requires Acceptable(Trim(version), m, x)
    ensures ParseReleaseVersion(version).Some?
  {
    MatchDateComplete(Trim(version), m, false);
    WrittenSuffixReads(x);
    PartsParse(Trim(version), m, x);
  }

  lemma DescribedIsAcceptable(trimmed: string, p: Parsed, m: DateMatch, x: Suffix)
    requires Describes(trimmed, p, m, x)
    ensures Acceptable(trimmed, m, x)
  {
  }

  lemma ParsedIsAcceptable(version: string, p: Parsed)
    requires ParseReleaseVersion(version) == Some(p)
    ensures exists m, x :: Acceptable(Trim(version), m, x)
  {
    var m, x := ParsedDescribes(version, p);
    DescribedIsAcceptable(Trim(version), p, m, x);
  }

  /** The parser accepts exactly those texts. */
  lemma AcceptsExactly(version: string)
    ensures ParseReleaseVersion(version).Some? <==> exists m, x :: Acceptable(Trim(version), m, x)
  {
    if ParseReleaseVersion(version).Some? {
      ParsedIsAcceptable(version, ParseReleaseVersion(version).value);
    }
    forall m, x | Acceptable(Trim(version), m, x) ensures ParseReleaseVersion(version).Some? {
      AcceptableParses(version, m, x);
    }
  }

  // ---- comparison ------------------------------------------------------------------------------

  function Sign(n: int): int {
    if n > 0 then 1 else if n < 0 then -1 else 0
  }

  function CompareParsed(l: Parsed, r: Parsed): int {
    var dateDelta := l.time - r.time;
    if dateDelta != 0 then Sign(dateDelta)
    else if l.channel != r.channel then if l.channel == StableChannel then 1 else -1
    else if l.channel == BetaChannel && r.channel == BetaChannel then Sign(OrZero(l.betaNumber) - OrZero(r.betaNumber))
    else Sign(OrZero(l.correctionNumber) - OrZero(r.correctionNumber))
  }

  function CompareReleaseVersions(left: string, right: string): Option<int> {
    var l, r := ParseReleaseVersion(left), ParseReleaseVersion(right);
    if l.None? || r.None? then None else Some(CompareParsed(l.value, r.value))
  }

  function Rank(c: Channel): int {
    if c == StableChannel then 1 else 0
  }

  function DateOf(p: Parsed): Ymd {
    Ymd(p.year, p.month, p.day)
  }

  /** Lexicographic: calendar date, then beta below stable, then the counter. */
  ghost predicate Precedes(l: Parsed, r: Parsed) {
    Before(DateOf(l), DateOf(r)) ||
    (DateOf(l) == DateOf(r) &&
     (Rank(l.channel) < Rank(r.channel) || (l.channel == r.channel && Counter(l) < Counter(r))))
  }

  ghost predicate SameRank(l: Parsed, r: Parsed) {
    DateOf(l) == DateOf(r) && l.channel == r.channel && Counter(l) == Counter(r)
  }

  lemma TimesOrderDates(l: Parsed, r: Parsed)
    requires Dated(l) && Dated(r)
    ensures l.time < r.time <==> Before(DateOf(l), DateOf(r))
    ensures l.time == r.time <==> DateOf(l) == DateOf(r)
  {
    DaysOrderDates(Ymd(l.year, l.month - 1, l.day), Ymd(r.year, r.month - 1, r.day));
  }

  lemma CompareDated(l: Parsed, r: Parsed)
    requires Dated(l) && Dated(r)
    ensures CompareParsed(l, r) == if Precedes(l, r) then -1 else if SameRank(l, r) then 0 else 1
    ensures Precedes(r, l) <==> !Precedes(l, r) && !SameRank(l, r)
  {
    TimesOrderDates(l, r);
    TimesOrderDates(r, l);
  }

  /** The comparison of time values is the lexicographic order of what was written. */
  lemma ComparesLexicographically(left: string, right: string, l: Parsed, r: Parsed)
    requires ParseReleaseVersion(left) == Some(l) && ParseReleaseVersion(right) == Some(r)
    ensures CompareReleaseVersions(left, right) ==
            Some(if Precedes(l, r) then -1 else if SameRank(l, r) then 0 else 1)
    ensures Precedes(r, l) <==> !Precedes(l, r) && !SameRank(l, r)
  {
    var m, x := ParsedDescribes(left, l);
    var n, y := ParsedDescribes(right, r);
    CompareDated(l, r);
  }

  lemma PrecedesTransitive(a: Parsed, b: Parsed, c: Parsed)
    requires (Precedes(a, b) || SameRank(a, b)) && (Precedes(b, c) || SameRank(b, c))
    ensures Precedes(a, c) || SameRank(a, c)
    ensures Precedes(a, b) || Precedes(b, c) ==> Precedes(a, c)
  {
  }

  /** Comparable exactly when both parse; antisymmetric; transitive. */
  lemma TotalOrder(a: string, b: string, c: string)
    ensures CompareReleaseVersions(a, b).Some? <==> ParseReleaseVersion(a).Some? && ParseReleaseVersion(b).Some?
    ensures CompareReleaseVersions(a, b).Some? ==>
              CompareReleaseVersions(b, a) == Some(-CompareReleaseVersions(a, b).value)
    ensures CompareReleaseVersions(a, b).Some? && CompareReleaseVersions(b, c).Some? &&
            CompareReleaseVersions(a, b).value <= 0 && CompareReleaseVersions(b, c).value <= 0 ==>
              CompareReleaseVersions(a, c).Some? && CompareReleaseVersions(a, c).value <= 0 &&
              (CompareReleaseVersions(a, c).value == 0 ==>
                 CompareReleaseVersions(a, b).value == 0 && CompareReleaseVersions(b, c).value == 0)
  {
    var p, q, r := ParseReleaseVersion(a), ParseReleaseVersion(b), ParseReleaseVersion(c);
    if p.Some? && q.Some? {
      ComparesLexicographically(a, b, p.value, q.value);
      ComparesLexicographically(b, a, q.value, p.value);
      if r.Some? {
        ComparesLexicographically(b, c, q.value, r.value);
        ComparesLexicographically(a, c, p.value, r.value);
        if (Precedes(p.value, q.value) || SameRank(p.value, q.value)) &&
           (Precedes(q.value, r.value) || SameRank(q.value, r.value)) {
          PrecedesTransitive(p.value, q.value, r.value);
        }
      }
    }
  }

  // ---- equality --------------------------------------------------------------------------------

  /** The date pattern and the suffix of a version's text. */
  function TextOf(version: string): (DateMatch, Suffix) {
    var m := MatchDate(Trim(version), false);
    if m.None? then (DateMatch("", "", "", ""), Unsupported) else (m.value, ReadSuffix(m.value.rest))
  }

  /** The beta or correction number, if any, is written with a value below 2^53. */
  predicate ExactCounter(x: Suffix) {
    (x.Beta? || x.Correction?) ==> NoLeadingZero(x.digits) && Value(x.digits) < EXACT
  }

  lemma SameDateText(m: DateMatch, n: DateMatch)
    requires PartsOk(m, false) && PartsOk(n, false)
    requires Value(m.year) == Value(n.year) && Value(m.month) == Value(n.month) && Value(m.day) == Value(n.day)
    ensures m.year == n.year && m.month == n.month && m.day == n.day
  {
    ValueInjective(m.year, n.year);
    OneSpelling(m.month, n.month);
    OneSpelling(m.day, n.day);
  }

  lemma ExactCounterOf(x: Suffix)
    requires ExactCounter(x)
    ensures CounterOf(x) == if x.Beta? || x.Correction? then Value(x.digits) else 0
    ensures x.Beta? || x.Correction? ==> Value(x.digits) >= 1
  {
    if x.Beta? || x.Correction? {
      ReadsExactly(x.digits);
      ValueAtLeast(x.digits);
    }
  }

  lemma SameCounterText(x: Suffix, y: Suffix)
    requires !x.Unsupported? && !y.Unsupported? && ExactCounter(x) && ExactCounter(y)
    requires (x.Beta? <==> y.Beta?) && CounterOf(x) == CounterOf(y)
    ensures x == y
  {
    ExactCounterOf(x);
    ExactCounterOf(y);
    if !x.Plain? && !y.Plain? { OneSpelling(x.digits, y.digits); }
  }

  lemma DescribedText(version: string, p: Parsed)
    requires ParseReleaseVersion(version) == Some(p)
    ensures Describes(Trim(version), p, TextOf(version).0, TextOf(version).1)
  {
    var m, x := ParsedDescribes(version, p);
    MatchDateComplete(Trim(version), m, false);
  }

  /** Equality means the same date and channel and counters that read as the same double. */
  lemma EqualUpToRounding(left: string, right: string, l: Parsed, r: Parsed)
    requires ParseReleaseVersion(left) == Some(l) && ParseReleaseVersion(right) == Some(r)
    ensures CompareReleaseVersions(left, right) == Some(0) <==>
            DateOf(l) == DateOf(r) && (TextOf(left).1.Beta? <==> TextOf(right).1.Beta?) &&
            CounterOf(TextOf(left).1) == CounterOf(TextOf(right).1)
  {
    ComparesLexicographically(left, right, l, r);
    DescribedText(left, l);
    DescribedText(right, r);
  }

  /** Two versions compare equal exactly when they were written the same, apart from surrounding blanks,
      as long as both counters are below 2^53. */
  lemma EqualExactlyWhenSameText(left: string, right: string)
    requires ParseReleaseVersion(left).Some? && ParseReleaseVersion(right).Some?
    requires ExactCounter(TextOf(left).1) && ExactCounter(TextOf(right).1)
    ensures CompareReleaseVersions(left, right) == Some(0) <==> Trim(left) == Trim(right)
  {
    var l, r := ParseReleaseVersion(left).value, ParseReleaseVersion(right).value;
    EqualUpToRounding(left, right, l, r);
    DescribedText(left, l);
    DescribedText(right, r);
    if CompareReleaseVersions(left, right) == Some(0) {
      SameDateText(TextOf(left).0, TextOf(right).0);
      SameCounterText(TextOf(left).1, TextOf(right).1);
    }
  }

  lemma RoundsDown(n: nat)
    requires n == EXACT
    ensures Round(n) == n && Round(n + 1) == n
  {
    assert Ulp(n) == 2 && Ulp(n + 1) == 2;
  }

  lemma SameReading(s: string, t: string)
    requires AllDigits(s) && AllDigits(t) && Value(s) == EXACT && Value(t) == EXACT + 1
    ensures s != t && ParseInt(s) == ParseInt(t) == Some(EXACT)
  {
    RoundsDown(EXACT);
    SmallIsFinite(EXACT);
  }

  /** A dated text with a digit at both ends is its own trimmed form. */
  lemma DatedTextIsTrimmed(m: DateMatch)
    requires PartsOk(m, false) && m.rest != "" && IsDigit(m.rest[|m.rest| - 1])
    ensures var s := m.year + "." + AfterYear(m); Trim(s) == s && HasDate(s, m, false)
  {
    var s := m.year + "." + AfterYear(m);
    assert s[0] == m.year[0] && s[|s| - 1] == m.rest[|m.rest| - 1];
  }

  /** A date with a beta number, put together, is an accepted version that reads as just that. */
  lemma BetaVersion(m: DateMatch, digits: string) returns (version: string)
    requires PartsOk(m, false) && m.rest == "-beta." + digits && NoLeadingZero(digits) && ParseInt(digits).Some?
    requires Value(m.year) >= 100 && Exists(Value(m.year), Value(m.month) - 1, Value(m.day))
    ensures version == m.year + "." + AfterYear(m) && Trim(version) == version
    ensures ParseReleaseVersion(version).Some? && TextOf(version) == (m, Beta(digits))
  {
    version := m.year + "." + AfterYear(m);
    assert m.rest[|m.rest| - 1] == digits[|digits| - 1];
    DatedTextIsTrimmed(m);
    MatchDateComplete(version, m, false);
    WrittenSuffixReads(Beta(digits));
    AcceptableParses(version, m, Beta(digits));
  }

  /** Beyond 2^53 it fails: with any accepted date, the betas numbered 2^53 and 2^53 + 1 are different
      texts that both parse and compare equal. */
  lemma BetasCollide(m: DateMatch, n: DateMatch, s: string, t: string) returns (left: string, right: string)
    requires PartsOk(m, false) && n == m.(rest := "-beta." + t) && m.rest == "-beta." + s
    requires Value(m.year) >= 100 && Exists(Value(m.year), Value(m.month) - 1, Value(m.day))
    requires NoLeadingZero(s) && NoLeadingZero(t) && Value(s) == EXACT && Value(t) == EXACT + 1
    ensures left == m.year + "." + AfterYear(m) && right == n.year + "." + AfterYear(n)
    ensures Trim(left) != Trim(right) && CompareReleaseVersions(left, right) == Some(0)
  {
    SameReading(s, t);
    left := BetaVersion(m, s);
    right := BetaVersion(n, t);
    var l, r := ParseReleaseVersion(left).value, ParseReleaseVersion(right).value;
    DescribedText(left, l);
    DescribedText(right, r);
    EqualUpToRounding(left, right, l, r);
    assert TextOf(left).1 != TextOf(right).1;
  }

  // ---- concrete versions -----------------------------------------------------------------------

  lemma OneDigit(s: string)
    requires AllDigits(s) && |s| == 1
    ensures Value(s) == DigitValue(s[0])
  {
    assert s[..0] == "";
  }

  lemma FourDigits(s: string)
    requires AllDigits(s) && |s| == 4
    ensures Value(s) == DigitValue(s[0]) * 1000 + DigitValue(s[1]) * 100 + DigitValue(s[2]) * 10 + DigitValue(s[3])
  {
    OneDigit(s[..1]);
    assert s[..2][..1] == s[..1] && s[..3][..2] == s[..2];
    assert Value(s[..2]) == Value(s[..1]) * 10 + DigitValue(s[1]);
    assert Value(s[..3]) == Value(s[..2]) * 10 + DigitValue(s[2]);
  }

  lemma FourMore(s: string, t: string)
    requires AllDigits(s) && AllDigits(t) && |t| == 4
    ensures AllDigits(s + t) && Value(s + t) == Value(s) * 10_000 + Value(t)
  {
    ValueAppend(s, t);
    assert Pow10(4) == 10_000;
  }

  /** The first of March 2026, followed by a beta number. */
  function March(digits: string): (m: DateMatch)
    ensures m == DateMatch("2026", "3", "1", "-beta." + digits) && m.year + "." + AfterYear(m) == "2026.3.1-beta." + digits
  {
    var m := DateMatch("2026", "3", "1", "-beta." + digits);
    assert m.year + "." + AfterYear(m) == "2026.3.1-beta." + digits;
    m
  }

  lemma MarchExists(digits: string)
    ensures PartsOk(March(digits), false)
    ensures Value("2026") == 2026 && Value("3") == 3 && Value("1") == 1 && Exists(2026, 2, 1)
  {
    FourDigits("2026");
    OneDigit("3");
    OneDigit("1");
  }

  lemma SmallBetaParses(version: string, digits: string)
    requires version == "2026.3.1-beta." + digits
    requires NoLeadingZero(digits) && |digits| <= 4
    ensures ParseReleaseVersion(version).Some? && TextOf(version) == (March(digits), Beta(digits))
  {
    MarchExists(digits);
    SmallNumber(digits);
    var same := BetaVersion(March(digits), digits);
  }

  /** A version that parses, with what it reads as. */
  lemma BetaNineParses()
    ensures var p := ParseReleaseVersion("2026.3.1-beta.9");
            p.Some? && p.value.channel == BetaChannel && DateOf(p.value) == Ymd(2026, 3, 1) && Counter(p.value) == 9
  {
    var version := "2026.3.1-beta.9";
    assert version == "2026.3.1-beta." + "9";
    SmallBetaParses(version, "9");
    MarchExists("9");
    OneDigit("9");
    SmallNumber("9");
    DescribedText(version, ParseReleaseVersion(version).value);
  }

  lemma SixteenDigits(s: string)
    requires AllDigits(s) && |s| == 16
    ensures Value(s) == ((Value(s[..4]) * 10_000 + Value(s[4..8])) * 10_000 + Value(s[8..12])) * 10_000 + Value(s[12..])
  {
    FourMore(s[..4], s[4..8]);
    assert s[..4] + s[4..8] == s[..8];
    FourMore(s[..8], s[8..12]);
    assert s[..8] + s[8..12] == s[..12];
    FourMore(s[..12], s[12..]);
    assert s[..12] + s[12..] == s;
  }

  lemma FourAt(s: string, k: nat)
    requires AllDigits(s) && k + 4 <= |s|
    ensures Value(s[k..k + 4]) ==
            DigitValue(s[k]) * 1000 + DigitValue(s[k + 1]) * 100 + DigitValue(s[k + 2]) * 10 + DigitValue(s[k + 3])
  {
    FourDigits(s[k..k + 4]);
  }

  /** The digit strings of 2^53 and its successor differ in the last digit only. */
  lemma NearPower(s: string)
    requires AllDigits(s) && |s| == 16
    requires s[0] == '9' && s[1] == '0' && s[2] == '0' && s[3] == '7' && s[4] == '1' && s[5] == '9' && s[6] == '9' && s[7] == '2'
    requires s[8] == '5' && s[9] == '4' && s[10] == '7' && s[11] == '4' && s[12] == '0' && s[13] == '9' && s[14] == '9'
    ensures NoLeadingZero(s) && Value(s) == EXACT - 2 + DigitValue(s[15])
  {
    SixteenDigits(s);
    assert Value(s[..4]) == 9007 by { FourAt(s, 0); assert s[0..4] == s[..4]; }
    assert Value(s[4..8]) == 1992 by { FourAt(s, 4); }
    assert Value(s[8..12]) == 5474 by { FourAt(s, 8); }
    assert Value(s[12..]) == 990 + DigitValue(s[15]) by { FourAt(s, 12); assert s[12..16] == s[12..]; }
  }

  lemma PowerDigits(s: string, t: string)
    requires s == "9007199254740992" && t == "9007199254740993"
    ensures NoLeadingZero(s) && NoLeadingZero(t) && Value(s) == EXACT && Value(t) == EXACT + 1
  {
    NearPower(s);
    NearPower(t);
  }

  /** The failure beyond 2^53, in two versions anyone could write. */
  lemma TwoBetasCollide(s: string, t: string)
    requires s == "9007199254740992" && t == "9007199254740993"
    ensures CompareReleaseVersions("2026.3.1-beta." + s, "2026.3.1-beta." + t) == Some(0)
  {
    PowerDigits(s, t);
    MarchBetasCollide(s, t);
  }

  lemma MarchBetasCollide(s: string, t: string)
    requires NoLeadingZero(s) && NoLeadingZero(t) && Value(s) == EXACT && Value(t) == EXACT + 1
    ensures CompareReleaseVersions("2026.3.1-beta." + s, "2026.3.1-beta." + t) == Some(0)
  {
    MarchExists(s);
    MarchExists(t);
    var left, right := BetasCollide(March(s), March(t), s, t);
  }
}
