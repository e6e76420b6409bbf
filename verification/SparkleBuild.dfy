/** Sparkle build numbers: the date, then a two-digit lane, as one decimal number. */
module SparkleBuild {
  import opened Wrappers
  import opened Decimal
  import opened Calendar
  import opened ReleaseVersion

  datatype Floors = Floors(dateKey: nat, legacyFloor: nat, laneFloor: nat, lane: nat)

  /** What `.` does not match. */
  predicate IsLineTerminator(c: char) {
    c == '\n' || c == '\r' || c == '\U{2028}' || c == '\U{2029}'
  }

  /** The optional `[.-].*` up to the end of the text. */
  predicate SuffixOk(rest: string) {
    rest == "" || ((rest[0] == '.' || rest[0] == '-') && forall i | 0 < i < |rest| :: !IsLineTerminator(rest[i]))
  }

  /** Where the digits that the text ends with begin. */
  function TrailingStart(s: string): (k: nat)
    ensures k <= |s| && (k > 0 ==> !IsDigit(s[k - 1]))
    ensures forall i | k <= i < |s| :: IsDigit(s[i])
  {
    if s == "" || !IsDigit(s[|s| - 1]) then |s| else TrailingStart(s[..|s| - 1])
  }

  function TrailingDigits(s: string): (d: string)
    ensures AllDigits(d) && |d| <= |s| && d == s[|s| - |d|..]
    ensures |d| < |s| ==> !IsDigit(s[|s| - |d| - 1])
  {
    s[TrailingStart(s)..]
  }

  /** 90 without a suffix, 1 for a suffix without a number, otherwise the number, at most 89. */
  function LaneOf(rest: string): (lane: nat)
    ensures lane <= 90
    ensures lane == 90 <==> rest == ""
  {
    if rest == "" then 90
    else
      var digits := TrailingDigits(rest);
      if digits == "" then 1
      else
        var n := ParseInt(digits);
        if n.Some? && n.value < 89 then n.value else 89
  }

  /** The number whose digits are the year, the two-digit month and the two-digit day. */
  function DateDigits(year: nat, month: nat, day: nat): (n: nat)
    requires month < 100 && day < 100
    ensures n == year * 10_000 + month * 100 + day
  {
    AppendTwo(Print(year), month);
    AppendTwo(Print(year) + Pad2(month), day);
    Value(Print(year) + Pad2(month) + Pad2(day))
  }

  function WithLane(dateKey: nat, lane: nat): (n: nat)
    requires lane < 100
    ensures n == dateKey * 100 + lane
  {
    AppendTwo(Print(dateKey), lane);
    Value(Print(dateKey) + Pad2(lane))
  }

  function WithZero(dateKey: nat): (n: nat)
    ensures n == dateKey * 10
  {
    ValueAppend(Print(dateKey), "0");
    assert "0"[..0] == "" && Value("0") == 0 && Pow10(1) == 10;
    Value(Print(dateKey) + "0")
  }

  function FloorsFromShortVersion(shortVersion: string): (r: Option<Floors>)
    ensures r.Some? ==> r.value.laneFloor == r.value.dateKey * 100 + r.value.lane && r.value.lane <= 90
    ensures r.Some? ==> r.value.legacyFloor == r.value.dateKey * 10
  {
    var m := MatchDate(Trim(shortVersion), true);
    if m.None? || !SuffixOk(m.value.rest) then None
    else FloorsOf(m.value)
  }

  function FloorsOf(m: DateMatch): (r: Option<Floors>)
    requires PartsOk(m, true)
    ensures r.Some? ==> r.value.laneFloor == r.value.dateKey * 100 + r.value.lane && r.value.lane <= 90
    ensures r.Some? ==> r.value.legacyFloor == r.value.dateKey * 10
  {
    SmallNumber(m.year);
    SmallNumber(m.month);
    SmallNumber(m.day);
    var year, month, day := ParseInt(m.year).value, ParseInt(m.month).value, ParseInt(m.day).value;
    if month < 1 || month > 12 || day < 1 || day > 31 then None
    else
      var dateKey, lane := DateDigits(year, month, day), LaneOf(m.rest);
      Some(Floors(dateKey, WithZero(dateKey), WithLane(dateKey, lane), lane))
  }

  function CanonicalBuild(shortVersion: string): Option<nat> {
    LaneFloor(FloorsFromShortVersion(shortVersion))
  }

  function LaneFloor(floors: Option<Floors>): Option<nat> {
    if floors.None? then None else Some(floors.value.laneFloor)
  }

  // ---- builds of release versions --------------------------------------------------------------

  /** The key a calendar date contributes, as a number. */
  function DateKey(d: Ymd): int {
    d.year * 10_000 + d.month * 100 + d.date
  }

  lemma FloorsOfParts(m: DateMatch)
    requires PartsOk(m, true) && 1 <= Value(m.month) <= 12 && 1 <= Value(m.day) <= 31
    ensures FloorsOf(m).Some? && FloorsOf(m).value.lane == LaneOf(m.rest)
    ensures FloorsOf(m).value.dateKey == DateKey(Ymd(Value(m.year), Value(m.month), Value(m.day)))
  {
    SmallNumber(m.year);
    SmallNumber(m.month);
    SmallNumber(m.day);
  }

  /** The digits concatenated into the build are the date and the lane in base 100. */
  lemma FloorsAreArithmetic(shortVersion: string, m: DateMatch)
    requires HasDate(Trim(shortVersion), m, true) && SuffixOk(m.rest)
    requires 1 <= Value(m.month) <= 12 && 1 <= Value(m.day) <= 31
    ensures FloorsFromShortVersion(shortVersion).Some?
    ensures FloorsFromShortVersion(shortVersion).value.dateKey == DateKey(Ymd(Value(m.year), Value(m.month), Value(m.day)))
    ensures FloorsFromShortVersion(shortVersion).value.lane == LaneOf(m.rest)
  {
    MatchDateComplete(Trim(shortVersion), m, true);
    FloorsOfParts(m);
  }

  lemma TrailingAfter(head: string, digits: string)
    requires AllDigits(digits) && (head != "" ==> !IsDigit(head[|head| - 1]))
    ensures TrailingDigits(head + digits) == digits
  {
    var s, k := head + digits, TrailingStart(head + digits);
    assert forall i | 0 <= i < |digits| :: s[|head| + i] == digits[i];
    assert head != "" ==> s[|head| - 1] == head[|head| - 1];
    assert k == |head|;
  }

  lemma LaneOfDigits(head: string, digits: string)
    requires NoLeadingZero(digits) && head != "" && head[0] == '-' && !IsDigit(head[|head| - 1])
    requires forall i | 0 <= i < |head| :: !IsLineTerminator(head[i])
    requires OrZero(ParseInt(digits)) >= 1
    ensures SuffixOk(head + digits)
    ensures LaneOf(head + digits) == if OrZero(ParseInt(digits)) < 89 then OrZero(ParseInt(digits)) else 89
  {
    TrailingAfter(head, digits);
  }

  /** The lane of a release version: 90 when stable, otherwise its counter, at most 89. */
  lemma LaneOfSuffix(x: Suffix)
    requires !x.Unsupported? && (!x.Plain? ==> NoLeadingZero(x.digits) && CounterOf(x) >= 1)
    ensures SuffixOk(WriteSuffix(x))
    ensures LaneOf(WriteSuffix(x)) == if x.Plain? then 90 else if CounterOf(x) < 89 then CounterOf(x) else 89
  {
    var beta, correction := "-beta.", "-";
    assert beta[|beta| - 1] == '.' && correction[|correction| - 1] == '-';
    match x
    case Plain =>
    case Beta(digits) => LaneOfDigits(beta, digits);
    case Correction(digits) => LaneOfDigits(correction, digits);
    case Unsupported =>
  }

  function LaneOfParsed(p: Parsed): nat {
    if p.channel == StableChannel && p.correctionNumber.None? then 90
    else if Counter(p) < 89 then Counter(p) else 89
  }

  function BuildOf(p: Parsed): int {
    DateKey(DateOf(p)) * 100 + LaneOfParsed(p)
  }

  /** A release version is also a short version, with the same date and a lane from its counter. */
  lemma ReleaseIsShort(version: string, p: Parsed) returns (m: DateMatch)
    requires ParseReleaseVersion(version) == Some(p)
    ensures HasDate(Trim(version), m, true) && SuffixOk(m.rest)
    ensures LaneOf(m.rest) == LaneOfParsed(p)
    ensures p.year == Value(m.year) && p.month == Value(m.month) && p.day == Value(m.day)
    ensures 1 <= p.month <= 12 && 1 <= p.day <= 31
  {
    DescribedText(version, p);
    PlainHasNoCounter(version, p);
    LaneOfSuffix(TextOf(version).1);
    m := TextOf(version).0;
  }

  /** Every release version has a build: its date key, then its lane. */
  lemma BuildOfRelease(version: string, p: Parsed)
    requires ParseReleaseVersion(version) == Some(p)
    ensures CanonicalBuild(version) == Some(BuildOf(p))
  {
    var m := ReleaseIsShort(version, p);
    BuildFromParts(version, m, p);
  }

  lemma BuildFromParts(version: string, m: DateMatch, p: Parsed)
    requires HasDate(Trim(version), m, true) && SuffixOk(m.rest) && LaneOf(m.rest) == LaneOfParsed(p)
    requires p.year == Value(m.year) && p.month == Value(m.month) && p.day == Value(m.day)
    requires 1 <= p.month <= 12 && 1 <= p.day <= 31
    ensures CanonicalBuild(version) == Some(BuildOf(p))
  {
    MatchDateComplete(Trim(version), m, true);
    CanonicalOfMatch(version, m);
    FloorsOfParts(m);
    LaneFloorOf(FloorsOf(m).value, p);
  }

  lemma LaneFloorOf(floors: Floors, p: Parsed)
    requires floors.laneFloor == floors.dateKey * 100 + floors.lane
    requires floors.dateKey == DateKey(DateOf(p)) && floors.lane == LaneOfParsed(p)
    ensures LaneFloor(Some(floors)) == Some(BuildOf(p))
  {
  }

  lemma CanonicalOfMatch(version: string, m: DateMatch)
    requires MatchDate(Trim(version), true) == Some(m) && SuffixOk(m.rest)
    ensures CanonicalBuild(version) == LaneFloor(FloorsOf(m))
  {
  }

  lemma PlainHasNoCounter(version: string, p: Parsed)
    requires ParseReleaseVersion(version) == Some(p)
    ensures TextOf(version).1.Plain? <==> p.channel == StableChannel && p.correctionNumber.None?
    ensures !TextOf(version).1.Plain? ==> NoLeadingZero(TextOf(version).1.digits)
  {
    DescribedText(version, p);
    DescribedSuffix(Trim(version), p, TextOf(version).0, TextOf(version).1);
  }

  lemma DescribedSuffix(trimmed: string, p: Parsed, m: DateMatch, x: Suffix)
    requires Describes(trimmed, p, m, x)
    ensures x.Plain? <==> p.channel == StableChannel && p.correctionNumber.None?
    ensures !x.Plain? ==> NoLeadingZero(x.digits)
  {
  }

  // ---- order -----------------------------------------------------------------------------------

  lemma DateKeyOrders(a: Ymd, b: Ymd)
    requires 1 <= a.month <= 12 && 1 <= a.date <= 31 && 1 <= b.month <= 12 && 1 <= b.date <= 31
    ensures DateKey(a) < DateKey(b) <==> Before(a, b)
    ensures DateKey(a) == DateKey(b) <==> a == b
  {
  }

  /** Two betas of one day whose numbers are both at least 89 share the last beta lane. */
  predicate Saturated(l: Parsed, r: Parsed) {
    DateOf(l) == DateOf(r) && l.channel == BetaChannel && r.channel == BetaChannel && Counter(l) >= 89 && Counter(r) >= 89
  }

  lemma BuildsOrderParsed(l: Parsed, r: Parsed)
    requires Dated(l) && Dated(r) && l.correctionNumber.None? && r.correctionNumber.None?
    ensures BuildOf(l) < BuildOf(r) <==> Precedes(l, r) && !Saturated(l, r)
    ensures BuildOf(l) == BuildOf(r) <==> SameRank(l, r) || Saturated(l, r)
  {
    DateKeyOrders(DateOf(l), DateOf(r));
    DateKeyOrders(DateOf(r), DateOf(l));
    BasesCompare(DateKey(DateOf(l)), LaneOfParsed(l), DateKey(DateOf(r)), LaneOfParsed(r));
  }

  /** Without corrections the build numbers order exactly as the versions do, except that they no longer
      tell apart betas of one day numbered 89 or more. */
  lemma BuildsOrderVersions(left: string, right: string, l: Parsed, r: Parsed)
    requires ParseReleaseVersion(left) == Some(l) && ParseReleaseVersion(right) == Some(r)
    requires l.correctionNumber.None? && r.correctionNumber.None?
    ensures CanonicalBuild(left) == Some(BuildOf(l)) && CanonicalBuild(right) == Some(BuildOf(r))
    ensures CompareReleaseVersions(left, right).value <= 0 ==> BuildOf(l) <= BuildOf(r)
    ensures BuildOf(l) < BuildOf(r) <==> CompareReleaseVersions(left, right).value < 0 && !Saturated(l, r)
    ensures BuildOf(l) == BuildOf(r) <==> CompareReleaseVersions(left, right).value == 0 || Saturated(l, r)
  {
    BuildOfRelease(left, l);
    BuildOfRelease(right, r);
    ComparesLexicographically(left, right, l, r);
    DescribedText(left, l);
    DescribedText(right, r);
    BuildsOrderParsed(l, r);
  }

  lemma BasesCompare(a: int, x: int, b: int, y: int)
    requires 0 <= x < 100 && 0 <= y < 100
    ensures a * 100 + x < b * 100 + y <==> a < b || (a == b && x < y)
    ensures a * 100 + x == b * 100 + y <==> a == b && x == y
  {
  }

  predicate IsCorrection(p: Parsed) {
    p.channel == StableChannel && p.correctionNumber.Some?
  }

  predicate IsPlain(p: Parsed) {
    p.channel == StableChannel && p.correctionNumber.None?
  }

  /** The pairs of versions whose builds are not in the order of the versions, all of one day: two betas
      or two corrections with different numbers of at least 89, a release and its correction, and a
      correction whose lane is not above that of a beta. */
  predicate Misordered(l: Parsed, r: Parsed) {
    && DateOf(l) == DateOf(r)
    && (|| (l.channel == BetaChannel && r.channel == BetaChannel && Counter(l) != Counter(r) && Counter(l) >= 89 && Counter(r) >= 89)
        || (IsCorrection(l) && IsCorrection(r) && Counter(l) != Counter(r) && Counter(l) >= 89 && Counter(r) >= 89)
        || (IsPlain(l) && IsCorrection(r))
        || (IsCorrection(l) && IsPlain(r))
        || (l.channel == BetaChannel && IsCorrection(r) && LaneOfParsed(r) <= LaneOfParsed(l))
        || (IsCorrection(l) && r.channel == BetaChannel && LaneOfParsed(l) <= LaneOfParsed(r)))
  }

  /** Nothing but a correction has a correction number, and only a release has no counter. */
  predicate Numbered(p: Parsed) {
    (p.correctionNumber.Some? ==> p.channel == StableChannel) && (Counter(p) >= 1 <==> !IsPlain(p))
  }

  /** On one day the lanes compare as the versions do, unless the pair is misordered. */
  lemma LanesOrder(l: Parsed, r: Parsed)
    requires DateOf(l) == DateOf(r) && Numbered(l) && Numbered(r)
    ensures Misordered(l, r) <==>
            !((Precedes(l, r) <==> LaneOfParsed(l) < LaneOfParsed(r)) && (SameRank(l, r) <==> LaneOfParsed(l) == LaneOfParsed(r)))
  {
  }

  lemma ReleaseIsNumbered(version: string, p: Parsed)
    requires ParseReleaseVersion(version) == Some(p)
    ensures Numbered(p) && Dated(p)
  {
    DescribedText(version, p);
    PlainHasNoCounter(version, p);
  }

  lemma BuildsCompareParsed(l: Parsed, r: Parsed)
    requires Dated(l) && Dated(r) && Numbered(l) && Numbered(r)
    ensures Misordered(l, r) <==>
            !((Precedes(l, r) <==> BuildOf(l) < BuildOf(r)) && (SameRank(l, r) <==> BuildOf(l) == BuildOf(r)))
  {
    DateKeyOrders(DateOf(l), DateOf(r));
    DateKeyOrders(DateOf(r), DateOf(l));
    BasesCompare(DateKey(DateOf(l)), LaneOfParsed(l), DateKey(DateOf(r)), LaneOfParsed(r));
    if DateOf(l) == DateOf(r) { LanesOrder(l, r); }
  }

  /** For all release versions, corrections included: the builds compare as the versions do if and only
      if the pair is not one of those. */
  lemma BuildsOrderExactly(left: string, right: string, l: Parsed, r: Parsed)
    requires ParseReleaseVersion(left) == Some(l) && ParseReleaseVersion(right) == Some(r)
    ensures CanonicalBuild(left) == Some(BuildOf(l)) && CanonicalBuild(right) == Some(BuildOf(r))
    ensures CompareReleaseVersions(left, right) == Some(Sign(BuildOf(l) - BuildOf(r))) <==> !Misordered(l, r)
  {
    BuildOfRelease(left, l);
    BuildOfRelease(right, r);
    ComparesLexicographically(left, right, l, r);
    ReleaseIsNumbered(left, l);
    ReleaseIsNumbered(right, r);
    BuildsCompareParsed(l, r);
  }

  /** With corrections the order breaks: a correction compares above the stable release of its day, and
      its build is always below that release's build. */
  lemma CorrectionsSortBelow(stable: string, correction: string, l: Parsed, r: Parsed)
    requires ParseReleaseVersion(stable) == Some(l) && ParseReleaseVersion(correction) == Some(r)
    requires DateOf(l) == DateOf(r) && l.channel == StableChannel && l.correctionNumber.None? && r.correctionNumber.Some?
    ensures CompareReleaseVersions(stable, correction) == Some(-1)
    ensures CanonicalBuild(stable).Some? && CanonicalBuild(correction).Some?
    ensures CanonicalBuild(correction).value < CanonicalBuild(stable).value
  {
    BuildOfRelease(stable, l);
    BuildOfRelease(correction, r);
    CorrectionIsStable(correction, r);
    CorrectionLane(l, r);
    ComparesLexicographically(stable, correction, l, r);
  }

  lemma CorrectionLane(l: Parsed, r: Parsed)
    requires DateOf(l) == DateOf(r) && l.channel == StableChannel && l.correctionNumber.None?
    requires r.channel == StableChannel && r.correctionNumber.Some? && Counter(r) >= 1
    ensures Precedes(l, r) && BuildOf(r) < BuildOf(l)
  {
    BasesCompare(DateKey(DateOf(r)), LaneOfParsed(r), DateKey(DateOf(l)), LaneOfParsed(l));
  }

  lemma CorrectionIsStable(version: string, p: Parsed)
    requires ParseReleaseVersion(version) == Some(p) && p.correctionNumber.Some?
    ensures p.channel == StableChannel && Counter(p) >= 1
  {
    DescribedText(version, p);
  }
}
