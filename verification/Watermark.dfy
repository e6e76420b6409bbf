/** Prompt watermarks: a zero-width pattern embedded at a sentence boundary, then rewritten text around
    it, and the detector that finds the pattern again. SHA-256 enters as the 64 bits the code uses. */
module Watermark {
  import opened Wrappers
  import opened Powers

  const ZWC_ZERO: char := '\U{200B}'
  const ZWC_ONE: char := '\U{200C}'
  const PATTERN_BITS := 32

  const SEMANTIC_PAIRS: seq<(string, string)> := [
    ("Your primary goal", "Your main objective"),
    ("You should", "You must"),
    ("In this context", "For this purpose"),
    ("Always remember", "Never forget"),
    ("The user", "The human"),
    ("It is important", "It is critical"),
    ("You are able to", "You can"),
    ("In order to", "To"),
    ("Make sure to", "Ensure you"),
    ("Please note that", "Be aware that")]

  predicate IsZwc(c: char) {
    c == ZWC_ZERO || c == ZWC_ONE
  }

  predicate ZwcFree(s: string) {
    forall i | 0 <= i < |s| :: !IsZwc(s[i])
  }

  predicate AllZwc(s: string) {
    forall i | 0 <= i < |s| :: IsZwc(s[i])
  }

  // ---- the pattern -----------------------------------------------------------------------------

  /** `bin(n)[2:]` with the digits already written as zero-width characters. */
  function Digits(n: nat): (s: string)
    ensures |s| > 0 && AllZwc(s)
  {
    var last := [if n % 2 == 1 then ZWC_ONE else ZWC_ZERO];
    if n < 2 then last else Digits(n / 2) + last
  }

  /** The first 32 binary digits; there may be fewer. */
  function Pattern(digest: nat): (s: string)
    ensures AllZwc(s) && |s| <= PATTERN_BITS
  {
    if |Digits(digest)| <= PATTERN_BITS then Digits(digest) else Digits(digest)[..PATTERN_BITS]
  }

  lemma {:induction false} DigitsFit(n: nat, k: nat)
    requires k >= 1
    ensures |Digits(n)| <= k <==> n < Pow2(k)
  {
    if n < 2 {
      assert Pow2(k) == 2 * Pow2(k - 1);
    } else if k == 1 {
      assert Pow2(1) == 2 * Pow2(0);
    } else {
      DigitsFit(n / 2, k - 1);
    }
  }

  /** The pattern is full exactly when the 64-bit digest has at least 32 significant bits. */
  lemma PatternIsFull(digest: nat)
    ensures |Pattern(digest)| == PATTERN_BITS <==> digest >= 0x8000_0000
  {
    DigitsFit(digest, 31);
    Pow2Of31();
  }

  lemma Pow2Of31()
    ensures Pow2(31) == 0x8000_0000
  {
    assert Pow2(8) == 256 by { assert Pow2(4) == 16; }
    assert Pow2(16) == 0x1_0000 by { assert Pow2(12) == 0x1000; }
    assert Pow2(24) == 0x100_0000 by { assert Pow2(20) == 0x10_0000; }
    assert Pow2(28) == 0x1000_0000;
  }

  // ---- injection -------------------------------------------------------------------------------

  /** What `\s` matches in a Python string. */
  predicate IsSpace(c: char) {
    '\U{0009}' <= c <= '\U{000D}' || '\U{001C}' <= c <= '\U{0020}' || c == '\U{0085}' || c == '\U{00A0}' ||
    c == '\U{1680}' || '\U{2000}' <= c <= '\U{200A}' || c == '\U{2028}' || c == '\U{2029}' ||
    c == '\U{202F}' || c == '\U{205F}' || c == '\U{3000}'
  }

  /** The end of the first match of `\.\s`, or the end of the text. */
  function InjectAt(text: string): (pos: nat)
    ensures pos <= |text|
    ensures pos < |text| ==> pos >= 2 && text[pos - 2] == '.' && IsSpace(text[pos - 1])
  {
    if |text| < 2 then |text|
    else if text[0] == '.' && IsSpace(text[1]) then 2
    else 1 + InjectAt(text[1..])
  }

  /** It is the first match: none ends earlier. */
  lemma {:induction false} InjectAtFirst(text: string, k: nat)
    requires k + 2 < InjectAt(text)
    ensures !(text[k] == '.' && IsSpace(text[k + 1]))
  {
    if k > 0 { InjectAtFirst(text[1..], k - 1); }
  }

  function Inject(text: string, mark: string): string {
    text[..InjectAt(text)] + mark + text[InjectAt(text)..]
  }

  // ---- replacement -----------------------------------------------------------------------------

  /** `str.replace`: left to right, without overlap. */
  function Replace(s: string, old_: string, new_: string): string
    requires old_ != ""
    decreases |s|
  {
    if s == "" then ""
    else if old_ <= s then new_ + Replace(s[|old_|..], old_, new_)
    else [s[0]] + Replace(s[1..], old_, new_)
  }

  function Preferred(seed: nat, i: nat): (s: string)
    requires i < |SEMANTIC_PAIRS|
    ensures IsPhrase(s)
  {
    FirstsArePhrases(i);
    SecondsArePhrases(i);
    if seed / Pow2(i % 32) % 2 == 0 then SEMANTIC_PAIRS[i].0 else SEMANTIC_PAIRS[i].1
  }

  function Alternate(seed: nat, i: nat): (s: string)
    requires i < |SEMANTIC_PAIRS|
    ensures IsPhrase(s)
  {
    FirstsArePhrases(i);
    SecondsArePhrases(i);
    if seed / Pow2(i % 32) % 2 == 0 then SEMANTIC_PAIRS[i].1 else SEMANTIC_PAIRS[i].0
  }

  /** Letters and spaces, starting with a letter: what every phrase of the table looks like. */
  predicate IsPhrase(s: string) {
    s != "" && IsLetter(s[0]) && forall i | 0 <= i < |s| :: IsLetter(s[i]) || s[i] == ' '
  }

  predicate IsLetter(c: char) {
    'A' <= c <= 'Z' || 'a' <= c <= 'z'
  }

  lemma FirstsArePhrases(i: nat)
    requires i < |SEMANTIC_PAIRS|
    ensures IsPhrase(SEMANTIC_PAIRS[i].0)
  {
  }

  lemma SecondsArePhrases(i: nat)
    requires i < |SEMANTIC_PAIRS|
    ensures IsPhrase(SEMANTIC_PAIRS[i].1)
  {
  }

  /** The text after the first `k` of the ten replacements. */
  function Rewritten(text: string, seed: nat, k: nat): string
    requires k <= |SEMANTIC_PAIRS|
  {
    if k == 0 then text
    else Replace(Rewritten(text, seed, k - 1), Alternate(seed, k - 1), Preferred(seed, k - 1))
  }

  function Semantic(text: string, seed: nat): string {
    Rewritten(text, seed, |SEMANTIC_PAIRS|)
  }

  lemma RewriteStep(text: string, seed: nat, i: nat)
    requires i < |SEMANTIC_PAIRS|
    ensures Rewritten(text, seed, i + 1) == Replace(Rewritten(text, seed, i), Alternate(seed, i), Preferred(seed, i))
  {
  }

  method ApplySemanticWatermark(text: string, seed: nat) returns (watermarked: string)
    ensures watermarked == Semantic(text, seed)
  {
    watermarked := text;
    var i := 0;
    while i < |SEMANTIC_PAIRS|
      invariant 0 <= i <= |SEMANTIC_PAIRS|
      invariant watermarked == Rewritten(text, seed, i)
    {
      RewriteStep(text, seed, i);
      watermarked := Replace(watermarked, Alternate(seed, i), Preferred(seed, i));
      i := i + 1;
    }
  }

  /** The watermarked prompt; the seed is the upper half of the same digest. */
  function Watermarked(text: string, digest: nat): string {
    Semantic(Inject(text, Pattern(digest)), digest / 0x1_0000_0000)
  }

  // ---- the mark survives rewriting -------------------------------------------------------------

  lemma PrefixBarrier(a: string, c: char, b: string, phrase: string)
    requires c !in phrase
    ensures phrase <= a + [c] + b <==> phrase <= a
  {
    var s := a + [c] + b;
    assert s[|a|] == c && s[..|a|] == a;
    assert |a| < |phrase| ==> phrase[|a|] in phrase;
    assert phrase <= s && |phrase| <= |a| ==> s[..|phrase|] == a[..|phrase|];
  }

  /** A character that the searched phrase does not contain separates the replacements around it. */
  lemma {:induction false} ReplaceBarrier(a: string, c: char, b: string, old_: string, new_: string)
    requires old_ != "" && c !in old_
    ensures Replace(a + [c] + b, old_, new_) == Replace(a, old_, new_) + [c] + Replace(b, old_, new_)
    decreases |a|
  {
    var s := a + [c] + b;
    PrefixBarrier(a, c, b, old_);
    if a == "" {
      assert s[0] == c && s[1..] == b;
    } else if old_ <= a {
      assert s[|old_|..] == a[|old_|..] + [c] + b;
      ReplaceBarrier(a[|old_|..], c, b, old_, new_);
    } else {
      assert s[1..] == a[1..] + [c] + b;
      ReplaceBarrier(a[1..], c, b, old_, new_);
    }
  }

  /** No match can start inside text without the phrase's first character. */
  lemma {:induction false} ReplaceSkips(t: string, b: string, old_: string, new_: string)
    requires old_ != "" && old_[0] !in t
    ensures Replace(t + b, old_, new_) == t + Replace(b, old_, new_)
  {
    if t == "" {
      assert t + b == b;
    } else {
      assert (t + b)[0] == t[0] && t[0] in t && (t + b)[1..] == t[1..] + b;
      ReplaceSkips(t[1..], b, old_, new_);
      assert t == [t[0]] + t[1..];
    }
  }

  /** The embedded mark, with the period and space before it when there are any: no letters, and a
      first character that no phrase contains. */
  predicate Separator(sep: string) {
    sep != "" && (IsZwc(sep[0]) || sep[0] == '.') && forall i | 0 <= i < |sep| :: !IsLetter(sep[i])
  }

  lemma ReplaceAround(a: string, sep: string, b: string, old_: string, new_: string)
    requires Separator(sep) && IsPhrase(old_)
    ensures Replace(a + sep + b, old_, new_) == Replace(a, old_, new_) + sep + Replace(b, old_, new_)
  {
    var c, rest := sep[0], sep[1..];
    assert sep == [c] + rest && a + sep + b == a + [c] + (rest + b);
    assert c !in old_;
    ReplaceBarrier(a, c, rest + b, old_, new_);
    ReplaceSkips(rest, b, old_, new_);
  }

  /** All ten replacements leave the separator intact and rewrite both sides independently. */
  lemma {:induction false} RewritingAround(a: string, sep: string, b: string, seed: nat, k: nat)
    requires Separator(sep) && k <= |SEMANTIC_PAIRS|
    ensures Rewritten(a + sep + b, seed, k) == Rewritten(a, seed, k) + sep + Rewritten(b, seed, k)
  {
    if k > 0 {
      RewritingAround(a, sep, b, seed, k - 1);
      ReplaceAround(Rewritten(a, seed, k - 1), sep, Rewritten(b, seed, k - 1),
                    Alternate(seed, k - 1), Preferred(seed, k - 1));
    }
  }

  lemma {:induction false} ReplaceKeepsZwcFree(s: string, old_: string, new_: string)
    requires old_ != "" && ZwcFree(s) && ZwcFree(new_)
    ensures ZwcFree(Replace(s, old_, new_))
    decreases |s|
  {
    if s != "" {
      if old_ <= s {
        ReplaceKeepsZwcFree(s[|old_|..], old_, new_);
      } else {
        ReplaceKeepsZwcFree(s[1..], old_, new_);
      }
    }
  }

  lemma PhraseIsZwcFree(s: string)
    requires IsPhrase(s)
    ensures ZwcFree(s)
  {
  }

  lemma {:induction false} RewritingKeepsZwcFree(s: string, seed: nat, k: nat)
    requires ZwcFree(s) && k <= |SEMANTIC_PAIRS|
    ensures ZwcFree(Rewritten(s, seed, k))
  {
    if k > 0 {
      RewritingKeepsZwcFree(s, seed, k - 1);
      PhraseIsZwcFree(Preferred(seed, k - 1));
      ReplaceKeepsZwcFree(Rewritten(s, seed, k - 1), Alternate(seed, k - 1), Preferred(seed, k - 1));
    }
  }

  lemma {:induction false} RewritingNothing(seed: nat, k: nat)
    requires k <= |SEMANTIC_PAIRS|
    ensures Rewritten("", seed, k) == ""
  {
    if k > 0 { RewritingNothing(seed, k - 1); }
  }

  lemma PatternNotEmpty(digest: nat)
    ensures Pattern(digest) != ""
  {
  }

  lemma MarkInside(head: string, stop: string, tail: string, mark: string, seed: nat)
    requires ZwcFree(head) && ZwcFree(tail) && Separator(stop) && AllZwc(mark)
    ensures Semantic(head + (stop + mark) + tail, seed) == Semantic(head, seed) + (stop + mark) + Semantic(tail, seed)
    ensures Semantic(head + stop + tail, seed) == Semantic(head, seed) + stop + Semantic(tail, seed)
    ensures ZwcFree(Semantic(head, seed)) && ZwcFree(Semantic(tail, seed))
  {
    var n := |SEMANTIC_PAIRS|;
    MarkedStop(stop, mark);
    RewritingAround(head, stop + mark, tail, seed, n);
    RewritingAround(head, stop, tail, seed, n);
    RewritingKeepsZwcFree(head, seed, n);
    RewritingKeepsZwcFree(tail, seed, n);
  }

  lemma MarkedStop(stop: string, mark: string)
    requires Separator(stop) && AllZwc(mark)
    ensures Separator(stop + mark)
  {
  }

  lemma MarkAtEnd(base: string, mark: string, seed: nat)
    requires ZwcFree(base) && AllZwc(mark) && mark != ""
    ensures Semantic(base + mark, seed) == Semantic(base, seed) + mark
    ensures ZwcFree(Semantic(base, seed))
  {
    assert base + mark + "" == base + mark;
    RewritingAround(base, mark, "", seed, |SEMANTIC_PAIRS|);
    RewritingNothing(seed, |SEMANTIC_PAIRS|);
    RewritingKeepsZwcFree(base, seed, |SEMANTIC_PAIRS|);
  }

  /** The watermarked prompt is the rewritten prompt with the pattern embedded whole in one place. */
  lemma MarkSurvives(base: string, digest: nat) returns (a: string, b: string)
    requires ZwcFree(base)
    ensures Watermarked(base, digest) == a + Pattern(digest) + b
    ensures Semantic(base, digest / 0x1_0000_0000) == a + b
    ensures ZwcFree(a) && ZwcFree(b)
  {
    var mark, seed := Pattern(digest), digest / 0x1_0000_0000;
    PatternNotEmpty(digest);
    if InjectAt(base) < |base| {
      var head, stop, tail := InjectInside(base, mark);
      MarkInside(head, stop, tail, mark, seed);
      a, b := Semantic(head, seed) + stop, Semantic(tail, seed);
      assert Semantic(head, seed) + (stop + mark) == a + mark;
    } else {
      assert Inject(base, mark) == base + mark;
      MarkAtEnd(base, mark, seed);
      a, b := Semantic(base, seed), "";
    }
  }

  lemma InjectInside(base: string, mark: string) returns (head: string, stop: string, tail: string)
    requires ZwcFree(base) && InjectAt(base) < |base|
    ensures base == head + stop + tail && Inject(base, mark) == head + (stop + mark) + tail
    ensures ZwcFree(head) && ZwcFree(tail) && ZwcFree(stop) && Separator(stop)
  {
    var pos := InjectAt(base);
    head, stop, tail := base[..pos - 2], base[pos - 2..pos], base[pos..];
    StopIsSeparator(stop);
    assert base[..pos] == head + stop;
    assert head + (stop + mark) == base[..pos] + mark;
  }

  lemma StopIsSeparator(stop: string)
    requires |stop| == 2 && stop[0] == '.' && IsSpace(stop[1])
    ensures Separator(stop)
  {
  }

  function Visible(s: string): string {
    if s == "" then "" else if IsZwc(s[0]) then Visible(s[1..]) else [s[0]] + Visible(s[1..])
  }

  lemma {:induction false} VisibleAlone(s: string)
    ensures ZwcFree(s) ==> Visible(s) == s
    ensures AllZwc(s) ==> Visible(s) == ""
  {
    if s != "" {
      VisibleAlone(s[1..]);
      assert s == [s[0]] + s[1..];
    }
  }

  lemma {:induction false} VisibleAppend(s: string, t: string)
    ensures Visible(s + t) == Visible(s) + Visible(t)
  {
    if s == "" {
      assert s + t == t;
    } else {
      assert (s + t)[1..] == s[1..] + t;
      VisibleAppend(s[1..], t);
    }
  }

  /** What a reader sees is exactly the rewritten prompt, as if no pattern had been embedded. */
  lemma MarkIsInvisible(base: string, digest: nat)
    requires ZwcFree(base)
    ensures Visible(Watermarked(base, digest)) == Semantic(base, digest / 0x1_0000_0000)
  {
    var a, b := MarkSurvives(base, digest);
    VisibleAppend(a + Pattern(digest), b);
    VisibleAppend(a, Pattern(digest));
    VisibleAlone(a);
    VisibleAlone(Pattern(digest));
    VisibleAlone(b);
  }

  // ---- detection -------------------------------------------------------------------------------

  function LeadingRun(s: string): (n: nat)
    ensures n <= |s|
  {
    if s == "" || !IsZwc(s[0]) then 0 else 1 + LeadingRun(s[1..])
  }

  /** The first maximal run of zero-width characters, empty if there is none. */
  function FirstRun(s: string): string {
    if s == "" then ""
    else if IsZwc(s[0]) then s[..LeadingRun(s)]
    else FirstRun(s[1..])
  }

  datatype Info = Info(pattern: string, seed: nat)

  /** The first session, in the order sessions were first stored, whose pattern is `run`. */
  function Earliest(order: seq<string>, stored: map<string, Info>, run: string): Option<string>
    requires forall s | s in order :: s in stored
  {
    if order == [] then None
    else if stored[order[0]].pattern == run then Some(order[0])
    else Earliest(order[1..], stored, run)
  }

  function Detect(order: seq<string>, stored: map<string, Info>, text: string): Option<string>
    requires forall s | s in order :: s in stored
  {
    var run := FirstRun(text);
    if |run| < PATTERN_BITS then None else Earliest(order, stored, run[..PATTERN_BITS])
  }

  lemma {:induction false} RunFound(lead: string, mark: string, rest: string)
    requires ZwcFree(lead) && AllZwc(mark) && mark != ""
    ensures FirstRun(lead + mark + rest) == mark + rest[..LeadingRun(rest)]
    decreases |lead| + |mark|
  {
    var s := lead + mark + rest;
    if lead != "" {
      assert s[1..] == lead[1..] + mark + rest;
      RunFound(lead[1..], mark, rest);
    } else {
      assert s == mark + rest;
      LeadingRunOf(mark, rest);
    }
  }

  lemma {:induction false} LeadingRunOf(mark: string, rest: string)
    requires AllZwc(mark)
    ensures LeadingRun(mark + rest) == |mark| + LeadingRun(rest)
  {
    if mark == "" {
      assert mark + rest == rest;
    } else {
      assert (mark + rest)[1..] == mark[1..] + rest;
      LeadingRunOf(mark[1..], rest);
    }
  }

  /** The answer is the first match in the order of insertion. */
  lemma {:induction false} EarliestIsFirst(order: seq<string>, stored: map<string, Info>, run: string)
    requires forall s | s in order :: s in stored
    ensures Earliest(order, stored, run).Some? ==>
              exists i :: 0 <= i < |order| && Earliest(order, stored, run) == Some(order[i]) && stored[order[i]].pattern == run &&
                          forall j | 0 <= j < i :: stored[order[j]].pattern != run
  {
    if order != [] && stored[order[0]].pattern != run && Earliest(order, stored, run).Some? {
      EarliestIsFirst(order[1..], stored, run);
      var i :| 0 <= i < |order[1..]| && Earliest(order[1..], stored, run) == Some(order[1..][i]) &&
               stored[order[1..][i]].pattern == run && forall j | 0 <= j < i :: stored[order[1..][j]].pattern != run;
      forall j | 0 <= j < i + 1 ensures stored[order[j]].pattern != run {
        if j > 0 { assert order[j] == order[1..][j - 1]; }
      }
      assert order[i + 1] == order[1..][i];
    }
  }

  lemma {:induction false} EarliestFinds(order: seq<string>, stored: map<string, Info>, run: string, session: string)
    requires forall s | s in order :: s in stored
    requires session in order && stored[session].pattern == run
    ensures var found := Earliest(order, stored, run);
            found.Some? && found.value in order && stored[found.value].pattern == run
  {
    if stored[order[0]].pattern != run {
      EarliestFinds(order[1..], stored, run, session);
    }
  }

  /** Round trip: in any leaked text that holds the watermarked prompt after text without zero-width
      characters, whatever follows, detection names a stored session with the same pattern, and that
      session itself when no other stored session shares the pattern. */
  lemma RoundTrip(order: seq<string>, stored: map<string, Info>, session: string, base: string, digest: nat,
                  lead: string, trail: string)
    requires forall s | s in order :: s in stored
    requires session in order && stored[session].pattern == Pattern(digest)
    requires ZwcFree(base) && ZwcFree(lead) && digest >= 0x8000_0000
    ensures var found := Detect(order, stored, lead + Watermarked(base, digest) + trail);
            found.Some? && found.value in order && stored[found.value].pattern == Pattern(digest) &&
            ((forall s | s in order && s != session :: stored[s].pattern != Pattern(digest)) ==> found == Some(session))
  {
    var a, b := MarkSurvives(base, digest);
    var mark := Pattern(digest);
    PatternIsFull(digest);
    var text := lead + Watermarked(base, digest) + trail;
    assert text == (lead + a) + mark + (b + trail);
    RunFound(lead + a, mark, b + trail);
    assert FirstRun(text)[..PATTERN_BITS] == mark;
    EarliestFinds(order, stored, mark, session);
  }

  /** A digest with fewer than 32 significant bits gives a short pattern, and then zero-width detection
      never finds the watermarked prompt, not even for its own session. */
  lemma ShortPatternIsLost(order: seq<string>, stored: map<string, Info>, base: string, digest: nat)
    requires forall s | s in order :: s in stored
    requires ZwcFree(base) && digest < 0x8000_0000
    ensures Detect(order, stored, Watermarked(base, digest)) == None
  {
    var a, b := MarkSurvives(base, digest);
    var mark := Pattern(digest);
    PatternIsFull(digest);
    RunFound(a, mark, b);
    assert b == "" || LeadingRun(b) == 0;
  }

  /** The dictionary after a run of `watermark_prompt` calls; the hash fixes each session's digest. */
  function StoredAfter(sessions: seq<string>, digestOf: string -> nat): (r: (seq<string>, map<string, Info>))
    ensures forall s :: s in r.0 <==> s in sessions
    ensures forall s :: s in r.1 <==> s in sessions
    ensures forall s | s in sessions :: r.1[s].pattern == Pattern(digestOf(s))
  {
    if sessions == [] then ([], map[])
    else
      var (order, stored) := StoredAfter(sessions[..|sessions| - 1], digestOf);
      var s := sessions[|sessions| - 1];
      assert sessions == sessions[..|sessions| - 1] + [s];
      (if s in stored then order else order + [s],
       stored[s := Info(Pattern(digestOf(s)), digestOf(s) / 0x1_0000_0000)])
  }

  /** After any run, every session with a full pattern is traced from any leak of its prompt, to itself
      unless another session of the run hashes to the same pattern. */
  lemma EverySessionIsTraced(sessions: seq<string>, digestOf: string -> nat, session: string, base: string,
                             lead: string, trail: string)
    requires session in sessions && digestOf(session) >= 0x8000_0000 && ZwcFree(base) && ZwcFree(lead)
    ensures var (order, stored) := StoredAfter(sessions, digestOf);
            var found := Detect(order, stored, lead + Watermarked(base, digestOf(session)) + trail);
            found.Some? && found.value in sessions && Pattern(digestOf(found.value)) == Pattern(digestOf(session)) &&
            ((forall s | s in sessions && s != session :: Pattern(digestOf(s)) != Pattern(digestOf(session)))
             ==> found == Some(session))
  {
    var (order, stored) := StoredAfter(sessions, digestOf);
    RoundTrip(order, stored, session, base, digestOf(session), lead, trail);
  }

  // ---- the watermarker -------------------------------------------------------------------------

  /** `_session_watermarks`, a dictionary that remembers the order of first insertion. */
  class PromptWatermark {
    var order: seq<string>
    var stored: map<string, Info>

    ghost predicate Valid()
      reads this
    {
      (forall s :: s in order <==> s in stored) && forall i, j | 0 <= i < j < |order| :: order[i] != order[j]
    }

    constructor ()
      ensures Valid() && order == [] && stored == map[]
    {
      order, stored := [], map[];
    }

    method WatermarkPrompt(base: string, session: string, digest: nat) returns (text: string)
      requires Valid()
      modifies this
      ensures Valid() && text == Watermarked(base, digest)
      ensures stored == old(stored)[session := Info(Pattern(digest), digest / 0x1_0000_0000)]
      ensures order == if session in old(stored) then old(order) else old(order) + [session]
    {
      var mark := Pattern(digest);
      text := Inject(base, mark);
      var seed := digest / 0x1_0000_0000;
      text := ApplySemanticWatermark(text, seed);
      if session !in stored {
        order := order + [session];
      }
      stored := stored[session := Info(mark, seed)];
    }

    method DetectZwc(text: string) returns (found: Option<string>)
      requires Valid()
      ensures found == Detect(order, stored, text)
    {
      var run := FirstRun(text);
      if |run| < PATTERN_BITS {
        return None;
      }
      var i := 0;
      while i < |order|
        invariant 0 <= i <= |order|
        invariant Detect(order, stored, text) == Earliest(order[i..], stored, run[..PATTERN_BITS])
      {
        if stored[order[i]].pattern == run[..PATTERN_BITS] {
          return Some(order[i]);
        }
        i := i + 1;
      }
      found := None;
    }
  }
}
