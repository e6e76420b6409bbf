/** Slicing UTF-16 text without cutting a surrogate pair, against the encoding of section 2.1 of
    RFC 2781. */
module Utf16 {
  import opened Wrappers

  type CodeUnit = u: int | 0 <= u < 0x1_0000
  type Scalar = c: int | 0 <= c <= 0x10_FFFF && !(0xD800 <= c <= 0xDFFF)

  predicate IsHighSurrogate(u: CodeUnit) {
    0xD800 <= u <= 0xDBFF
  }

  predicate IsLowSurrogate(u: CodeUnit) {
    0xDC00 <= u <= 0xDFFF
  }

  // ---- the encoding ----------------------------------------------------------------------------

  function EncodeScalar(c: Scalar): (s: seq<CodeUnit>)
    ensures |s| == 1 ==> !IsHighSurrogate(s[0]) && !IsLowSurrogate(s[0])
    ensures |s| == 2 ==> IsHighSurrogate(s[0]) && IsLowSurrogate(s[1])
    ensures |s| == 1 || |s| == 2
  {
    if c < 0x1_0000 then [c]
    else [0xD800 + (c - 0x1_0000) / 0x400, 0xDC00 + (c - 0x1_0000) % 0x400]
  }

  function Encode(text: seq<Scalar>): seq<CodeUnit> {
    if text == [] then [] else EncodeScalar(text[0]) + Encode(text[1..])
  }

  function FromPair(high: int, low: int): (c: Scalar)
    requires 0xD800 <= high <= 0xDBFF && 0xDC00 <= low <= 0xDFFF
  {
    0x1_0000 + (high - 0xD800) * 0x400 + (low - 0xDC00)
  }

  /** The decoding of section 2.2 for the start of a string; ill-formed input gives None. */
  function DecodeFirst(s: seq<CodeUnit>): (r: Option<(Scalar, nat)>)
    ensures r.Some? ==> 1 <= r.value.1 <= |s|
  {
    if s == [] || IsLowSurrogate(s[0]) then None
    else if !IsHighSurrogate(s[0]) then Some((s[0], 1))
    else if |s| >= 2 && IsLowSurrogate(s[1]) then Some((FromPair(s[0], s[1]), 2))
    else None
  }

  function Decode(s: seq<CodeUnit>): Option<seq<Scalar>> {
    if s == [] then Some([])
    else
      var first := DecodeFirst(s);
      if first.None? then None
      else
        var rest := Decode(s[first.value.1..]);
        if rest.None? then None else Some([first.value.0] + rest.value)
  }

  lemma DecodeStep(c: Scalar, rest: seq<CodeUnit>)
    requires Decode(rest).Some?
    ensures Decode(EncodeScalar(c) + rest) == Some([c] + Decode(rest).value)
  {
    var s := EncodeScalar(c) + rest;
    FirstOfEncoded(c, rest);
    assert s[|EncodeScalar(c)|..] == rest;
  }

  lemma {:induction false} DecodeUndoesEncode(text: seq<Scalar>)
    ensures Decode(Encode(text)) == Some(text)
  {
    if text != [] {
      DecodeUndoesEncode(text[1..]);
      DecodeStep(text[0], Encode(text[1..]));
      assert text == [text[0]] + text[1..];
    }
  }

  lemma FirstOfEncoded(c: Scalar, rest: seq<CodeUnit>)
    ensures DecodeFirst(EncodeScalar(c) + rest) == Some((c, |EncodeScalar(c)|))
  {
    if c >= 0x1_0000 {
      var v := c - 0x1_0000;
      assert v == (v / 0x400) * 0x400 + v % 0x400;
    }
  }

  ghost predicate WellFormed(s: seq<CodeUnit>) {
    exists text :: s == Encode(text)
  }

  lemma {:induction false} EncodeAppend(a: seq<Scalar>, b: seq<Scalar>)
    ensures Encode(a + b) == Encode(a) + Encode(b)
  {
    if a == [] {
      assert a + b == b;
    } else {
      assert (a + b)[1..] == a[1..] + b;
      EncodeAppend(a[1..], b);
    }
  }

  /** Where the i-th scalar value starts. */
  function Offset(text: seq<Scalar>, i: nat): nat
    requires i <= |text|
  {
    |Encode(text[..i])|
  }

  lemma OffsetsIncrease(text: seq<Scalar>, i: nat, j: nat)
    requires i < j <= |text|
    ensures Offset(text, i) < Offset(text, j)
  {
    assert text[..j] == text[..i] + text[i..j];
    EncodeAppend(text[..i], text[i..j]);
    assert text[i..j] != [];
  }

  // ---- the slice -------------------------------------------------------------------------------

  predicate CutsPair(s: seq<CodeUnit>, k: nat) {
    0 < k < |s| && IsHighSurrogate(s[k - 1]) && IsLowSurrogate(s[k])
  }

  /** A negative index counts from the end; every index is clamped to the string. */
  function Clamp(index: int, len: nat): (k: nat)
    ensures k <= len
  {
    if index < 0 then (if len + index < 0 then 0 else len + index) else if index < len then index else len
  }

  function Lower(len: nat, start: int, end: Option<int>): (k: nat)
    ensures k <= len
  {
    var a, b := Clamp(start, len), if end.None? then len else Clamp(end.value, len);
    if a < b then a else b
  }

  function Upper(len: nat, start: int, end: Option<int>): (k: nat)
    ensures Lower(len, start, end) <= k <= len
  {
    var a, b := Clamp(start, len), if end.None? then len else Clamp(end.value, len);
    if a < b then b else a
  }

  function After(s: seq<CodeUnit>, k: nat): nat {
    if CutsPair(s, k) then k + 1 else k
  }

  function Before(s: seq<CodeUnit>, k: nat): nat {
    if CutsPair(s, k) then k - 1 else k
  }

  /** `String.prototype.slice` on indices already in range: empty when they cross. */
  function Slice(s: seq<CodeUnit>, from: nat, to: nat): seq<CodeUnit>
    requires from <= |s| && to <= |s|
  {
    if from <= to then s[from..to] else []
  }

  method SliceUtf16Safe(input: seq<CodeUnit>, start: int, end: Option<int>) returns (r: seq<CodeUnit>)
    ensures r == Slice(input, After(input, Lower(|input|, start, end)), Before(input, Upper(|input|, start, end)))
  {
    var len := |input|;
    var from := if start < 0 then (if len + start > 0 then len + start else 0) else if start < len then start else len;
    var to := len;
    if end.Some? {
      to := if end.value < 0 then (if len + end.value > 0 then len + end.value else 0)
            else if end.value < len then end.value else len;
    }
    if to < from {
      from, to := to, from;
    }
    ghost var lo, hi := Lower(len, start, end), Upper(len, start, end);
    assert from == lo && to == hi;
    if from > 0 && from < len {
      if IsLowSurrogate(input[from]) && IsHighSurrogate(input[from - 1]) {
        from := from + 1;
      }
    }
    assert from == After(input, lo);
    if to > 0 && to < len {
      if IsHighSurrogate(input[to - 1]) && IsLowSurrogate(input[to]) {
        to := to - 1;
      }
    }
    assert to == Before(input, hi);
    r := Slice(input, from, to);
  }

  /** On any input, well formed or not: at most one unit is dropped at each end of the plain clamped
      range, and neither end of a result cuts a pair. */
  lemma SliceStaysClose(s: seq<CodeUnit>, start: int, end: Option<int>)
    ensures var from, to := After(s, Lower(|s|, start, end)), Before(s, Upper(|s|, start, end));
            Lower(|s|, start, end) <= from <= Lower(|s|, start, end) + 1 && from <= |s| &&
            Upper(|s|, start, end) - 1 <= to <= Upper(|s|, start, end) &&
            !CutsPair(s, from) && !CutsPair(s, to)
  {
  }

  // ---- what a slice of an encoded text is ------------------------------------------------------

  /** The first scalar value that starts at or after `k`. */
  function FirstFrom(text: seq<Scalar>, k: nat): (i: nat)
    requires k <= |Encode(text)|
    ensures i <= |text|
  {
    if k == 0 then 0
    else if |EncodeScalar(text[0])| >= k then 1
    else 1 + FirstFrom(text[1..], k - |EncodeScalar(text[0])|)
  }

  /** How many scalar values end at or before `k`. */
  function FitCount(text: seq<Scalar>, k: nat): (j: nat)
    ensures j <= |text|
  {
    if text == [] || |EncodeScalar(text[0])| > k then 0
    else 1 + FitCount(text[1..], k - |EncodeScalar(text[0])|)
  }

  lemma CutsPairLater(c: Scalar, rest: seq<CodeUnit>, k: nat)
    requires k > |EncodeScalar(c)|
    ensures CutsPair(EncodeScalar(c) + rest, k) <==> CutsPair(rest, k - |EncodeScalar(c)|)
  {
  }

  lemma FirstUnitNotLow(text: seq<Scalar>)
    ensures Encode(text) != [] ==> !IsLowSurrogate(Encode(text)[0])
  {
  }

  /** Moving a cut forward off a pair lands on the start of a scalar value. */
  lemma {:induction false} AfterIsBoundary(text: seq<Scalar>, k: nat)
    requires k <= |Encode(text)|
    ensures After(Encode(text), k) == Offset(text, FirstFrom(text, k))
  {
    var i := FirstFrom(text, k);
    if k == 0 {
      assert text[..0] == [];
    } else {
      var n := |EncodeScalar(text[0])|;
      FirstUnitNotLow(text[1..]);
      assert text[..i][0] == text[0] && text[..i][1..] == text[1..][..i - 1];
      if n >= k {
        var one := text[..1];
        assert one[0] == text[0] && one[1..] == [];
        assert Encode(one) == EncodeScalar(one[0]) + Encode(one[1..]);
        var head := Encode(text)[..n];
        assert head == EncodeScalar(text[0]) && head[n - 1] == Encode(text)[n - 1] && head[0] == Encode(text)[0];
        assert k < n ==> k == 1 && n == 2 && head[1] == Encode(text)[1];
      } else {
        AfterIsBoundary(text[1..], k - n);
        CutsPairLater(text[0], Encode(text[1..]), k);
      }
    }
  }

  /** Moving a cut back off a pair lands on the end of the last scalar value that fits. */
  lemma {:induction false} BeforeIsBoundary(text: seq<Scalar>, k: nat)
    requires k <= |Encode(text)|
    ensures Before(Encode(text), k) == Offset(text, FitCount(text, k))
  {
    var j := FitCount(text, k);
    if text == [] || |EncodeScalar(text[0])| > k {
      assert text[..0] == [];
    } else {
      var n := |EncodeScalar(text[0])|;
      assert text[..j][0] == text[0] && text[..j][1..] == text[1..][..j - 1];
      BeforeIsBoundary(text[1..], k - n);
      FirstUnitNotLow(text[1..]);
      if k > n { CutsPairLater(text[0], Encode(text[1..]), k); }
    }
  }

  /** The two counts mean what their names say. */
  lemma {:induction false} CountsAreExtreme(text: seq<Scalar>, k: nat)
    ensures Offset(text, FitCount(text, k)) <= k
    ensures forall j | FitCount(text, k) < j <= |text| :: k < Offset(text, j)
    ensures k <= |Encode(text)| ==> k <= Offset(text, FirstFrom(text, k))
    ensures k <= |Encode(text)| ==> forall i | 0 <= i < FirstFrom(text, k) :: Offset(text, i) < k
  {
    if text == [] {
      assert text[..0] == [];
    } else {
      var n := |EncodeScalar(text[0])|;
      forall i | 0 < i <= |text| ensures Offset(text, i) == n + Offset(text[1..], i - 1) {
        assert text[..i][0] == text[0] && text[..i][1..] == text[1..][..i - 1];
      }
      assert text[..0] == [] && text[1..][..0] == [];
      if n <= k { CountsAreExtreme(text[1..], k - n); }
    }
  }

  lemma EncodedRange(text: seq<Scalar>, i: nat, j: nat)
    requires i <= j <= |text|
    ensures Offset(text, i) <= Offset(text, j) <= |Encode(text)|
    ensures Encode(text)[Offset(text, i)..Offset(text, j)] == Encode(text[i..j])
  {
    assert text == text[..i] + text[i..j] + text[j..] && text[..j] == text[..i] + text[i..j];
    EncodeAppend(text[..i] + text[i..j], text[j..]);
    EncodeAppend(text[..i], text[i..j]);
  }

  /** Slicing the encoding of a text gives the encoding of the scalar values that lie wholly inside the
      plain clamped range, so well-formed text stays well formed. */
  lemma SliceIsTextSlice(text: seq<Scalar>, start: int, end: Option<int>)
    ensures var s := Encode(text);
            var i, j := FirstFrom(text, Lower(|s|, start, end)), FitCount(text, Upper(|s|, start, end));
            After(s, Lower(|s|, start, end)) <= |s| && Before(s, Upper(|s|, start, end)) <= |s| &&
            Slice(s, After(s, Lower(|s|, start, end)), Before(s, Upper(|s|, start, end)))
            == (if i <= j then Encode(text[i..j]) else [])
  {
    var s := Encode(text);
    var lo, hi := Lower(|s|, start, end), Upper(|s|, start, end);
    var i, j := FirstFrom(text, lo), FitCount(text, hi);
    AfterIsBoundary(text, lo);
    BeforeIsBoundary(text, hi);
    if i <= j {
      EncodedRange(text, i, j);
    } else {
      OffsetsIncrease(text, j, i);
    }
  }

  lemma SliceKeepsWellFormed(s: seq<CodeUnit>, start: int, end: Option<int>)
    requires WellFormed(s)
    ensures After(s, Lower(|s|, start, end)) <= |s| && Before(s, Upper(|s|, start, end)) <= |s|
    ensures WellFormed(Slice(s, After(s, Lower(|s|, start, end)), Before(s, Upper(|s|, start, end))))
  {
    var text :| s == Encode(text);
    SliceIsTextSlice(text, start, end);
    assert [] == Encode([]);
  }

  // ---- truncation ------------------------------------------------------------------------------

  function TruncationLimit(maxLen: real): nat {
    if maxLen.Floor < 0 then 0 else maxLen.Floor
  }

  function Truncated(input: seq<CodeUnit>, maxLen: real): (r: seq<CodeUnit>)
    ensures r <= input && |r| <= TruncationLimit(maxLen)
  {
    var limit := TruncationLimit(maxLen);
    if |input| <= limit then input else input[..Before(input, limit)]
  }

  method TruncateUtf16Safe(input: seq<CodeUnit>, maxLen: real) returns (r: seq<CodeUnit>)
    ensures r == Truncated(input, maxLen)
  {
    var limit := if maxLen.Floor > 0 then maxLen.Floor else 0;
    if |input| <= limit {
      return input;
    }
    r := SliceUtf16Safe(input, 0, Some(limit));
  }

  /** Truncating a text keeps exactly the scalar values that fit: the longest such prefix. */
  lemma TruncationKeepsWhatFits(text: seq<Scalar>, maxLen: real)
    ensures Truncated(Encode(text), maxLen) == Encode(text[..FitCount(text, TruncationLimit(maxLen))])
    ensures forall n | FitCount(text, TruncationLimit(maxLen)) < n <= |text| :: TruncationLimit(maxLen) < |Encode(text[..n])|
  {
    var s, limit := Encode(text), TruncationLimit(maxLen);
    var j := FitCount(text, limit);
    CountsAreExtreme(text, limit);
    assert text[..|text|] == text && text[..0] == [];
    if |s| <= limit {
      assert Offset(text, |text|) <= limit;
      assert j == |text|;
    } else {
      BeforeIsBoundary(text, limit);
      EncodedRange(text, 0, j);
      assert text[0..j] == text[..j];
    }
    forall n | j < n <= |text| ensures limit < |Encode(text[..n])| {
      assert limit < Offset(text, n);
    }
  }

  /** On any input, truncating twice is truncating once to the smaller limit. */
  lemma TruncateTwice(s: seq<CodeUnit>, a: real, b: real)
    ensures Truncated(Truncated(s, a), b) == Truncated(s, if a < b then a else b)
  {
    var once, m, n := Truncated(s, a), TruncationLimit(a), TruncationLimit(b);
    if n < |once| {
      assert once[n] == s[n] && (n > 0 ==> once[n - 1] == s[n - 1]);
      assert once[..Before(once, n)] == s[..Before(once, n)];
    }
  }
}
