/** Python's `float()` and `int(float())` on the plain decimal text the scraper feeds them
    (digits with at most one `.`), computed exactly over the reals. */
module Decimal {
  import opened Wrappers
  import opened Text

  predicate IsDigitOrDot(c: char) {
    IsDigit(c) || c == '.'
  }

  /** The grammar `float()` is modelled on: digits and dots only, at most one dot, at least one
      digit. `"5."`, `".5"` and `"007"` belong to it; `""`, `"."` and `"1.2.3"` do not. */
  predicate IsDecimalText(s: string) {
    && (forall k | 0 <= k < |s| :: IsDigitOrDot(s[k]))
    && Count(s, '.') <= 1
    && Count(s, '.') < |s|
  }

  /** Position of the first `.` in `s`, or `|s|` when there is none. */
  function DotIndex(s: string): (i: nat)
    ensures i <= |s|
    ensures i < |s| ==> s[i] == '.'
  {
    if s == [] || s[0] == '.' then 0 else 1 + DotIndex(s[1..])
  }

  /** No dot comes before the one `DotIndex` finds. */
  lemma {:induction false} NoDotBefore(s: string)
    ensures Count(s[..DotIndex(s)], '.') == 0
  {
    if s != [] && s[0] != '.' {
      NoDotBefore(s[1..]);
      assert s[..DotIndex(s)] == [s[0]] + s[1..][..DotIndex(s[1..])];
    }
  }

  /** The digits before the dot. */
  function WholePart(s: string): string {
    s[..DotIndex(s)]
  }

  /** The digits after the dot, empty when there is no dot. */
  function FractionPart(s: string): string {
    var i := DotIndex(s);
    if i < |s| then s[i + 1..] else []
  }

  /** `float(s)`: `None` where Python raises `ValueError`, otherwise the exact value
      `whole + frac / 10^|frac|` (no binary rounding). */
  function ParseDecimal(s: string): (r: Option<real>)
    ensures r.Some? ==> r.value >= 0.0
  {
    var whole, frac := WholePart(s), FractionPart(s);
    if whole + frac == [] || !AllDigits(whole) || !AllDigits(frac) then None
    else Some(FixedPointValue(whole, frac))
  }

  /** The exact value of the decimal text `whole.frac`. */
  function FixedPointValue(whole: string, frac: string): real
    requires AllDigits(whole) && AllDigits(frac)
  {
    DigitsValue(whole) as real + DigitsValue(frac) as real / Pow10(|frac|) as real
  }

  /** Python's `int()` on a float: truncation toward zero. */
  function Truncate(x: real): (n: int)
    ensures x >= 0.0 ==> n as real <= x < n as real + 1.0
    ensures x < 0.0 ==> n as real - 1.0 < x <= n as real
  {
    if x >= 0.0 then x.Floor else -((-x).Floor)
  }

  lemma {:induction false} CountAbsent(s: string, c: char)
    ensures Count(s, c) == 0 <==> forall k | 0 <= k < |s| :: s[k] != c
  {
    if s != [] {
      CountAbsent(s[1..], c);
      assert forall k | 1 <= k < |s| :: s[k] == s[1..][k - 1];
    }
  }

  lemma {:induction false} CountBound(s: string, c: char)
    ensures Count(s, c) <= |s|
    ensures Count(s, c) == |s| <==> forall k | 0 <= k < |s| :: s[k] == c
  {
    if s != [] {
      CountBound(s[1..], c);
      assert forall k | 1 <= k < |s| :: s[k] == s[1..][k - 1];
    }
  }

  /** How the dots of `s` are spread over its whole part, its dot and its fraction part. */
  lemma DotsAroundFirstDot(s: string)
    ensures var i := DotIndex(s);
      && Count(WholePart(s), '.') == 0
      && (i == |s| ==> s == WholePart(s) && FractionPart(s) == [])
      && (i < |s| ==> s == WholePart(s) + ['.'] + FractionPart(s)
                      && Count(s, '.') == 1 + Count(FractionPart(s), '.'))
  {
    var i := DotIndex(s);
    var whole, frac := WholePart(s), FractionPart(s);
    if i < |s| {
      SplitAt(s, i);
    }
    assert Count(whole, '.') == 0 by {
      NoDotBefore(s);
    }
    if i < |s| {
      assert Count(s, '.') == 1 + Count(frac, '.') by {
        CountAppend(whole + ['.'], frac, '.');
        CountAppend(whole, ['.'], '.');
      }
    }
  }

  /** `float()` accepts exactly the strings of the grammar `IsDecimalText`. */
  lemma ParseDecimalGrammar(s: string)
    ensures ParseDecimal(s).Some? <==> IsDecimalText(s)
  {
    var i := DotIndex(s);
    var whole, frac := WholePart(s), FractionPart(s);
    DotsAroundFirstDot(s);
    if IsDecimalText(s) {
      ParseAcceptsGrammar(s);
    }
    if ParseDecimal(s).Some? {
      assert Count(frac, '.') == 0 by {
        CountAbsent(frac, '.');
      }
      assert whole + frac != [];
      forall k | 0 <= k < |s| ensures IsDigitOrDot(s[k]) {
        if k < i {
          assert s[k] == whole[k];
        } else if k > i {
          assert s[k] == frac[k - i - 1];
        }
      }
    }
  }

  /** Every string of the grammar parses. */
  lemma ParseAcceptsGrammar(s: string)
    requires IsDecimalText(s)
    ensures ParseDecimal(s).Some?
  {
    var i := DotIndex(s);
    var whole, frac := WholePart(s), FractionPart(s);
    DotsAroundFirstDot(s);
    assert AllDigits(whole) by {
      CountAbsent(whole, '.');
      forall k | 0 <= k < |whole| ensures IsDigit(whole[k]) {
        assert whole[k] == s[k];
      }
    }
    assert AllDigits(frac) by {
      CountAbsent(frac, '.');
      forall k | 0 <= k < |frac| ensures IsDigit(frac[k]) {
        assert frac[k] == s[i + 1 + k];
      }
    }
    assert whole + frac != [] by {
      CountBound(s, '.');
    }
  }

  /** A string of digits parses to its integer value: `float("9178654") == 9178654.0`. */
  lemma ParseDigits(s: string)
    requires IsDigits(s)
    ensures ParseDecimal(s) == Some(DigitsValue(s) as real)
  {
    assert WholePart(s) == s && FractionPart(s) == [] by {
      DotIndexOfDigits(s);
    }
    assert FixedPointValue(s, []) == DigitsValue(s) as real;
  }

  /** A run of digits has no dot: `DotIndex` runs to its end. */
  lemma {:induction false} DotIndexOfDigits(s: string)
    requires AllDigits(s)
    ensures DotIndex(s) == |s|
  {
    if s != [] {
      DotIndexOfDigits(s[1..]);
    }
  }

  /** `int(float(s))` keeps exactly the digits before the dot: `int(float("9178654.0")) == 9178654`. */
  lemma TruncateKeepsWholePart(s: string)
    requires ParseDecimal(s).Some?
    ensures AllDigits(WholePart(s))
    ensures Truncate(ParseDecimal(s).value) == DigitsValue(WholePart(s))
  {
    var whole, frac := WholePart(s), FractionPart(s);
    DigitsValueBound(frac);
    var w := DigitsValue(whole);
    var f := DigitsValue(frac) as real / Pow10(|frac|) as real;
    FractionBelowOne(DigitsValue(frac), Pow10(|frac|));
    assert ParseDecimal(s).value == FixedPointValue(whole, frac) == w as real + f;
    var t := Truncate(w as real + f);
    assert t as real <= w as real + f < t as real + 1.0;
  }

  /** Truncating the value of `w.f` leaves the value of `w`. */
  lemma TruncateFixedPoint(w: string, f: string)
    requires AllDigits(w) && AllDigits(f)
    ensures Truncate(FixedPointValue(w, f)) == DigitsValue(w)
  {
    DigitsValueBound(f);
    FractionBelowOne(DigitsValue(f), Pow10(|f|));
  }

  lemma FractionBelowOne(n: nat, d: nat)
    requires n < d
    ensures 0.0 <= n as real / d as real < 1.0
  {
  }

  /** The first dot after a run of digits is found at the end of that run. */
  lemma {:induction false} DotIndexAfterDigits(w: string, rest: string)
    requires AllDigits(w) && rest != [] && rest[0] == '.'
    ensures DotIndex(w + rest) == |w|
    decreases |w|
  {
    if w != [] {
      assert (w + rest)[1..] == w[1..] + rest;
      DotIndexAfterDigits(w[1..], rest);
    }
  }

  /** Fixed-point text `w.f`, like the hidden cell `"73665455.48"`, is read as
      `w + f / 10^|f|`; `"5."` and `".5"` are accepted, `"."` is not. */
  lemma ParseFixedPoint(w: string, f: string)
    requires AllDigits(w) && AllDigits(f) && w + f != []
    ensures ParseDecimal(w + ['.'] + f) == Some(FixedPointValue(w, f))
  {
    var s := w + ['.'] + f;
    var rest := ['.'] + f;
    assert s == w + rest;
    DotIndexAfterDigits(w, rest);
    var i := DotIndex(s);
    assert s[..i] == w;
    assert s[i + 1..] == f;
    assert WholePart(s) == w;
    assert FractionPart(s) == f;
  }
}
