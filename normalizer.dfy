/** `clean_number`: turns euro-formatted text such as `"€ 73.665.455"` into a number, or into
    `None` when no digit or comma is left. Dots are thousands separators, a comma is the
    decimal point. */
module NumberNormalizer {
  import opened Wrappers
  import opened Failures
  import opened Text
  import opened Decimal

  /** `re.sub(r"[^0-9.]", "", s)`: keeps the ASCII digits and the dots, in order. */
  function KeepDigitsAndDots(s: string): (r: string)
    ensures |r| <= |s|
    ensures forall k | 0 <= k < |r| :: IsDigitOrDot(r[k])
    ensures forall d | IsDigitOrDot(d) :: Count(r, d) == Count(s, d)
    decreases |s|
  {
    if s == [] then []
    else if !IsDigitOrDot(s[0]) then KeepDigitsAndDots(s[1..])
    else
      var r := [s[0]] + KeepDigitsAndDots(s[1..]);
      assert r[1..] == KeepDigitsAndDots(s[1..]);
      r
  }

  /** The text `clean_number` hands to `float()`, built by the same chain of calls:
      strip, drop the euro sign, NBSP to space, strip, drop the dots, comma to dot, keep
      digits and dots. It holds only digits and dots, and no more characters than the input. */
  function CleanedText(s: string): (r: string)
    ensures |r| <= |s|
    ensures forall k | 0 <= k < |r| :: IsDigitOrDot(r[k])
  {
    var t := Trim(s, Whitespace);
    var t := Trim(Replace(Remove(t, Euro), Nbsp, ' '), Whitespace);
    var t := Remove(t, '.');
    var t := Replace(t, ',', '.');
    KeepDigitsAndDots(t)
  }

  /** `clean_number(s)`: `None` input and empty cleaned text give `None`; otherwise the value of
      `float()` on the cleaned text, whose `ValueError` aborts the run. */
  function CleanNumber(s: Option<string>): (r: Result<Option<real>, Failure>)
    ensures r.Success? && r.value.Some? ==> r.value.value >= 0.0
  {
    match s
    case None => Success(None)
    case Some(text) =>
      var cleaned := CleanedText(text);
      if cleaned == [] then Success(None)
      else match ParseDecimal(cleaned)
        case None => Failure(ValueError(cleaned))
        case Some(v) => Success(Some(v))
  }

  /** The same cleaning as one left-to-right pass: a digit is kept, a comma becomes a dot,
      every other character (the original dots, the euro sign, spaces, NBSP) is dropped. */
  function OnePass(s: string): string
    decreases |s|
  {
    if s == [] then []
    else (if IsDigit(s[0]) then [s[0]] else if s[0] == ',' then ['.'] else []) + OnePass(s[1..])
  }

  /** The cleaned text holds only digits and dots, one dot for each comma of the input. */
  lemma {:induction false} OnePassShape(s: string)
    ensures forall k | 0 <= k < |OnePass(s)| :: IsDigitOrDot(OnePass(s)[k])
    ensures Count(OnePass(s), '.') == Count(s, ',')
    decreases |s|
  {
    if s != [] {
      OnePassShape(s[1..]);
      var head := if IsDigit(s[0]) then [s[0]] else if s[0] == ',' then ['.'] else [];
      CountAppend(head, OnePass(s[1..]), '.');
      assert OnePass(s) == head + OnePass(s[1..]);
    }
  }

  lemma {:induction false} OnePassAppend(a: string, b: string)
    ensures OnePass(a + b) == OnePass(a) + OnePass(b)
  {
    if a == [] {
      assert a + b == b;
    } else {
      assert (a + b)[1..] == a[1..] + b;
      OnePassAppend(a[1..], b);
    }
  }

  /** Text that the cleaning drops entirely: no digit and no comma, such as `"€ "` or `""`. */
  predicate Ignored(p: string) {
    forall k | 0 <= k < |p| :: !IsDigit(p[k]) && p[k] != ','
  }

  /** Characters that are neither digits nor commas leave no trace in the cleaned text. */
  lemma {:induction false} OnePassOfIgnored(w: string)
    requires Ignored(w)
    ensures OnePass(w) == []
  {
    if w != [] {
      OnePassOfIgnored(w[1..]);
    }
  }

  lemma WhitespaceIgnored(c: char)
    requires c in Whitespace
    ensures !IsDigit(c) && c != ','
  {
  }

  /** Stripping whitespace does not change the cleaned text. */
  lemma OnePassTrim(s: string)
    ensures OnePass(Trim(s, Whitespace)) == OnePass(s)
  {
    var t := Trim(s, Whitespace);
    var before, after := TrimDecomposes(s, Whitespace);
    forall k | 0 <= k < |before| ensures !IsDigit(before[k]) && before[k] != ',' {
      WhitespaceIgnored(before[k]);
    }
    forall k | 0 <= k < |after| ensures !IsDigit(after[k]) && after[k] != ',' {
      WhitespaceIgnored(after[k]);
    }
    OnePassAppend(before + t, after);
    OnePassAppend(before, t);
    OnePassOfIgnored(before);
    OnePassOfIgnored(after);
  }

  /** Removing a character the pass drops anyway does not change the cleaned text. */
  lemma {:induction false} OnePassRemove(s: string, c: char)
    requires !IsDigit(c) && c != ','
    ensures OnePass(Remove(s, c)) == OnePass(s)
    decreases |s|
  {
    if s != [] {
      OnePassRemove(s[1..], c);
      OnePassAppend(if s[0] == c then [] else [s[0]], Remove(s[1..], c));
    }
  }

  /** Replacing one dropped character by another does not change the cleaned text. */
  lemma {:induction false} OnePassReplace(s: string, c: char, d: char)
    requires !IsDigit(c) && c != ',' && !IsDigit(d) && d != ','
    ensures OnePass(Replace(s, c, d)) == OnePass(s)
    decreases |s|
  {
    if s != [] {
      assert Replace(s, c, d)[1..] == Replace(s[1..], c, d);
      OnePassReplace(s[1..], c, d);
    }
  }

  /** The last three steps of the chain (drop dots, comma to dot, keep digits and dots) are the
      one-pass cleaning. */
  lemma {:induction false} TailIsOnePass(t: string)
    ensures KeepDigitsAndDots(Replace(Remove(t, '.'), ',', '.')) == OnePass(t)
    decreases |t|
  {
    if t != [] {
      TailIsOnePass(t[1..]);
      var rest := Remove(t[1..], '.');
      if t[0] == '.' {
        assert Remove(t, '.') == rest;
      } else {
        var c := if t[0] == ',' then '.' else t[0];
        assert Remove(t, '.') == [t[0]] + rest;
        ReplaceAppend([t[0]], rest, ',', '.');
        assert Replace([t[0]], ',', '.') == [c];
        var x := [c] + Replace(rest, ',', '.');
        assert x[1..] == Replace(rest, ',', '.');
        assert KeepDigitsAndDots(x) == (if IsDigitOrDot(c) then [c] else []) + KeepDigitsAndDots(x[1..]);
      }
    }
  }

  /** The whole chain of `clean_number` equals the single pass `OnePass`. */
  lemma CleanedIsOnePass(s: string)
    ensures CleanedText(s) == OnePass(s)
  {
    var t1 := Trim(s, Whitespace);
    var t2 := Trim(Replace(Remove(t1, Euro), Nbsp, ' '), Whitespace);
    TailIsOnePass(t2);
    OnePassTrim(Replace(Remove(t1, Euro), Nbsp, ' '));
    OnePassReplace(Remove(t1, Euro), Nbsp, ' ');
    OnePassRemove(t1, Euro);
    OnePassTrim(s);
  }

  /** What `clean_number` returns, in terms of the one-pass cleaning: `None` for `None` and for
      text with neither a digit nor a comma (`""`, `"€ "`, `"abc"`); a `ValueError` when commas are
      left that `float()` cannot read (two or more of them, or one and no digit: `","`, `"1,2,3"`);
      a number otherwise. */
  lemma CleanNumberOutcome(s: string)
    ensures CleanNumber(None) == Success(None)
    ensures CleanNumber(Some(s)) == Success(None) <==> OnePass(s) == []
    ensures CleanNumber(Some(s)).Failure? <==>
      OnePass(s) != [] && (Count(s, ',') > 1 || Count(s, ',') == |OnePass(s)|)
    ensures CleanNumber(Some(s)).Failure? ==> CleanNumber(Some(s)).error == ValueError(OnePass(s))
  {
    var c := OnePass(s);
    CleanedIsOnePass(s);
    OnePassShape(s);
    ParseDecimalGrammar(c);
    CountBound(c, '.');
  }

  /** Without a decimal comma the value is the integer made of all the digits of the text, in
      order; this covers every thousands-grouped amount such as `"€ 73.665.455"`. */
  lemma CommaFreeIsInteger(s: string)
    requires Count(s, ',') == 0 && OnePass(s) != []
    ensures IsDigits(OnePass(s))
    ensures CleanNumber(Some(s)) == Success(Some(DigitsValue(OnePass(s)) as real))
  {
    var c := OnePass(s);
    CleanedIsOnePass(s);
    OnePassShape(s);
    CountAbsent(c, '.');
    ParseDigits(c);
  }

  /** `clean_number` on text, read through the one-pass cleaning. */
  lemma CleanNumberByPass(s: string)
    ensures CleanNumber(Some(s)) ==
      if OnePass(s) == [] then Success(None)
      else match ParseDecimal(OnePass(s))
        case None => Failure(ValueError(OnePass(s)))
        case Some(v) => Success(Some(v))
  {
    CleanedIsOnePass(s);
  }

  /** A run of digits passes through the cleaning unchanged. */
  lemma {:induction false} OnePassOfDigits(d: string)
    requires AllDigits(d)
    ensures OnePass(d) == d
    decreases |d|
  {
    if d != [] {
      OnePassOfDigits(d[1..]);
    }
  }

  /** Once the cleaned text is a run of digits, `clean_number` returns its integer value. */
  lemma CleanNumberOfDigits(s: string)
    requires IsDigits(OnePass(s))
    ensures CleanNumber(Some(s)) == Success(Some(DigitsValue(OnePass(s)) as real))
  {
    CleanNumberByPass(s);
    ParseDigits(OnePass(s));
  }

  /** Dropped characters between two parts leave the two cleaned parts side by side. */
  lemma OnePassSkip(x: string, w: string, y: string)
    requires Ignored(w)
    ensures OnePass(x + w + y) == OnePass(x) + OnePass(y)
  {
    OnePassOfIgnored(w);
    OnePassAppend(x, w);
    assert OnePass(x + w) == OnePass(x) by {
      assert OnePass(x) + [] == OnePass(x);
    }
    OnePassAppend(x + w, y);
  }

  /** Cleaning `p a.b.c`, for a prefix `p` the pass drops, keeps the digit groups and nothing
      else. */
  lemma GroupedPass(p: string, a: string, b: string, c: string)
    requires Ignored(p)
    requires IsDigits(a) && IsDigits(b) && IsDigits(c)
    ensures OnePass(p + a + ['.'] + b + ['.'] + c) == a + b + c
  {
    assert OnePass(p + a) == a by {
      OnePassSkip([], p, a);
      assert [] + p + a == p + a;
      OnePassOfDigits(a);
    }
    assert OnePass(p + a + ['.'] + b) == a + b by {
      OnePassSkip(p + a, ['.'], b);
      OnePassOfDigits(b);
    }
    assert OnePass(p + a + ['.'] + b + ['.'] + c) == a + b + c by {
      OnePassSkip(p + a + ['.'] + b, ['.'], c);
      OnePassOfDigits(c);
    }
  }

  /** The docstring's first two examples: `"€ 73.665.455"` (`p` = `"€ "`) and `"9.178.654"`
      (`p` empty) are the integers written by their digit groups, the dots being thousands
      separators. */
  lemma ThousandsGroupedAmount(p: string, a: string, b: string, c: string)
    requires Ignored(p)
    requires IsDigits(a) && IsDigits(b) && IsDigits(c)
    ensures IsDigits(a + b + c)
    ensures CleanNumber(Some(p + a + ['.'] + b + ['.'] + c)) ==
      Success(Some(DigitsValue(a + b + c) as real))
  {
    GroupedPass(p, a, b, c);
    CleanNumberOfDigits(p + a + ['.'] + b + ['.'] + c);
  }

  /** A decimal comma after thousands-grouped digits: `"€ 9.178.654,30"` style text is read as
      `whole + frac / 10^|frac|`. */
  lemma DecimalCommaAmount(p: string, a: string, b: string, c: string, f: string)
    requires Ignored(p)
    requires IsDigits(a) && IsDigits(b) && IsDigits(c) && AllDigits(f)
    ensures AllDigits(a + b + c)
    ensures CleanNumber(Some(p + a + ['.'] + b + ['.'] + c + [','] + f)) ==
      Success(Some(FixedPointValue(a + b + c, f)))
  {
    var g := p + a + ['.'] + b + ['.'] + c;
    var s := g + [','] + f;
    assert OnePass(s) == (a + b + c) + ['.'] + f by {
      GroupedPass(p, a, b, c);
      assert OnePass([',']) == ['.'];
      OnePassOfDigits(f);
      OnePassAppend(g, [',']);
      OnePassAppend(g + [','], f);
    }
    assert ParseDecimal(OnePass(s)) == Some(FixedPointValue(a + b + c, f)) by {
      ParseFixedPoint(a + b + c, f);
    }
    CleanNumberByPass(s);
  }

  /** A dot is always a thousands separator, even in front of two decimals: the docstring's
      `"25477068.30"` gives 2547706830, not 25477068.30. */
  lemma DotIsThousandsSeparator(a: string, f: string)
    requires IsDigits(a) && IsDigits(f)
    ensures IsDigits(a + f)
    ensures CleanNumber(Some(a + ['.'] + f)) == Success(Some(DigitsValue(a + f) as real))
  {
    assert OnePass(a + ['.'] + f) == a + f by {
      OnePassSkip(a, ['.'], f);
      OnePassOfDigits(a);
      OnePassOfDigits(f);
    }
    CleanNumberOfDigits(a + ['.'] + f);
  }
}
