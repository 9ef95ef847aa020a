/** The string operations the scraper applies to cell text: `str.strip`, `str.replace`, `str.isdigit`. */
module Text {

  /** The characters Python's `str.strip()` removes when called without arguments, restricted to
      Latin-1: the ASCII whitespace, the separators U+001C..U+001F, NEL and the no-break space. */
  const Whitespace: set<char> :=
    {' ', '\t', '\n', '\r', '\U{B}', '\U{C}', '\U{1C}', '\U{1D}', '\U{1E}', '\U{1F}', '\U{85}', '\U{A0}'}

  /** The euro sign. */
  const Euro: char := '\U{20AC}'

  /** The no-break space. */
  const Nbsp: char := '\U{A0}'

  predicate IsDigit(c: char) {
    '0' <= c <= '9'
  }

  predicate AllDigits(s: string) {
    forall k | 0 <= k < |s| :: IsDigit(s[k])
  }

  /** Python's `str.isdigit()` on ASCII text: true exactly for a non-empty run of digits. */
  predicate IsDigits(s: string) {
    s != [] && AllDigits(s)
  }

  /** Value of one decimal digit. */
  function DigitOf(c: char): nat
    requires IsDigit(c)
  {
    c as int - '0' as int
  }

  /** A string is its prefix, the character at `i` and its suffix. */
  lemma SplitAt(s: string, i: nat)
    requires i < |s|
    ensures s == s[..i] + [s[i]] + s[i + 1..]
  {
  }

  /** Number of occurrences of `c` in `s`. */
  function Count(s: string, c: char): nat {
    if s == [] then 0 else (if s[0] == c then 1 else 0) + Count(s[1..], c)
  }

  /** Occurrences add up over a concatenation. */
  lemma {:induction false} CountAppend(a: string, b: string, c: char)
    ensures Count(a + b, c) == Count(a, c) + Count(b, c)
  {
    if a != [] {
      assert (a + b)[1..] == a[1..] + b;
      CountAppend(a[1..], b, c);
    } else {
      assert a + b == b;
    }
  }

  /** `s.lstrip(chars)`: drops the longest prefix made of characters of `chars`. */
  function TrimStart(s: string, chars: set<char>): (r: string)
    ensures |r| <= |s|
    ensures r != [] ==> r[0] !in chars
    decreases |s|
  {
    if s != [] && s[0] in chars then TrimStart(s[1..], chars) else s
  }

  /** `lstrip` keeps a suffix of `s` and drops only characters of `chars` in front of it. */
  lemma {:induction false} TrimStartSplits(s: string, chars: set<char>)
    ensures var r := TrimStart(s, chars);
      && s[|s| - |r|..] == r
      && forall k | 0 <= k < |s| - |r| :: s[k] in chars
    decreases |s|
  {
    if s != [] && s[0] in chars {
      var r := TrimStart(s[1..], chars);
      TrimStartSplits(s[1..], chars);
      assert s[1..][|s| - 1 - |r|..] == s[|s| - |r|..];
      forall k | 1 <= k < |s| - |r| ensures s[k] in chars {
        assert s[k] == s[1..][k - 1];
      }
    }
  }

  /** `s.rstrip(chars)`: drops the longest suffix made of characters of `chars`. */
  function TrimEnd(s: string, chars: set<char>): (r: string)
    ensures |r| <= |s|
    ensures r != [] ==> r[|r| - 1] !in chars
    decreases |s|
  {
    if s != [] && s[|s| - 1] in chars then TrimEnd(s[..|s| - 1], chars) else s
  }

  /** `rstrip` keeps a prefix of `s` and drops only characters of `chars` after it. */
  lemma {:induction false} TrimEndSplits(s: string, chars: set<char>)
    ensures var r := TrimEnd(s, chars);
      && s == r + s[|r|..]
      && forall k | |r| <= k < |s| :: s[k] in chars
    decreases |s|
  {
    if s != [] && s[|s| - 1] in chars {
      var p := s[..|s| - 1];
      TrimEndSplits(p, chars);
      var r := TrimEnd(s, chars);
      assert p[|r|..] + [s[|s| - 1]] == s[|r|..];
      forall k | |r| <= k < |s| - 1 ensures s[k] in chars {
        assert s[k] == p[k];
      }
    }
  }

  /** `s.strip(chars)`; `Trim(s, Whitespace)` is `s.strip()`. */
  function Trim(s: string, chars: set<char>): (r: string)
    ensures |r| <= |s|
    ensures r != [] ==> r[|r| - 1] !in chars
  {
    TrimEnd(TrimStart(s, chars), chars)
  }

  /** `s.replace(c, "")`: every occurrence of `c` removed, the rest kept in order. */
  function Remove(s: string, c: char): (r: string)
    ensures |r| == |s| - Count(s, c)
    ensures Count(r, c) == 0
    ensures forall d | d != c :: Count(r, d) == Count(s, d)
    decreases |s|
  {
    if s == [] then []
    else if s[0] == c then Remove(s[1..], c)
    else
      var r := [s[0]] + Remove(s[1..], c);
      assert r[1..] == Remove(s[1..], c);
      r
  }

  /** `s.replace(c, d)` for single characters: every `c` becomes `d`, nothing else changes. */
  function Replace(s: string, c: char, d: char): (r: string)
    ensures |r| == |s|
    ensures forall k | 0 <= k < |s| :: r[k] == (if s[k] == c then d else s[k])
  {
    seq(|s|, k requires 0 <= k < |s| => if s[k] == c then d else s[k])
  }

  /** Replacing distributes over concatenation. */
  lemma ReplaceAppend(a: string, b: string, c: char, d: char)
    ensures Replace(a + b, c, d) == Replace(a, c, d) + Replace(b, c, d)
  {
    var l, r := Replace(a + b, c, d), Replace(a, c, d) + Replace(b, c, d);
    assert |l| == |r|;
    forall k | 0 <= k < |l| ensures l[k] == r[k] {
      if k < |a| {
        assert (a + b)[k] == a[k];
      } else {
        assert (a + b)[k] == b[k - |a|];
      }
    }
  }

  /** Stripping is idempotent: a stripped string has nothing left to strip. */
  lemma TrimIdempotent(s: string, chars: set<char>)
    ensures Trim(Trim(s, chars), chars) == Trim(s, chars)
  {
    var u := TrimStart(s, chars);
    var t := Trim(s, chars);
    TrimEndSplits(u, chars);
    if t != [] {
      assert t[0] == u[0];
      assert TrimStart(t, chars) == t;
      assert TrimEnd(t, chars) == t;
    }
  }

  /** A string is its stripped part with a prefix and a suffix of stripped characters around it. */
  lemma TrimDecomposes(s: string, chars: set<char>) returns (before: string, after: string)
    ensures s == before + Trim(s, chars) + after
    ensures forall k | 0 <= k < |before| :: before[k] in chars
    ensures forall k | 0 <= k < |after| :: after[k] in chars
  {
    var t := TrimStart(s, chars);
    var r := TrimEnd(t, chars);
    before := s[..|s| - |t|];
    assert s == before + t && forall k | 0 <= k < |before| :: before[k] in chars by {
      TrimStartSplits(s, chars);
      assert forall k | 0 <= k < |before| :: before[k] == s[k];
    }
    after := t[|r|..];
    assert t == r + after && forall k | 0 <= k < |after| :: after[k] in chars by {
      TrimEndSplits(t, chars);
    }
    assert r == Trim(s, chars);
    assert before + (r + after) == before + r + after;
  }

  /** `lstrip` passes over a leading run of stripped characters. */
  lemma {:induction false} TrimStartSkips(w: string, y: string, chars: set<char>)
    requires forall k | 0 <= k < |w| :: w[k] in chars
    ensures TrimStart(w + y, chars) == TrimStart(y, chars)
    decreases |w|
  {
    if w != [] {
      assert (w + y)[0] == w[0];
      assert (w + y)[1..] == w[1..] + y;
      TrimStartSkips(w[1..], y, chars);
    } else {
      assert w + y == y;
    }
  }

  /** `rstrip` passes over a trailing run of stripped characters. */
  lemma {:induction false} TrimEndSkips(x: string, w: string, chars: set<char>)
    requires forall k | 0 <= k < |w| :: w[k] in chars
    ensures TrimEnd(x + w, chars) == TrimEnd(x, chars)
    decreases |w|
  {
    if w != [] {
      var xw := x + w;
      assert xw[|xw| - 1] == w[|w| - 1];
      assert xw[..|xw| - 1] == x + w[..|w| - 1];
      TrimEndSkips(x, w[..|w| - 1], chars);
    } else {
      assert x + w == x;
    }
  }

  /** Stripping removes exactly the runs of stripped characters around a text that neither
      starts nor ends with one. */
  lemma TrimSurrounded(w1: string, x: string, w2: string, chars: set<char>)
    requires forall k | 0 <= k < |w1| :: w1[k] in chars
    requires forall k | 0 <= k < |w2| :: w2[k] in chars
    requires x == [] || (x[0] !in chars && x[|x| - 1] !in chars)
    ensures Trim(w1 + x + w2, chars) == x
  {
    assert w1 + x + w2 == w1 + (x + w2);
    TrimStartSkips(w1, x + w2, chars);
    if x != [] {
      assert (x + w2)[0] == x[0];
      assert TrimStart(x + w2, chars) == x + w2;
      TrimEndSkips(x, w2, chars);
    } else {
      assert x + w2 == w2 + [];
      TrimStartSkips(w2, [], chars);
    }
  }

  /** Neither end of a stripped string is a stripped character. */
  lemma TrimEnds(s: string, chars: set<char>)
    ensures var r := Trim(s, chars);
      r == [] || (r[0] !in chars && r[|r| - 1] !in chars)
  {
    var t := TrimStart(s, chars);
    var r := TrimEnd(t, chars);
    if r != [] {
      assert t == r + t[|r|..] by {
        TrimEndSplits(t, chars);
      }
      assert r[0] == t[0];
    }
  }

  /** `s.strip(chars)` is empty exactly when every character of `s` is in `chars`. */
  lemma TrimEmptyIff(s: string, chars: set<char>)
    ensures Trim(s, chars) == [] <==> forall k | 0 <= k < |s| :: s[k] in chars
  {
    if forall k | 0 <= k < |s| :: s[k] in chars {
      assert s + [] == s;
      TrimStartSkips(s, [], chars);
    }
    if Trim(s, chars) == [] {
      var before, after := TrimDecomposes(s, chars);
      assert s == before + after;
      forall k | 0 <= k < |s| ensures s[k] in chars {
        if k < |before| {
          assert s[k] == before[k];
        } else {
          assert s[k] == after[k - |before|];
        }
      }
    }
  }

  /** Decimal value of a string of digits, most significant first; `int(s)` when `s.isdigit()`. */
  function DigitsValue(s: string): nat
    requires AllDigits(s)
  {
    if s == [] then 0 else DigitOf(s[0]) * Pow10(|s| - 1) + DigitsValue(s[1..])
  }

  function Pow10(n: nat): (p: nat)
    ensures p >= 1
  {
    if n == 0 then 1 else 10 * Pow10(n - 1)
  }

  /** `str(n)` for a natural number: its decimal digits without leading zeros. */
  function NatToDigits(n: nat): (s: string)
    ensures IsDigits(s)
    ensures |s| > 1 ==> s[0] != '0'
  {
    if n < 10 then ['0' + n as char] else NatToDigits(n / 10) + ['0' + (n % 10) as char]
  }

  lemma MultiplyBelow(x: nat, y: nat, p: nat)
    requires x <= y
    ensures x * p <= y * p
  {
  }

  /** The value of `k` digits is below `10^k`. */
  lemma {:induction false} DigitsValueBound(s: string)
    requires AllDigits(s)
    ensures DigitsValue(s) < Pow10(|s|)
  {
    if s != [] {
      DigitsValueBound(s[1..]);
      var p := Pow10(|s| - 1);
      assert Pow10(|s|) == 10 * p;
      MultiplyBelow(DigitOf(s[0]), 9, p);
    }
  }

  /** Appending a digit shifts the value one place: `DigitsValue(s + [c]) == 10 * DigitsValue(s) + c`. */
  lemma {:induction false} DigitsValueAppendDigit(s: string, c: char)
    requires AllDigits(s)
    requires IsDigit(c)
    ensures DigitsValue(s + [c]) == 10 * DigitsValue(s) + DigitOf(c)
  {
    if s != [] {
      assert (s + [c])[1..] == s[1..] + [c];
      DigitsValueAppendDigit(s[1..], c);
      var p := Pow10(|s| - 1);
      assert DigitOf(s[0]) * (10 * p) == 10 * (DigitOf(s[0]) * p);
    }
  }

  /** Reading back the digits `str(n)` gives `n`: `int(str(n)) == n`. */
  lemma {:induction false} DigitsOfNatRoundTrip(n: nat)
    ensures DigitsValue(NatToDigits(n)) == n
  {
    if n >= 10 {
      DigitsOfNatRoundTrip(n / 10);
      DigitsValueAppendDigit(NatToDigits(n / 10), '0' + (n % 10) as char);
    }
  }
}
