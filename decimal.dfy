/**
 Decimal rendering of integers as Go's fmt package prints them under the
 verbs `%d` (no width) and `%0<w>d` (zero flag and a width), together with a
 reader for the digit strings it produces.
 */
module Decimal {

  datatype Option<T> = None | Some(value: T)

  predicate IsDigit(c: char) {
    '0' <= c <= '9'
  }

  predicate AllDigits(s: string) {
    forall i :: 0 <= i < |s| ==> IsDigit(s[i])
  }

  /** The character of a single decimal digit. */
  function DigitChar(d: nat): (c: char)
    requires d < 10
    ensures IsDigit(c) && c as int - '0' as int == d
  {
    ('0' as int + d) as char
  }

  /** The value of a digit character; inverse of DigitChar. */
  function DigitValue(c: char): (d: nat)
    requires IsDigit(c)
    ensures d < 10 && DigitChar(d) == c
  {
    c as int - '0' as int
  }

  function Pow10(w: nat): (p: nat)
    ensures p >= 1
  {
    if w == 0 then 1 else 10 * Pow10(w - 1)
  }

  /** The shortest decimal rendering of `n`: what `%d` prints for a non-negative int. */
  function Digits(n: nat): (s: string)
    ensures |s| >= 1 && AllDigits(s)
    ensures n >= 10 ==> s[0] != '0'
  {
    if n < 10 then [DigitChar(n)] else Digits(n / 10) + [DigitChar(n % 10)]
  }

  function Zeros(k: nat): (s: string)
    ensures |s| == k && AllDigits(s)
  {
    if k == 0 then [] else Zeros(k - 1) + ['0']
  }

  /** Left-pads `s` with '0' up to `width` characters; a longer `s` is kept whole. */
  function ZeroPad(s: string, width: nat): (r: string)
    ensures |r| >= width && |r| >= |s|
    ensures |s| >= width ==> r == s
  {
    if |s| >= width then s else Zeros(width - |s|) + s
  }

  /**
   What Go's fmt prints for the int `n` under `%0<width>d` (`width == 0` is
   plain `%d`).  The width is a minimum, never a truncation; for a negative
   number the sign counts towards the width and the zeros go between the
   sign and the digits, so `%04d` of -5 is "-005".
   */
  function FormatInt(n: int, width: nat): (s: string)
    ensures |s| >= width && |s| >= 1
    ensures n >= 0 <==> IsDigit(s[0])
    ensures n >= 0 ==> AllDigits(s)
    ensures n < 0 ==> s[0] == '-'
  {
    if n >= 0 then ZeroPad(Digits(n), width)
    else "-" + ZeroPad(Digits(-n), if width == 0 then 0 else width - 1)
  }

  /** The number a string of decimal digits denotes (leading zeros allowed). */
  function Value(s: string): (n: nat)
    requires AllDigits(s)
    ensures n < Pow10(|s|)
  {
    if s == [] then 0
    else
      var init := s[..|s| - 1];
      assert AllDigits(init) by {
        forall i | 0 <= i < |init| ensures IsDigit(init[i]) { assert init[i] == s[i]; }
      }
      var v := Value(init);
      assert 10 * v + 9 < 10 * Pow10(|init|) by {
        assert v + 1 <= Pow10(|init|);
      }
      10 * v + DigitValue(s[|s| - 1])
  }

  /** The last `w` decimal digits of `n`, most significant first. */
  function FixedDigits(n: nat, w: nat): (s: string)
    ensures |s| == w && AllDigits(s)
  {
    if w == 0 then [] else FixedDigits(n / 10, w - 1) + [DigitChar(n % 10)]
  }

  /**
   A reader for what `%d` prints: an optional '-' followed by at least one
   digit.  It is the reference inverse of FormatInt(_, 0).
   */
  function ParseInt(s: string): (r: Option<int>)
    ensures r.Some? <==> (|s| >= 1 && AllDigits(s)) || (|s| >= 2 && s[0] == '-' && AllDigits(s[1..]))
    ensures r.Some? && AllDigits(s) ==> r.value == Value(s)
    ensures r.Some? && s[0] == '-' ==> r.value == -(Value(s[1..]) as int)
  {
    if |s| >= 1 && s[0] == '-' then
      if |s| >= 2 && AllDigits(s[1..]) then Some(-(Value(s[1..]) as int)) else None
    else if |s| >= 1 && AllDigits(s) then Some(Value(s))
    else None
  }

  lemma ValueSnoc(s: string, c: char)
    requires AllDigits(s) && IsDigit(c)
    ensures AllDigits(s + [c])
    ensures Value(s + [c]) == 10 * Value(s) + DigitValue(c)
  {
    assert (s + [c])[..|s|] == s;
  }

  /** `Value` reads back exactly the number `Digits` wrote. */
  lemma {:induction false} ValueOfDigits(n: nat)
    ensures Value(Digits(n)) == n
  {
    if n >= 10 {
      ValueOfDigits(n / 10);
      ValueSnoc(Digits(n / 10), DigitChar(n % 10));
    }
  }

  /** The width of `%d` as a bound: `n` takes at most `w` digits exactly when it is below 10^w. */
  lemma {:induction false} DigitsLength(n: nat, w: nat)
    requires w >= 1
    ensures |Digits(n)| <= w <==> n < Pow10(w)
  {
    if n >= 10 && w >= 2 {
      DigitsLength(n / 10, w - 1);
    }
  }

  lemma {:induction false} FixedDigitsOfZero(k: nat)
    ensures FixedDigits(0, k) == Zeros(k)
  {
    if k > 0 {
      FixedDigitsOfZero(k - 1);
    }
  }

  lemma ZeroPadSnoc(s: string, c: char, w: nat)
    requires w >= 1
    ensures ZeroPad(s + [c], w) == ZeroPad(s, w - 1) + [c]
  {
    if |s| + 1 < w {
      assert Zeros(w - |s| - 1) + (s + [c]) == (Zeros(w - 1 - |s|) + s) + [c];
    }
  }

  /** Below 10^w, zero-padding the shortest rendering to `w` gives the fixed-width digits. */
  lemma {:induction false} PaddedDigitsAreFixed(n: nat, w: nat)
    requires w >= 1 && n < Pow10(w)
    ensures ZeroPad(Digits(n), w) == FixedDigits(n, w)
  {
    var d := DigitChar(n % 10);
    if n < 10 {
      calc {
        ZeroPad(Digits(n), w);
        { assert Digits(n) == [] + [d]; }
        ZeroPad([] + [d], w);
        { ZeroPadSnoc([], d, w); }
        ZeroPad([], w - 1) + [d];
        { FixedDigitsOfZero(w - 1); }
        FixedDigits(0, w - 1) + [d];
        FixedDigits(n, w);
      }
    } else {
      assert w >= 2 && n / 10 < Pow10(w - 1);
      calc {
        ZeroPad(Digits(n), w);
        ZeroPad(Digits(n / 10) + [d], w);
        { ZeroPadSnoc(Digits(n / 10), d, w); }
        ZeroPad(Digits(n / 10), w - 1) + [d];
        { PaddedDigitsAreFixed(n / 10, w - 1); }
        FixedDigits(n / 10, w - 1) + [d];
        FixedDigits(n, w);
      }
    }
  }

  lemma {:induction false} ValueOfFixedDigits(n: nat, w: nat)
    requires n < Pow10(w)
    ensures Value(FixedDigits(n, w)) == n
  {
    if w > 0 {
      ValueOfFixedDigits(n / 10, w - 1);
      ValueSnoc(FixedDigits(n / 10, w - 1), DigitChar(n % 10));
    }
  }

  lemma {:induction false} FixedDigitsOfValue(s: string)
    requires AllDigits(s)
    ensures FixedDigits(Value(s), |s|) == s
  {
    if s != [] {
      var init, c := s[..|s| - 1], s[|s| - 1];
      assert s == init + [c];
      ValueSnoc(init, c);
      FixedDigitsOfValue(init);
      var v := Value(s);
      assert v / 10 == Value(init) && v % 10 == DigitValue(c);
    }
  }

  /**
   A field value that fits its width prints as exactly `w` digits, and
   reading those digits gives the value back.
   */
  lemma FieldRendering(n: int, w: nat)
    requires w >= 1 && 0 <= n < Pow10(w)
    ensures FormatInt(n, w) == FixedDigits(n, w)
    ensures |FormatInt(n, w)| == w && AllDigits(FormatInt(n, w))
    ensures Value(FormatInt(n, w)) == n
  {
    PaddedDigitsAreFixed(n, w);
    ValueOfFixedDigits(n, w);
  }

  /** Any `w` digits are what `%0<w>d` prints for the value they denote. */
  lemma FieldFromDigits(s: string)
    requires |s| >= 1 && AllDigits(s)
    ensures FormatInt(Value(s), |s|) == s
  {
    PaddedDigitsAreFixed(Value(s), |s|);
    FixedDigitsOfValue(s);
  }

  /**
   A `%0<w>d` rendering is exactly `w` characters long and starts with a
   digit only when the value fits the width.
   */
  lemma FieldWidthExact(n: int, w: nat)
    requires w >= 1
    requires |FormatInt(n, w)| == w && IsDigit(FormatInt(n, w)[0])
    ensures 0 <= n < Pow10(w)
  {
    DigitsLength(n, w);
  }

  /** Round trip of the decimal quantity column: what `%d` prints, ParseInt reads back. */
  lemma DecimalRoundTrip(n: int)
    ensures ParseInt(FormatInt(n, 0)) == Some(n)
  {
    var s := FormatInt(n, 0);
    if n >= 0 {
      ValueOfDigits(n);
      assert s == Digits(n);
    } else {
      ValueOfDigits(-n);
      assert s == "-" + Digits(-n);
      assert s[1..] == Digits(-n);
    }
  }
}
