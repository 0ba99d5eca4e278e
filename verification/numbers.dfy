/** The two numeric coercions of a captured row: `usize::from_str` for the
    user count and `f64::from_str` for the load (src/main.rs:118-128). */
module Numbers {
  import opened Outcomes
  import opened Chars

  function Pow10(n: nat): (p: nat)
    ensures p >= 1
  {
    if n == 0 then 1 else 10 * Pow10(n - 1)
  }

  predicate AllAsciiDigits(t: string) {
    forall k :: 0 <= k < |t| ==> IsAsciiDigit(t[k])
  }

  /** The decimal value of a string of ASCII digits (the empty string is 0). */
  function ParseDigits(t: string): (n: nat)
    requires AllAsciiDigits(t)
    ensures n < Pow10(|t|)
  {
    if |t| == 0 then 0
    else
      var m := ParseDigits(t[..|t| - 1]);
      assert m * 10 <= (Pow10(|t| - 1) - 1) * 10;
      m * 10 + DigitValue(t[|t| - 1])
  }

  /** Shortest decimal spelling of `n`. */
  function ShowNat(n: nat): (t: string)
    ensures |t| > 0 && AllAsciiDigits(t)
  {
    if n < 10 then [DigitChar(n)] else ShowNat(n / 10) + [DigitChar(n % 10)]
  }

  /** `f` spelled with exactly `m` digits, leading zeros included. */
  function PadDigits(f: nat, m: nat): (t: string)
    requires f < Pow10(m)
    ensures |t| == m && AllAsciiDigits(t)
  {
    if m == 0 then [] else PadDigits(f / 10, m - 1) + [DigitChar(f % 10)]
  }

  lemma {:induction false} ShowNatRoundTrip(n: nat)
    ensures ParseDigits(ShowNat(n)) == n
  {
    if n >= 10 {
      var t := ShowNat(n);
      assert t[..|t| - 1] == ShowNat(n / 10);
      ShowNatRoundTrip(n / 10);
    }
  }

  lemma {:induction false} PadDigitsRoundTrip(f: nat, m: nat)
    requires f < Pow10(m)
    ensures ParseDigits(PadDigits(f, m)) == f
  {
    if m > 0 {
      var t := PadDigits(f, m);
      assert t[..|t| - 1] == PadDigits(f / 10, m - 1);
      PadDigitsRoundTrip(f / 10, m - 1);
    }
  }

  /** `usize::from_str` applied to a `\d+` capture: only ASCII digits are
      accepted, so a non-ASCII digit that `\d` let through makes it fail. */
  function ParseUsers(t: string): (r: Option<nat>)
    ensures r.Some? <==> |t| > 0 && AllAsciiDigits(t)
    ensures r.Some? ==> r.value < Pow10(|t|)
  {
    if |t| > 0 && AllAsciiDigits(t) then Some(ParseDigits(t)) else None
  }

  /** A user count printed in decimal parses back. */
  lemma ParseUsersRoundTrip(n: nat)
    ensures ParseUsers(ShowNat(n)) == Some(n)
  {
    ShowNatRoundTrip(n);
  }

  /** So does one padded with leading zeros to `m` digits. */
  lemma ParseUsersPadded(n: nat, m: nat)
    requires 0 < m && n < Pow10(m)
    ensures ParseUsers(PadDigits(n, m)) == Some(n)
  {
    PadDigitsRoundTrip(n, m);
  }

  function CountChar(t: string, c: char): (n: nat)
    ensures n <= |t|
  {
    if |t| == 0 then 0 else (if t[0] == c then 1 else 0) + CountChar(t[1..], c)
  }

  lemma {:induction false} CountCharConcat(a: string, b: string, c: char)
    ensures CountChar(a + b, c) == CountChar(a, c) + CountChar(b, c)
  {
    if |a| > 0 {
      assert (a + b)[0] == a[0];
      assert (a + b)[1..] == a[1..] + b;
      CountCharConcat(a[1..], b, c);
    } else {
      assert a + b == b;
    }
  }

  lemma {:induction false} CountCharZero(t: string, c: char)
    ensures CountChar(t, c) == 0 <==> forall k :: 0 <= k < |t| ==> t[k] != c
  {
    if |t| > 0 {
      CountCharZero(t[1..], c);
      assert forall k :: 1 <= k < |t| ==> t[k] == t[1..][k - 1];
    }
  }

  /** The texts `f64::from_str` accepts among those the `[\d\.]+` capture can
      produce: ASCII digits with at most one '.', and at least one digit
      (so "5", "5.", ".5" and "5.25" parse; ".", "1.2.3" and non-ASCII digits do not). */
  predicate IsDecimalText(t: string) {
    && (forall k :: 0 <= k < |t| ==> IsAsciiDigit(t[k]) || t[k] == '.')
    && CountChar(t, '.') <= 1
    && CountChar(t, '.') < |t|
  }

  /** Index of the first '.' at or after `i`. */
  function FirstDot(t: string, i: nat): (r: Option<nat>)
    requires i <= |t|
    ensures r.None? ==> forall k :: i <= k < |t| ==> t[k] != '.'
    ensures r.Some? ==> i <= r.value < |t| && t[r.value] == '.'
    ensures r.Some? ==> forall k :: i <= k < r.value ==> t[k] != '.'
    decreases |t| - i
  {
    if i == |t| then None else if t[i] == '.' then Some(i) else FirstDot(t, i + 1)
  }

  /** Without a '.', a load text is decimal exactly when it is a non-empty digit string. */
  lemma NoDotDecimal(t: string)
    requires FirstDot(t, 0).None?
    ensures IsDecimalText(t) <==> |t| > 0 && AllAsciiDigits(t)
  {
    CountCharZero(t, '.');
  }

  /** The first '.' at `d` is the only one outside `t[d + 1..]`. */
  lemma DotCount(t: string, d: nat)
    requires FirstDot(t, 0) == Some(d)
    ensures CountChar(t, '.') == 1 + CountChar(t[d + 1..], '.')
  {
    var whole, frac := t[..d], t[d + 1..];
    assert t == whole + ['.'] + frac;
    CountCharConcat(whole + ['.'], frac, '.');
    CountCharConcat(whole, ['.'], '.');
    CountCharZero(whole, '.');
  }

  /** Around its first '.', a text of digits and dots with no second dot is
      exactly two digit strings. */
  lemma DotDigits(t: string, d: nat)
    requires FirstDot(t, 0) == Some(d)
    ensures ((forall k :: 0 <= k < |t| ==> IsAsciiDigit(t[k]) || t[k] == '.') && CountChar(t[d + 1..], '.') == 0)
        <==> AllAsciiDigits(t[..d]) && AllAsciiDigits(t[d + 1..])
  {
    var frac := t[d + 1..];
    CountCharZero(frac, '.');
    assert forall k :: 0 <= k < |frac| ==> frac[k] == t[d + 1 + k];
    assert forall k :: 0 <= k < d ==> t[..d][k] == t[k];
  }

  /** With its first '.' at `d`, a load text is decimal exactly when both
      sides of that '.' are digit strings and not both are empty. */
  lemma DotDecimal(t: string, d: nat)
    requires FirstDot(t, 0) == Some(d)
    ensures IsDecimalText(t) <==>
      AllAsciiDigits(t[..d]) && AllAsciiDigits(t[d + 1..]) && |t| > 1
  {
    DotCount(t, d);
    DotDigits(t, d);
  }

  /** The exact value of the decimal `whole.frac`. */
  function DecimalValue(whole: string, frac: string): (v: real)
    requires AllAsciiDigits(whole) && AllAsciiDigits(frac)
    ensures v >= 0.0
  {
    ParseDigits(whole) as real + ParseDigits(frac) as real / Pow10(|frac|) as real
  }

  /** `f64::from_str` on a load capture, as an exact decimal. */
  function ParseLoad(t: string): (r: Option<real>)
    ensures r.Some? <==> IsDecimalText(t)
    ensures r.Some? ==> r.value >= 0.0
  {
    match FirstDot(t, 0)
    case None =>
      NoDotDecimal(t);
      if |t| > 0 && AllAsciiDigits(t) then Some(ParseDigits(t) as real) else None
    case Some(d) =>
      DotDecimal(t, d);
      var whole, frac := t[..d], t[d + 1..];
      if AllAsciiDigits(whole) && AllAsciiDigits(frac) && |t| > 1 then
        Some(DecimalValue(whole, frac))
      else None
  }

  /** A whole-number load parses to its value. */
  lemma ParseLoadWhole(n: nat)
    ensures ParseLoad(ShowNat(n)) == Some(n as real)
  {
    ShowNatRoundTrip(n);
    var t := ShowNat(n);
    assert FirstDot(t, 0).None?;
  }

  /** So does one padded with leading zeros, such as `007`. */
  lemma ParseLoadPadded(n: nat, m: nat)
    requires 0 < m && n < Pow10(m)
    ensures ParseLoad(PadDigits(n, m)) == Some(n as real)
  {
    PadDigitsRoundTrip(n, m);
    var t := PadDigits(n, m);
    assert FirstDot(t, 0).None?;
  }

  /** The value of a decimal load text with its first '.' at `d`. */
  lemma ParseLoadAt(t: string, d: nat)
    requires FirstDot(t, 0) == Some(d)
    requires AllAsciiDigits(t[..d]) && AllAsciiDigits(t[d + 1..]) && |t| > 1
    ensures ParseLoad(t) == Some(DecimalValue(t[..d], t[d + 1..]))
  {
  }

  /** Digits, a '.', digits (not both empty) parse to whole plus fraction. */
  lemma ParseLoadSplit(whole: string, frac: string)
    requires AllAsciiDigits(whole) && AllAsciiDigits(frac) && |whole| + |frac| > 0
    ensures ParseLoad(whole + ['.'] + frac) == Some(DecimalValue(whole, frac))
  {
    var t := whole + ['.'] + frac;
    FirstDotAfterDigits(whole, frac);
    assert t[..|whole|] == whole;
    assert t[|whole| + 1..] == frac;
    ParseLoadAt(t, |whole|);
  }

  /** A load written as `w.fff…` (`m` fraction digits) parses to `w + f / 10^m`. */
  lemma ParseLoadFraction(w: nat, f: nat, m: nat)
    requires f < Pow10(m)
    ensures ParseLoad(ShowNat(w) + ['.'] + PadDigits(f, m))
         == Some(w as real + f as real / Pow10(m) as real)
  {
    ShowNatRoundTrip(w);
    PadDigitsRoundTrip(f, m);
    ParseLoadSplit(ShowNat(w), PadDigits(f, m));
  }

  /** A load written as `.fff…` with no whole part parses to `f / 10^m`. */
  lemma ParseLoadLeadingDot(f: nat, m: nat)
    requires 0 < m && f < Pow10(m)
    ensures ParseLoad(['.'] + PadDigits(f, m)) == Some(f as real / Pow10(m) as real)
  {
    PadDigitsRoundTrip(f, m);
    ParseLoadSplit([], PadDigits(f, m));
    assert [] + ['.'] + PadDigits(f, m) == ['.'] + PadDigits(f, m);
  }

  lemma FirstDotAfterDigits(whole: string, frac: string)
    requires AllAsciiDigits(whole)
    ensures FirstDot(whole + ['.'] + frac, 0) == Some(|whole|)
  {
    var t := whole + ['.'] + frac;
    var r := FirstDot(t, 0);
    assert t[|whole|] == '.';
    assert r.Some? && r.value <= |whole|;
  }

  /** Two dots, or no digit at all, is a parse failure. */
  lemma ParseLoadRejects()
    ensures ParseLoad("1.2.3") == None
    ensures ParseLoad(".") == None
    ensures ParseLoad("\U{0661}.5") == None
  {
    assert CountChar("1.2.3", '.') == 2;
    assert CountChar(".", '.') == 1;
    assert !IsAsciiDigit("\U{0661}.5"[0]);
  }
}
