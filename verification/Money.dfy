/** Displayed money amounts, read into exact integer minor units. */
module Money {
  import opened Primitives
  import opened Text

  const LETTER_K: CodeUnit := 0x4B
  const LETTER_M: CodeUnit := 0x4D
  const LETTER_B: CodeUnit := 0x42
  const US: Text := [0x55, 0x53]
  const USD: Text := [0x55, 0x53, 0x44]
  const DOLLAR: Text := [0x44, 0x4F, 0x4C, 0x4C, 0x41, 0x52]
  const DOLLARS: Text := [0x44, 0x4F, 0x4C, 0x4C, 0x41, 0x52, 0x53]

  // ---------- what is stripped ----------

  predicate IsWordUnit(c: CodeUnit) {
    IsUpper(c) || IsLower(c) || IsDigit(c) || c == UNDERSCORE
  }

  predicate StartsWith(s: Text, t: Text) {
    |t| <= |s| && s[..|t|] == t
  }

  /** A word of length n at the start of s ends at a word boundary. */
  predicate EndsWord(s: Text, n: nat) {
    n >= |s| || !IsWordUnit(s[n])
  }

  function DollarWord(s: Text): (n: nat)
    ensures n <= |s|
  {
    if StartsWith(s, DOLLARS) && EndsWord(s, 7) then 7
    else if StartsWith(s, DOLLAR) && EndsWord(s, 6) then 6
    else 0
  }

  /** The length of the currency word at the start of s, or 0. */
  function CurrencyWord(s: Text): (n: nat)
    ensures n <= |s|
    ensures n > 0 ==> IsUpper(s[0]) && s[0] != LETTER_K && s[0] != LETTER_M && s[0] != LETTER_B
  {
    if StartsWith(s, USD) && EndsWord(s, 3) then assert s[0] == s[..3][0]; 3
    else if StartsWith(s, US) && DollarWord(TrimStart(s[2..])) > 0 then
      assert s[0] == s[..2][0];
      |s| - |TrimStart(s[2..])| + DollarWord(TrimStart(s[2..]))
    else if DollarWord(s) > 0 then assert s[0] == s[..6][0]; DollarWord(s)
    else 0
  }

  /** Every currency word between word boundaries goes; `inWord` tells whether a word unit comes just before. */
  function RemoveCurrencyWords(s: Text, inWord: bool): (r: Text) {
    if s == [] then []
    else if !inWord && CurrencyWord(s) > 0 then RemoveCurrencyWords(s[CurrencyWord(s)..], true)
    else [s[0]] + RemoveCurrencyWords(s[1..], IsWordUnit(s[0]))
  }

  predicate IsCurrencySymbol(c: CodeUnit) {
    c == 0x24 || c == 0x20AC || c == 0xA3 || c == 0xA5
  }

  function RemoveCurrencySymbols(s: Text): (r: Text) {
    if s == [] then []
    else if |s| >= 3 && StartsWith(s, US) && IsCurrencySymbol(s[2]) then RemoveCurrencySymbols(s[3..])
    else if IsCurrencySymbol(s[0]) then RemoveCurrencySymbols(s[1..])
    else [s[0]] + RemoveCurrencySymbols(s[1..])
  }

  predicate IsSeparator(c: CodeUnit) {
    c == COMMA || c == UNDERSCORE || IsSpace(c)
  }

  function RemoveSeparators(s: Text): (r: Text) {
    if s == [] then [] else (if IsSeparator(s[0]) then [] else [s[0]]) + RemoveSeparators(s[1..])
  }

  function Stripped(value: Text): (r: Text) {
    RemoveSeparators(RemoveCurrencySymbols(RemoveCurrencyWords(value, false)))
  }

  // ---------- the displayed decimal ----------

  /** Digits, perhaps a point and more digits, perhaps K, M or B. */
  datatype Amount = Amount(whole: Text, fraction: Text, suffix: Option<CodeUnit>)

  predicate IsAmount(a: Amount) {
    && a.whole != [] && AllDigits(a.whole) && AllDigits(a.fraction)
    && (a.suffix.Some? ==> a.suffix.value in {LETTER_K, LETTER_M, LETTER_B})
  }

  function AmountText(a: Amount): (r: Text) {
    a.whole + (if a.fraction == [] then [] else [DOT] + a.fraction) + SuffixText(a.suffix)
  }

  function SuffixOf(rest: Text, whole: Text, fraction: Text): (r: Option<Amount>) {
    if rest == [] then Some(Amount(whole, fraction, None))
    else if |rest| == 1 && rest[0] in {LETTER_K, LETTER_M, LETTER_B} then Some(Amount(whole, fraction, Some(rest[0])))
    else None
  }

  function Matched(value: Text): (r: Option<Amount>)
    ensures r.Some? ==> IsAmount(r.value)
  {
    var k := DigitSpan(value);
    if k == 0 then None
    else
      var rest := value[k..];
      if rest != [] && rest[0] == DOT then
        var j := DigitSpan(rest[1..]);
        if j == 0 then None else SuffixOf(rest[1..][j..], value[..k], rest[1..][..j])
      else SuffixOf(rest, value[..k], [])
  }

  function Pow10(n: nat): (r: nat)
    ensures r > 0
  {
    if n == 0 then 1 else 10 * Pow10(n - 1)
  }

  function Multiplier(suffix: Option<CodeUnit>): (r: nat)
    ensures r > 0
  {
    if suffix == Some(LETTER_K) then 1000
    else if suffix == Some(LETTER_M) then 1000000
    else if suffix == Some(LETTER_B) then 1000000000
    else 1
  }

  function MinorUnits(a: Amount, fractionDigits: nat): (r: Option<int>)
    requires IsAmount(a)
  {
    var denominator := Pow10(|a.fraction|);
    var numerator := DecimalValue(a.whole + a.fraction) * Multiplier(a.suffix) * Pow10(fractionDigits);
    if numerator % denominator != 0 then None
    else
      var result := numerator / denominator;
      if result > MAX_SAFE_INTEGER then None else Some(result)
  }

  predicate Parenthesized(value: Text) {
    |value| >= 2 && value[0] == 0x28 && value[|value| - 1] == 0x29
    && forall i | 1 <= i < |value| - 1 :: value[i] !in {NEWLINE, RETURN, 0x2028, 0x2029}
  }

  datatype Parse = Throws | Nothing | Minor(units: int)

  function ParseMoneyMinorUnits(raw: Text, fractionDigits: int): (r: Parse) {
    if fractionDigits < 0 || fractionDigits > 6 then Throws
    else
      var value := Upper(Trim(raw));
      if value == [] || HYPHEN in value || Parenthesized(value) then Nothing
      else
        match Matched(Stripped(value))
        case None => Nothing
        case Some(amount) =>
          match MinorUnits(amount, fractionDigits)
          case None => Nothing
          case Some(units) => Minor(units)
  }

  // ---------- the grammar ----------

  lemma MatchedWhole(whole: Text, rest: Text)
    requires whole != [] && AllDigits(whole) && (rest == [] || (!IsDigit(rest[0]) && rest[0] != DOT))
    ensures Matched(whole + rest) == SuffixOf(rest, whole, [])
  {
    hide DigitSpan, SuffixOf, AllDigits;
    DigitSpanOf(whole, rest);
    var value := whole + rest;
    assert value[..|whole|] == whole && value[|whole|..] == rest;
  }

  lemma MatchedFraction(whole: Text, fraction: Text, rest: Text)
    requires whole != [] && AllDigits(whole) && fraction != [] && AllDigits(fraction)
        && (rest == [] || !IsDigit(rest[0]))
    ensures Matched(whole + ([DOT] + (fraction + rest))) == SuffixOf(rest, whole, fraction)
  {
    hide DigitSpan, SuffixOf, AllDigits;
    var tail := [DOT] + (fraction + rest);
    DigitSpanOf(whole, tail);
    DigitSpanOf(fraction, rest);
    var value := whole + tail;
    assert value[..|whole|] == whole && value[|whole|..] == tail;
    assert tail[1..] == fraction + rest;
    assert (fraction + rest)[..|fraction|] == fraction && (fraction + rest)[|fraction|..] == rest;
  }

  function SuffixText(suffix: Option<CodeUnit>): (r: Text) {
    if suffix.Some? then [suffix.value] else []
  }

  lemma SuffixIs(suffix: Option<CodeUnit>, whole: Text, fraction: Text)
    requires suffix.Some? ==> suffix.value in {LETTER_K, LETTER_M, LETTER_B}
    ensures SuffixOf(SuffixText(suffix), whole, fraction) == Some(Amount(whole, fraction, suffix))
    ensures var t := SuffixText(suffix); t == [] || (!IsDigit(t[0]) && t[0] != DOT)
  {
  }

  lemma SuffixMeans(rest: Text, whole: Text, fraction: Text)
    ensures SuffixOf(rest, whole, fraction).Some? ==>
      var a := SuffixOf(rest, whole, fraction).value;
          a.whole == whole && a.fraction == fraction && rest == SuffixText(a.suffix)
  {
  }

  lemma MatchedIsWritten(value: Text)
    ensures Matched(value).Some? ==> value == AmountText(Matched(value).value)
  {
    hide DigitSpan, SuffixOf, AllDigits, IsAmount;
    var k := DigitSpan(value);
    var rest := value[k..];
    assert value == value[..k] + rest;
    if rest != [] && rest[0] == DOT {
      var j := DigitSpan(rest[1..]);
      SuffixMeans(rest[1..][j..], value[..k], rest[1..][..j]);
      assert rest == [DOT] + rest[1..][..j] + rest[1..][j..];
    } else {
      SuffixMeans(rest, value[..k], []);
    }
  }

  /** A text is matched as an amount exactly when it is that amount written out. */
  lemma MatchesExactly(value: Text, a: Amount)
    ensures Matched(value) == Some(a) <==> IsAmount(a) && value == AmountText(a)
  {
    hide Matched, SuffixOf, AllDigits;
    MatchedIsWritten(value);
    if IsAmount(a) && value == AmountText(a) {
      SuffixIs(a.suffix, a.whole, a.fraction);
      var suffix := SuffixText(a.suffix);
      if a.fraction == [] {
        assert value == a.whole + suffix;
        MatchedWhole(a.whole, suffix);
      } else {
        assert value == a.whole + ([DOT] + (a.fraction + suffix));
        MatchedFraction(a.whole, a.fraction, suffix);
      }
    }
  }

  // ---------- the value ----------

  lemma {:induction false} DigitsJoined(a: Text, b: Text)
    requires AllDigits(a) && AllDigits(b)
    ensures DecimalValue(a + b) == DecimalValue(a) * Pow10(|b|) + DecimalValue(b)
  {
    if b == [] {
      assert a + b == a;
    } else {
      var n := |b| - 1;
      DigitsJoined(a, b[..n]);
      Distribute(DecimalValue(a), Pow10(n));
      assert (a + b)[..|a| + n] == a + b[..n] && (a + b)[|a| + n] == b[n];
      assert DecimalValue(a + b) == 10 * (DecimalValue(a) * Pow10(n) + DecimalValue(b[..n])) + (b[n] - ZERO);
    }
  }

  lemma Distribute(x: nat, p: nat)
    ensures 10 * (x * p) == x * (10 * p)
  {
  }

  /** The number that digits before and after a decimal point stand for. */
  ghost function Number(whole: Text, fraction: Text): (r: real)
    requires AllDigits(whole) && AllDigits(fraction)
  {
    DecimalValue(whole) as real + DecimalValue(fraction) as real / Pow10(|fraction|) as real
  }

  /** How many places the suffix moves the decimal point: thousands, millions, billions. */
  ghost function Places(suffix: Option<CodeUnit>): nat {
    match suffix
    case None => 0
    case Some(c) => if c == LETTER_K then 3 else if c == LETTER_M then 6 else 9
  }

  /** The amount written out without its suffix: the decimal point is moved, and zeros are added as needed. */
  ghost function WrittenOut(a: Amount): (r: Amount)
    requires IsAmount(a)
    ensures IsAmount(r) && r.suffix == None
  {
    var n := Places(a.suffix);
    ZerosAre(n);
    if n <= |a.fraction| then Amount(a.whole + a.fraction[..n], a.fraction[n..], None)
    else
      ZerosAre(n - |a.fraction|);
      Amount(a.whole + a.fraction + Repeat(ZERO, n - |a.fraction|), [], None)
  }

  lemma {:induction false} ZerosAre(n: nat)
    ensures |Repeat(ZERO, n)| == n && AllDigits(Repeat(ZERO, n)) && DecimalValue(Repeat(ZERO, n)) == 0
  {
    if n > 0 {
      ZerosAre(n - 1);
      var z := Repeat(ZERO, n - 1);
      assert Repeat(ZERO, n) == [ZERO] + z;
      DigitsJoined([ZERO], z);
      assert [ZERO][..0] == [] && DecimalValue([ZERO]) == 0;
    }
  }

  /** The number displayed, suffix included. */
  ghost function Displayed(a: Amount): (r: real)
    requires IsAmount(a)
  {
    Number(WrittenOut(a).whole, WrittenOut(a).fraction)
  }

  lemma NumberTimes(whole: Text, fraction: Text)
    requires AllDigits(whole) && AllDigits(fraction)
    ensures Number(whole, fraction) * Pow10(|fraction|) as real == DecimalValue(whole + fraction) as real
  {
    hide DecimalValue, Pow10;
    DigitsJoined(whole, fraction);
    var w, f, p := DecimalValue(whole), DecimalValue(fraction), Pow10(|fraction|);
    Scaled(w as real, f as real, p as real, 1.0);
    Embeds(w, f, p, 1);
  }

  lemma {:induction false} Pow10Sum(m: nat, n: nat)
    ensures Pow10(m + n) == Pow10(m) * Pow10(n)
  {
    if m > 0 {
      Pow10Sum(m - 1, n);
      Distribute(Pow10(n), Pow10(m - 1));
    }
  }

  /** Each suffix is worth ten to the places it moves the point. */
  lemma MultiplierIs(a: Amount)
    requires IsAmount(a)
    ensures Multiplier(a.suffix) == Pow10(Places(a.suffix))
  {
    assert Pow10(3) == 1000;
    Pow10Sum(3, 3);
    Pow10Sum(3, 6);
  }

  lemma TimesMore(d: real, x: real, y: real, n: real)
    requires d * x == n
    ensures d * (x * y) == n * y
  {
    assert d * (x * y) == d * x * y;
  }

  lemma DisplayedIs(a: Amount)
    requires IsAmount(a)
    ensures Displayed(a) * Pow10(|a.fraction|) as real
        == (DecimalValue(a.whole + a.fraction) * Multiplier(a.suffix)) as real
  {
    hide DecimalValue, Pow10, Multiplier, Number, Places, IsAmount;
    MultiplierIs(a);
    AmountDigits(a);
    var n, p, digits := Places(a.suffix), WrittenOut(a), DecimalValue(a.whole + a.fraction);
    AmountDigits(p);
    NumberTimes(p.whole, p.fraction);
    var d := Displayed(a);
    Product(digits, Pow10(n));
    if n <= |a.fraction| {
      assert p.whole + p.fraction == a.whole + a.fraction;
      Pow10Sum(|a.fraction| - n, n);
      Product(Pow10(|a.fraction| - n), Pow10(n));
      TimesMore(d, Pow10(|a.fraction| - n) as real, Pow10(n) as real, digits as real);
    } else {
      var m := n - |a.fraction|;
      ZerosAre(m);
      assert p.whole + p.fraction == a.whole + a.fraction + Repeat(ZERO, m);
      DigitsJoined(a.whole + a.fraction, Repeat(ZERO, m));
      NoPlaces();
      Product(digits, Pow10(m));
      Pow10Sum(m, |a.fraction|);
      Product(Pow10(m), Pow10(|a.fraction|));
      TimesMore(d, 1.0, Pow10(|a.fraction|) as real, digits as real * Pow10(m) as real);
      Regroup(digits as real, Pow10(m) as real, Pow10(|a.fraction|) as real);
    }
  }

  lemma Regroup(x: real, y: real, z: real)
    ensures x * y * z == x * (y * z)
  {
  }

  lemma NoPlaces()
    ensures Pow10(0) == 1
  {
  }

  lemma AmountDigits(a: Amount)
    requires IsAmount(a)
    ensures AllDigits(a.whole) && AllDigits(a.fraction) && AllDigits(a.whole + a.fraction)
  {
  }

  lemma Scaled(w: real, f: real, p: real, m: real)
    requires p > 0.0
    ensures (w + f / p) * m * p == (w * p + f) * m
  {
    assert f / p * p == f;
    assert (w + f / p) * m * p == (w * p + f / p * p) * m;
  }

  lemma Embeds(w: nat, f: nat, p: nat, m: nat)
    ensures (w as real * p as real + f as real) * m as real == ((w * p + f) * m) as real
  {
    Product(w, p);
    Product(w * p + f, m);
  }

  lemma {:induction false} Product(x: nat, y: nat)
    ensures x as real * y as real == (x * y) as real
  {
    if y > 0 {
      Product(x, y - 1);
      assert x * y == x * (y - 1) + x;
      assert x as real * y as real == x as real * (y - 1) as real + x as real;
    }
  }

  /** v is the exact number of minor units displayed. */
  ghost predicate IsExactly(v: nat, a: Amount, fractionDigits: nat)
    requires IsAmount(a)
  {
    v as real == Displayed(a) * Pow10(fractionDigits) as real
  }

  lemma ExactlyMeans(v: nat, a: Amount, fractionDigits: nat)
    requires IsAmount(a)
    ensures IsExactly(v, a, fractionDigits) <==>
      v * Pow10(|a.fraction|) == DecimalValue(a.whole + a.fraction) * Multiplier(a.suffix) * Pow10(fractionDigits)
  {
    hide DecimalValue, Pow10, Multiplier, Displayed;
    DisplayedIs(a);
    var p, q, d, n := Pow10(|a.fraction|), Pow10(fractionDigits), Displayed(a),
        DecimalValue(a.whole + a.fraction) * Multiplier(a.suffix);
    Product(v, p);
    Product(n, q);
    CrossMultiplied(v as real, d, p as real, q as real, n as real);
  }

  lemma CrossMultiplied(v: real, d: real, p: real, q: real, n: real)
    requires p > 0.0 && d * p == n
    ensures v == d * q <==> v * p == n * q
  {
    assert d * q * p == n * q;
    if v * p == n * q {
      assert (v - d * q) * p == 0.0;
    }
  }

  lemma Divides(v: nat, n: nat, p: nat)
    requires p > 0
    ensures v * p == n <==> n % p == 0 && n / p == v
  {
    var q, r := n / p, n % p;
    assert n == q * p + r;
    assert (v - q) * p == v * p - q * p;
    if v * p == n {
      OnlyZeroFits(v - q, p, r);
    }
  }

  /** The only multiple of p from 0 up to p is 0. */
  lemma OnlyZeroFits(d: int, p: int, r: int)
    requires d * p == r && 0 <= r < p
    ensures d == 0 && r == 0
  {
    assert d * p == (d - 1) * p + p && d * p == -((-d - 1) * p) - p;
    if d >= 1 {
      ProductNonNegative(d - 1, p);
    } else if d <= -1 {
      ProductNonNegative(-d - 1, p);
    }
  }

  /** The minor units are v exactly when v is what is displayed, without rounding, and a safe integer. */
  lemma MinorUnitsMean(a: Amount, fractionDigits: nat, v: nat)
    requires IsAmount(a)
    ensures MinorUnits(a, fractionDigits) == Some(v) <==> IsExactly(v, a, fractionDigits) && v <= MAX_SAFE_INTEGER
  {
    hide IsExactly, Pow10, DecimalValue, Multiplier;
    var p := Pow10(|a.fraction|);
    var m, q := Multiplier(a.suffix), Pow10(fractionDigits);
    ProductNonNegative(DecimalValue(a.whole + a.fraction), m);
    ProductNonNegative(DecimalValue(a.whole + a.fraction) * m, q);
    var n: nat := DecimalValue(a.whole + a.fraction) * m * q;
    ExactlyMeans(v, a, fractionDigits);
    Divides(v, n, p);
  }

  lemma ProductNonNegative(x: nat, y: nat)
    ensures x * y >= 0
  {
  }

  // ---------- the parser as a whole ----------

  /** A text that starts with a letter or sign no amount has is never matched, since that unit is not stripped. */
  lemma StrangeStart(value: Text)
    requires value != [] && !IsDigit(value[0]) && !IsCurrencySymbol(value[0]) && !IsSeparator(value[0])
    requires CurrencyWord(value) == 0 && !StartsWith(RemoveCurrencyWords(value, false), US)
    ensures Matched(Stripped(value)) == None
  {
    hide CurrencyWord, StartsWith, IsSeparator, IsCurrencySymbol, RemoveCurrencySymbols, RemoveSeparators;
    var words := RemoveCurrencyWords(value, false);
    FirstStays(words);
  }

  lemma FirstStays(s: Text)
    requires s != [] && !IsCurrencySymbol(s[0]) && !IsSeparator(s[0]) && !StartsWith(s, US)
    ensures var r := RemoveSeparators(RemoveCurrencySymbols(s)); r != [] && r[0] == s[0]
  {
  }

  lemma ParenthesesRefused(value: Text)
    requires Parenthesized(value)
    ensures Matched(Stripped(value)) == None
  {
    hide Stripped, Matched;
    NoWordThere(value);
    StrangeStart(value);
  }

  lemma NoWordThere(value: Text)
    requires value != [] && value[0] == 0x28
    ensures CurrencyWord(value) == 0 && !StartsWith(RemoveCurrencyWords(value, false), US)
  {
    hide CurrencyWord;
    var words := RemoveCurrencyWords(value, false);
    assert words[0] == 0x28;
    assert |words| >= 2 ==> words[..2][0] == 0x28;
  }

  /** What the parser answers for a text: v exactly when the stripped text is an amount displaying v, and otherwise
      nothing. */
  lemma ParsesExactly(raw: Text, fractionDigits: nat, v: nat)
    requires fractionDigits <= 6
    ensures ParseMoneyMinorUnits(raw, fractionDigits) == Minor(v) <==>
      var value := Upper(Trim(raw));
      && HYPHEN !in value && v <= MAX_SAFE_INTEGER
      && exists a :: IsAmount(a) && Stripped(value) == AmountText(a) && IsExactly(v, a, fractionDigits)
    ensures ParseMoneyMinorUnits(raw, fractionDigits) != Throws
  {
    hide Upper, Trim, Stripped, Matched, MinorUnits, AmountText, IsAmount, IsExactly, Parenthesized;
    var value := Upper(Trim(raw));
    NothingStripped();
    if Parenthesized(value) {
      ParenthesesRefused(value);
    }
    forall a: Amount ensures Matched(Stripped(value)) == Some(a) <==> IsAmount(a) && Stripped(value) == AmountText(a) {
      MatchesExactly(Stripped(value), a);
    }
    forall a: Amount | IsAmount(a)
      ensures MinorUnits(a, fractionDigits) == Some(v) <==> IsExactly(v, a, fractionDigits) && v <= MAX_SAFE_INTEGER
    {
      MinorUnitsMean(a, fractionDigits, v);
    }
  }

  lemma NothingStripped()
    ensures Stripped([]) == [] && forall a | IsAmount(a) :: AmountText(a) != []
  {
  }

  lemma MinorNotNegative(a: Amount, fractionDigits: nat)
    requires IsAmount(a) && MinorUnits(a, fractionDigits).Some?
    ensures MinorUnits(a, fractionDigits).value >= 0
  {
    hide DecimalValue, Pow10, Multiplier;
    var n, p := DecimalValue(a.whole + a.fraction) * Multiplier(a.suffix) * Pow10(fractionDigits), Pow10(|a.fraction|);
    ProductNonNegative(DecimalValue(a.whole + a.fraction), Multiplier(a.suffix));
    ProductNonNegative(DecimalValue(a.whole + a.fraction) * Multiplier(a.suffix), Pow10(fractionDigits));
    assert n / p >= 0;
  }

  /** Amounts that display the same number have the same minor units. */
  lemma EqualAmountsAgree(a: Amount, b: Amount, fractionDigits: nat)
    requires IsAmount(a) && IsAmount(b) && Displayed(a) == Displayed(b)
    ensures MinorUnits(a, fractionDigits) == MinorUnits(b, fractionDigits)
  {
    hide Displayed, MinorUnits;
    var x, y := MinorUnits(a, fractionDigits), MinorUnits(b, fractionDigits);
    if x.Some? {
      MinorNotNegative(a, fractionDigits);
      MinorUnitsMean(a, fractionDigits, x.value);
      MinorUnitsMean(b, fractionDigits, x.value);
    } else if y.Some? {
      MinorNotNegative(b, fractionDigits);
      MinorUnitsMean(a, fractionDigits, y.value);
      MinorUnitsMean(b, fractionDigits, y.value);
    }
  }

  predicate IsAmountUnit(c: CodeUnit) {
    IsDigit(c) || c == DOT || c in {LETTER_K, LETTER_M, LETTER_B}
  }

  lemma AmountUnits(a: Amount)
    requires IsAmount(a)
    ensures AmountText(a) != [] && forall i | 0 <= i < |AmountText(a)| :: IsAmountUnit(AmountText(a)[i])
  {
  }

  lemma {:induction false} AmountUnitsStay(s: Text)
    requires forall i | 0 <= i < |s| :: IsAmountUnit(s[i])
    ensures RemoveCurrencySymbols(s) == s && RemoveSeparators(s) == s
        && forall inWord :: RemoveCurrencyWords(s, inWord) == s
  {
    hide CurrencyWord;
    if s != [] {
      assert IsAmountUnit(s[0]);
      assert !StartsWith(s, US) by { assert |s| >= 2 ==> s[..2][0] == s[0]; }
      AmountUnitsStay(s[1..]);
      assert s == [s[0]] + s[1..];
    }
  }

  lemma UpperStays(s: Text)
    requires forall i | 0 <= i < |s| :: IsAmountUnit(s[i])
    ensures Upper(s) == s && HYPHEN !in s && !Parenthesized(s) && Trim(s) == s
  {
    hide IsAmountUnit, IsSpace, ToUpper, Trim;
    forall i | 0 <= i < |s| ensures ToUpper(s[i]) == s[i] && !IsSpace(s[i]) && s[i] != HYPHEN && s[i] != 0x28 {
      AmountUnitStays(s[i]);
    }
    EdgesStay(s);
  }

  lemma AmountUnitStays(c: CodeUnit)
    requires IsAmountUnit(c)
    ensures ToUpper(c) == c && !IsSpace(c) && c != HYPHEN && c != 0x28
  {
  }

  lemma EdgesStay(s: Text)
    requires s != [] ==> !IsSpace(s[0]) && !IsSpace(s[|s| - 1])
    ensures Trim(s) == s
  {
    hide IsSpace;
  }

  /** An amount written plainly is parsed as its minor units, and only the number it displays counts:
      "1.5M", "1500K" and "1500000.00" give one answer. */
  lemma EqualTextsAgree(a: Amount, b: Amount, fractionDigits: int)
    requires IsAmount(a) && IsAmount(b) && Displayed(a) == Displayed(b)
    ensures ParseMoneyMinorUnits(AmountText(a), fractionDigits) == ParseMoneyMinorUnits(AmountText(b), fractionDigits)
  {
    hide Upper, Trim, Matched, Stripped, MinorUnits, AmountText, IsAmount, Displayed, Parenthesized, IsAmountUnit;
    if 0 <= fractionDigits <= 6 {
      PlainAmountParses(a, fractionDigits);
      PlainAmountParses(b, fractionDigits);
      EqualAmountsAgree(a, b, fractionDigits);
    }
  }

  lemma PlainAmountParses(a: Amount, fractionDigits: nat)
    requires IsAmount(a) && fractionDigits <= 6
    ensures ParseMoneyMinorUnits(AmountText(a), fractionDigits)
            == match MinorUnits(a, fractionDigits) { case None => Nothing case Some(units) => Minor(units) }
  {
    hide Upper, Trim, Matched, MinorUnits, AmountText, IsAmount, Parenthesized, IsAmountUnit, RemoveCurrencySymbols;
    hide RemoveSeparators, RemoveCurrencyWords;
    var s := AmountText(a);
    AmountUnits(a);
    UpperStays(s);
    AmountUnitsStay(s);
    MatchesExactly(s, a);
  }

  // ---------- letter case ----------

  lemma UpperUnits(s: Text)
    ensures |Upper(s)| == |s| && forall i | 0 <= i < |s| ::
        Upper(s)[i] == ToUpper(s[i]) && (IsSpace(Upper(s)[i]) <==> IsSpace(s[i]))
  {
  }

  lemma UpperPart(s: Text, i: nat, j: nat)
    requires i <= j <= |s|
    ensures |Upper(s)| == |s| && Upper(s)[i..j] == Upper(s[i..j])
  {
    hide ToUpper;
  }

  lemma {:induction false} UpperTrimStart(s: Text)
    ensures Upper(TrimStart(s)) == TrimStart(Upper(s))
  {
    hide Upper, IsSpace, ToUpper, TrimStart;
    UpperUnits(s);
    TrimStartStep(s);
    TrimStartStep(Upper(s));
    if s != [] && IsSpace(s[0]) {
      UpperPart(s, 1, |s|);
      assert s[1..|s|] == s[1..] && Upper(s)[1..|s|] == Upper(s)[1..];
      UpperTrimStart(s[1..]);
    }
  }

  lemma TrimStartStep(s: Text)
    ensures TrimStart(s) == if s != [] && IsSpace(s[0]) then TrimStart(s[1..]) else s
  {
  }

  lemma {:induction false} UpperTrimEnd(s: Text)
    ensures Upper(TrimEnd(s)) == TrimEnd(Upper(s))
  {
    hide Upper, IsSpace, ToUpper;
    UpperUnits(s);
    if s != [] && IsSpace(s[|s| - 1]) {
      UpperPart(s, 0, |s| - 1);
      UpperTrimEnd(s[..|s| - 1]);
    }
  }

  /** Letter case never changes the answer. */
  lemma CaseDoesNotMatter(raw: Text, other: Text, fractionDigits: int)
    requires Upper(raw) == Upper(other)
    ensures ParseMoneyMinorUnits(raw, fractionDigits) == ParseMoneyMinorUnits(other, fractionDigits)
  {
    hide Upper, TrimStart, TrimEnd, Stripped, Matched, MinorUnits, Parenthesized;
    UpperTrimStart(raw);
    UpperTrimStart(other);
    UpperTrimEnd(TrimStart(raw));
    UpperTrimEnd(TrimStart(other));
  }

  /** A trailing zero in the fraction displays the same number. */
  lemma TrailingZero(a: Amount)
    requires IsAmount(a)
    ensures IsAmount(a.(fraction := a.fraction + [ZERO]))
        && Displayed(a.(fraction := a.fraction + [ZERO])) == Displayed(a)
  {
    hide Displayed, Multiplier, DecimalValue, Pow10;
    var b := a.(fraction := a.fraction + [ZERO]);
    AmountDigits(a);
    assert a.whole + b.fraction == a.whole + a.fraction + [ZERO];
    DigitsJoined(a.whole + a.fraction, [ZERO]);
    OneZero();
    DisplayedIs(a);
    DisplayedIs(b);
    var n, p, m := DecimalValue(a.whole + a.fraction), Pow10(|a.fraction|), Multiplier(a.suffix);
    Pow10Sum(1, |a.fraction|);
    Product(n * 10, m);
    Product(n, m);
    TenTimes(Displayed(a), Displayed(b), p as real, n as real, m as real);
  }

  lemma OneZero()
    ensures DecimalValue([ZERO]) == 0 && Pow10(1) == 10
  {
    assert [ZERO][..0] == [];
  }

  lemma TenTimes(d: real, e: real, p: real, n: real, m: real)
    requires p > 0.0 && d * p == n * m && e * (10.0 * p) == n * 10.0 * m
    ensures d == e
  {
    assert e * (10.0 * p) == 10.0 * (e * p) && n * 10.0 * m == 10.0 * (n * m);
    assert (e - d) * p == 0.0;
  }

  // ---------- suffixes, on texts ----------

  /** An amount with a suffix is parsed as the same amount written out: the point moved three places for K, six for M,
      nine for B. */
  lemma SuffixMovesPoint(a: Amount, fractionDigits: int)
    requires IsAmount(a)
    ensures ParseMoneyMinorUnits(AmountText(a), fractionDigits)
            == ParseMoneyMinorUnits(AmountText(WrittenOut(a)), fractionDigits)
  {
    hide ParseMoneyMinorUnits, AmountText, Number, IsAmount;
    var b := WrittenOut(a);
    assert b.whole + b.fraction[..0] == b.whole && b.fraction[0..] == b.fraction;
    EqualTextsAgree(a, b, fractionDigits);
  }

  /** Whole amounts: K, M and B stand for three, six and nine zeros. */
  lemma SuffixIsZeros(digits: Text, fractionDigits: int)
    requires digits != [] && AllDigits(digits)
    ensures ParseMoneyMinorUnits(digits + [0x4B], fractionDigits)
            == ParseMoneyMinorUnits(digits + Repeat(ZERO, 3), fractionDigits)
    ensures ParseMoneyMinorUnits(digits + [0x4D], fractionDigits)
            == ParseMoneyMinorUnits(digits + Repeat(ZERO, 6), fractionDigits)
    ensures ParseMoneyMinorUnits(digits + [0x42], fractionDigits)
            == ParseMoneyMinorUnits(digits + Repeat(ZERO, 9), fractionDigits)
  {
    hide ParseMoneyMinorUnits, Number, Repeat;
    SuffixedText(digits, LETTER_K, fractionDigits);
    SuffixedText(digits, LETTER_M, fractionDigits);
    SuffixedText(digits, LETTER_B, fractionDigits);
  }

  lemma SuffixedText(digits: Text, suffix: CodeUnit, fractionDigits: int)
    requires digits != [] && AllDigits(digits) && suffix in {LETTER_K, LETTER_M, LETTER_B}
    ensures ParseMoneyMinorUnits(digits + [suffix], fractionDigits)
            == ParseMoneyMinorUnits(digits + Repeat(ZERO, Places(Some(suffix))), fractionDigits)
  {
    hide ParseMoneyMinorUnits, Number, Repeat;
    var a := Amount(digits, [], Some(suffix));
    SuffixMovesPoint(a, fractionDigits);
    var zeros := Repeat(ZERO, Places(Some(suffix)));
    assert AmountText(a) == digits + [suffix];
    assert digits + [] + zeros == digits + zeros && AmountText(WrittenOut(a)) == digits + zeros;
  }

  // ---------- what is ignored around an amount ----------

  /** No capital letter but K, M and B, and no hyphen or opening parenthesis. */
  predicate IsQuietUnit(c: CodeUnit) {
    ToUpper(c) == c && (IsUpper(c) ==> c in {LETTER_K, LETTER_M, LETTER_B}) && c != HYPHEN && c != 0x28
  }

  ghost predicate AllQuiet(s: Text) {
    forall i | 0 <= i < |s| :: IsQuietUnit(s[i])
  }

  lemma {:induction false} QuietWordsStay(s: Text, inWord: bool)
    requires AllQuiet(s)
    ensures RemoveCurrencyWords(s, inWord) == s
  {
    hide CurrencyWord;
    if s != [] {
      assert IsQuietUnit(s[0]);
      QuietWordsStay(s[1..], IsWordUnit(s[0]));
      assert s == [s[0]] + s[1..];
    }
  }

  lemma {:induction false} SymbolsJoined(a: Text, b: Text)
    requires AllQuiet(a)
    ensures RemoveCurrencySymbols(a + b) == RemoveCurrencySymbols(a) + RemoveCurrencySymbols(b)
  {
    if a == [] {
      assert a + b == b;
    } else {
      assert IsQuietUnit(a[0]) && (a + b)[0] == a[0] && (a + b)[1..] == a[1..] + b;
      NotUs(a);
      NotUs(a + b);
      SymbolsJoined(a[1..], b);
    }
  }

  lemma NotUs(s: Text)
    requires s != [] && IsQuietUnit(s[0])
    ensures !StartsWith(s, US)
  {
    assert |s| >= 2 ==> s[..2][0] == s[0];
  }

  lemma {:induction false} SeparatorsJoined(a: Text, b: Text)
    ensures RemoveSeparators(a + b) == RemoveSeparators(a) + RemoveSeparators(b)
  {
    if a == [] {
      assert a + b == b;
    } else {
      assert (a + b)[1..] == a[1..] + b;
      SeparatorsJoined(a[1..], b);
    }
  }

  lemma OneRemoved(c: CodeUnit)
    ensures IsCurrencySymbol(c) ==> RemoveCurrencySymbols([c]) == []
    ensures !IsCurrencySymbol(c) ==> RemoveCurrencySymbols([c]) == [c]
    ensures RemoveSeparators([c]) == if IsSeparator(c) then [] else [c]
  {
    assert [c][1..] == [];
  }

  /** The units an amount does not show: the four currency symbols, commas, underscores and white space. */
  predicate IsIgnored(c: CodeUnit) {
    c in {0x24, 0x20AC, 0xA3, 0xA5, 0x2C, 0x5F} || IsSpace(c)
  }

  lemma IgnoredIsQuiet(c: CodeUnit)
    ensures IsIgnored(c) ==> IsQuietUnit(c) && (IsCurrencySymbol(c) || IsSeparator(c))
    ensures IsAmountUnit(c) ==> IsQuietUnit(c) && !IsSpace(c)
  {
  }

  /** A currency symbol, a comma, an underscore or white space makes no difference wherever it stands in an amount. */
  lemma IgnoredAnywhere(a: Amount, i: nat, c: CodeUnit, fractionDigits: int)
    requires IsAmount(a) && i <= |AmountText(a)| && IsIgnored(c) && (IsSpace(c) ==> 0 < i < |AmountText(a)|)
    ensures ParseMoneyMinorUnits(AmountText(a)[..i] + [c] + AmountText(a)[i..], fractionDigits)
            == ParseMoneyMinorUnits(AmountText(a), fractionDigits)
  {
    hide Upper, Trim, Matched, MinorUnits, AmountText, IsAmount, Parenthesized, IsAmountUnit, IsIgnored, IsQuietUnit;
    hide RemoveCurrencySymbols, RemoveSeparators, RemoveCurrencyWords, IsSpace;
    var t := AmountText(a);
    var s := t[..i] + [c] + t[i..];
    AmountUnits(a);
    IgnoredIsQuiet(c);
    forall k | 0 <= k < |t| ensures IsQuietUnit(t[k]) && !IsSpace(t[k]) {
      IgnoredIsQuiet(t[k]);
    }
    forall k | 0 <= k < |s| ensures IsQuietUnit(s[k]) {
      assert k < i ==> s[k] == t[k];
      assert k > i ==> s[k] == t[k - 1];
    }
    assert !IsSpace(s[0]) && !IsSpace(s[|s| - 1]);
    QuietValue(s);
    QuietValue(t);
    StrippedOne(t, i, c);
  }

  lemma QuietValue(s: Text)
    requires AllQuiet(s) && (s != [] ==> !IsSpace(s[0]) && !IsSpace(s[|s| - 1]))
    ensures Upper(Trim(s)) == s && HYPHEN !in s && !Parenthesized(s)
  {
    hide Trim, IsSpace, ToUpper, IsUpper;
    EdgesStay(s);
    forall k | 0 <= k < |s| ensures ToUpper(s[k]) == s[k] && s[k] != HYPHEN && s[k] != 0x28 {
      assert IsQuietUnit(s[k]);
    }
  }

  lemma StrippedOne(t: Text, i: nat, c: CodeUnit)
    requires AllQuiet(t) && i <= |t| && IsIgnored(c)
    ensures Stripped(t[..i] + [c] + t[i..]) == Stripped(t)
  {
    hide IsQuietUnit, IsIgnored, RemoveCurrencySymbols, RemoveSeparators, RemoveCurrencyWords, IsCurrencySymbol;
    hide IsSeparator;
    var s := t[..i] + [c] + t[i..];
    IgnoredIsQuiet(c);
    OneRemoved(c);
    assert forall k | 0 <= k < |s| :: s[k] == if k < i then t[k] else if k == i then c else t[k - 1];
    QuietWordsStay(s, false);
    QuietWordsStay(t, false);
    assert t == t[..i] + t[i..] && s == t[..i] + ([c] + t[i..]);
    SymbolsJoined(t[..i], t[i..]);
    SymbolsJoined(t[..i], [c] + t[i..]);
    SymbolsJoined([c], t[i..]);
    var x, y, z := RemoveCurrencySymbols(t[..i]), RemoveCurrencySymbols([c]), RemoveCurrencySymbols(t[i..]);
    SeparatorsJoined(x, z);
    SeparatorsJoined(x, y + z);
    SeparatorsJoined(y, z);
    NoSeparators();
    assert RemoveSeparators(y) == [];
    assert [] + RemoveSeparators(z) == RemoveSeparators(z);
  }

  lemma NoSeparators()
    ensures RemoveSeparators([]) == []
  {
  }

  // ---------- currency words ----------

  /** The words for dollars; `US` may stand before the last two, with or without a space. */
  predicate IsCurrencyText(w: Text) {
    w == USD || w == DOLLAR || w == DOLLARS || w == US + DOLLAR || w == US + DOLLARS
    || w == US + [SPACE] + DOLLAR || w == US + [SPACE] + DOLLARS
  }

  lemma StartOf(w: Text, rest: Text, n: nat)
    requires n <= |w|
    ensures (w + rest)[..n] == w[..n] && (w + rest)[n..] == w[n..] + rest
  {
  }

  lemma DollarsRecognised(w: Text, rest: Text)
    requires (w == DOLLAR || w == DOLLARS) && (rest == [] || !IsWordUnit(rest[0]))
    ensures DollarWord(w + rest) == |w|
  {
    var s := w + rest;
    StartOf(w, rest, 6);
    StartOf(w, rest, |w|);
    assert w[..6] == DOLLAR && EndsWord(s, |w|);
    if w == DOLLAR && |s| >= 7 {
      assert s[6] == rest[0] && s[..7][6] == s[6];
    }
  }

  lemma WordRecognised(w: Text, rest: Text)
    requires IsCurrencyText(w) && (rest == [] || !IsWordUnit(rest[0]))
    ensures CurrencyWord(w + rest) == |w|
  {
    hide CurrencyWord, IsWordUnit;
    if w == USD {
      UsdRecognised(rest);
    } else if w == DOLLAR || w == DOLLARS {
      DollarsAlone(w, rest);
    } else {
      var tail := if w == US + DOLLAR || w == US + [SPACE] + DOLLAR then DOLLAR else DOLLARS;
      UsDollars(if w[2] == SPACE then [SPACE] else [], tail, rest);
      assert US + [] + tail == US + tail;
    }
  }

  lemma UsdRecognised(rest: Text)
    requires rest == [] || !IsWordUnit(rest[0])
    ensures CurrencyWord(USD + rest) == 3
  {
    hide DollarWord, TrimStart, IsWordUnit;
    StartOf(USD, rest, 3);
  }

  lemma DollarsAlone(w: Text, rest: Text)
    requires (w == DOLLAR || w == DOLLARS) && (rest == [] || !IsWordUnit(rest[0]))
    ensures CurrencyWord(w + rest) == |w|
  {
    hide DollarWord, TrimStart, IsWordUnit;
    var s := w + rest;
    DollarsRecognised(w, rest);
    assert s[..2][0] == s[0] && s[..3][0] == s[0];
  }

  lemma UsDollars(space: Text, tail: Text, rest: Text)
    requires tail == DOLLAR || tail == DOLLARS
    requires (rest == [] || !IsWordUnit(rest[0])) && (space == [] || space == [SPACE])
    ensures CurrencyWord(US + space + tail + rest) == 2 + |space| + |tail|
  {
    hide DollarWord, TrimStart, IsSpace, CurrencyWord, IsWordUnit;
    var u := tail + rest;
    assert US + space + tail + rest == US + (space + u);
    DollarsRecognised(tail, rest);
    LettersAreWord(tail, rest);
    SpaceStripped(space, u);
    UsThenDollars(space, u);
  }

  lemma LettersAreWord(tail: Text, rest: Text)
    requires tail == DOLLAR || tail == DOLLARS
    ensures var u := tail + rest; |u| >= 6 && u[0] == DOLLAR[0] && IsWordUnit(u[1])
  {
    assert (tail + rest)[1] == tail[1];
  }

  lemma UsThenDollars(space: Text, u: Text)
    requires (space == [] || space == [SPACE]) && |u| >= 6 && u[0] == DOLLAR[0] && IsWordUnit(u[1]) && DollarWord(u) > 0
    requires TrimStart(space + u) == u
    ensures CurrencyWord(US + (space + u)) == 2 + |space| + DollarWord(u)
  {
    hide DollarWord, TrimStart, IsSpace, IsWordUnit;
    var s := US + (space + u);
    assert s[..2] == US && s[2..] == space + u;
    if space == [] {
      assert s[3] == u[1];
    } else {
      assert s[..3][2] == SPACE;
    }
  }

  lemma SpaceStripped(space: Text, s: Text)
    requires (space == [] || space == [SPACE]) && s != [] && s[0] == DOLLAR[0]
    ensures TrimStart(space + s) == s
  {
    hide IsSpace;
    assert !IsSpace(DOLLAR[0]) && IsSpace(SPACE) by { DollarIsNoSpace(); }
    if space == [] {
      assert space + s == s;
    } else {
      assert (space + s)[1..] == s;
    }
  }

  lemma DollarIsNoSpace()
    ensures !IsSpace(DOLLAR[0]) && IsSpace(SPACE)
  {
  }

  lemma WordUnits(w: Text)
    requires IsCurrencyText(w)
    ensures w != [] && IsUpper(w[0]) && IsUpper(w[|w| - 1])
    ensures forall i | 0 <= i < |w| :: IsUpper(w[i]) || w[i] == SPACE
  {
  }

  /** A currency word before or after an amount, with a space between, makes no difference. */
  lemma WordsIgnored(a: Amount, w: Text, fractionDigits: int)
    requires IsAmount(a) && IsCurrencyText(w)
    ensures ParseMoneyMinorUnits(w + [SPACE] + AmountText(a), fractionDigits)
            == ParseMoneyMinorUnits(AmountText(a), fractionDigits)
    ensures ParseMoneyMinorUnits(AmountText(a) + [SPACE] + w, fractionDigits)
            == ParseMoneyMinorUnits(AmountText(a), fractionDigits)
  {
    hide Upper, Trim, Matched, MinorUnits, AmountText, IsAmount, Parenthesized, IsCurrencyText, Stripped, IsAmountUnit;
    var t := AmountText(a);
    AmountUnits(a);
    WordUnits(w);
    AmountQuiet(t);
    LoudValue(w + [SPACE] + t);
    LoudValue(t + [SPACE] + w);
    QuietValue(t);
    WordStripped(t, w);
  }

  lemma AmountQuiet(t: Text)
    requires forall i | 0 <= i < |t| :: IsAmountUnit(t[i])
    ensures AllQuiet(t) && forall i | 0 <= i < |t| :: IsLoudUnit(t[i]) && t[i] != SPACE && !IsSpace(t[i])
  {
    forall i | 0 <= i < |t| ensures IsQuietUnit(t[i]) && IsLoudUnit(t[i]) && !IsSpace(t[i]) {
      assert IsAmountUnit(t[i]);
    }
  }

  /** Capital letters, units of amounts and spaces. */
  predicate IsLoudUnit(c: CodeUnit) {
    IsUpper(c) || IsDigit(c) || c == DOT || c == SPACE
  }

  lemma LoudValue(s: Text)
    requires s != [] && s[0] != SPACE && s[|s| - 1] != SPACE && forall i | 0 <= i < |s| :: IsLoudUnit(s[i])
    ensures Upper(Trim(s)) == s && HYPHEN !in s && !Parenthesized(s)
  {
    hide Trim;
    assert IsLoudUnit(s[0]) && IsLoudUnit(s[|s| - 1]);
    EdgesStay(s);
    forall i | 0 <= i < |s| ensures ToUpper(s[i]) == s[i] && s[i] != HYPHEN && s[i] != 0x28 {
      assert IsLoudUnit(s[i]);
    }
  }

  lemma WordStripped(t: Text, w: Text)
    requires AllQuiet(t) && IsCurrencyText(w)
    ensures Stripped(w + [SPACE] + t) == Stripped(t) && Stripped(t + [SPACE] + w) == Stripped(t)
  {
    hide RemoveCurrencyWords, IsQuietUnit, IsCurrencyText, Stripped;
    WordBefore(t, w);
    assert w + [SPACE] + t == w + ([SPACE] + t) && t[..0] == [] && t[0..] == t;
    StrippedWords(t, [SPACE] + t, w + [SPACE] + t, 0);
    WordAfter(t, w, false);
    assert t[..|t|] == t && t[|t|..] == [];
    StrippedWords(t, t + [SPACE], t + [SPACE] + w, |t|);
  }

  lemma WordBefore(t: Text, w: Text)
    requires AllQuiet(t) && IsCurrencyText(w)
    ensures RemoveCurrencyWords(w + ([SPACE] + t), false) == [SPACE] + t
  {
    hide RemoveCurrencySymbols, RemoveSeparators, IsQuietUnit, CurrencyWord, IsCurrencyText;
    var front := [SPACE] + t;
    SpaceIsIgnored();
    WordRecognised(w, front);
    assert (w + front)[|w|..] == front;
    QuietWordsStay(front, true);
    WordUnits(w);
  }

  lemma SpaceIsIgnored()
    ensures IsQuietUnit(SPACE) && IsIgnored(SPACE) && !IsWordUnit(SPACE)
  {
  }

  lemma StrippedWords(t: Text, spaced: Text, s: Text, i: nat)
    requires AllQuiet(t) && i <= |t| && spaced == t[..i] + [SPACE] + t[i..] && RemoveCurrencyWords(s, false) == spaced
    ensures Stripped(s) == Stripped(t)
  {
    hide RemoveCurrencySymbols, RemoveSeparators, IsQuietUnit, RemoveCurrencyWords, IsIgnored;
    SpaceIsIgnored();
    StrippedOne(t, i, SPACE);
    assert forall k | 0 <= k < |spaced| :: spaced[k] == if k < i then t[k] else if k == i then SPACE else t[k - 1];
    QuietWordsStay(spaced, false);
  }

  lemma {:induction false} WordAfter(t: Text, w: Text, inWord: bool)
    requires AllQuiet(t) && IsCurrencyText(w)
    ensures RemoveCurrencyWords(t + [SPACE] + w, inWord) == t + [SPACE]
  {
    hide CurrencyWord, IsQuietUnit, IsCurrencyText;
    var s := t + [SPACE] + w;
    SpaceIsIgnored();
    if t == [] {
      QuietHasNoWord(s);
      assert s[1..] == w && w + [] == w;
      WordRecognised(w, []);
      WordUnits(w);
      assert w[|w|..] == [];
      assert RemoveCurrencyWords(w, false) == [];
    } else {
      assert IsQuietUnit(t[0]) && s[0] == t[0] && s[1..] == t[1..] + [SPACE] + w;
      QuietHasNoWord(s);
      WordAfter(t[1..], w, IsWordUnit(t[0]));
      assert t + [SPACE] == [t[0]] + (t[1..] + [SPACE]);
    }
  }

  lemma QuietHasNoWord(s: Text)
    requires s != [] && IsQuietUnit(s[0])
    ensures CurrencyWord(s) == 0
  {
    hide CurrencyWord;
  }

  /** `US` directly before a currency symbol makes no difference either. */
  lemma UsSymbolIgnored(a: Amount, c: CodeUnit, fractionDigits: int)
    requires IsAmount(a) && c in {0x24, 0x20AC, 0xA3, 0xA5}
    ensures ParseMoneyMinorUnits(US + [c] + AmountText(a), fractionDigits)
            == ParseMoneyMinorUnits(AmountText(a), fractionDigits)
  {
    hide Upper, Trim, Matched, MinorUnits, AmountText, IsAmount, Parenthesized, Stripped, IsAmountUnit;
    var t := AmountText(a);
    AmountUnits(a);
    AmountQuiet(t);
    QuietValue(t);
    UsStripped(t, c);
    var s := US + [c] + t;
    forall i | 0 <= i < |s| ensures ToUpper(s[i]) == s[i] && s[i] != HYPHEN {
      assert i >= 3 ==> s[i] == t[i - 3] && IsQuietUnit(t[i - 3]);
    }
    assert s[|s| - 1] == t[|t| - 1];
    CalmValue(s);
  }

  lemma CalmValue(s: Text)
    requires s != [] && !IsSpace(s[0]) && !IsSpace(s[|s| - 1]) && s[0] != 0x28
    requires forall i | 0 <= i < |s| :: ToUpper(s[i]) == s[i] && s[i] != HYPHEN
    ensures Upper(Trim(s)) == s && HYPHEN !in s && !Parenthesized(s)
  {
    hide Trim, IsSpace, ToUpper;
    EdgesStay(s);
  }

  lemma UsStripped(t: Text, c: CodeUnit)
    requires AllQuiet(t) && c in {0x24, 0x20AC, 0xA3, 0xA5}
    ensures Stripped(US + [c] + t) == Stripped(t)
  {
    hide RemoveSeparators, IsQuietUnit, RemoveCurrencyWords, RemoveCurrencySymbols;
    UsWordsStay(t, c);
    QuietWordsStay(t, false);
    var s := US + [c] + t;
    assert RemoveCurrencySymbols(s) == RemoveCurrencySymbols(t) by {
      UsSymbolGone(t, c);
    }
  }

  lemma UsSymbolGone(t: Text, c: CodeUnit)
    requires c in {0x24, 0x20AC, 0xA3, 0xA5}
    ensures RemoveCurrencySymbols(US + [c] + t) == RemoveCurrencySymbols(t)
  {
    var s := US + [c] + t;
    assert s[..2] == US && s[3..] == t;
  }

  lemma UsWordsStay(t: Text, c: CodeUnit)
    requires AllQuiet(t) && c in {0x24, 0x20AC, 0xA3, 0xA5}
    ensures RemoveCurrencyWords(US + [c] + t, false) == US + [c] + t
  {
    hide IsQuietUnit, CurrencyWord;
    var s, tail := US + [c] + t, [c] + t;
    assert s[1..] == [US[1]] + tail && s[1..][1..] == tail;
    UsSymbolNoWord(t, c);
    assert IsQuietUnit(c) by { IgnoredIsQuiet(c); }
    assert forall k | 0 <= k < |tail| :: tail[k] == if k == 0 then c else t[k - 1];
    QuietWordsStay(tail, true);
    assert s == [US[0]] + ([US[1]] + tail);
  }

  lemma UsSymbolNoWord(t: Text, c: CodeUnit)
    requires c in {0x24, 0x20AC, 0xA3, 0xA5}
    ensures CurrencyWord(US + [c] + t) == 0
  {
    hide TrimStart, DollarWord;
    var s, tail := US + [c] + t, [c] + t;
    assert s[2..] == tail && (|s| >= 3 ==> s[..3][2] == c);
    SymbolStays(tail);
    NoDollarThere(s);
  }

  lemma NoDollarThere(s: Text)
    requires s != [] && s[0] != DOLLAR[0]
    ensures DollarWord(s) == 0
  {
    assert |s| >= 6 ==> s[..6][0] == s[0];
    assert |s| >= 7 ==> s[..7][0] == s[0];
  }

  lemma SymbolStays(s: Text)
    requires s != [] && s[0] in {0x24, 0x20AC, 0xA3, 0xA5}
    ensures TrimStart(s) == s && DollarWord(s) == 0
  {
    assert |s| >= 6 ==> s[..6][0] == s[0];
    assert |s| >= 7 ==> s[..7][0] == s[0];
  }
}
