/** JavaScript strings: sequences of UTF-16 code units, compared unit by unit. */
module Text {

  type CodeUnit = n: int | 0 <= n < 0x10000
  type Text = seq<CodeUnit>

  const TAB: CodeUnit := 0x09
  const NEWLINE: CodeUnit := 0x0A
  const RETURN: CodeUnit := 0x0D
  const SPACE: CodeUnit := 0x20
  const QUOTE: CodeUnit := 0x22
  const APOSTROPHE: CodeUnit := 0x27
  const PLUS: CodeUnit := 0x2B
  const COMMA: CodeUnit := 0x2C
  const HYPHEN: CodeUnit := 0x2D
  const DOT: CodeUnit := 0x2E
  const SLASH: CodeUnit := 0x2F
  const ZERO: CodeUnit := 0x30
  const COLON: CodeUnit := 0x3A
  const EQUALS: CodeUnit := 0x3D
  const AT: CodeUnit := 0x40
  const OPEN_BRACKET: CodeUnit := 0x5B
  const BACKSLASH: CodeUnit := 0x5C
  const CLOSE_BRACKET: CodeUnit := 0x5D
  const UNDERSCORE: CodeUnit := 0x5F
  const OPEN_BRACE: CodeUnit := 0x7B
  const CLOSE_BRACE: CodeUnit := 0x7D
  const BYTE_ORDER_MARK: CodeUnit := 0xFEFF

  predicate IsDigit(c: CodeUnit) {
    ZERO <= c <= ZERO + 9
  }

  predicate IsUpper(c: CodeUnit) {
    0x41 <= c <= 0x5A
  }

  predicate IsLower(c: CodeUnit) {
    0x61 <= c <= 0x7A
  }

  function ToUpper(c: CodeUnit): CodeUnit {
    if IsLower(c) then c - 0x20 else c
  }

  function ToLower(c: CodeUnit): CodeUnit {
    if IsUpper(c) then c + 0x20 else c
  }

  function Upper(s: Text): (r: Text) {
    seq(|s|, i requires 0 <= i < |s| => ToUpper(s[i]))
  }

  function Lower(s: Text): (r: Text) {
    seq(|s|, i requires 0 <= i < |s| => ToLower(s[i]))
  }

  /** What `\s` matches and `trim` removes: white space and line terminators of ECMA-262. */
  predicate IsSpace(c: CodeUnit) {
    || 0x09 <= c <= 0x0D || c == SPACE || c == 0xA0 || c == 0x1680 || 0x2000 <= c <= 0x200A
    || c == 0x2028 || c == 0x2029 || c == 0x202F || c == 0x205F || c == 0x3000 || c == BYTE_ORDER_MARK
  }

  function TrimStart(s: Text): (r: Text)
    ensures r == [] || !IsSpace(r[0])
    ensures |r| <= |s| && r == s[|s| - |r|..]
  {
    if s != [] && IsSpace(s[0]) then TrimStart(s[1..]) else s
  }

  /** What trimming takes away is white space. */
  lemma {:induction false} TrimmedIsSpace(s: Text)
    ensures forall j | 0 <= j < |s| - |TrimStart(s)| :: IsSpace(s[j])
  {
    if s != [] && IsSpace(s[0]) {
      TrimmedIsSpace(s[1..]);
      assert forall j | 1 <= j < |s| :: s[j] == s[1..][j - 1];
    }
  }

  function TrimEnd(s: Text): (r: Text)
    ensures r == [] || !IsSpace(r[|r| - 1])
    ensures |r| <= |s| && r == s[..|r|]
  {
    if s != [] && IsSpace(s[|s| - 1]) then TrimEnd(s[..|s| - 1]) else s
  }

  function Trim(s: Text): (r: Text)
    ensures r == [] || (!IsSpace(r[0]) && !IsSpace(r[|r| - 1]))
  {
    TrimEnd(TrimStart(s))
  }

  /** The order of `<` on strings: a proper prefix first, else the first differing unit decides. */
  predicate Before(a: Text, b: Text) {
    b != [] && (a == [] || a[0] < b[0] || (a[0] == b[0] && Before(a[1..], b[1..])))
  }

  lemma {:induction false} BeforeIrreflexive(a: Text)
    ensures !Before(a, a)
  {
    if a != [] {
      BeforeIrreflexive(a[1..]);
    }
  }

  lemma {:induction false} BeforeTransitive(a: Text, b: Text, c: Text)
    requires Before(a, b) && Before(b, c)
    ensures Before(a, c)
  {
    if a != [] && a[0] == b[0] == c[0] {
      BeforeTransitive(a[1..], b[1..], c[1..]);
    }
  }

  lemma {:induction false} BeforeTotal(a: Text, b: Text)
    requires a != b
    ensures Before(a, b) || Before(b, a)
  {
    if a != [] && b != [] && a[0] == b[0] {
      assert a == [a[0]] + a[1..] && b == [b[0]] + b[1..];
      BeforeTotal(a[1..], b[1..]);
    }
  }

  function Join(parts: seq<Text>, separator: Text): Text {
    if parts == [] then []
    else if |parts| == 1 then parts[0]
    else parts[0] + separator + Join(parts[1..], separator)
  }

  function Repeat(c: CodeUnit, n: nat): (r: Text) {
    if n == 0 then [] else [c] + Repeat(c, n - 1)
  }

  predicate AllDigits(s: Text) {
    forall i | 0 <= i < |s| :: IsDigit(s[i])
  }

  /** The shortest decimal digits of n, as `String(n)` prints a non-negative integer. */
  function Decimal(n: nat): (r: Text)
    ensures r != [] && AllDigits(r) && (r[0] == ZERO ==> n == 0 && |r| == 1)
  {
    if n < 10 then [ZERO + n] else Decimal(n / 10) + [ZERO + n % 10]
  }

  function DecimalValue(s: Text): nat
    requires AllDigits(s)
  {
    if s == [] then 0 else 10 * DecimalValue(s[..|s| - 1]) + (s[|s| - 1] - ZERO)
  }

  lemma {:induction false} DecimalRoundTrip(n: nat)
    ensures DecimalValue(Decimal(n)) == n
  {
    if n >= 10 {
      DecimalRoundTrip(n / 10);
      assert Decimal(n)[..|Decimal(n)| - 1] == Decimal(n / 10);
    }
  }

  /** How many digits s starts with. */
  function DigitSpan(s: Text): (n: nat)
    ensures n <= |s| && AllDigits(s[..n]) && (n < |s| ==> !IsDigit(s[n]))
  {
    if s != [] && IsDigit(s[0]) then
      assert forall k | 1 <= k <= |s| :: s[..k] == [s[0]] + s[1..][..k - 1];
      1 + DigitSpan(s[1..])
    else 0
  }

  lemma {:induction false} DigitSpanOf(digits: Text, rest: Text)
    requires AllDigits(digits) && (rest == [] || !IsDigit(rest[0]))
    ensures DigitSpan(digits + rest) == |digits|
  {
    if digits == [] {
      assert digits + rest == rest;
    } else {
      assert (digits + rest)[1..] == digits[1..] + rest;
      DigitSpanOf(digits[1..], rest);
    }
  }

  /** Texts of equal length are compared by their heads, then by what follows. */
  lemma {:induction false} BeforeConcat(a: Text, b: Text, c: Text, d: Text)
    requires |a| == |b|
    ensures Before(a + c, b + d) <==> Before(a, b) || (a == b && Before(c, d))
  {
    if a == [] {
      assert a + c == c && b + d == d;
    } else {
      BeforeConcat(a[1..], b[1..], c, d);
      assert (a + c)[1..] == a[1..] + c && (b + d)[1..] == b[1..] + d;
      assert a == [a[0]] + a[1..] && b == [b[0]] + b[1..];
    }
  }

  /** Digit strings of equal length are ordered as the numbers they show. */
  lemma {:induction false} DigitsOrdered(a: Text, b: Text)
    requires AllDigits(a) && AllDigits(b) && |a| == |b|
    ensures Before(a, b) <==> DecimalValue(a) < DecimalValue(b)
    ensures a == b <==> DecimalValue(a) == DecimalValue(b)
  {
    if a == [] {
      BeforeIrreflexive(a);
    } else {
      hide Before;
      var n := |a| - 1;
      DigitsOrdered(a[..n], b[..n]);
      BeforeConcat(a[..n], b[..n], [a[n]], [b[n]]);
      BeforeUnits(a[n], b[n]);
      assert a == a[..n] + [a[n]] && b == b[..n] + [b[n]];
      assert IsDigit(a[n]) && IsDigit(b[n]);
    }
  }

  lemma BeforeUnits(c: CodeUnit, d: CodeUnit)
    ensures Before([c], [d]) <==> c < d
  {
  }

  /** `\r\n` and a lone `\r` become `\n`. */
  function NormalizeNewlines(s: Text): (r: Text) {
    if s == [] then []
    else if s[0] == RETURN then [NEWLINE] + NormalizeNewlines(if |s| >= 2 && s[1] == NEWLINE then s[2..] else s[1..])
    else [s[0]] + NormalizeNewlines(s[1..])
  }

  lemma NewlineStep(c: CodeUnit, t: Text)
    ensures c != RETURN ==> NormalizeNewlines([c] + t) == [c] + NormalizeNewlines(t)
    ensures c == RETURN && (t == [] || t[0] != NEWLINE) ==>
        NormalizeNewlines([c] + t) == [NEWLINE] + NormalizeNewlines(t)
    ensures c == RETURN && t != [] && t[0] == NEWLINE ==> NormalizeNewlines([c] + t) == NormalizeNewlines(t)
  {
    assert ([c] + t)[1..] == t;
    assert t != [] ==> ([c] + t)[2..] == t[1..];
  }

  lemma {:induction false} NewlinesJoined(a: Text, b: Text)
    requires a == [] || b == [] || a[|a| - 1] != RETURN || b[0] != NEWLINE
    ensures NormalizeNewlines(a + b) == NormalizeNewlines(a) + NormalizeNewlines(b)
  {
    if a == [] {
      assert a + b == b;
    } else {
      hide NormalizeNewlines;
      var c, rest := a[0], a[1..];
      assert a == [c] + rest && a + b == [c] + (rest + b);
      NewlinesJoined(rest, b);
      NewlineStep(c, rest);
      NewlineStep(c, rest + b);
      Regrouped([c], NormalizeNewlines(rest), NormalizeNewlines(b));
      Regrouped([NEWLINE], NormalizeNewlines(rest), NormalizeNewlines(b));
      NothingNormalized();
    }
  }

  lemma Regrouped(a: Text, b: Text, c: Text)
    ensures a + (b + c) == a + b + c && [] + c == c && a + [] == a
  {
  }

  lemma NothingNormalized()
    ensures NormalizeNewlines([]) == []
  {
  }
}
