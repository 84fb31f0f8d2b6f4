/** Unpadded base64url (sections 3.5 and 5 of RFC 4648) as the evidence bundle accepts it. */
module Base64Url {
  import opened Primitives
  import opened Text

  type Byte = n: int | 0 <= n < 256
  type Sextet = n: int | 0 <= n < 64

  // ---------- the alphabet ----------

  predicate IsBase64UrlUnit(c: CodeUnit) {
    IsUpper(c) || IsLower(c) || IsDigit(c) || c == HYPHEN || c == UNDERSCORE
  }

  function SextetOf(c: CodeUnit): (r: Sextet)
    requires IsBase64UrlUnit(c)
  {
    if IsUpper(c) then c - 0x41
    else if IsLower(c) then c - 0x61 + 26
    else if IsDigit(c) then c - ZERO + 52
    else if c == HYPHEN then 62
    else 63
  }

  function UnitOf(n: Sextet): (r: CodeUnit)
    ensures IsBase64UrlUnit(r) && SextetOf(r) == n
  {
    if n < 26 then 0x41 + n
    else if n < 52 then 0x61 + n - 26
    else if n < 62 then ZERO + n - 52
    else if n == 62 then HYPHEN
    else UNDERSCORE
  }

  lemma UnitOfSextet(c: CodeUnit)
    requires IsBase64UrlUnit(c)
    ensures UnitOf(SextetOf(c)) == c
  {
  }

  predicate InAlphabet(s: Text) {
    forall i | 0 <= i < |s| :: IsBase64UrlUnit(s[i])
  }

  // ---------- bits ----------

  function First(a: Sextet, b: Sextet): (r: Byte) { a * 4 + b / 16 }
  function Second(b: Sextet, c: Sextet): (r: Byte) { b % 16 * 16 + c / 4 }
  function Third(c: Sextet, d: Sextet): (r: Byte) { c % 4 * 64 + d }

  /** `atob` after the two replacements and padding: bits that do not fill a byte are dropped. */
  function Binary(s: Text): (r: seq<Byte>)
    requires InAlphabet(s)
    ensures |r| == |s| * 3 / 4
  {
    if |s| <= 1 then []
    else
      var a, b := SextetOf(s[0]), SextetOf(s[1]);
      if |s| == 2 then [First(a, b)]
      else
        var c := SextetOf(s[2]);
        if |s| == 3 then [First(a, b), Second(b, c)]
        else [First(a, b), Second(b, c), Third(c, SextetOf(s[3]))] + Binary(s[4..])
  }

  /** `btoa` with the two replacements and without padding. */
  function Encode(bytes: seq<Byte>): (r: Text)
    ensures InAlphabet(r) && |r| == (|bytes| * 4 + 2) / 3
  {
    if bytes == [] then []
    else
      var x := bytes[0];
      if |bytes| == 1 then [UnitOf(x / 4), UnitOf(x % 4 * 16)]
      else
        var y := bytes[1];
        if |bytes| == 2 then [UnitOf(x / 4), UnitOf(x % 4 * 16 + y / 16), UnitOf(y % 16 * 4)]
        else
          var z := bytes[2];
          [UnitOf(x / 4), UnitOf(x % 4 * 16 + y / 16), UnitOf(y % 16 * 4 + z / 64), UnitOf(z % 64)] + Encode(bytes[3..])
  }

  /** The checks and the decoding; None where the source throws. */
  function Decoded(value: Text, expectedByteLength: Option<int>): (r: Option<seq<Byte>>) {
    if value == [] || |value| > 8192 || |value| % 4 == 1 || !InAlphabet(value) then None
    else if Encode(Binary(value)) != value then None
    else if expectedByteLength.Some? && |Binary(value)| != expectedByteLength.value then None
    else Some(Binary(value))
  }

  method DecodeCanonicalBase64Url(value: Text, expectedByteLength: Option<int>) returns (ok: bool, decoded: array<Byte>)
    ensures fresh(decoded)
    ensures Decoded(value, expectedByteLength) == if ok then Some(decoded[..]) else None
  {
    hide Binary, Encode;
    decoded := new Byte[0];
    if value == [] || |value| > 8192 || |value| % 4 == 1 || !InAlphabet(value) {
      return false, decoded;
    }
    var binary := Binary(value);
    decoded := new Byte[|binary|];
    var index := 0;
    while index < |binary|
      invariant 0 <= index <= |binary| && decoded.Length == |binary| && decoded[..index] == binary[..index]
    {
      decoded[index] := binary[index];
      index := index + 1;
    }
    assert decoded[..] == binary;
    var canonical := Encode(decoded[..]);
    ok := canonical == value && (expectedByteLength == None || decoded.Length == expectedByteLength.value);
  }

  // ---------- groups of 24 bits ----------

  /** Table 2 of RFC 4648: A to Z, a to z, 0 to 9, hyphen and underscore. */
  ghost predicate InTable(n: Sextet, c: CodeUnit) {
    || (n < 26 && c == 0x41 + n)
    || (26 <= n < 52 && c == 0x61 + (n - 26))
    || (52 <= n < 62 && c == 0x30 + (n - 52))
    || (n == 62 && c == 0x2D)
    || (n == 63 && c == 0x5F)
  }

  /** The byte at i, or zero bits past the end. */
  ghost function ByteAt(bytes: seq<Byte>, i: nat): Byte {
    if i < |bytes| then bytes[i] else 0
  }

  /** The unit at i stands for these six bits, and past the end for zeros. */
  ghost predicate StandsFor(s: Text, i: nat, n: Sextet) {
    if i < |s| then InTable(n, s[i]) else n == 0
  }

  /** Four units from 4k on spell the three bytes from 3k on. */
  ghost predicate SpellsGroup(s: Text, bytes: seq<Byte>, k: nat) {
    exists a: Sextet, b: Sextet, c: Sextet, d: Sextet ::
      SpelledBy(s, k, a, b, c, d) && IsGroup(bytes, k, a, b, c, d)
  }

  ghost predicate SpelledBy(s: Text, k: nat, a: Sextet, b: Sextet, c: Sextet, d: Sextet) {
    StandsFor(s, 4 * k, a) && StandsFor(s, 4 * k + 1, b) && StandsFor(s, 4 * k + 2, c) && StandsFor(s, 4 * k + 3, d)
  }

  ghost predicate IsGroup(bytes: seq<Byte>, k: nat, a: Sextet, b: Sextet, c: Sextet, d: Sextet) {
    0x40000 * a + 0x1000 * b + 0x40 * c + d
      == 0x10000 * ByteAt(bytes, 3 * k) + 0x100 * ByteAt(bytes, 3 * k + 1) + ByteAt(bytes, 3 * k + 2)
  }

  lemma UnitOfTable(n: Sextet)
    ensures InTable(n, UnitOf(n))
  {
  }

  lemma GroupBits(x: Byte, y: Byte, z: Byte)
    ensures 0x40000 * (x / 4) + 0x1000 * (x % 4 * 16 + y / 16) + 0x40 * (y % 16 * 4 + z / 64) + z % 64
      == 0x10000 * x + 0x100 * y + z
  {
  }

  lemma EncodeStart(bytes: seq<Byte>, x: Byte, y: Byte, z: Byte)
    requires bytes != [] && x == ByteAt(bytes, 0) && y == ByteAt(bytes, 1) && z == ByteAt(bytes, 2)
    ensures var s := Encode(bytes);
      && |s| >= 2 && s[0] == UnitOf(x / 4) && s[1] == UnitOf(x % 4 * 16 + y / 16)
      && (|s| > 2 <==> |bytes| > 1) && (|s| > 3 <==> |bytes| > 2)
      && (|bytes| > 1 ==> s[2] == UnitOf(y % 16 * 4 + z / 64)) && (|bytes| > 2 ==> s[3] == UnitOf(z % 64))
  {
    hide UnitOf, SextetOf, IsBase64UrlUnit;
  }

  lemma FirstGroup(bytes: seq<Byte>)
    requires bytes != []
    ensures SpellsGroup(Encode(bytes), bytes, 0)
  {
    hide UnitOf, SextetOf, IsBase64UrlUnit, Encode, InTable;
    var x, y, z := ByteAt(bytes, 0), ByteAt(bytes, 1), ByteAt(bytes, 2);
    var a, b, c, d := x / 4, x % 4 * 16 + y / 16, y % 16 * 4 + z / 64, z % 64;
    GroupBits(x, y, z);
    EncodeStart(bytes, x, y, z);
    UnitOfTable(a);
    UnitOfTable(b);
    UnitOfTable(c);
    UnitOfTable(d);
    assert SpelledBy(Encode(bytes), 0, a, b, c, d);
    assert IsGroup(bytes, 0, a, b, c, d);
  }

  lemma LaterGroup(s: Text, bytes: seq<Byte>, k: nat)
    requires k > 0 && |s| >= 4 && |bytes| >= 3 && SpellsGroup(s[4..], bytes[3..], k - 1)
    ensures SpellsGroup(s, bytes, k)
  {
    hide InTable;
    var a, b, c, d :| SpelledBy(s[4..], k - 1, a, b, c, d) && IsGroup(bytes[3..], k - 1, a, b, c, d);
    assert SpelledBy(s, k, a, b, c, d);
    assert IsGroup(bytes, k, a, b, c, d);
  }

  /** Section 4 of RFC 4648: each group of 24 bits, filled up with zeros, is written as four indices into the table;
      units that would stand for nothing but the filling are left out. */
  lemma {:induction false} EncodeSpells(bytes: seq<Byte>, k: nat)
    requires 3 * k < |bytes|
    ensures SpellsGroup(Encode(bytes), bytes, k) && |Encode(bytes)| == (|bytes| * 4 + 2) / 3
  {
    hide SpellsGroup, UnitOf, SextetOf, IsBase64UrlUnit;
    if k == 0 {
      FirstGroup(bytes);
    } else {
      EncodeSpells(bytes[3..], k - 1);
      assert Encode(bytes)[4..] == Encode(bytes[3..]);
      LaterGroup(Encode(bytes), bytes, k);
    }
  }

  // ---------- encoding and decoding are inverse ----------

  lemma OneByte(x: Byte)
    ensures First(x / 4, x % 4 * 16) == x
  {
  }

  lemma TwoBytes(x: Byte, y: Byte)
    ensures First(x / 4, x % 4 * 16 + y / 16) == x && Second(x % 4 * 16 + y / 16, y % 16 * 4) == y
  {
  }

  lemma ThreeBytes(x: Byte, y: Byte, z: Byte)
    ensures First(x / 4, x % 4 * 16 + y / 16) == x
    ensures Second(x % 4 * 16 + y / 16, y % 16 * 4 + z / 64) == y
    ensures Third(y % 16 * 4 + z / 64, z % 64) == z
  {
  }

  lemma {:induction false} BinaryEncode(bytes: seq<Byte>)
    ensures Binary(Encode(bytes)) == bytes
  {
    hide First, Second, Third, SextetOf, UnitOf, IsBase64UrlUnit;
    if |bytes| == 1 {
      OneByte(bytes[0]);
    } else if |bytes| == 2 {
      TwoBytes(bytes[0], bytes[1]);
    } else if |bytes| > 2 {
      ThreeBytes(bytes[0], bytes[1], bytes[2]);
      BinaryEncode(bytes[3..]);
      assert Encode(bytes)[4..] == Encode(bytes[3..]);
      assert bytes == [bytes[0], bytes[1], bytes[2]] + bytes[3..];
    }
  }

  /** Whether the bits that no byte takes are zero, as section 3.5 asks. */
  predicate TrailingBitsZero(s: Text)
    requires InAlphabet(s)
  {
    match |s| % 4
    case 2 => SextetOf(s[|s| - 1]) % 16 == 0
    case 3 => SextetOf(s[|s| - 1]) % 4 == 0
    case _ => true
  }

  lemma FourSextets(a: Sextet, b: Sextet, c: Sextet, d: Sextet)
    ensures var x, y, z := First(a, b), Second(b, c), Third(c, d);
      a == x / 4 && b == x % 4 * 16 + y / 16 && c == y % 16 * 4 + z / 64 && d == z % 64
  {
  }

  lemma TailSextets(a: Sextet, b: Sextet, c: Sextet)
    ensures First(a, b) / 4 == a && (First(a, b) % 4 * 16 == b <==> b % 16 == 0)
    ensures First(a, b) % 4 * 16 + Second(b, c) / 16 == b && (Second(b, c) % 16 * 4 == c <==> c % 4 == 0)
  {
  }

  lemma EncodeBinaryTail(s: Text)
    requires InAlphabet(s) && 2 <= |s| <= 3
    ensures Encode(Binary(s)) == s <==> TrailingBitsZero(s)
  {
    hide Encode, Binary, TrailingBitsZero;
    if |s| == 2 {
      EncodeTwo(s);
    } else {
      EncodeThree(s);
    }
  }

  lemma EncodeTwo(s: Text)
    requires InAlphabet(s) && |s| == 2
    ensures Encode(Binary(s)) == s <==> TrailingBitsZero(s)
  {
    hide First, Second, Third, SextetOf, UnitOf;
    var a, b := SextetOf(s[0]), SextetOf(s[1]);
    UnitOfSextet(s[0]);
    UnitOfSextet(s[1]);
    TailSextets(a, b, 0);
    assert Encode(Binary(s)) == [UnitOf(First(a, b) / 4), UnitOf(First(a, b) % 4 * 16)];
    assert s == [UnitOf(a), UnitOf(b)];
  }

  lemma EncodeThree(s: Text)
    requires InAlphabet(s) && |s| == 3
    ensures Encode(Binary(s)) == s <==> TrailingBitsZero(s)
  {
    hide First, Second, Third, SextetOf, UnitOf;
    var a, b, c := SextetOf(s[0]), SextetOf(s[1]), SextetOf(s[2]);
    UnitOfSextet(s[0]);
    UnitOfSextet(s[1]);
    UnitOfSextet(s[2]);
    TailSextets(a, b, c);
    var x, y := First(a, b), Second(b, c);
    assert Encode(Binary(s)) == [UnitOf(x / 4), UnitOf(x % 4 * 16 + y / 16), UnitOf(y % 16 * 4)];
    assert s == [UnitOf(a), UnitOf(b), UnitOf(c)];
  }

  lemma EncodeFour(s: Text, rest: seq<Byte>)
    requires InAlphabet(s) && |s| == 4
    ensures var a, b, c, d := SextetOf(s[0]), SextetOf(s[1]), SextetOf(s[2]), SextetOf(s[3]);
      Encode([First(a, b), Second(b, c), Third(c, d)] + rest) == s + Encode(rest)
  {
    hide First, Second, Third, SextetOf, UnitOf;
    var a, b, c, d := SextetOf(s[0]), SextetOf(s[1]), SextetOf(s[2]), SextetOf(s[3]);
    UnitOfSextet(s[0]);
    UnitOfSextet(s[1]);
    UnitOfSextet(s[2]);
    UnitOfSextet(s[3]);
    FourSextets(a, b, c, d);
    var bytes := [First(a, b), Second(b, c), Third(c, d)] + rest;
    assert bytes[3..] == rest;
    assert s == [s[0], s[1], s[2], s[3]];
  }

  lemma LaterTrailingBits(s: Text)
    requires InAlphabet(s) && |s| >= 4
    ensures TrailingBitsZero(s) <==> TrailingBitsZero(s[4..])
  {
    hide SextetOf;
    assert |s| > 4 ==> s[4..][|s| - 5] == s[|s| - 1];
  }

  /** Encoding the decoded bytes gives the text back exactly when its trailing bits are zero. */
  lemma {:induction false} EncodeBinary(s: Text)
    requires InAlphabet(s) && |s| % 4 != 1
    ensures Encode(Binary(s)) == s <==> TrailingBitsZero(s)
  {
    hide First, Second, Third, SextetOf, UnitOf, Encode, TrailingBitsZero;
    if |s| == 0 {
      NothingEncodes(s);
    } else if |s| < 4 {
      EncodeBinaryTail(s);
    } else {
      EncodeBinary(s[4..]);
      LaterTrailingBits(s);
      EncodeFour(s[..4], Binary(s[4..]));
      assert s == s[..4] + s[4..];
      var code := Encode(Binary(s[4..]));
      assert s[..4] + code == s ==> (s[..4] + code)[4..] == s[4..];
      assert (s[..4] + code)[4..] == code;
    }
  }

  lemma NothingEncodes(s: Text)
    requires s == []
    ensures Encode(Binary(s)) == s && TrailingBitsZero(s)
  {
  }

  // ---------- what is accepted ----------

  /** Accepted are exactly the encodings of 1 to 6144 bytes, and what comes back is what was encoded. */
  lemma AcceptsExactlyEncodings(value: Text, bytes: seq<Byte>)
    ensures Decoded(value, None) == Some(bytes) <==> 1 <= |bytes| <= 6144 && value == Encode(bytes)
  {
    hide Binary, Encode;
    if value == Encode(bytes) {
      BinaryEncode(bytes);
    }
  }

  /** The same by looking at the text alone: its length, its alphabet and its trailing bits. */
  lemma AcceptsExactlyCanonicalTexts(value: Text)
    ensures Decoded(value, None).Some? <==>
      0 < |value| <= 8192 && |value| % 4 != 1 && InAlphabet(value) && TrailingBitsZero(value)
  {
    hide Binary, Encode, TrailingBitsZero;
    if |value| % 4 != 1 && InAlphabet(value) {
      EncodeBinary(value);
    }
  }

  /** No two accepted texts give the same bytes, whatever length each is asked to have. */
  lemma DecodingIsInjective(value: Text, other: Text, m: Option<int>, n: Option<int>)
    requires Decoded(value, m).Some? && Decoded(value, m) == Decoded(other, n)
    ensures value == other
  {
    hide Binary, Encode;
  }
}
