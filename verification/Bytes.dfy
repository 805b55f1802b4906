/** Byte strings and fixed-width integers as the KeyValue reader and the
    schema interpreter see them.

    Strings of the C# program are UTF-8 decoded byte strings; this model
    keeps them as the raw bytes. Case-insensitive comparison is ASCII case
    folding, integer formatting is invariant decimal text, and `int.TryParse`
    is a plain decimal parser with the white space and sign rules of
    `NumberStyles.Integer`.
 */
module Bytes {

  type byte = b: int | 0 <= b < 0x100

  const MinInt32: int := -0x8000_0000
  const MaxInt32: int := 0x7FFF_FFFF

  type int32 = i: int | MinInt32 <= i <= MaxInt32
  type uint32 = u: int | 0 <= u < 0x1_0000_0000
  type uint64 = u: int | 0 <= u < 0x1_0000_0000_0000_0000

  /** The bytes of an ASCII string literal. */
  function Ascii(s: string): (r: seq<byte>)
    requires forall i :: 0 <= i < |s| ==> s[i] as int < 0x80
  {
    seq(|s|, i requires 0 <= i < |s| => s[i] as int)
  }

  /* ---------- little-endian integers ---------- */

  /** The unsigned value of `b` read least significant byte first. */
  function LittleEndian(b: seq<byte>): (r: nat)
    ensures r < Power256(|b|)
  {
    if |b| == 0 then 0 else b[0] + 0x100 * LittleEndian(b[1..])
  }

  function Power256(n: nat): (r: nat)
    ensures r > 0
  {
    if n == 0 then 1 else 0x100 * Power256(n - 1)
  }

  /** The `n` bytes that encode `v` least significant byte first. */
  function LittleEndianBytes(v: nat, n: nat): (r: seq<byte>)
    ensures |r| == n
  {
    if n == 0 then [] else [v % 0x100] + LittleEndianBytes(v / 0x100, n - 1)
  }

  lemma {:induction false} LittleEndianRoundTrip(v: nat, n: nat)
    requires v < Power256(n)
    ensures LittleEndian(LittleEndianBytes(v, n)) == v
  {
    if n > 0 {
      var b := LittleEndianBytes(v, n);
      assert b[1..] == LittleEndianBytes(v / 0x100, n - 1);
      LittleEndianRoundTrip(v / 0x100, n - 1);
    }
  }

  /** Two's complement reinterpretation of an unsigned 32-bit value, as
      `BitConverter.ToInt32` does. */
  function ToInt32(u: uint32): (r: int32)
    ensures r % 0x1_0000_0000 == u
    ensures 0 <= r <==> u <= MaxInt32
  {
    if u <= MaxInt32 then u else u - 0x1_0000_0000
  }

  /** The low 32 bits of a 64-bit value reinterpreted as a signed integer:
      C#'s `(int)(ulong & 0xFFFFFFFF)`. */
  function Low32AsInt32(u: uint64): (r: int32)
    ensures r % 0x1_0000_0000 == u % 0x1_0000_0000
  {
    ToInt32(u % 0x1_0000_0000)
  }

  /* ---------- ASCII case folding ---------- */

  function ToLower(b: byte): (r: byte)
    ensures 'A' as int <= b <= 'Z' as int ==> r == b + 32
    ensures !('A' as int <= b <= 'Z' as int) ==> r == b
  {
    if 'A' as int <= b <= 'Z' as int then b + 32 else b
  }

  /** Case-insensitive equality of two names. */
  predicate EqualsIgnoreCase(a: seq<byte>, b: seq<byte>)
  {
    |a| == |b| && forall i :: 0 <= i < |a| ==> ToLower(a[i]) == ToLower(b[i])
  }

  /** Case-insensitive equality is an equivalence relation, so the set of
      children a key selects does not depend on how the key is spelled. */
  lemma EqualsIgnoreCaseIsEquivalence(a: seq<byte>, b: seq<byte>, c: seq<byte>)
    ensures EqualsIgnoreCase(a, a)
    ensures EqualsIgnoreCase(a, b) ==> EqualsIgnoreCase(b, a)
    ensures EqualsIgnoreCase(a, b) && EqualsIgnoreCase(b, c) ==> EqualsIgnoreCase(a, c)
  {
  }

  /* ---------- decimal text ---------- */

  predicate IsDigit(b: byte)
  {
    '0' as int <= b <= '9' as int
  }

  /** The decimal digits of `n`, most significant first, without leading zeros. */
  function Digits(n: nat): (r: seq<byte>)
    ensures |r| > 0
    ensures forall i :: 0 <= i < |r| ==> IsDigit(r[i])
  {
    if n < 10 then ['0' as int + n] else Digits(n / 10) + ['0' as int + n % 10]
  }

  /** `ToString()` of an integer under the invariant culture. */
  function DecimalText(i: int): (r: seq<byte>)
    ensures |r| > 0
  {
    if i < 0 then ['-' as int] + Digits(-i) else Digits(i)
  }

  /** The value of a sequence of decimal digits. */
  function DigitsValue(ds: seq<byte>): nat
    requires forall i :: 0 <= i < |ds| ==> IsDigit(ds[i])
  {
    if |ds| == 0 then 0
    else
      assert IsDigit(ds[|ds| - 1]);
      10 * DigitsValue(ds[..|ds| - 1]) + (ds[|ds| - 1] - '0' as int)
  }

  lemma {:induction false} DigitsValueOfDigits(n: nat)
    ensures DigitsValue(Digits(n)) == n
  {
    if n >= 10 {
      var ds := Digits(n);
      assert ds[..|ds| - 1] == Digits(n / 10);
      DigitsValueOfDigits(n / 10);
    }
  }

  /* ---------- int.TryParse ---------- */

  /** White space that `NumberStyles.Integer` allows around a number. */
  predicate IsWhite(b: byte)
  {
    9 <= b <= 13 || b == ' ' as int
  }

  function TrimStart(s: seq<byte>): (r: seq<byte>)
    ensures |r| <= |s| && r == s[|s| - |r|..]
    ensures |r| > 0 ==> !IsWhite(r[0])
    ensures forall i :: 0 <= i < |s| - |r| ==> IsWhite(s[i])
  {
    if |s| > 0 && IsWhite(s[0]) then TrimStart(s[1..]) else s
  }

  function TrimEnd(s: seq<byte>): (r: seq<byte>)
    ensures |r| <= |s| && r == s[..|r|]
    ensures |r| > 0 ==> !IsWhite(r[|r| - 1])
    ensures forall i :: |r| <= i < |s| ==> IsWhite(s[i])
  {
    if |s| > 0 && IsWhite(s[|s| - 1]) then TrimEnd(s[..|s| - 1]) else s
  }

  datatype ParsedInt = Parsed(value: int32) | NotANumber

  /** `int.TryParse(s, out v)`: optional white space, an optional sign, one or
      more decimal digits and optional white space, whose value fits 32 bits. */
  function ParseInt32(s: seq<byte>): (r: ParsedInt)
    ensures r.Parsed? ==> exists k :: 0 <= k < |s| && IsDigit(s[k])
  {
    var t := TrimEnd(TrimStart(s));
    var r := ParseSigned(t);
    if r.Parsed? then
      assert t[|t| - 1] == s[|s| - |TrimStart(s)| + |t| - 1];
      r
    else
      r
  }

  /** `int.TryParse` of text with no white space around it: an optional
      sign and one or more decimal digits, whose value fits 32 bits. */
  function ParseSigned(t: seq<byte>): (r: ParsedInt)
    ensures r.Parsed? ==> |t| > 0 && IsDigit(t[|t| - 1])
  {
    var negative := |t| > 0 && t[0] == '-' as int;
    var body := if |t| > 0 && (t[0] == '-' as int || t[0] == '+' as int) then t[1..] else t;
    if |body| == 0 || exists i :: 0 <= i < |body| && !IsDigit(body[i]) then
      NotANumber
    else
      var magnitude := DigitsValue(body);
      var v: int := if negative then -(magnitude as int) else magnitude;
      if MinInt32 <= v <= MaxInt32 then
        assert IsDigit(body[|body| - 1]) && body[|body| - 1] == t[|t| - 1];
        Parsed(v)
      else
        NotANumber
  }

  /** Reading back the decimal text of a 32-bit integer gives the integer. */
  lemma ParseDecimalText(i: int32)
    ensures ParseInt32(DecimalText(i)) == Parsed(i)
  {
    var n: nat := if i < 0 then -(i as int) else i;
    var ds := Digits(n);
    DigitsValueOfDigits(n);
    var text := DecimalText(i);
    assert !IsWhite(text[0]);
    assert TrimStart(text) == text;
    assert !IsWhite(text[|text| - 1]);
    assert TrimEnd(text) == text;
    if i < 0 {
      assert text[1..] == ds;
    }
  }

  /** Unsigned decimal digits parse to their value exactly when it fits 32
      bits; a larger value is rejected, as `int.TryParse` rejects overflow. */
  lemma ParseInt32Digits(n: nat)
    ensures ParseInt32(Digits(n)) == if n <= MaxInt32 then Parsed(n) else NotANumber
  {
    var ds := Digits(n);
    DigitsValueOfDigits(n);
    ParseUntrimmed(ds);
  }

  /** Text with no white space at either end is parsed as it stands. */
  lemma ParseUntrimmed(t: seq<byte>)
    requires |t| > 0 && !IsWhite(t[0]) && !IsWhite(t[|t| - 1])
    ensures ParseInt32(t) == ParseSigned(t)
  {
    assert TrimStart(t) == t;
    assert TrimEnd(t) == t;
  }

  /** Digits alone, or after a `+`, give their value when it fits 32 bits. */
  lemma ParseSignedDigits(b: seq<byte>)
    requires |b| > 0 && forall i :: 0 <= i < |b| ==> IsDigit(b[i])
    ensures ParseSigned(b) == ParseSigned(['+' as int] + b)
    ensures ParseSigned(b) == if DigitsValue(b) <= MaxInt32 then Parsed(DigitsValue(b)) else NotANumber
  {
    assert IsDigit(b[0]);
    assert (['+' as int] + b)[1..] == b;
  }

  /** A leading `+` changes nothing ... */
  lemma ParseInt32Plus(n: nat)
    ensures ParseInt32(['+' as int] + Digits(n)) == ParseInt32(Digits(n))
  {
    var ds := Digits(n);
    var plus: seq<byte> := ['+' as int] + ds;
    assert plus[|plus| - 1] == ds[|ds| - 1];
    ParseUntrimmed(plus);
    ParseUntrimmed(ds);
    ParseSignedDigits(ds);
  }

  /** ... and a leading `-` negates, down to -2^31 and no further. */
  lemma ParseInt32Minus(n: nat)
    ensures ParseInt32(['-' as int] + Digits(n)) == if n <= 0x8000_0000 then Parsed(-(n as int)) else NotANumber
  {
    var ds := Digits(n);
    DigitsValueOfDigits(n);
    var minus: seq<byte> := ['-' as int] + ds;
    assert minus[|minus| - 1] == ds[|ds| - 1];
    ParseUntrimmed(minus);
    assert minus[1..] == ds;
  }

  predicate AllWhite(w: seq<byte>)
  {
    forall i :: 0 <= i < |w| ==> IsWhite(w[i])
  }

  lemma {:induction false} TrimStartWhite(w: seq<byte>, x: seq<byte>)
    requires AllWhite(w)
    ensures TrimStart(w + x) == TrimStart(x)
    decreases |w|
  {
    if |w| > 0 {
      assert (w + x)[0] == w[0];
      assert (w + x)[1..] == w[1..] + x;
      TrimStartWhite(w[1..], x);
    } else {
      assert w + x == x;
    }
  }

  lemma {:induction false} TrimEndWhite(x: seq<byte>, w: seq<byte>)
    requires AllWhite(w)
    ensures TrimEnd(x + w) == TrimEnd(x)
    decreases |w|
  {
    if |w| > 0 {
      assert (x + w)[|x + w| - 1] == w[|w| - 1];
      assert (x + w)[..|x + w| - 1] == x + w[..|w| - 1];
      TrimEndWhite(x, w[..|w| - 1]);
    } else {
      assert x + w == x;
    }
  }

  /** White space after `t` is trimmed away with `t`'s own. */
  lemma {:induction false} TrimBothWhiteSuffix(t: seq<byte>, w: seq<byte>)
    requires AllWhite(w)
    ensures TrimEnd(TrimStart(t + w)) == TrimEnd(TrimStart(t))
    decreases |t|
  {
    if |t| == 0 {
      assert t + w == w + [];
      TrimStartWhite(w, []);
    } else if IsWhite(t[0]) {
      assert (t + w)[0] == t[0];
      assert (t + w)[1..] == t[1..] + w;
      TrimBothWhiteSuffix(t[1..], w);
    } else {
      assert (t + w)[0] == t[0];
      TrimEndWhite(t, w);
    }
  }

  /** White space before and after a number does not change what
      `int.TryParse` makes of it. */
  lemma ParseInt32IgnoresWhite(w1: seq<byte>, t: seq<byte>, w2: seq<byte>)
    requires AllWhite(w1) && AllWhite(w2)
    ensures ParseInt32(w1 + t + w2) == ParseInt32(t)
  {
    assert w1 + t + w2 == w1 + (t + w2);
    TrimStartWhite(w1, t + w2);
    TrimBothWhiteSuffix(t, w2);
  }
}
