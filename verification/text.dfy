/**
 * Java text as the engine sees it: a String is a sequence of 16-bit chars,
 * stored on disk in the modified UTF-8 of DataOutput.writeUTF and read back
 * with DataInput.readUTF.  Also the number texts the engine produces and
 * parses (Long.toString, Long.parseLong, Double.parseDouble) and the dotted
 * key paths of filters (String.split("\\.")).
 */
module Text {
  import opened Bytes
  import opened Results

  /** A Java `char`: one UTF-16 code unit. */
  newtype Char16 = x: int | 0 <= x < 0x1_0000

  /** A Java String. */
  type JString = seq<Char16>

  const TAB: Char16 := 9
  const LINE_FEED: Char16 := 10
  const SPACE: Char16 := 32
  const QUOTE: Char16 := 34
  const PLUS: Char16 := 43
  const COMMA: Char16 := 44
  const MINUS: Char16 := 45
  const DOT: Char16 := 46
  const ZERO: Char16 := 48
  const NINE: Char16 := 57
  const COLON: Char16 := 58
  const OPEN_BRACKET: Char16 := 91
  const BACKSLASH: Char16 := 92
  const CLOSE_BRACKET: Char16 := 93
  const OPEN_BRACE: Char16 := 123
  const CLOSE_BRACE: Char16 := 125

  /** The words "true", "false" and "null". */
  const TRUE_TEXT: JString := [116, 114, 117, 101]
  const FALSE_TEXT: JString := [102, 97, 108, 115, 101]
  const NULL_TEXT: JString := [110, 117, 108, 108]

  // ---------------------------------------------------------------- modified UTF-8

  /** Bytes writeUTF spends on one char: 1 for 1..127, 3 above 2047, else 2 (so NUL takes 2). */
  function CharWidth(c: Char16): nat
  {
    if 1 <= c <= 127 then 1 else if c > 2047 then 3 else 2
  }

  /** Bytes of modified UTF-8 for s, without the 2-byte length header. */
  function EncodedLength(s: JString): nat
  {
    if s == [] then 0 else CharWidth(s[0]) + EncodedLength(s[1..])
  }

  lemma {:induction false} EncodedLengthAppend(s: JString, c: Char16)
    ensures EncodedLength(s + [c]) == EncodedLength(s) + CharWidth(c)
  {
    if s != [] {
      assert (s + [c])[1..] == s[1..] + [c];
      EncodedLengthAppend(s[1..], c);
    }
  }

  lemma {:induction false} EncodedLengthBounds(s: JString)
    ensures |s| <= EncodedLength(s) <= 3 * |s|
  {
    if s != [] {
      EncodedLengthBounds(s[1..]);
    }
  }

  /**
   * measureUTF8Length: the number of bytes writeUTF will emit for s,
   * header included.
   */
  method MeasureUtf8Length(s: JString) returns (n: int)
    ensures n == EncodedLength(s) + 2
    ensures 2 + |s| <= n <= 2 + 3 * |s|
  {
    var encoded := 0;
    var i := 0;
    while i < |s|
      invariant 0 <= i <= |s|
      invariant encoded == EncodedLength(s[..i])
    {
      var c := s[i];
      assert s[..i + 1] == s[..i] + [c];
      EncodedLengthAppend(s[..i], c);
      if 1 <= c <= 127 {
        encoded := encoded + 1;
      } else if c > 2047 {
        encoded := encoded + 3;
      } else {
        encoded := encoded + 2;
      }
      i := i + 1;
    }
    assert s[..i] == s;
    EncodedLengthBounds(s);
    n := encoded + 2;
  }

  /** The modified UTF-8 bytes of one char. */
  function CharBytes(c: Char16): (r: seq<byte>)
    ensures |r| == CharWidth(c)
  {
    var x := c as int;
    if 1 <= x <= 127 then [x as byte]
    else if x > 2047 then [(224 + x / 4096) as byte, (128 + (x / 64) % 64) as byte, (128 + x % 64) as byte]
    else [(192 + x / 64) as byte, (128 + x % 64) as byte]
  }

  /** The modified UTF-8 body writeUTF emits for s. */
  function Mutf8(s: JString): (r: seq<byte>)
    ensures |r| == EncodedLength(s)
  {
    if s == [] then [] else CharBytes(s[0]) + Mutf8(s[1..])
  }

  /**
   * DataOutput.writeUTF: a 2-byte length, then the body; None when the body
   * would exceed 65535 bytes (the UTFDataFormatException).
   */
  function WriteUtf(s: JString): (r: Option<seq<byte>>)
    ensures r.Some? <==> EncodedLength(s) < TWO_16
    ensures r.Some? ==> |r.value| == EncodedLength(s) + 2
  {
    if EncodedLength(s) < TWO_16 then Some(EncodeU16(EncodedLength(s)) + Mutf8(s)) else None
  }

  function Prepend(c: Char16, rest: Option<JString>): Option<JString>
  {
    if rest.Some? then Some([c] + rest.value) else None
  }

  /** The body decoder of DataInput.readUTF; None for malformed input. */
  function DecodeMutf8(b: seq<byte>): Option<JString>
    decreases |b|
  {
    if |b| == 0 then Some([])
    else
      var c := b[0] as int;
      if c < 128 then Prepend(c as Char16, DecodeMutf8(b[1..]))
      else if 192 <= c < 224 then
        if |b| < 2 || b[1] as int / 64 != 2 then None
        else Prepend(((c - 192) * 64 + (b[1] as int - 128)) as Char16, DecodeMutf8(b[2..]))
      else if 224 <= c < 240 then
        if |b| < 3 || b[1] as int / 64 != 2 || b[2] as int / 64 != 2 then None
        else Prepend(((c - 224) * 4096 + (b[1] as int - 128) * 64 + (b[2] as int - 128)) as Char16,
                     DecodeMutf8(b[3..]))
      else None
  }

  lemma DecodeCharBytes(c: Char16, rest: seq<byte>)
    ensures DecodeMutf8(CharBytes(c) + rest) == Prepend(c, DecodeMutf8(rest))
  {
    var x := c as int;
    var b := CharBytes(c) + rest;
    if 1 <= x <= 127 {
      assert b[1..] == rest;
    } else if x > 2047 {
      assert x == (x / 4096) * 4096 + ((x / 64) % 64) * 64 + x % 64;
      assert b[3..] == rest;
    } else {
      assert x == (x / 64) * 64 + x % 64;
      assert b[2..] == rest;
    }
  }

  /** readUTF undoes the body writeUTF emits. */
  lemma {:induction false} DecodeOfMutf8(s: JString)
    ensures DecodeMutf8(Mutf8(s)) == Some(s)
  {
    if s != [] {
      DecodeOfMutf8(s[1..]);
      DecodeCharBytes(s[0], Mutf8(s[1..]));
      assert [s[0]] + s[1..] == s;
    }
  }

  /**
   * DataInput.readUTF at position p of a file: the string and the position
   * after it, or Access (EOFException / UTFDataFormatException).
   */
  function ReadUtfAt(f: seq<byte>, p: nat): (r: Result<(JString, nat)>)
    ensures r.Ok? ==> p + 2 <= r.value.1 <= |f|
    ensures r.Err? ==> r.error == Access
  {
    if p + 2 > |f| then Err(Access)
    else
      var n := Unsigned(f[p..p + 2]);
      if p + 2 + n > |f| then Err(Access)
      else
        match DecodeMutf8(f[p + 2..p + 2 + n])
        case None => Err(Access)
        case Some(s) => Ok((s, p + 2 + n))
  }

  /** Reading at p what writeUTF put at p gives the string back. */
  lemma ReadUtfOfWriteUtf(f: seq<byte>, p: nat, s: JString)
    requires WriteUtf(s).Some?
    requires p + |WriteUtf(s).value| <= |f|
    requires f[p..p + |WriteUtf(s).value|] == WriteUtf(s).value
    ensures ReadUtfAt(f, p) == Ok((s, p + |WriteUtf(s).value|))
  {
    UtfLengthAt(f, p, s);
    UtfBodyAt(f, p, s);
  }

  /** The two-byte length writeUTF puts first reads back as the body's length. */
  lemma UtfLengthAt(f: seq<byte>, p: nat, s: JString)
    requires WriteUtf(s).Some?
    requires p + |WriteUtf(s).value| <= |f|
    requires f[p..p + |WriteUtf(s).value|] == WriteUtf(s).value
    ensures Unsigned(f[p..p + 2]) == EncodedLength(s)
  {
    var w := WriteUtf(s).value;
    assert f[p..p + 2] == w[..2] == EncodeU16(EncodedLength(s));
    U16RoundTrip(EncodedLength(s));
  }

  /** The body writeUTF puts after the length decodes back to the string. */
  lemma UtfBodyAt(f: seq<byte>, p: nat, s: JString)
    requires WriteUtf(s).Some?
    requires p + |WriteUtf(s).value| <= |f|
    requires f[p..p + |WriteUtf(s).value|] == WriteUtf(s).value
    ensures DecodeMutf8(f[p + 2..p + 2 + EncodedLength(s)]) == Some(s)
  {
    var w := WriteUtf(s).value;
    assert f[p + 2..p + 2 + EncodedLength(s)] == w[2..] == Mutf8(s);
    DecodeOfMutf8(s);
  }

  // ---------------------------------------------------------------- numbers as text

  predicate IsDigit(c: Char16) { ZERO <= c <= NINE }

  /** The decimal digits of n, most significant first. */
  function Digits(n: nat): (r: JString)
    ensures |r| >= 1 && forall i :: 0 <= i < |r| ==> IsDigit(r[i])
  {
    if n < 10 then [(48 + n) as Char16] else Digits(n / 10) + [(48 + n % 10) as Char16]
  }

  /** Long.toString / Number.toString of an integral number. */
  function DecimalText(n: int): JString
  {
    if n < 0 then [MINUS] + Digits(-n) else Digits(n)
  }

  /** The value of a string of decimal digits. */
  function DigitsValue(s: JString): nat
    requires forall i :: 0 <= i < |s| ==> IsDigit(s[i])
  {
    if s == [] then 0
    else
      assert IsDigit(s[|s| - 1]);
      DigitsValue(s[..|s| - 1]) * 10 + (s[|s| - 1] as int - 48)
  }

  lemma {:induction false} DigitsValueOfDigits(n: nat)
    ensures DigitsValue(Digits(n)) == n
  {
    if n >= 10 {
      DigitsValueOfDigits(n / 10);
      var d := Digits(n);
      assert d[..|d| - 1] == Digits(n / 10);
    }
  }

  predicate AllDigits(s: JString) { forall i :: 0 <= i < |s| ==> IsDigit(s[i]) }

  /**
   * Long.parseLong: an optional sign, at least one ASCII digit, and a value
   * in the range of a Java long; None for the NumberFormatException.
   */
  function ParseLong(s: JString): (r: Option<int>)
    ensures r.Some? ==> IsLong(r.value)
  {
    var signed := |s| > 0 && (s[0] == MINUS || s[0] == PLUS);
    var body := if signed then s[1..] else s;
    if |body| == 0 || !AllDigits(body) then None
    else
      var m: int := DigitsValue(body);
      var v := if signed && s[0] == MINUS then -m else m;
      if IsLong(v) then Some(v) else None
  }

  /** Long.parseLong reads back what Long.toString writes. */
  lemma ParseLongOfDecimalText(n: int)
    requires IsLong(n)
    ensures ParseLong(DecimalText(n)) == Some(n)
  {
    if n < 0 {
      DigitsValueOfDigits(-n);
      assert DecimalText(n)[1..] == Digits(-n);
    } else {
      DigitsValueOfDigits(n);
    }
  }

  // ---------------------------------------------------------------- Double.parseDouble

  /** The end of the run of decimal digits that starts at i. */
  function DigitEnd(s: JString, i: nat): (j: nat)
    requires i <= |s|
    ensures i <= j <= |s| && AllDigits(s[i..j]) && (j == |s| || !IsDigit(s[j]))
    decreases |s| - i
  {
    if i < |s| && IsDigit(s[i]) then
      var j := DigitEnd(s, i + 1);
      assert s[i..j] == [s[i]] + s[i + 1..j];
      j
    else i
  }

  function Pow10(n: nat): (r: nat)
    ensures r > 0
  {
    if n == 0 then 1 else 10 * Pow10(n - 1)
  }

  function Scale(x: real, e: int): real
    decreases if e < 0 then -e else e
  {
    if e == 0 then x else if e > 0 then Scale(x * 10.0, e - 1) else Scale(x / 10.0, e + 1)
  }

  /** String.trim: drop leading and trailing chars up to U+0020. */
  function Trim(s: JString): (r: JString)
    ensures |r| <= |s|
  {
    if |s| > 0 && s[0] <= SPACE then Trim(s[1..])
    else if |s| > 0 && s[|s| - 1] <= SPACE then Trim(s[..|s| - 1])
    else s
  }

  /**
   * The exponent part "[eE][+-]?digits" that may start at k: its value and the
   * position after it, (0, k) when there is none, None when it is malformed.
   */
  function ParseExponent(t: JString, k: nat): Option<(int, nat)>
    requires k <= |t|
  {
    if k < |t| && (t[k] == 101 || t[k] == 69) then
      var negative := k + 1 < |t| && t[k + 1] == MINUS;
      var i := if k + 1 < |t| && (t[k + 1] == MINUS || t[k + 1] == PLUS) then k + 2 else k + 1;
      var j := DigitEnd(t, i);
      if j == i then None
      else
        var e: int := DigitsValue(t[i..j]);
        Some((if negative then -e else e, j))
    else Some((0, k))
  }

  /**
   * Double.parseDouble on decimal text, exactly (as a real number): optional
   * surrounding blanks, an optional sign, digits with at most one point and at
   * least one digit, an optional exponent and an optional f/F/d/D suffix.
   * None stands for the NumberFormatException.
   */
  function ParseDecimal(s: JString): Option<real>
  {
    var t := Trim(s);
    var negative := |t| > 0 && t[0] == MINUS;
    var i := if |t| > 0 && (t[0] == MINUS || t[0] == PLUS) then 1 else 0;
    var j := DigitEnd(t, i);
    var point := j < |t| && t[j] == DOT;
    var k := if point then DigitEnd(t, j + 1) else j;
    var fraction := if point then t[j + 1..k] else [];
    if j - i + |fraction| == 0 then None
    else
      match ParseExponent(t, k)
      case None => None
      case Some((e, m)) =>
        var end := if m < |t| && t[m] in {102, 70, 100, 68} then m + 1 else m;
        if end != |t| then None
        else
          var magnitude := DigitsValue(t[i..j]) as real + DigitsValue(fraction) as real / Pow10(|fraction|) as real;
          var value := Scale(magnitude, e);
          Some(if negative then -value else value)
  }

  /** A number's own text parses back to that number. */
  lemma ParseDecimalOfDecimalText(n: int)
    ensures ParseDecimal(DecimalText(n)) == Some(n as real)
  {
    var t := DecimalText(n);
    var m := if n < 0 then -n else n;
    var d := Digits(m);
    var i := if n < 0 then 1 else 0;
    assert t[i..] == d;
    assert t[0] == MINUS || IsDigit(t[0]);
    assert IsDigit(t[|t| - 1]);
    assert Trim(t) == t;
    DigitEndAll(t, i);
    DigitsValueOfDigits(m);
    assert t[i..|t|] == d;
    assert ParseExponent(t, |t|) == Some((0, |t|));
    assert DigitsValue([]) == 0;
    assert Scale(m as real, 0) == m as real;
  }

  lemma {:induction false} DigitEndAll(s: JString, i: nat)
    requires i <= |s| && AllDigits(s[i..])
    ensures DigitEnd(s, i) == |s|
    decreases |s| - i
  {
    if i < |s| {
      assert IsDigit(s[i..][0]);
      assert s[i + 1..] == s[i..][1..];
      DigitEndAll(s, i + 1);
    }
  }

  // ---------------------------------------------------------------- small text helpers

  /** toLowerCase(Locale.US) of a char, for the ASCII letters the parser collects. */
  function Lower(c: Char16): Char16
  {
    if 65 <= c <= 90 then c + 32 else c
  }

  function LowerAll(s: JString): (r: JString)
    ensures |r| == |s| && forall i :: 0 <= i < |s| ==> r[i] == Lower(s[i])
  {
    if s == [] then [] else [Lower(s[0])] + LowerAll(s[1..])
  }

  /** s split at every dot, empty pieces kept. */
  function SplitAll(s: JString): (r: seq<JString>)
    ensures |r| >= 1
    ensures forall k :: 0 <= k < |r| ==> DOT !in r[k]
  {
    if s == [] then [[]]
    else
      var rest := SplitAll(s[1..]);
      if s[0] == DOT then [[]] + rest else [[s[0]] + rest[0]] + rest[1..]
  }

  function DropTrailingEmpty(parts: seq<JString>): (r: seq<JString>)
    ensures |r| <= |parts| && r == parts[..|r|]
    ensures |r| > 0 ==> r[|r| - 1] != []
    ensures forall k :: |r| <= k < |parts| ==> parts[k] == []
  {
    if parts != [] && parts[|parts| - 1] == [] then DropTrailingEmpty(parts[..|parts| - 1]) else parts
  }

  /** key.split("\\."): the whole key when it has no dot, else the pieces without trailing empty ones. */
  function SplitPath(key: JString): (r: seq<JString>)
    ensures forall k :: 0 <= k < |r| ==> DOT !in r[k]
    ensures DOT !in key ==> r == [key]
  {
    if DOT !in key then [key] else DropTrailingEmpty(SplitAll(key))
  }

  /** Joining the pieces of SplitAll with dots gives the key back. */
  function JoinDots(parts: seq<JString>): JString
    requires |parts| >= 1
  {
    if |parts| == 1 then parts[0] else parts[0] + [DOT] + JoinDots(parts[1..])
  }

  lemma {:induction false} SplitAllJoins(s: JString)
    ensures JoinDots(SplitAll(s)) == s
  {
    if s != [] {
      SplitAllJoins(s[1..]);
      var rest := SplitAll(s[1..]);
      if s[0] == DOT {
        assert [[]] + rest == [[]] + rest;
        assert ([[]] + rest)[1..] == rest;
      } else {
        var r := [[s[0]] + rest[0]] + rest[1..];
        if |rest| == 1 {
          assert r == [[s[0]] + rest[0]];
        } else {
          assert r[1..] == rest[1..];
          assert JoinDots(rest) == rest[0] + [DOT] + JoinDots(rest[1..]);
        }
      }
    }
  }
}
