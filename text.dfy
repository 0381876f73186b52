/** The JavaScript runtime's text conversions that the client relies on:
    `'' + n` for integers, and `Buffer.from(string)` (UTF-8 encoding). */
module Text {
  import opened MediaTypes

  predicate IsDigit(c: char) { '0' <= c <= '9' }

  function Digit(d: nat): (c: char)
    requires d < 10
    ensures IsDigit(c) && DigitValue(c) == d
  {
    "0123456789"[d]
  }

  function DigitValue(c: char): nat
    requires IsDigit(c)
  {
    (c as int) - ('0' as int)
  }

  predicate AllDigits(s: string) { forall i :: 0 <= i < |s| ==> IsDigit(s[i]) }

  /** `'' + n` for a non-negative integer: its decimal digits, most significant
      first, without leading zeros. */
  function DecimalString(n: nat): (s: string)
    ensures 1 <= |s| && AllDigits(s)
    ensures n > 0 ==> s[0] != '0'
    decreases n
  {
    if n < 10 then [Digit(n)] else DecimalString(n / 10) + [Digit(n % 10)]
  }

  /** `'' + n` for any integer (a minus sign for negative values). */
  function NumberToString(n: int): string
  {
    if n < 0 then "-" + DecimalString(-n) else DecimalString(n)
  }

  /** The value of a string of decimal digits (leading zeros allowed). */
  function DigitsValue(s: string): nat
    requires AllDigits(s)
  {
    if s == [] then 0 else DigitsValue(s[..|s| - 1]) * 10 + DigitValue(s[|s| - 1])
  }

  /** Reading the digits back gives the number: `'' + n` loses nothing. */
  lemma {:induction false} DecimalStringValue(n: nat)
    ensures DigitsValue(DecimalString(n)) == n
    decreases n
  {
    if n >= 10 {
      var s := DecimalString(n);
      assert s[..|s| - 1] == DecimalString(n / 10);
      DecimalStringValue(n / 10);
    }
  }

  lemma DecimalStringInjective(m: nat, n: nat)
    requires DecimalString(m) == DecimalString(n)
    ensures m == n
  {
    DecimalStringValue(m);
    DecimalStringValue(n);
  }

  /** `k` copies of the digit zero. */
  function Zeros(k: nat): (z: string)
    ensures |z| == k && forall i :: 0 <= i < k ==> z[i] == '0'
  {
    if k == 0 then [] else Zeros(k - 1) + "0"
  }

  /** Leading zeros do not change the value of a digit string. */
  lemma {:induction false} LeadingZerosValue(k: nat, s: string)
    requires AllDigits(s)
    ensures AllDigits(Zeros(k) + s) && DigitsValue(Zeros(k) + s) == DigitsValue(s)
    decreases |s|
  {
    var z := Zeros(k) + s;
    if s == [] {
      assert z == Zeros(k);
      ZerosValue(k);
    } else {
      var t := s[..|s| - 1];
      assert z[..|z| - 1] == Zeros(k) + t;
      LeadingZerosValue(k, t);
    }
  }

  lemma {:induction false} ZerosValue(k: nat)
    ensures AllDigits(Zeros(k)) && DigitsValue(Zeros(k)) == 0
  {
    if k > 0 {
      assert Zeros(k)[..k - 1] == Zeros(k - 1);
      ZerosValue(k - 1);
    }
  }

  function Pow10(w: nat): (p: nat)
    ensures p >= 1
  {
    if w == 0 then 1 else 10 * Pow10(w - 1)
  }

  /** A number below `10^w` has at most `w` digits. */
  lemma {:induction false} DecimalStringLength(n: nat, w: nat)
    requires 1 <= w && n < Pow10(w)
    ensures |DecimalString(n)| <= w
  {
    if n >= 10 {
      assert n / 10 < Pow10(w - 1);
      DecimalStringLength(n / 10, w - 1);
    }
  }

  /** The last `w` decimal digits of `n`, zero-filled on the left: the fixed-width
      fields of a date-time string. */
  function FixedDigits(n: nat, w: nat): (s: string)
    requires n < Pow10(w)
    ensures |s| == w && AllDigits(s)
  {
    if w == 0 then [] else FixedDigits(n / 10, w - 1) + [Digit(n % 10)]
  }

  /** A fixed-width field reads back as the number it was written from. */
  lemma {:induction false} FixedDigitsValue(n: nat, w: nat)
    requires n < Pow10(w)
    ensures DigitsValue(FixedDigits(n, w)) == n
  {
    if w > 0 {
      var s := FixedDigits(n, w);
      assert s[..w - 1] == FixedDigits(n / 10, w - 1);
      FixedDigitsValue(n / 10, w - 1);
    }
  }

  // ---------------------------------------------------------------------------
  // UTF-8, as `Buffer.from(string)` encodes a string whose characters are all
  // Unicode scalar values.

  predicate IsContinuation(b: byte) { 0x80 <= b < 0xC0 }

  /** The UTF-8 encoding of one character. */
  function Utf8Char(c: char): (b: seq<byte>)
    ensures 1 <= |b| <= 4
    ensures |b| == 1 <==> (c as int) < 0x80
    ensures |b| == 1 ==> b[0] as int == c as int
    ensures forall i :: 1 <= i < |b| ==> IsContinuation(b[i])
  {
    var x := c as int;
    if x < 0x80 then [x as byte]
    else if x < 0x800 then [(0xC0 + x / 64) as byte, (0x80 + x % 64) as byte]
    else if x < 0x10000 then
      [(0xE0 + x / 4096) as byte, (0x80 + (x / 64) % 64) as byte, (0x80 + x % 64) as byte]
    else
      [(0xF0 + x / 262144) as byte, (0x80 + (x / 4096) % 64) as byte,
       (0x80 + (x / 64) % 64) as byte, (0x80 + x % 64) as byte]
  }

  /** `Buffer.from(s)`: the concatenated UTF-8 encodings of the characters of `s`. */
  function Utf8Encode(s: string): seq<byte>
  {
    if s == [] then [] else Utf8Char(s[0]) + Utf8Encode(s[1..])
  }

  /** Number of bytes of the sequence that starts with lead byte `b`, or 0 when
      `b` cannot start one. */
  function SequenceLength(b: byte): nat
  {
    if b < 0x80 then 1
    else if 0xC0 <= b < 0xE0 then 2
    else if 0xE0 <= b < 0xF0 then 3
    else if 0xF0 <= b < 0xF8 then 4
    else 0
  }

  /** The scalar value of one encoded character, if it is one. */
  function DecodeScalar(b: seq<byte>): Option<char>
    requires 1 <= |b| <= 4
  {
    var x :=
      if |b| == 1 then b[0] as int
      else if |b| == 2 then (b[0] as int - 0xC0) * 64 + (b[1] as int - 0x80)
      else if |b| == 3 then (b[0] as int - 0xE0) * 4096 + (b[1] as int - 0x80) * 64 + (b[2] as int - 0x80)
      else (b[0] as int - 0xF0) * 262144 + (b[1] as int - 0x80) * 4096 + (b[2] as int - 0x80) * 64 + (b[3] as int - 0x80);
    if (0 <= x < 0xD800 || 0xE000 <= x < 0x110000) && forall i :: 1 <= i < |b| ==> IsContinuation(b[i])
    then Some(x as char)
    else None
  }

  /** Decoding of UTF-8, the inverse of `Utf8Encode`. */
  function Utf8Decode(b: seq<byte>): Option<string>
    decreases |b|
  {
    if b == [] then Some([])
    else
      var n := SequenceLength(b[0]);
      if n == 0 || |b| < n then None
      else match DecodeScalar(b[..n])
        case None => None
        case Some(c) =>
          match Utf8Decode(b[n..])
          case None => None
          case Some(rest) => Some([c] + rest)
  }

  lemma Utf8CharRoundTrip(c: char)
    ensures SequenceLength(Utf8Char(c)[0]) == |Utf8Char(c)|
    ensures DecodeScalar(Utf8Char(c)) == Some(c)
  {
    var x := c as int;
    if x < 0x80 {
    } else if x < 0x800 {
      TwoByteCharRoundTrip(c);
    } else if x < 0x10000 {
      ThreeByteCharRoundTrip(c);
    } else {
      FourByteCharRoundTrip(c);
    }
  }

  lemma TwoByteCharRoundTrip(c: char)
    requires 0x80 <= c as int < 0x800
    ensures SequenceLength(Utf8Char(c)[0]) == 2
    ensures DecodeScalar(Utf8Char(c)) == Some(c)
  {
    var x := c as int;
    assert (x / 64) * 64 + x % 64 == x;
    assert DecodeScalar(Utf8Char(c)) == Some(x as char);
  }

  lemma ThreeByteCharRoundTrip(c: char)
    requires 0x800 <= c as int < 0x10000
    ensures SequenceLength(Utf8Char(c)[0]) == 3
    ensures DecodeScalar(Utf8Char(c)) == Some(c)
  {
    var x := c as int;
    assert (x / 4096) * 4096 + ((x / 64) % 64) * 64 + x % 64 == x by {
      assert (x / 64) == (x / 4096) * 64 + (x / 64) % 64;
    }
    assert DecodeScalar(Utf8Char(c)) == Some(x as char);
  }

  lemma FourByteCharRoundTrip(c: char)
    requires 0x10000 <= c as int
    ensures SequenceLength(Utf8Char(c)[0]) == 4
    ensures DecodeScalar(Utf8Char(c)) == Some(c)
  {
    var x := c as int;
    assert (x / 262144) * 262144 + ((x / 4096) % 64) * 4096 + ((x / 64) % 64) * 64 + x % 64 == x by {
      assert (x / 4096) == (x / 262144) * 64 + (x / 4096) % 64;
      assert (x / 64) == (x / 4096) * 64 + (x / 64) % 64;
    }
    assert DecodeScalar(Utf8Char(c)) == Some(x as char);
  }

  /** Decoding undoes encoding, so `Buffer.from` loses nothing. */
  lemma {:induction false} Utf8RoundTrip(s: string)
    ensures Utf8Decode(Utf8Encode(s)) == Some(s)
  {
    if s != [] {
      var head := Utf8Char(s[0]);
      var b := Utf8Encode(s);
      assert b == head + Utf8Encode(s[1..]);
      Utf8CharRoundTrip(s[0]);
      assert b[..|head|] == head && b[|head|..] == Utf8Encode(s[1..]);
      Utf8RoundTrip(s[1..]);
      assert [s[0]] + s[1..] == s;
    }
  }

  lemma Utf8Injective(s: string, t: string)
    requires Utf8Encode(s) == Utf8Encode(t)
    ensures s == t
  {
    Utf8RoundTrip(s);
    Utf8RoundTrip(t);
  }

  /** Encoding distributes over concatenation. */
  lemma {:induction false} Utf8Concat(s: string, t: string)
    ensures Utf8Encode(s + t) == Utf8Encode(s) + Utf8Encode(t)
  {
    if s == [] {
      assert s + t == t;
    } else {
      assert (s + t)[0] == s[0] && (s + t)[1..] == s[1..] + t;
      Utf8Concat(s[1..], t);
    }
  }
}
