/** Base64 with the standard alphabet and `=` padding (section 4 of RFC 4648),
    as produced by Node.js `buf.toString('base64')`. */
module Base64 {
  import opened MediaTypes

  /** The character of the alphabet that stands for the 6-bit value `v`. */
  function Char64(v: nat): (c: char)
    requires v < 64
    ensures Index64(c) == Some(v)
  {
    if v < 26 then ('A' as int + v) as char
    else if v < 52 then ('a' as int + (v - 26)) as char
    else if v < 62 then ('0' as int + (v - 52)) as char
    else if v == 62 then '+'
    else '/'
  }

  /** The 6-bit value a character of the alphabet stands for; `None` for any other
      character, the pad character `=` included. */
  function Index64(c: char): Option<nat>
  {
    if 'A' <= c <= 'Z' then Some(c as int - 'A' as int)
    else if 'a' <= c <= 'z' then Some(c as int - 'a' as int + 26)
    else if '0' <= c <= '9' then Some(c as int - '0' as int + 52)
    else if c == '+' then Some(62)
    else if c == '/' then Some(63)
    else None
  }

  /** The characters an encoding can contain. */
  predicate IsEncodingChar(c: char) { Index64(c).Some? || c == '=' }

  /** The four characters of a final group of one byte: two characters and `==`. */
  function OneByteText(x0: byte): (t: string)
    ensures |t| == 4
    ensures forall i :: 0 <= i < 4 ==> IsEncodingChar(t[i])
  {
    var n0 := x0 as nat;
    [Char64(n0 / 4), Char64((n0 % 4) * 16), '=', '=']
  }

  /** The four characters of a final group of two bytes: three characters and `=`. */
  function TwoBytesText(x0: byte, x1: byte): (t: string)
    ensures |t| == 4
    ensures forall i :: 0 <= i < 4 ==> IsEncodingChar(t[i])
  {
    var n0, n1 := x0 as nat, x1 as nat;
    [Char64(n0 / 4), Char64((n0 % 4) * 16 + n1 / 16), Char64((n1 % 16) * 4), '=']
  }

  /** The four characters of a full group of three bytes, six bits each. */
  function FullGroupText(x0: byte, x1: byte, x2: byte): (t: string)
    ensures |t| == 4
    ensures forall i :: 0 <= i < 4 ==> IsEncodingChar(t[i])
  {
    var n0, n1, n2 := x0 as nat, x1 as nat, x2 as nat;
    [Char64(n0 / 4), Char64((n0 % 4) * 16 + n1 / 16), Char64((n1 % 16) * 4 + n2 / 64), Char64(n2 % 64)]
  }

  /** Encodes groups of three bytes as four characters; a final group of one or
      two bytes is padded with `==` or `=`. */
  function Encode(b: seq<byte>): (s: string)
    ensures |s| == 4 * ((|b| + 2) / 3)
    ensures forall i :: 0 <= i < |s| ==> IsEncodingChar(s[i])
    decreases |b|
  {
    if |b| == 0 then []
    else if |b| == 1 then OneByteText(b[0])
    else if |b| == 2 then TwoBytesText(b[0], b[1])
    else
      assert (|b| + 2) / 3 == (|b| - 1) / 3 + 1;
      FullGroupText(b[0], b[1], b[2]) + Encode(b[3..])
  }

  /** Decodes one group of four characters into one, two or three bytes; `None`
      for foreign characters, misplaced padding or non-zero pad bits. */
  function DecodeGroup(c0: char, c1: char, c2: char, c3: char): (g: Option<seq<byte>>)
    ensures g.Some? ==> 1 <= |g.value| <= 3
  {
    var v0, v1 := Index64(c0), Index64(c1);
    if v0.None? || v1.None? then None
    else
      var first := (v0.value * 4 + v1.value / 16) as byte;
      if c2 == '=' && c3 == '=' then
        if v1.value % 16 == 0 then Some([first]) else None
      else
        var v2 := Index64(c2);
        if v2.None? then None
        else
          var second := ((v1.value % 16) * 16 + v2.value / 4) as byte;
          if c3 == '=' then
            if v2.value % 4 == 0 then Some([first, second]) else None
          else
            var v3 := Index64(c3);
            if v3.None? then None
            else Some([first, second, ((v2.value % 4) * 64 + v3.value) as byte])
  }

  /** Decodes a padded encoding group by group; a group of fewer than three
      bytes (a padded one) must be the last. */
  function Decode(s: string): Option<seq<byte>>
    decreases |s|
  {
    if s == [] then Some([])
    else if |s| < 4 then None
    else
      match DecodeGroup(s[0], s[1], s[2], s[3])
      case None => None
      case Some(g) =>
        if |g| < 3 then (if |s| == 4 then Some(g) else None)
        else
          match Decode(s[4..])
          case None => None
          case Some(rest) => Some(g + rest)
  }

  /** Decoding undoes encoding. */
  lemma {:induction false} RoundTrip(b: seq<byte>)
    ensures Decode(Encode(b)) == Some(b)
    decreases |b|
  {
    if |b| == 1 {
      OneByteRoundTrip(b);
    } else if |b| == 2 {
      TwoBytesRoundTrip(b);
    } else if |b| >= 3 {
      RoundTrip(b[3..]);
      FullGroupStep(b);
    }
  }

  lemma OneByteRoundTrip(b: seq<byte>)
    requires |b| == 1
    ensures Decode(Encode(b)) == Some(b)
  {
    OneByteGroup(b[0]);
    assert [b[0]] == b;
    DecodeLastGroup(OneByteText(b[0]), b);
  }

  lemma TwoBytesRoundTrip(b: seq<byte>)
    requires |b| == 2
    ensures Decode(Encode(b)) == Some(b)
  {
    TwoByteGroup(b[0], b[1]);
    assert [b[0], b[1]] == b;
    DecodeLastGroup(TwoBytesText(b[0], b[1]), b);
  }

  /** Decoding a full leading group and then the rest undoes encoding, given
      that it does for the rest. */
  lemma FullGroupStep(b: seq<byte>)
    requires |b| >= 3 && Decode(Encode(b[3..])) == Some(b[3..])
    ensures Decode(Encode(b)) == Some(b)
  {
    ThreeByteGroup(b[0], b[1], b[2]);
    DecodeFullGroup(FullGroupText(b[0], b[1], b[2]), Encode(b[3..]), [b[0], b[1], b[2]], b[3..]);
    SplitFront(b);
  }

  lemma SplitFront<T>(b: seq<T>)
    requires |b| >= 3
    ensures [b[0], b[1], b[2]] + b[3..] == b
  {
  }

  /** A text of exactly four characters ending in a padded group decodes as
      that group. */
  lemma DecodeLastGroup(s: string, g: seq<byte>)
    requires |s| == 4 && |g| < 3 && DecodeGroup(s[0], s[1], s[2], s[3]) == Some(g)
    ensures Decode(s) == Some(g)
  {
  }

  /** A full first group is followed by the decoding of the rest. */
  lemma DecodeFullGroup(q: string, rest: string, g: seq<byte>, tail: seq<byte>)
    requires |q| == 4 && |g| == 3
    requires DecodeGroup(q[0], q[1], q[2], q[3]) == Some(g)
    requires Decode(rest) == Some(tail)
    ensures Decode(q + rest) == Some(g + tail)
  {
    var s := q + rest;
    assert s[4..] == rest;
    assert s[0] == q[0] && s[1] == q[1] && s[2] == q[2] && s[3] == q[3];
  }

  /** A final group of one byte decodes back to it. */
  lemma OneByteGroup(x0: byte)
    ensures var t := OneByteText(x0); DecodeGroup(t[0], t[1], t[2], t[3]) == Some([x0])
  {
    var n0 := x0 as nat;
    SplitThree(n0, 0, 0);
  }

  /** A final group of two bytes decodes back to them. */
  lemma TwoByteGroup(x0: byte, x1: byte)
    ensures var t := TwoBytesText(x0, x1); DecodeGroup(t[0], t[1], t[2], t[3]) == Some([x0, x1])
  {
    var n0, n1 := x0 as nat, x1 as nat;
    SplitThree(n0, n1, 0);
    assert Char64((n1 % 16) * 4) != '=' by { assert Index64('=') == None; }
  }

  /** A full group of three bytes decodes back to them. */
  lemma ThreeByteGroup(x0: byte, x1: byte, x2: byte)
    ensures var t := FullGroupText(x0, x1, x2); DecodeGroup(t[0], t[1], t[2], t[3]) == Some([x0, x1, x2])
  {
    var n0, n1, n2 := x0 as nat, x1 as nat, x2 as nat;
    SplitThree(n0, n1, n2);
    assert Char64((n1 % 16) * 4 + n2 / 64) != '=' by { assert Index64('=') == None; }
    assert Char64(n2 % 64) != '=' by { assert Index64('=') == None; }
  }

  lemma SplitThree(b0: nat, b1: nat, b2: nat)
    requires b0 < 256 && b1 < 256 && b2 < 256
    ensures (b0 / 4) * 4 + ((b0 % 4) * 16 + b1 / 16) / 16 == b0
    ensures (((b0 % 4) * 16 + b1 / 16) % 16) * 16 + ((b1 % 16) * 4 + b2 / 64) / 4 == b1
    ensures (((b1 % 16) * 4 + b2 / 64) % 4) * 64 + b2 % 64 == b2
  {
    assert ((b0 % 4) * 16 + b1 / 16) / 16 == b0 % 4;
    assert ((b0 % 4) * 16 + b1 / 16) % 16 == b1 / 16;
    assert ((b1 % 16) * 4 + b2 / 64) / 4 == b1 % 16;
    assert ((b1 % 16) * 4 + b2 / 64) % 4 == b2 / 64;
  }

  /** Distinct byte strings have distinct encodings. */
  lemma EncodeInjective(a: seq<byte>, b: seq<byte>)
    requires Encode(a) == Encode(b)
    ensures a == b
  {
    RoundTrip(a);
    RoundTrip(b);
  }
}
