/** The small helpers of the REST client (rest.js): request headers, the
    service's date-time format, locator naming, and zero padding. */
module RestHelpers {
  import opened MediaTypes
  import opened Text
  import opened IsoTime

  // ---------------------------------------------------------------------------
  // getAzureHeaders

  const AuthorizationHeader: string := "Authorization"
  const BearerPrefix: string := "Bearer "

  /** The headers sent with most requests to the service. */
  function AzureHeaders(accessToken: string): (h: map<string, string>)
    ensures h.Keys == {"x-ms-version", "Accept", "Content-Type", "DataServiceVersion",
                       "MaxDataServiceVersion", "User-Agent", AuthorizationHeader}
    ensures h["x-ms-version"] == "2.15"
    ensures h["Accept"] == "application/json" && h["Content-Type"] == "application/json"
    ensures h["DataServiceVersion"] == "3.0" && h["MaxDataServiceVersion"] == "3.0"
    ensures h["User-Agent"] == "Gale Crater - Node"
    ensures h[AuthorizationHeader] == BearerPrefix + accessToken
  {
    map[
      "x-ms-version" := "2.15",
      "Accept" := "application/json",
      "Content-Type" := "application/json",
      "DataServiceVersion" := "3.0",
      "MaxDataServiceVersion" := "3.0",
      "User-Agent" := "Gale Crater - Node",
      AuthorizationHeader := BearerPrefix + accessToken
    ]
  }

  /** The bearer token is carried verbatim: the service can read back exactly the
      token the client holds, and distinct tokens give distinct headers. */
  lemma BearerTokenRecoverable(a: string, b: string)
    ensures AzureHeaders(a)[AuthorizationHeader][|BearerPrefix|..] == a
    ensures AzureHeaders(a) == AzureHeaders(b) ==> a == b
  {
    assert AzureHeaders(a)[AuthorizationHeader][|BearerPrefix|..] == a;
    if AzureHeaders(a) == AzureHeaders(b) {
      assert AzureHeaders(b)[AuthorizationHeader][|BearerPrefix|..] == b;
    }
  }

  // ---------------------------------------------------------------------------
  // getMediaServicesTime: `time.toISOString().replace(/\..+/, 'Z')`

  /** The characters `.` does not match in a regular expression without the `s` flag. */
  predicate IsLineTerminator(c: char)
  {
    c == '\n' || c == '\r' || c == '\U{2028}' || c == '\U{2029}'
  }

  /** `/\..+/` matches at position `i`: a dot followed by at least one character. */
  predicate DotMatchesAt(s: string, i: nat)
  {
    i + 1 < |s| && s[i] == '.' && !IsLineTerminator(s[i + 1])
  }

  /** The leftmost position, from `from` on, where `/\..+/` matches. */
  function DotMatchFrom(s: string, from: nat): (p: Option<nat>)
    requires from <= |s|
    ensures p.Some? ==> from <= p.value && DotMatchesAt(s, p.value)
                        && forall i :: from <= i < p.value ==> !DotMatchesAt(s, i)
    ensures p.None? ==> forall i :: from <= i < |s| ==> !DotMatchesAt(s, i)
    decreases |s| - from
  {
    if from == |s| then None
    else if DotMatchesAt(s, from) then Some(from)
    else DotMatchFrom(s, from + 1)
  }

  /** Where the greedy `.+` starting at `from` stops: the next line terminator
      or the end of the string. */
  function RunEnd(s: string, from: nat): (q: nat)
    requires from <= |s|
    ensures from <= q <= |s| && (q < |s| ==> IsLineTerminator(s[q]))
    ensures forall i :: from <= i < q ==> !IsLineTerminator(s[i])
    decreases |s| - from
  {
    if from == |s| || IsLineTerminator(s[from]) then from else RunEnd(s, from + 1)
  }

  /** getMediaServicesTime on the text `iso` of `toISOString()`: the first match
      of `/\..+/` is replaced by `Z`. */
  function MediaServicesTime(iso: string): string
  {
    match DotMatchFrom(iso, 0)
    case None => iso
    case Some(p) => iso[..p] + "Z" + iso[RunEnd(iso, p + 1)..]
  }

  /** On toISOString's text, the replacement drops exactly the milliseconds:
      `YYYY-MM-DDTHH:mm:ss.sssZ` becomes `YYYY-MM-DDTHH:mm:ssZ`. */
  lemma MediaServicesTimeDropsMilliseconds(f: DateTime)
    requires ValidDateTime(f)
    ensures MediaServicesTime(IsoText(f)) == SecondsText(f) + "Z"
  {
    var a := SecondsText(f);
    var s := IsoText(f);
    var ms := FixedDigits(f.millisecond, 3);
    assert s == a + "." + ms + "Z";
    SecondsTextDotFree(f);
    forall i | 0 <= i < |a| ensures s[i] != '.' {
      assert s[i] == a[i];
    }
    assert DotMatchesAt(s, |a|) by { assert s[|a| + 1] == ms[0]; }
    assert DotMatchFrom(s, 0) == Some(|a|);
    forall i | |a| + 1 <= i < |s| ensures !IsLineTerminator(s[i]) {
      assert s[i] == (ms + "Z")[i - |a| - 1];
    }
    assert RunEnd(s, |a| + 1) == |s|;
    assert s[..|a|] == a;
  }

  lemma YearTextHasNoDot(y: int)
    requires -1000000 < y < 1000000
    ensures forall i :: 0 <= i < |YearText(y)| ==> YearText(y)[i] != '.'
  {
    var t := YearText(y);
    if !(0 <= y <= 9999) {
      var a := if y < 0 then -y else y;
      forall i | 1 <= i < 7 ensures t[i] != '.' {
        assert t[i] == FixedDigits(a, 6)[i - 1];
      }
    }
  }

  // ---------------------------------------------------------------------------
  // createLocator: its name and start time

  const DefaultLocatorName: string := "GaleCrater"
  /** The start time is back-dated by five minutes so the locator is active at once. */
  const StartTimeOffsetMs: int := 300000

  /** The name createLocator gives a locator of type `locatorType`. */
  function LocatorName(name: string, locatorType: int): (r: string)
    ensures |r| >= |name| && r[..|name|] == name
    ensures locatorType == WriteLocator ==> r[|name|..] == "Uploader"
    ensures locatorType == ReadLocator ==> r[|name|..] == "Streamer"
    ensures locatorType != WriteLocator && locatorType != ReadLocator ==> r == name
  {
    if locatorType == WriteLocator then name + "Uploader"
    else if locatorType == ReadLocator then name + "Streamer"
    else name
  }

  /** The StartTime createLocator sends when the clock reads `now`; `None` where
      `toISOString` throws because the back-dated time is not a valid date. */
  function LocatorStartTime(now: int): Option<string>
  {
    match ToISOString(now - StartTimeOffsetMs)
    case None => None
    case Some(iso) => Some(MediaServicesTime(iso))
  }

  /** The StartTime is `now` minus five minutes, truncated to the second, in the
      format `YYYY-MM-DDTHH:mm:ssZ`. */
  lemma {:induction false} StartTimeIsFiveMinutesBefore(now: int)
    requires -MaxTimeValue <= now - StartTimeOffsetMs <= MaxTimeValue
    ensures LocatorStartTime(now).Some?
    ensures var text := LocatorStartTime(now).value;
            var f := ParseDateTime(text);
            && text[|text| - 1] == 'Z'
            && (forall i :: 0 <= i < |text| ==> text[i] != '.')
            && f.Some? && f.value.millisecond == 0
            && TimeFromFields(f.value) == (now - StartTimeOffsetMs) - (now - StartTimeOffsetMs) % MsPerSecond
  {
    var t := now - StartTimeOffsetMs;
    var f := FieldsOf(t);
    MediaServicesTimeDropsMilliseconds(f);
    var text := SecondsText(f) + "Z";
    assert LocatorStartTime(now) == Some(text);
    ParseSecondsText(f, "Z");
    FieldsRoundTrip(t);
    SecondsTextHasNoDot(f);
  }

  lemma SecondsTextHasNoDot(f: DateTime)
    requires ValidDateTime(f)
    ensures forall i :: 0 <= i < |SecondsText(f) + "Z"| ==> (SecondsText(f) + "Z")[i] != '.'
  {
    var a := SecondsText(f);
    SecondsTextDotFree(f);
    forall i | 0 <= i < |a + "Z"| ensures (a + "Z")[i] != '.' {
      if i < |a| {
        assert (a + "Z")[i] == a[i];
      }
    }
  }

  /** `YYYY-MM-DDTHH:mm:ss` holds no `.`: digits, signs and separators only. */
  lemma SecondsTextDotFree(f: DateTime)
    requires ValidDateTime(f)
    ensures forall i :: 0 <= i < |SecondsText(f)| ==> SecondsText(f)[i] != '.'
  {
    var a := SecondsText(f);
    SecondsTextLayout(f);
    YearTextHasNoDot(f.year);
    var w := |YearText(f.year)|;
    forall i | 0 <= i < |a| ensures a[i] != '.' {
      if i < w {
        assert a[i] == YearText(f.year)[i];
      } else if w + 1 <= i < w + 3 {
        assert a[i] == a[w + 1..w + 3][i - w - 1];
      } else if w + 4 <= i < w + 6 {
        assert a[i] == a[w + 4..w + 6][i - w - 4];
      } else if w + 7 <= i < w + 9 {
        assert a[i] == a[w + 7..w + 9][i - w - 7];
      } else if w + 10 <= i < w + 12 {
        assert a[i] == a[w + 10..w + 12][i - w - 10];
      } else if w + 13 <= i < w + 15 {
        assert a[i] == a[w + 13..w + 15][i - w - 13];
      }
    }
  }

  // ---------------------------------------------------------------------------
  // pad

  /** `s` with zeros prepended until it is at least `length` long. */
  function Padded(s: string, length: int): (r: string)
  {
    if |s| >= length then s else Zeros(length - |s|) + s
  }

  lemma ZerosPrepend(k: nat)
    ensures "0" + Zeros(k) == Zeros(k + 1)
  {
    assert forall i | 0 <= i < k + 1 :: ("0" + Zeros(k))[i] == Zeros(k + 1)[i];
  }

  /** `pad(number, length)`: the decimal digits of `number`, zero-filled on the
      left to `length`; longer digit strings are left as they are. The result
      reads back as `number`. */
  method Pad(number: nat, length: int) returns (str: string)
    ensures str == Padded(DecimalString(number), length)
    ensures |str| == if length > |DecimalString(number)| then length else |DecimalString(number)|
    ensures AllDigits(str) && DigitsValue(str) == number
  {
    var digits := DecimalString(number);
    str := digits;
    ghost var zeros: nat := 0;
    while |str| < length
      invariant str == Zeros(zeros) + digits
      invariant zeros > 0 ==> |str| <= length
      decreases length - |str|
    {
      ZerosPrepend(zeros);
      str := "0" + str;
      zeros := zeros + 1;
    }
    assert str == Padded(digits, length);
    PaddedValue(number, length);
  }

  /** The padded text reads back as the number, so padding is injective. */
  lemma PaddedValue(number: nat, length: int)
    ensures AllDigits(Padded(DecimalString(number), length))
    ensures DigitsValue(Padded(DecimalString(number), length)) == number
  {
    var d := DecimalString(number);
    DecimalStringValue(number);
    if |d| < length {
      LeadingZerosValue(length - |d|, d);
    }
  }

  /** Numbers below `10^length` all pad to exactly `length` characters. */
  lemma PaddedLength(number: nat, length: nat)
    requires 1 <= length && number < Pow10(length)
    ensures |Padded(DecimalString(number), length)| == length
  {
    DecimalStringLength(number, length);
  }

  lemma PaddedInjective(m: nat, n: nat, length: int)
    requires Padded(DecimalString(m), length) == Padded(DecimalString(n), length)
    ensures m == n
  {
    PaddedValue(m, length);
    PaddedValue(n, length);
  }
}
