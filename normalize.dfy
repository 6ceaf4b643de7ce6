/** Normalisation of raw log events (etl.py lines 115-128): `ts` and
    `registration` become timestamps, `userId` is cast to a 32-bit integer, and
    six camelCase columns are renamed to snake_case. No row is dropped. */
module Normalize {
  import opened Wrappers
  import opened Schema
  import opened Relational

  const MinInt32: int := -0x8000_0000
  const MaxInt32: int := 0x7fff_ffff

  predicate IsDigit(c: char) { '0' <= c <= '9' }

  predicate AllDigits(s: string) { forall i :: 0 <= i < |s| ==> IsDigit(s[i]) }

  /** The value of a string of decimal digits (leading zeros allowed, "" is 0). */
  function DigitsValue(s: string): nat
    requires AllDigits(s)
  {
    if s == [] then 0 else 10 * DigitsValue(s[..|s| - 1]) + (s[|s| - 1] as int - '0' as int)
  }

  /** Position of the first '.', or |s| when there is none. */
  function IndexOfDot(s: string): (k: nat)
    ensures k <= |s|
    ensures forall i :: 0 <= i < k ==> s[i] != '.'
    ensures k < |s| ==> s[k] == '.'
  {
    if s == [] || s[0] == '.' then 0 else 1 + IndexOfDot(s[1..])
  }

  /** The value of digits `w`, negated when `negative`. */
  function SignedValue(negative: bool, w: string): int
    requires AllDigits(w)
  {
    if negative then -(DigitsValue(w) as int) else DigitsValue(w) as int
  }

  /** The cast of what follows the sign: digits, optionally a '.' followed by
      digits that are checked and discarded, within the 32-bit range. */
  function CastBody(negative: bool, body: string): (r: Option<int>)
    ensures r.Some? ==> MinInt32 <= r.value <= MaxInt32
  {
    var k := IndexOfDot(body);
    var whole := body[..k];
    var fraction := if k < |body| then body[k + 1..] else [];
    if !AllDigits(whole) || !AllDigits(fraction) then None
    else
      var v := SignedValue(negative, whole);
      if MinInt32 <= v <= MaxInt32 then Some(v) else None
  }

  /** Spark's cast of a string to `IntegerType` (no whitespace trimming): an
      optional leading sign, decimal digits, and optionally a '.' followed by
      digits that are discarded; anything else, a lone sign, the empty string
      or a value outside the 32-bit range gives NULL. */
  function CastToInt(s: string): (r: Option<int>)
    ensures r.Some? ==> MinInt32 <= r.value <= MaxInt32
    ensures s == [] ==> r.None?
  {
    if s == [] then None
    else
      var signed := s[0] == '-' || s[0] == '+';
      if signed && |s| == 1 then None
      else CastBody(s[0] == '-', if signed then s[1..] else s)
  }

  function DigitChar(d: nat): char
    requires d < 10
  {
    ('0' as int + d) as char
  }

  /** Decimal rendering of a natural number, without leading zeros. */
  function ShowNat(n: nat): string
  {
    if n < 10 then [DigitChar(n)] else ShowNat(n / 10) + [DigitChar(n % 10)]
  }

  /** Decimal rendering of an integer, as the log source writes `userId`. */
  function ShowInt(n: int): string
  {
    if n < 0 then "-" + ShowNat(-n) else ShowNat(n)
  }

  /** The rendering of `n` is a non-empty digit string whose value is `n`. */
  lemma {:induction false} ShowNatDigits(n: nat)
    ensures |ShowNat(n)| > 0 && AllDigits(ShowNat(n)) && DigitsValue(ShowNat(n)) == n
  {
    if n >= 10 {
      ShowNatDigits(n / 10);
      var s := ShowNat(n);
      assert s[..|s| - 1] == ShowNat(n / 10);
    }
  }

  /** Casting the decimal rendering of any 32-bit integer gives it back. */
  lemma CastToIntRoundTrip(n: int)
    requires MinInt32 <= n <= MaxInt32
    ensures CastToInt(ShowInt(n)) == Some(n)
  {
    if n < 0 {
      ShowNatDigits(-n);
      CastToIntSignedDigits("-", ShowNat(-n));
    } else {
      ShowNatDigits(n);
      CastToIntSignedDigits("", ShowNat(n));
      assert "" + ShowNat(n) == ShowNat(n);
    }
  }

  /** In a string starting with digits, the first '.' comes after them. */
  lemma {:induction false} IndexOfDotAfterDigits(w: string, t: string)
    requires AllDigits(w)
    ensures IndexOfDot(w + t) == |w| + IndexOfDot(t)
  {
    if w != [] {
      assert IsDigit(w[0]) && (w + t)[0] == w[0];
      assert (w + t)[1..] == w[1..] + t;
      assert AllDigits(w[1..]) by {
        forall i | 0 <= i < |w[1..]| ensures IsDigit(w[1..][i]) {
          assert w[1..][i] == w[i + 1];
        }
      }
      IndexOfDotAfterDigits(w[1..], t);
    } else {
      assert w + t == t;
    }
  }

  /** The sign prefixes a cast accepts. */
  predicate IsSign(sign: string)
  {
    sign == "" || sign == "-" || sign == "+"
  }

  /** Digits, optionally followed by '.' and digits, cast to the digits' value
      when it is in range. */
  lemma CastBodyDigits(negative: bool, w: string, tail: string)
    requires AllDigits(w)
    requires tail == [] || (tail[0] == '.' && AllDigits(tail[1..]))
    ensures CastBody(negative, w + tail) ==
      if MinInt32 <= SignedValue(negative, w) <= MaxInt32 then Some(SignedValue(negative, w)) else None
  {
    var body := w + tail;
    IndexOfDotAfterDigits(w, tail);
    assert body[..|w|] == w;
    if tail != [] {
      assert body[|w| + 1..] == tail[1..];
    }
  }

  /** A sign (or none) in front of `rest` is split off as `CastToInt` does. */
  lemma CastToIntSign(sign: string, rest: string)
    requires IsSign(sign) && rest != []
    requires rest[0] != '-' && rest[0] != '+'
    ensures CastToInt(sign + rest) == CastBody(sign == "-", rest)
  {
    if sign == [] {
      assert sign + rest == rest;
    } else {
      var s := sign + rest;
      assert s[0] == sign[0] && s[1..] == rest;
    }
  }

  /** A sign (or none) followed by a non-empty digit string casts to the signed
      value when it is within the 32-bit range, and to NULL when it is not. */
  lemma CastToIntSignedDigits(sign: string, w: string)
    requires IsSign(sign) && w != [] && AllDigits(w)
    ensures MinInt32 <= SignedValue(sign == "-", w) <= MaxInt32 ==>
      CastToInt(sign + w) == Some(SignedValue(sign == "-", w))
    ensures !(MinInt32 <= SignedValue(sign == "-", w) <= MaxInt32) ==> CastToInt(sign + w) == None
  {
    assert IsDigit(w[0]);
    CastToIntSign(sign, w);
    CastBodyDigits(sign == "-", w, []);
    assert w + [] == w;
  }

  /** Digits after a '.' are checked and then discarded: `"12.7"` casts as `"12"`. */
  lemma CastToIntDropsFraction(sign: string, w: string, f: string)
    requires IsSign(sign) && w != [] && AllDigits(w) && AllDigits(f)
    ensures CastToInt(sign + w + "." + f) == CastToInt(sign + w)
  {
    var tail := "." + f;
    assert tail[1..] == f;
    assert IsDigit(w[0]) && (w + tail)[0] == w[0];
    CastToIntSign(sign, w + tail);
    CastBodyDigits(sign == "-", w, tail);
    AppendAssoc(sign, w, tail);
    AppendAssoc(sign + w, ".", f);
    CastToIntSignedDigits(sign, w);
  }

  /** `s` is written as the sign `sign` (possibly none), the digits `w`, and
      optionally a '.' followed by the digits `f`. */
  ghost predicate IsNumeral(s: string, sign: string, w: string, f: string)
  {
    IsSign(sign) && AllDigits(w) && AllDigits(f) && (s == sign + w || s == sign + w + "." + f)
  }

  /** A body that casts is digits, optionally followed by '.' and digits. */
  lemma CastBodyShape(negative: bool, body: string) returns (w: string, f: string)
    requires CastBody(negative, body).Some?
    ensures AllDigits(w) && AllDigits(f) && (body == w || body == w + "." + f)
    ensures CastBody(negative, body) == Some(SignedValue(negative, w))
  {
    var k := IndexOfDot(body);
    w := body[..k];
    f := if k < |body| then body[k + 1..] else [];
    if k < |body| {
      assert body == w + "." + f;
    } else {
      assert body == w;
    }
  }

  /** Conversely, a string that casts has one of the accepted shapes: a sign or
      none, digits, and optionally a '.' followed by digits; its value is the
      signed value of the digits before the '.'. */
  lemma CastToIntAccepted(s: string)
    requires CastToInt(s).Some?
    ensures exists sign, w, f :: IsNumeral(s, sign, w, f) && CastToInt(s) == Some(SignedValue(sign == "-", w))
  {
    var signed := s[0] == '-' || s[0] == '+';
    var sign := if signed then [s[0]] else "";
    var body := if signed then s[1..] else s;
    assert IsSign(sign) && s == sign + body;
    assert CastToInt(s) == CastBody(sign == "-", body);
    var w, f := CastBodyShape(sign == "-", body);
    if body != w {
      AppendAssoc(sign, w, "." + f);
      AppendAssoc(w, ".", f);
      AppendAssoc(sign + w, ".", f);
    }
    assert IsNumeral(s, sign, w, f);
  }

  lemma AppendAssoc(a: string, b: string, c: string)
    ensures a + (b + c) == a + b + c
  {
  }

  /** A string holding a character other than a digit, a '.' or a leading sign
      does not cast: the non-numeric `userId` becomes NULL. */
  lemma CastToIntRejects(s: string, p: int)
    requires 0 <= p < |s| && !IsDigit(s[p]) && s[p] != '.'
    requires p > 0 || (s[p] != '-' && s[p] != '+')
    ensures CastToInt(s) == None
  {
    var signed := s[0] == '-' || s[0] == '+';
    if !(signed && |s| == 1) {
      var off := if signed then 1 else 0;
      var body := if signed then s[1..] else s;
      var q := p - off;
      assert 0 <= q < |body| && body[q] == s[p];
      var k := IndexOfDot(body);
      if q < k {
        assert body[..k][q] == s[p];
      } else {
        assert q != k;
        assert body[k + 1..][q - k - 1] == s[p];
      }
    }
  }

  /** Epoch milliseconds to a timestamp (microseconds). */
  function MillisToTimestamp(ms: int): Timestamp
  {
    Timestamp(ms * 1000)
  }

  function CastUserId(userId: Option<string>): Option<int>
  {
    match userId
    case None => None
    case Some(s) => CastToInt(s)
  }

  function ToTimestamp(ms: Option<int>): Option<Timestamp>
  {
    match ms
    case None => None
    case Some(v) => Some(MillisToTimestamp(v))
  }

  /** One row of the chain of `withColumn` / `withColumnRenamed` calls. */
  function NormalizeEvent(e: RawEvent): NormalizedEvent
  {
    NormalizedEvent(
      artist := e.artist,
      auth := e.auth,
      first_name := e.firstName,
      gender := e.gender,
      item_in_session := e.itemInSession,
      last_name := e.lastName,
      length := e.length,
      level := e.level,
      location := e.location,
      requestMethod := e.requestMethod,
      page := e.page,
      registration := ToTimestamp(e.registration),
      session_id := e.sessionId,
      song := e.song,
      status := e.status,
      ts := ToTimestamp(e.ts),
      user_agent := e.userAgent,
      user_id := CastUserId(e.userId))
  }

  /** The normalised log: one row per raw row, in the same order. */
  function NormalizeLogs(logs: seq<RawEvent>): (r: seq<NormalizedEvent>)
    ensures |r| == |logs|
  {
    MapRows(logs, NormalizeEvent)
  }

  /** Normalisation keeps the row count and order; `user_id` is present exactly
      when the raw `userId` casts to an integer, and is that integer; `ts` and
      `registration` are NULL exactly when they were, and otherwise the same
      instant; the renamed columns and every other column carry the raw values. */
  lemma NormalizeLogsSpec(logs: seq<RawEvent>, i: int)
    requires 0 <= i < |logs|
    ensures |NormalizeLogs(logs)| == |logs|
    ensures NormalizeLogs(logs)[i].user_id.Some? <==>
      (logs[i].userId.Some? && CastToInt(logs[i].userId.value).Some?)
    ensures forall n :: NormalizeLogs(logs)[i].user_id == Some(n) <==>
      (logs[i].userId.Some? && CastToInt(logs[i].userId.value) == Some(n))
    ensures NormalizeLogs(logs)[i].ts.Some? <==> logs[i].ts.Some?
    ensures logs[i].ts.Some? ==> NormalizeLogs(logs)[i].ts.value.micros == 1000 * logs[i].ts.value
    ensures NormalizeLogs(logs)[i].registration.Some? <==> logs[i].registration.Some?
    ensures logs[i].registration.Some? ==>
      NormalizeLogs(logs)[i].registration.value.micros == 1000 * logs[i].registration.value
    ensures NormalizeLogs(logs)[i].artist == logs[i].artist
    ensures NormalizeLogs(logs)[i].auth == logs[i].auth
    ensures NormalizeLogs(logs)[i].gender == logs[i].gender
    ensures NormalizeLogs(logs)[i].length == logs[i].length
    ensures NormalizeLogs(logs)[i].level == logs[i].level
    ensures NormalizeLogs(logs)[i].location == logs[i].location
    ensures NormalizeLogs(logs)[i].requestMethod == logs[i].requestMethod
    ensures NormalizeLogs(logs)[i].page == logs[i].page
    ensures NormalizeLogs(logs)[i].song == logs[i].song
    ensures NormalizeLogs(logs)[i].status == logs[i].status
    ensures NormalizeLogs(logs)[i].first_name == logs[i].firstName
    ensures NormalizeLogs(logs)[i].last_name == logs[i].lastName
    ensures NormalizeLogs(logs)[i].item_in_session == logs[i].itemInSession
    ensures NormalizeLogs(logs)[i].session_id == logs[i].sessionId
    ensures NormalizeLogs(logs)[i].user_agent == logs[i].userAgent
  {
  }

  /** Normalisation only loses information in `userId`: two raw events with the
      same normalised row agree on every other column. */
  lemma NormalizeLosesOnlyUserId(a: RawEvent, b: RawEvent)
    requires NormalizeEvent(a) == NormalizeEvent(b)
    ensures a.(userId := None) == b.(userId := None)
  {
    assert a.ts == b.ts by {
      if a.ts.Some? { assert ToTimestamp(a.ts).value.micros == 1000 * a.ts.value; }
    }
    assert a.registration == b.registration by {
      if a.registration.Some? {
        assert ToTimestamp(a.registration).value.micros == 1000 * a.registration.value;
      }
    }
  }
}
