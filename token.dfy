/**
 * The token decoder of hooks/useDecodeToken.ts: the claims of a JSON Web
 * Token are read from the second `.`-separated segment of its compact
 * serialisation (section 7.1 of RFC 7515) without checking the signature,
 * and the expiry flag compares the `exp` claim (section 4.1.4 of RFC 7519)
 * with the current time in seconds, which is a parameter here.
 */
module Token {
  import opened Wrappers
  import opened Bytes
  import opened Json
  import JsonText
  import Base64
  import Utf8
  import Uri
  import Decimal

  // ---------------------------------------------------------------
  // Segments
  // ---------------------------------------------------------------

  /** `s.split(sep)`: the pieces between separators, in order; always at least one. */
  function Split(s: string, sep: char): (parts: seq<string>)
    ensures |parts| >= 1
    ensures forall i :: 0 <= i < |parts| ==> sep !in parts[i]
  {
    if s == [] then [[]]
    else
      var r := Split(s[1..], sep);
      if s[0] == sep then [[]] + r
      else [[s[0]] + r[0]] + r[1..]
  }

  /** `parts.join(sep)`. */
  function Join(parts: seq<string>, sep: char): string
    requires |parts| >= 1
  {
    if |parts| == 1 then parts[0] else parts[0] + [sep] + Join(parts[1..], sep)
  }

  /** Splitting the joined pieces gives them back, provided none contains the separator. */
  lemma {:induction false} SplitJoin(parts: seq<string>, sep: char)
    requires |parts| >= 1 && forall i :: 0 <= i < |parts| ==> sep !in parts[i]
    ensures Split(Join(parts, sep), sep) == parts
  {
    if |parts| == 1 {
      SplitNoSep(parts[0], sep, []);
      assert parts[0] + [] == parts[0];
    } else {
      var tail := [sep] + Join(parts[1..], sep);
      SplitJoin(parts[1..], sep);
      SplitNoSep(parts[0], sep, tail);
      SplitSep(sep, Join(parts[1..], sep));
      var r := Split(tail, sep);
      assert r == [[]] + parts[1..];
      assert r[0] == [] && r[1..] == parts[1..];
      assert parts[0] + [sep] + Join(parts[1..], sep) == parts[0] + tail;
      assert parts[0] + r[0] == parts[0];
      assert [parts[0]] + parts[1..] == parts;
    }
  }

  /** Joining the pieces of a split gives the string back. */
  lemma {:induction false} JoinSplit(s: string, sep: char)
    ensures Join(Split(s, sep), sep) == s
  {
    if s != [] {
      JoinSplit(s[1..], sep);
      var r := Split(s[1..], sep);
      if s[0] == sep {
        assert Join([[]] + r, sep) == [] + [sep] + Join(r, sep);
        assert [sep] + s[1..] == s;
      } else {
        JoinCons(s[0], r, sep);
        assert [s[0]] + s[1..] == s;
      }
    }
  }

  lemma {:induction false} JoinCons(c: char, r: seq<string>, sep: char)
    requires |r| >= 1
    ensures Join([[c] + r[0]] + r[1..], sep) == [c] + Join(r, sep)
  {
    var parts := [[c] + r[0]] + r[1..];
    if |r| > 1 {
      assert parts[1..] == r[1..];
    }
  }

  /** A text without separator, followed by `tail`, puts the text at the head of the first piece. */
  lemma {:induction false} SplitNoSep(s: string, sep: char, tail: string)
    requires sep !in s
    ensures var r := Split(tail, sep);
      Split(s + tail, sep) == [s + r[0]] + r[1..]
  {
    if s == [] {
      var r := Split(tail, sep);
      assert s + tail == tail;
      assert s + r[0] == r[0];
      assert [r[0]] + r[1..] == r;
    } else {
      assert (s + tail)[1..] == s[1..] + tail;
      SplitNoSep(s[1..], sep, tail);
      assert [s[0]] + (s[1..] + Split(tail, sep)[0]) == s + Split(tail, sep)[0];
    }
  }

  lemma {:induction false} SplitSep(sep: char, tail: string)
    ensures Split([sep] + tail, sep) == [[]] + Split(tail, sep)
  {
    assert ([sep] + tail)[1..] == tail;
  }

  // ---------------------------------------------------------------
  // Alphabets
  // ---------------------------------------------------------------

  /** `.replace(/-/g, "+").replace(/_/g, "/")`: the base64url alphabet (section 5 of RFC 4648) to the standard one. */
  function ToStandardAlphabet(s: string): (r: string)
    ensures |r| == |s|
    ensures forall i :: 0 <= i < |s| ==>
      r[i] == (if s[i] == '-' then '+' else if s[i] == '_' then '/' else s[i])
  {
    if s == [] then [] else [StandardChar(s[0])] + ToStandardAlphabet(s[1..])
  }

  function StandardChar(c: char): char
  {
    if c == '-' then '+' else if c == '_' then '/' else c
  }

  /** The base64url form of a standard base64 text: `+` becomes `-` and `/` becomes `_`. */
  function ToUrlAlphabet(s: string): (r: string)
    ensures |r| == |s|
    ensures forall i :: 0 <= i < |s| ==>
      r[i] == (if s[i] == '+' then '-' else if s[i] == '/' then '_' else s[i])
  {
    if s == [] then [] else [if s[0] == '+' then '-' else if s[0] == '/' then '_' else s[0]] + ToUrlAlphabet(s[1..])
  }

  /** Unpadded base64url, as a token issuer writes each segment. */
  function Base64Url(bs: seq<Byte>): string
  {
    ToUrlAlphabet(Base64.Encode(bs))
  }

  /** Translating back a base64url text gives the standard text it came from. */
  lemma {:induction false} StandardOfUrl(s: string)
    requires Base64.AllAlphabet(s)
    ensures ToStandardAlphabet(ToUrlAlphabet(s)) == s
  {
    var u := ToUrlAlphabet(s);
    var t := ToStandardAlphabet(u);
    forall i | 0 <= i < |s|
      ensures t[i] == s[i]
    {
      assert Base64.IsAlphabet(s[i]);
    }
  }

  lemma {:induction false} UrlHasNoDot(s: string)
    requires Base64.AllAlphabet(s)
    ensures '.' !in ToUrlAlphabet(s)
  {
    var u := ToUrlAlphabet(s);
    forall i | 0 <= i < |u|
      ensures u[i] != '.'
    {
      assert Base64.IsAlphabet(s[i]);
    }
  }

  // ---------------------------------------------------------------
  // decodeToken
  // ---------------------------------------------------------------

  /** `token.split(".")[1]`, when it exists and is not empty. */
  function PayloadSegment(token: string): (r: Option<string>)
    ensures r.Some? ==> r.value != [] && '.' !in r.value
  {
    var parts := Split(token, '.');
    if |parts| < 2 || parts[1] == [] then None else Some(parts[1])
  }

  /**
   * `decodeToken(token)`: `None` is the `null` it returns, both for a
   * failure caught by its `try` and for a payload that is the JSON `null`.
   */
  function DecodeToken(token: string): (r: Option<Json>)
    ensures r.Some? ==> WellFormed(r.value) && r.value != JNull
  {
    match PayloadSegment(token)
    case None => None
    case Some(segment) => DecodePayload(segment)
  }

  /** Alphabet translation, `atob`, per-byte escaping, `decodeURIComponent`, `JSON.parse`. */
  function DecodePayload(segment: string): (r: Option<Json>)
    ensures r.Some? ==> WellFormed(r.value) && r.value != JNull
  {
    match Base64.Decode(ToStandardAlphabet(segment))
    case None => None
    case Some(bytes) =>
      match Uri.DecodeUriComponent(Uri.PercentEscape(bytes))
      case None => None
      case Some(text) => NullToNone(JsonText.Parse(text))
  }

  function NullToNone(v: Option<Json>): (r: Option<Json>)
    ensures r.Some? ==> r.value != JNull
    ensures v != Some(JNull) ==> r == v
  {
    if v == Some(JNull) then None else v
  }

  /** A token without any `.` has no payload segment. */
  lemma {:induction false} DecodeTokenNoDot(token: string)
    requires '.' !in token
    ensures DecodeToken(token) == None
  {
    SplitNoSep(token, '.', []);
    assert token + [] == token;
  }

  /**
   * Only the second segment is read: the first and any number of further
   * segments (none included) do not matter, and an empty second segment
   * gives `None`.
   */
  lemma {:induction false} DecodeTokenReadsPayload(header: string, payload: string, more: seq<string>)
    requires '.' !in header && '.' !in payload
    requires forall i :: 0 <= i < |more| ==> '.' !in more[i]
    ensures DecodeToken(Join([header, payload] + more, '.'))
         == if payload == [] then None else DecodePayload(payload)
  {
    var parts := [header, payload] + more;
    forall i | 0 <= i < |parts|
      ensures '.' !in parts[i]
    {
      if i >= 2 {
        assert parts[i] == more[i - 2];
      }
    }
    SplitJoin(parts, '.');
  }

  /**
   * The round trip of the decoder: a token whose second segment is the
   * unpadded base64url of the UTF-8 of a JSON text decodes to what
   * `JSON.parse` makes of that text, `null` counting as a failure.
   */
  lemma {:induction false} DecodeTokenRoundTrip(header: string, text: string, more: seq<string>)
    requires '.' !in header
    requires forall i :: 0 <= i < |more| ==> '.' !in more[i]
    ensures DecodeToken(Join([header, Base64Url(Utf8.Encode(text))] + more, '.'))
         == NullToNone(JsonText.Parse(text))
  {
    var bytes := Utf8.Encode(text);
    var e := Base64.Encode(bytes);
    var payload := ToUrlAlphabet(e);
    UrlHasNoDot(e);
    DecodeTokenReadsPayload(header, payload, more);
    if payload == [] {
      assert text == [];
      ParseEmpty();
    } else {
      StandardOfUrl(e);
      Base64.DecodeEncode(bytes);
      Uri.DecodePercentEscape(bytes);
      Utf8.DecodeEncode(text);
    }
  }

  /** An empty text is not JSON. */
  lemma {:induction false} ParseEmpty()
    ensures JsonText.Parse([]) == None
  {
    assert JsonText.SkipWs([]) == [];
  }

  /** A token carrying any claims value other than `null` decodes to exactly that value. */
  lemma {:induction false} DecodeTokenOfClaims(header: string, claims: Json, signature: string)
    requires '.' !in header && '.' !in signature
    requires WellFormed(claims) && claims != JNull
    ensures DecodeToken(header + "." + Base64Url(Utf8.Encode(JsonText.Stringify(claims))) + "." + signature)
         == Some(claims)
  {
    var payload := Base64Url(Utf8.Encode(JsonText.Stringify(claims)));
    DecodeTokenRoundTrip(header, JsonText.Stringify(claims), [signature]);
    JoinThree(header, payload, signature);
    JsonText.ParseStringify(claims);
  }

  lemma {:induction false} JoinThree(a: string, b: string, c: string)
    ensures Join([a, b] + [c], '.') == a + "." + b + "." + c
  {
    var parts := [a, b] + [c];
    assert parts == [a, b, c] && parts[1..] == [b, c] && parts[1..][1..] == [c];
    assert Join([c], '.') == c;
    assert Join([b, c], '.') == b + "." + c;
    assert Join(parts, '.') == a + "." + (b + "." + c);
  }

  // ---------------------------------------------------------------
  // useDecodeToken
  // ---------------------------------------------------------------

  /** `Number(v)` for the values of the model: `None` is `NaN` (and stands for `undefined`). */
  function ToNumber(v: Option<Json>): (r: Option<int>)
    ensures v.Some? && v.value.JNum? ==> r == Some(v.value.n)
    ensures v.None? || (v.Some? && v.value.JObj?) ==> r.None?
  {
    match v
    case None => None
    case Some(JNull) => Some(0)
    case Some(JBool(b)) => Some(if b then 1 else 0)
    case Some(JNum(n)) => Some(n)
    case Some(JStr(s)) =>
      if s == [] then Some(0)
      else if Decimal.AllDigits(s) then Some(Decimal.DigitsValue(s))
      else None
    case Some(JArr(items)) => if items == [] then Some(0) else None
    case Some(JObj(_)) => None
  }

  /**
   * `decoded.exp < now`: a comparison with `NaN` is false, so claims
   * without a numeric `exp` never count as expired.
   */
  function Expired(claims: Json, now: int): (x: bool)
    ensures x ==> Property(claims, "exp").Some?
    ensures var e := Property(claims, "exp");
      e.Some? && e.value.JNum? ==> (x <==> e.value.n < now)
  {
    match ToNumber(Property(claims, "exp"))
    case Some(e) => e < now
    case None => false
  }

  /** A token whose `exp` is exactly the current second is not expired. */
  lemma {:induction false} ExpiryBoundaryAccepted(claims: Json, now: int)
    requires Property(claims, "exp") == Some(JNum(now))
    ensures !Expired(claims, now)
  {
  }

  /** What `useDecodeToken` returns. */
  datatype TokenState = TokenState(decodedToken: Option<Json>, isExpired: bool)

  /** `useDecodeToken()` for the stored token `token` (`None` is `null`) at second `now`. */
  function UseDecodeToken(token: Option<string>, now: int): (r: TokenState)
    ensures r.decodedToken.None? ==> r.isExpired
    ensures r.decodedToken.Some? <==> token.Some? && token.value != [] && Truthy(DecodeToken(token.value))
    ensures r.decodedToken.Some? ==>
      r.decodedToken == DecodeToken(token.value) && (r.isExpired <==> Expired(r.decodedToken.value, now))
  {
    if token.None? || token.value == [] then TokenState(None, true)
    else
      var decoded := DecodeToken(token.value);
      if !Truthy(decoded) then TokenState(None, true)
      else TokenState(decoded, Expired(decoded.value, now))
  }
}
