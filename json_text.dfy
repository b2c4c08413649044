/**
 * JSON text: `JSON.stringify` without indentation and `JSON.parse`, over
 * the values of module Json. Numbers are integers; see README for what
 * the parser leaves out.
 */
module JsonText {
  import opened Wrappers
  import opened Json
  import Decimal

  // ---------------------------------------------------------------
  // JSON.stringify
  // ---------------------------------------------------------------

  /**
   * `JSON.stringify(j)`: never empty; strings, arrays and objects keep
   * their delimiters at both ends. `Parse` inverts it (`ParseStringify`).
   */
  function Stringify(j: Json): (s: string)
    ensures |s| > 0
    ensures j.JStr? ==> |s| >= 2 && s[0] == '"' && s[|s| - 1] == '"'
    ensures j.JArr? ==> |s| >= 2 && s[0] == '[' && s[|s| - 1] == ']'
    ensures j.JObj? ==> |s| >= 2 && s[0] == '{' && s[|s| - 1] == '}'
  {
    match j
    case JNull => "null"
    case JBool(b) => if b then "true" else "false"
    case JNum(n) => Decimal.IntToString(n)
    case JStr(s) => Quote(s)
    case JArr(items) => "[" + StringifyItems(items) + "]"
    case JObj(ms) => "{" + StringifyMembers(ms) + "}"
  }

  function StringifyItems(items: seq<Json>): string
  {
    if items == [] then ""
    else Stringify(items[0]) + (if |items| == 1 then "" else "," + StringifyItems(items[1..]))
  }

  function StringifyMembers(ms: seq<Member>): string
  {
    if ms == [] then ""
    else Quote(ms[0].key) + ":" + Stringify(ms[0].value)
         + (if |ms| == 1 then "" else "," + StringifyMembers(ms[1..]))
  }

  function Quote(s: string): string
  {
    "\"" + Escape(s) + "\""
  }

  function Escape(s: string): string
  {
    if s == [] then "" else EscapeChar(s[0]) + Escape(s[1..])
  }

  /** How a string character appears between the quotes of a JSON string. */
  function EscapeChar(c: char): (e: string)
    ensures |e| >= 1 && (e[0] == '\\' || e == [c])
  {
    match ShortEscape(c)
    case Some(x) => ['\\', x]
    case None => if c as int < 0x20 then "\\u00" + Decimal.HexPair(c as int) else [c]
  }

  /** The letter of the two-character escape that JSON.stringify writes for `c`, if any. */
  function ShortEscape(c: char): Option<char>
  {
    if c == '"' then Some('"')
    else if c == '\\' then Some('\\')
    else if c as int == 0x08 then Some('b')
    else if c as int == 0x09 then Some('t')
    else if c as int == 0x0A then Some('n')
    else if c as int == 0x0C then Some('f')
    else if c as int == 0x0D then Some('r')
    else None
  }

  // ---------------------------------------------------------------
  // JSON.parse
  // ---------------------------------------------------------------

  predicate IsWs(c: char)
  {
    c == ' ' || c == '\t' || c == '\n' || c == '\r'
  }

  function SkipWs(s: string): (r: string)
    ensures |r| <= |s|
    ensures r == [] || !IsWs(r[0])
    ensures s == [] || !IsWs(s[0]) ==> r == s
  {
    if s != [] && IsWs(s[0]) then SkipWs(s[1..]) else s
  }

  /** The whole text is one JSON value, with only whitespace around it; `None` is a `SyntaxError`. */
  function Parse(text: string): (r: Option<Json>)
    ensures r.Some? ==> WellFormed(r.value)
  {
    match ParseValue(text)
    case Some((v, rest)) => if SkipWs(rest) == [] then Some(v) else None
    case None => None
  }

  /** A value after optional whitespace, and the text after it. */
  function ParseValue(s: string): (r: Option<(Json, string)>)
    ensures r.Some? ==> |r.value.1| < |s| && WellFormed(r.value.0)
    decreases |s|, 0
  {
    var t := SkipWs(s);
    if t == [] then None
    else if t[0] == 'n' then Literal(t, "null", JNull)
    else if t[0] == 't' then Literal(t, "true", JBool(true))
    else if t[0] == 'f' then Literal(t, "false", JBool(false))
    else if t[0] == '"' then
      match ParseString(t[1..])
      case Some((str, rest)) => Some((JStr(str), rest))
      case None => None
    else if t[0] == '[' then ParseArray(t[1..])
    else if t[0] == '{' then ParseObject(t[1..])
    else if t[0] == '-' || Decimal.IsDigit(t[0]) then ParseNumber(t)
    else None
  }

  function Literal(t: string, word: string, v: Json): (r: Option<(Json, string)>)
    requires |word| > 0
    ensures r.Some? ==> r.value.0 == v && |r.value.1| < |t|
  {
    if |word| <= |t| && t[..|word|] == word then Some((v, t[|word|..])) else None
  }

  /** The elements and closing bracket of an array whose `[` has been read. */
  function ParseArray(s: string): (r: Option<(Json, string)>)
    ensures r.Some? ==> |r.value.1| < |s| && WellFormed(r.value.0)
    decreases |s|, 2
  {
    var t := SkipWs(s);
    if t != [] && t[0] == ']' then Some((JArr([]), t[1..]))
    else
      match ParseItems(s)
      case Some((items, rest)) => Some((JArr(items), rest))
      case None => None
  }

  /** One or more comma-separated values and the closing `]`. */
  function ParseItems(s: string): (r: Option<(seq<Json>, string)>)
    ensures r.Some? ==> |r.value.1| < |s|
    ensures r.Some? ==> forall i :: 0 <= i < |r.value.0| ==> WellFormed(r.value.0[i])
    decreases |s|, 1
  {
    match ParseValue(s)
    case None => None
    case Some((v, r)) =>
      var t := SkipWs(r);
      if t == [] then None
      else if t[0] == ']' then Some(([v], t[1..]))
      else if t[0] == ',' then
        match ParseItems(t[1..])
        case Some((vs, rest)) => Some(([v] + vs, rest))
        case None => None
      else None
  }

  /**
   * The members and closing brace of an object whose `{` has been read.
   * Text that names a key twice is rejected (see README).
   */
  function ParseObject(s: string): (r: Option<(Json, string)>)
    ensures r.Some? ==> |r.value.1| < |s| && WellFormed(r.value.0)
    decreases |s|, 2
  {
    var t := SkipWs(s);
    if t != [] && t[0] == '}' then Some((JObj([]), t[1..]))
    else
      match ParseMembers(s)
      case Some((ms, rest)) => if UniqueKeys(ms) then Some((JObj(ms), rest)) else None
      case None => None
  }

  /** One or more comma-separated `"key": value` pairs and the closing `}`. */
  function ParseMembers(s: string): (r: Option<(seq<Member>, string)>)
    ensures r.Some? ==> |r.value.1| < |s|
    ensures r.Some? ==> forall i :: 0 <= i < |r.value.0| ==> WellFormed(r.value.0[i].value)
    decreases |s|, 1
  {
    match ParseMember(s)
    case None => None
    case Some((m, r)) =>
      var w := SkipWs(r);
      if w == [] then None
      else if w[0] == '}' then Some(([m], w[1..]))
      else if w[0] == ',' then
        match ParseMembers(w[1..])
        case Some((ms, rest)) => Some(([m] + ms, rest))
        case None => None
      else None
  }

  /** One `"key": value` pair, after optional whitespace. */
  function ParseMember(s: string): (r: Option<(Member, string)>)
    ensures r.Some? ==> |r.value.1| < |s| && WellFormed(r.value.0.value)
    decreases |s|, 0
  {
    var t := SkipWs(s);
    if t == [] || t[0] != '"' then None
    else
      match ParseString(t[1..])
      case None => None
      case Some((k, r1)) =>
        var u := SkipWs(r1);
        if u == [] || u[0] != ':' then None
        else
          match ParseValue(u[1..])
          case None => None
          case Some((v, r2)) => Some((Member(k, v), r2))
  }

  /** The characters of a string literal whose opening `"` has been read, up to the closing `"`. */
  function ParseString(s: string): (r: Option<(string, string)>)
    ensures r.Some? ==> |r.value.1| < |s|
  {
    if s == [] then None
    else if s[0] == '"' then Some(([], s[1..]))
    else if s[0] == '\\' then
      match Unescape(s[1..])
      case None => None
      case Some((c, r)) =>
        match ParseString(r)
        case Some((str, rest)) => Some(([c] + str, rest))
        case None => None
    else if (s[0] as int) < 0x20 then None
    else
      match ParseString(s[1..])
      case Some((str, rest)) => Some(([s[0]] + str, rest))
      case None => None
  }

  predicate IsHexQuad(s: string)
  {
    |s| >= 4 && Decimal.IsHexDigit(s[0]) && Decimal.IsHexDigit(s[1])
    && Decimal.IsHexDigit(s[2]) && Decimal.IsHexDigit(s[3])
  }

  function HexQuadValue(s: string): (v: nat)
    requires IsHexQuad(s)
    ensures v < 0x10000
  {
    Decimal.HexPairValue(s[0], s[1]) * 256 + Decimal.HexPairValue(s[2], s[3])
  }

  /**
   * The character an escape sequence stands for, the backslash already
   * read. A `\u` escape of a surrogate must be the first half of a pair.
   */
  function Unescape(s: string): (r: Option<(char, string)>)
    ensures r.Some? ==> |r.value.1| < |s|
  {
    if s == [] then None
    else if ShortUnescape(s[0]).Some? then Some((ShortUnescape(s[0]).value, s[1..]))
    else if s[0] == 'u' && IsHexQuad(s[1..]) then UnescapeUnicode(s)
    else None
  }

  /** The character a two-character escape `\x` stands for; JSON.parse also accepts `\/`. */
  function ShortUnescape(x: char): Option<char>
  {
    if x == '"' then Some('"')
    else if x == '\\' then Some('\\')
    else if x == '/' then Some('/')
    else if x == 'b' then Some(0x08 as char)
    else if x == 'f' then Some(0x0C as char)
    else if x == 'n' then Some(0x0A as char)
    else if x == 'r' then Some(0x0D as char)
    else if x == 't' then Some(0x09 as char)
    else None
  }

  /** A `\uXXXX` escape, or a surrogate pair of two of them. */
  function UnescapeUnicode(s: string): (r: Option<(char, string)>)
    requires |s| >= 5 && s[0] == 'u' && IsHexQuad(s[1..])
    ensures r.Some? ==> |r.value.1| < |s|
  {
    var hi := HexQuadValue(s[1..]);
    if hi < 0xD800 || 0xE000 <= hi then Some((hi as char, s[5..]))
    else if hi < 0xDC00 && |s| >= 11 && s[5] == '\\' && s[6] == 'u' && IsHexQuad(s[7..]) then
      var lo := HexQuadValue(s[7..]);
      if 0xDC00 <= lo < 0xE000 then
        Some(((0x10000 + (hi - 0xD800) * 0x400 + (lo - 0xDC00)) as char, s[11..]))
      else None
    else None
  }

  /**
   * An integer literal: an optional `-`, then `0` or digits not starting
   * with `0`. A fraction or exponent part is not part of this model.
   */
  function ParseNumber(t: string): (r: Option<(Json, string)>)
    requires t != []
    ensures r.Some? ==> |r.value.1| < |t| && r.value.0.JNum?
  {
    if t[0] == '-' then
      match ParseMagnitude(t[1..])
      case Some((v, rest)) => Some((JNum(-(v as int)), rest))
      case None => None
    else
      match ParseMagnitude(t)
      case Some((v, rest)) => Some((JNum(v), rest))
      case None => None
  }

  /** The digits of an integer literal, without sign. */
  function ParseMagnitude(u: string): (r: Option<(nat, string)>)
    ensures r.Some? ==> |r.value.1| < |u|
  {
    var k := DigitRun(u);
    if k == 0 || (u[0] == '0' && k > 1) then None
    else if k < |u| && (u[k] == '.' || u[k] == 'e' || u[k] == 'E') then None
    else Some((Decimal.DigitsValue(u[..k]), u[k..]))
  }

  /** The length of the longest prefix of `s` made of decimal digits. */
  function DigitRun(s: string): (k: nat)
    ensures k <= |s| && Decimal.AllDigits(s[..k])
    ensures k < |s| ==> !Decimal.IsDigit(s[k])
  {
    if s != [] && Decimal.IsDigit(s[0]) then
      var k := 1 + DigitRun(s[1..]);
      assert s[..k] == [s[0]] + s[1..][..k - 1];
      k
    else 0
  }

  // ---------------------------------------------------------------
  // JSON.parse reads back what JSON.stringify writes
  // ---------------------------------------------------------------

  /** The round trip the session store relies on: parsing stringified text gives the value back. */
  lemma {:induction false} ParseStringify(j: Json)
    requires WellFormed(j)
    ensures Parse(Stringify(j)) == Some(j)
  {
    ParseValueStringify(j, []);
    assert Stringify(j) + [] == Stringify(j);
  }

  /** What can follow a value inside the output of `Stringify`. */
  predicate Delimited(rest: string)
  {
    rest == [] || rest[0] == ',' || rest[0] == ']' || rest[0] == '}'
  }

  lemma {:induction false} StringifyStart(j: Json)
    ensures |Stringify(j)| > 0
    ensures var c := Stringify(j)[0];
      !IsWs(c) && c != ']' && c != '}' && (j.JStr? <==> c == '"')
  {
  }

  lemma {:induction false} ParseValueStringify(j: Json, rest: string)
    requires WellFormed(j) && Delimited(rest)
    ensures ParseValue(Stringify(j) + rest) == Some((j, rest))
    decreases j, 1
  {
    match j
    case JNull => ParseLiteralStringify(j, rest);
    case JBool(_) => ParseLiteralStringify(j, rest);
    case JNum(n) => ParseNumberStringify(n, rest);
    case JStr(str) => ParseStrStringify(str, rest);
    case JArr(items) => ParseArrayStringify(items, rest);
    case JObj(ms) => ParseObjectStringify(ms, rest);
  }

  lemma {:induction false} ParseLiteralStringify(j: Json, rest: string)
    requires j.JNull? || j.JBool?
    ensures ParseValue(Stringify(j) + rest) == Some((j, rest))
  {
    var s := Stringify(j) + rest;
    if j.JNull? || j.b {
      assert s[..4] == Stringify(j) && s[4..] == rest;
    } else {
      assert s[..5] == "false" && s[5..] == rest;
    }
  }

  lemma {:induction false} ParseNumberStringify(n: int, rest: string)
    requires Delimited(rest)
    ensures ParseValue(Stringify(JNum(n)) + rest) == Some((JNum(n), rest))
  {
    var s := Decimal.IntToString(n) + rest;
    ParseValueNumber(s);
    ParseNumberIntToString(n, rest);
  }

  lemma {:induction false} ParseStrStringify(str: string, rest: string)
    ensures ParseValue(Stringify(JStr(str)) + rest) == Some((JStr(str), rest))
  {
    var s := Quote(str) + rest;
    ParseValueString(s);
    assert s[1..] == Escape(str) + "\"" + rest;
    ParseStringEscape(str, rest);
  }

  lemma {:induction false} ParseArrayStringify(items: seq<Json>, rest: string)
    requires WellFormed(JArr(items)) && Delimited(rest)
    ensures ParseValue(Stringify(JArr(items)) + rest) == Some((JArr(items), rest))
    decreases JArr(items), 0
  {
    var body := StringifyItems(items);
    BracketShape('[', body, ']', rest);
    ParseValueArray(['['] + body + "]" + rest);
    if items == [] {
      assert body + "]" + rest == "]" + rest;
      ParseArrayEmpty(rest);
    } else {
      ParseItemsBody(items, rest);
    }
  }

  lemma {:induction false} ParseArrayEmpty(rest: string)
    ensures ParseArray("]" + rest) == Some((JArr([]), rest))
  {
    assert ("]" + rest)[1..] == rest;
  }

  lemma {:induction false} ParseItemsBody(items: seq<Json>, rest: string)
    requires items != [] && WellFormed(JArr(items)) && Delimited(rest)
    ensures ParseArray(StringifyItems(items) + "]" + rest) == Some((JArr(items), rest))
    decreases items, 2
  {
    ItemsStart(items, "]" + rest);
    assert StringifyItems(items) + "]" + rest == StringifyItems(items) + ("]" + rest);
    ParseItemsStringify(items, rest);
  }

  lemma {:induction false} ParseObjectStringify(ms: seq<Member>, rest: string)
    requires WellFormed(JObj(ms)) && Delimited(rest)
    ensures ParseValue(Stringify(JObj(ms)) + rest) == Some((JObj(ms), rest))
    decreases JObj(ms), 0
  {
    var body := StringifyMembers(ms);
    BracketShape('{', body, '}', rest);
    ParseValueObject(['{'] + body + "}" + rest);
    if ms == [] {
      assert body + "}" + rest == "}" + rest;
      ParseObjectEmpty(rest);
    } else {
      ParseMembersBody(ms, rest);
    }
  }

  lemma {:induction false} ParseObjectEmpty(rest: string)
    ensures ParseObject("}" + rest) == Some((JObj([]), rest))
  {
    assert ("}" + rest)[1..] == rest;
  }

  lemma {:induction false} ParseMembersBody(ms: seq<Member>, rest: string)
    requires ms != [] && WellFormed(JObj(ms)) && Delimited(rest)
    ensures ParseObject(StringifyMembers(ms) + "}" + rest) == Some((JObj(ms), rest))
    decreases ms, 2
  {
    MembersStart(ms, "}" + rest);
    assert StringifyMembers(ms) + "}" + rest == StringifyMembers(ms) + ("}" + rest);
    ParseMembersStringify(ms, rest);
    ParseObjectStep(StringifyMembers(ms) + "}" + rest, ms, rest);
  }

  lemma {:induction false} ParseObjectStep(s: string, ms: seq<Member>, rest: string)
    requires s != [] && s[0] == '"' && ParseMembers(s) == Some((ms, rest)) && UniqueKeys(ms)
    ensures ParseObject(s) == Some((JObj(ms), rest))
  {
  }

  /** A bracketed list: its first character is the bracket, and the rest follows it. */
  lemma {:induction false} BracketShape(open: char, body: string, close: char, rest: string)
    ensures var s := [open] + body + [close] + rest;
      s != [] && s[0] == open && s[1..] == body + [close] + rest
  {
  }

  // Which parser `ParseValue` hands its text to, by the first character.

  lemma {:induction false} ParseValueString(s: string)
    requires s != [] && s[0] == '"'
    ensures ParseValue(s) == (match ParseString(s[1..])
                              case Some((str, rest)) => Some((JStr(str), rest))
                              case None => None)
  {
  }

  lemma {:induction false} ParseValueArray(s: string)
    requires s != [] && s[0] == '['
    ensures ParseValue(s) == ParseArray(s[1..])
  {
  }

  lemma {:induction false} ParseValueObject(s: string)
    requires s != [] && s[0] == '{'
    ensures ParseValue(s) == ParseObject(s[1..])
  {
  }

  lemma {:induction false} ParseValueNumber(s: string)
    requires s != [] && (s[0] == '-' || Decimal.IsDigit(s[0]))
    ensures ParseValue(s) == ParseNumber(s)
  {
  }

  lemma {:induction false} ItemsStart(items: seq<Json>, tail: string)
    requires items != []
    ensures var s := StringifyItems(items) + tail;
      s != [] && !IsWs(s[0]) && s[0] != ']'
  {
    StringifyStart(items[0]);
    assert (StringifyItems(items) + tail)[0] == Stringify(items[0])[0];
  }

  lemma {:induction false} MembersStart(ms: seq<Member>, tail: string)
    requires ms != []
    ensures var s := StringifyMembers(ms) + tail;
      s != [] && s[0] == '"'
  {
  }

  lemma {:induction false} ParseItemsStringify(items: seq<Json>, rest: string)
    requires items != [] && Delimited(rest)
    requires forall i :: 0 <= i < |items| ==> WellFormed(items[i])
    ensures ParseItems(StringifyItems(items) + "]" + rest) == Some((items, rest))
    decreases items, 1
  {
    if |items| == 1 {
      ParseOneItemStringify(items, rest);
    } else {
      ParseMoreItemsStringify(items, rest);
    }
  }

  lemma {:induction false} ParseOneItemStringify(items: seq<Json>, rest: string)
    requires |items| == 1 && Delimited(rest) && WellFormed(items[0])
    ensures ParseItems(StringifyItems(items) + "]" + rest) == Some((items, rest))
    decreases items, 0
  {
    var s := StringifyItems(items) + "]" + rest;
    assert s == Stringify(items[0]) + ("]" + rest);
    ParseValueStringify(items[0], "]" + rest);
    ParseItemsLast(s, items[0], rest);
    assert [items[0]] == items;
  }

  lemma {:induction false} ParseMoreItemsStringify(items: seq<Json>, rest: string)
    requires |items| > 1 && Delimited(rest)
    requires forall i :: 0 <= i < |items| ==> WellFormed(items[i])
    ensures ParseItems(StringifyItems(items) + "]" + rest) == Some((items, rest))
    decreases items, 0
  {
    var s := StringifyItems(items) + "]" + rest;
    var tail := "," + StringifyItems(items[1..]) + "]" + rest;
    ItemsSplit(items, rest);
    ParseValueStringify(items[0], tail);
    ParseItemsStringify(items[1..], rest);
    ParseItemsNext(s, items, tail, rest);
  }

  lemma {:induction false} ItemsSplit(items: seq<Json>, rest: string)
    requires |items| > 1
    ensures var tail := "," + StringifyItems(items[1..]) + "]" + rest;
      StringifyItems(items) + "]" + rest == Stringify(items[0]) + tail && tail[1..] == StringifyItems(items[1..]) + "]" + rest
  {
  }

  lemma {:induction false} MembersSplit(ms: seq<Member>, rest: string)
    requires |ms| > 1
    ensures var tail := "," + StringifyMembers(ms[1..]) + "}" + rest;
      StringifyMembers(ms) + "}" + rest == Quote(ms[0].key) + ":" + Stringify(ms[0].value) + tail
      && tail[1..] == StringifyMembers(ms[1..]) + "}" + rest
  {
  }

  lemma {:induction false} ParseItemsLast(s: string, v: Json, rest: string)
    requires ParseValue(s) == Some((v, "]" + rest))
    ensures ParseItems(s) == Some(([v], rest))
  {
    assert ("]" + rest)[1..] == rest;
  }

  lemma {:induction false} ParseItemsNext(s: string, items: seq<Json>, tail: string, rest: string)
    requires |items| > 1 && ParseValue(s) == Some((items[0], tail))
    requires tail != [] && tail[0] == ','
    requires ParseItems(tail[1..]) == Some((items[1..], rest))
    ensures ParseItems(s) == Some((items, rest))
  {
    assert [items[0]] + items[1..] == items;
  }

  lemma {:induction false} ParseMembersStringify(ms: seq<Member>, rest: string)
    requires ms != [] && Delimited(rest)
    requires forall i :: 0 <= i < |ms| ==> WellFormed(ms[i].value)
    ensures ParseMembers(StringifyMembers(ms) + "}" + rest) == Some((ms, rest))
    decreases ms, 1
  {
    if |ms| == 1 {
      ParseOneMemberStringify(ms, rest);
    } else {
      ParseMoreMembersStringify(ms, rest);
    }
  }

  lemma {:induction false} ParseOneMemberStringify(ms: seq<Member>, rest: string)
    requires |ms| == 1 && Delimited(rest) && WellFormed(ms[0].value)
    ensures ParseMembers(StringifyMembers(ms) + "}" + rest) == Some((ms, rest))
    decreases ms, 0
  {
    var s := StringifyMembers(ms) + "}" + rest;
    assert s == Quote(ms[0].key) + ":" + Stringify(ms[0].value) + ("}" + rest);
    assert ms[0].value < ms[0];
    ParseMemberStringify(ms[0], "}" + rest);
    ParseMembersLast(s, ms[0], rest);
    assert [ms[0]] == ms;
  }

  lemma {:induction false} ParseMoreMembersStringify(ms: seq<Member>, rest: string)
    requires |ms| > 1 && Delimited(rest)
    requires forall i :: 0 <= i < |ms| ==> WellFormed(ms[i].value)
    ensures ParseMembers(StringifyMembers(ms) + "}" + rest) == Some((ms, rest))
    decreases ms, 0
  {
    var s := StringifyMembers(ms) + "}" + rest;
    var tail := "," + StringifyMembers(ms[1..]) + "}" + rest;
    MembersSplit(ms, rest);
    assert ms[0].value < ms[0];
    ParseMemberStringify(ms[0], tail);
    ParseMembersStringify(ms[1..], rest);
    ParseMembersNext(s, ms, tail, rest);
  }

  lemma {:induction false} ParseMembersLast(s: string, m: Member, rest: string)
    requires ParseMember(s) == Some((m, "}" + rest))
    ensures ParseMembers(s) == Some(([m], rest))
  {
    assert ("}" + rest)[1..] == rest;
  }

  lemma {:induction false} ParseMembersNext(s: string, ms: seq<Member>, tail: string, rest: string)
    requires |ms| > 1 && ParseMember(s) == Some((ms[0], tail))
    requires tail != [] && tail[0] == ','
    requires ParseMembers(tail[1..]) == Some((ms[1..], rest))
    ensures ParseMembers(s) == Some((ms, rest))
  {
    assert [ms[0]] + ms[1..] == ms;
  }

  lemma {:induction false} ParseMemberStringify(m: Member, tail: string)
    requires WellFormed(m.value) && Delimited(tail)
    ensures ParseMember(Quote(m.key) + ":" + Stringify(m.value) + tail) == Some((m, tail))
    decreases m.value, 2
  {
    var afterKey := ":" + Stringify(m.value) + tail;
    var s := Quote(m.key) + ":" + Stringify(m.value) + tail;
    MemberSplit(m, tail);
    ParseStringEscape(m.key, afterKey);
    ParseValueStringify(m.value, tail);
    ParseMemberStep(s, m.key, afterKey, m.value, tail);
  }

  lemma {:induction false} MemberSplit(m: Member, tail: string)
    ensures var s := Quote(m.key) + ":" + Stringify(m.value) + tail;
      var afterKey := ":" + Stringify(m.value) + tail;
      s != [] && s[0] == '"' && s[1..] == Escape(m.key) + "\"" + afterKey
      && afterKey[0] == ':' && afterKey[1..] == Stringify(m.value) + tail
  {
    PairShape(Escape(m.key), Stringify(m.value), tail);
  }

  lemma {:induction false} PairShape(e: string, v: string, tail: string)
    ensures var s := ("\"" + e + "\"") + ":" + v + tail;
      var afterKey := ":" + v + tail;
      s != [] && s[0] == '"' && s[1..] == e + "\"" + afterKey
      && afterKey[0] == ':' && afterKey[1..] == v + tail
  {
  }

  lemma {:induction false} ParseMemberStep(s: string, k: string, afterKey: string, v: Json, tail: string)
    requires s != [] && s[0] == '"' && ParseString(s[1..]) == Some((k, afterKey))
    requires afterKey != [] && afterKey[0] == ':' && ParseValue(afterKey[1..]) == Some((v, tail))
    ensures ParseMember(s) == Some((Member(k, v), tail))
  {
  }

  lemma {:induction false} ParseStringEscape(str: string, rest: string)
    ensures ParseString(Escape(str) + "\"" + rest) == Some((str, rest))
  {
    if str == [] {
      assert Escape(str) + "\"" + rest == "\"" + rest;
      ParseStringEnd(rest);
    } else {
      var tail := Escape(str[1..]) + "\"" + rest;
      EscapeSplit(str, rest);
      ParseStringEscape(str[1..], rest);
      ParseStringChar(str[0], tail, str[1..], rest);
      assert [str[0]] + str[1..] == str;
    }
  }

  lemma {:induction false} ParseStringEnd(rest: string)
    ensures ParseString("\"" + rest) == Some(([], rest))
  {
    assert ("\"" + rest)[1..] == rest;
  }

  lemma {:induction false} EscapeSplit(str: string, rest: string)
    requires str != []
    ensures Escape(str) + "\"" + rest == EscapeChar(str[0]) + (Escape(str[1..]) + "\"" + rest)
  {
  }

  /** One escaped character, then the rest of the string literal. */
  lemma {:induction false} ParseStringChar(c: char, tail: string, str: string, rest: string)
    requires ParseString(tail) == Some((str, rest))
    ensures ParseString(EscapeChar(c) + tail) == Some(([c] + str, rest))
  {
    match ShortEscape(c)
    case Some(x) =>
      assert (EscapeChar(c) + tail)[1..] == [x] + tail;
      UnescapeShort(c, tail);
    case None =>
      if c as int < 0x20 {
        var e := EscapeChar(c) + tail;
        assert e[1..] == "u00" + Decimal.HexPair(c as int) + tail;
        UnescapeControl(c, tail);
      } else {
        assert (EscapeChar(c) + tail)[1..] == tail;
      }
  }

  lemma {:induction false} UnescapeShort(c: char, tail: string)
    requires ShortEscape(c).Some?
    ensures Unescape([ShortEscape(c).value] + tail) == Some((c, tail))
  {
    assert ([ShortEscape(c).value] + tail)[1..] == tail;
  }

  lemma {:induction false} UnescapeControl(c: char, tail: string)
    requires ShortEscape(c).None? && c as int < 0x20
    ensures Unescape("u00" + Decimal.HexPair(c as int) + tail) == Some((c, tail))
  {
    var hp := Decimal.HexPair(c as int);
    var e := "u00" + hp + tail;
    assert e == ['u', '0', '0', hp[0], hp[1]] + tail;
    assert e[1..][..4] == ['0', '0', hp[0], hp[1]];
    assert HexQuadValue(e[1..]) == c as int;
    assert e[5..] == tail;
  }

  lemma {:induction false} ParseNumberIntToString(n: int, rest: string)
    requires Delimited(rest)
    ensures ParseNumber(Decimal.IntToString(n) + rest) == Some((JNum(n), rest))
  {
    if n < 0 {
      ParseNegativeIntToString(n, rest);
    } else {
      ParseMagnitudeNatToString(n, rest);
      ParseNumberNonNegative(Decimal.NatToString(n) + rest, n, rest);
    }
  }

  lemma {:induction false} ParseNegativeIntToString(n: int, rest: string)
    requires n < 0 && Delimited(rest)
    ensures ParseNumber(Decimal.IntToString(n) + rest) == Some((JNum(n), rest))
  {
    var m: nat := -n;
    var d := Decimal.NatToString(m);
    var u := d + rest;
    assert Decimal.IntToString(n) == ['-'] + d;
    assert (['-'] + d) + rest == ['-'] + u;
    ParseMagnitudeNatToString(m, rest);
    ParseNumberNegative(u, m, rest);
  }

  lemma {:induction false} ParseNumberNegative(u: string, v: nat, rest: string)
    requires ParseMagnitude(u) == Some((v, rest))
    ensures ParseNumber(['-'] + u) == Some((JNum(-(v as int)), rest))
  {
    assert (['-'] + u)[1..] == u;
  }

  lemma {:induction false} ParseNumberNonNegative(u: string, v: nat, rest: string)
    requires u != [] && u[0] != '-' && ParseMagnitude(u) == Some((v, rest))
    ensures ParseNumber(u) == Some((JNum(v), rest))
  {
  }

  lemma {:induction false} ParseMagnitudeNatToString(m: nat, rest: string)
    requires Delimited(rest)
    ensures ParseMagnitude(Decimal.NatToString(m) + rest) == Some((m, rest))
  {
    var d := Decimal.NatToString(m);
    var u := d + rest;
    DigitRunOf(d, rest);
    assert u[..|d|] == d && u[|d|..] == rest;
    Decimal.DigitsValueOfNatToString(m);
  }

  lemma {:induction false} DigitRunOf(d: string, rest: string)
    requires Decimal.AllDigits(d) && Delimited(rest)
    ensures DigitRun(d + rest) == |d|
  {
    if d == [] {
      assert d + rest == rest;
    } else {
      assert (d + rest)[1..] == d[1..] + rest;
      DigitRunOf(d[1..], rest);
    }
  }
}
