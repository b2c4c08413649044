/**
 * `atob`: the "forgiving-base64 decode" of the WHATWG Infra standard
 * (section 4.5), over the standard alphabet of section 4 of RFC 4648.
 * Whitespace is ignored, padding is optional, and the bits left over at
 * the end are discarded without being checked. `Encode` writes the
 * unpadded form the token issuer uses; it is the partner of the decoder.
 */
module Base64 {
  import opened Wrappers
  import opened Bytes

  /** ASCII whitespace: tab, line feed, form feed, carriage return, space. */
  predicate IsAsciiWs(c: char)
  {
    c == '\t' || c == '\n' || c as int == 0x0C || c == '\r' || c == ' '
  }

  predicate IsAlphabet(c: char)
  {
    'A' <= c <= 'Z' || 'a' <= c <= 'z' || '0' <= c <= '9' || c == '+' || c == '/'
  }

  predicate AllAlphabet(s: string)
  {
    forall i :: 0 <= i < |s| ==> IsAlphabet(s[i])
  }

  /** The six bits a character of the alphabet stands for. */
  function CharValue(c: char): (v: nat)
    requires IsAlphabet(c)
    ensures v < 64
  {
    if 'A' <= c <= 'Z' then c as int - 'A' as int
    else if 'a' <= c <= 'z' then c as int - 'a' as int + 26
    else if '0' <= c <= '9' then c as int - '0' as int + 52
    else if c == '+' then 62
    else 63
  }

  /** The character of the alphabet for six bits. */
  function ValueChar(v: nat): (c: char)
    requires v < 64
    ensures IsAlphabet(c) && CharValue(c) == v
  {
    if v < 26 then ('A' as int + v) as char
    else if v < 52 then ('a' as int + v - 26) as char
    else if v < 62 then ('0' as int + v - 52) as char
    else if v == 62 then '+'
    else '/'
  }

  function StripWs(s: string): (r: string)
    ensures |r| <= |s|
    ensures forall i :: 0 <= i < |r| ==> !IsAsciiWs(r[i])
    ensures (forall i :: 0 <= i < |s| ==> !IsAsciiWs(s[i])) ==> r == s
  {
    if s == [] then []
    else if IsAsciiWs(s[0]) then StripWs(s[1..])
    else [s[0]] + StripWs(s[1..])
  }

  /** When the length is a multiple of four, one or two trailing `=` are dropped. */
  function StripPadding(s: string): (r: string)
    ensures |r| <= |s| && r == s[..|r|] && |s| - |r| <= 2
    ensures |r| < |s| ==> |s| % 4 == 0 && forall i :: |r| <= i < |s| ==> s[i] == '='
  {
    if |s| % 4 == 0 && |s| >= 2 && s[|s| - 2] == '=' && s[|s| - 1] == '=' then s[..|s| - 2]
    else if |s| % 4 == 0 && |s| >= 1 && s[|s| - 1] == '=' then s[..|s| - 1]
    else s
  }

  /** `atob(s)`; `None` is the `InvalidCharacterError` it throws. */
  function Decode(s: string): (r: Option<seq<Byte>>)
    ensures var t := StripPadding(StripWs(s)); r.Some? <==> AllAlphabet(t) && |t| % 4 != 1
    ensures r.Some? ==> var t := StripPadding(StripWs(s)); |r.value| == |t| * 3 / 4
  {
    var t := StripPadding(StripWs(s));
    if |t| % 4 == 1 || !AllAlphabet(t) then None
    else Some(DecodeGroups(t))
  }

  /**
   * Six bits per character, eight bits per byte, in order; a final group of
   * two or three characters gives one or two bytes.
   */
  function DecodeGroups(t: string): (r: seq<Byte>)
    requires AllAlphabet(t) && |t| % 4 != 1
    ensures |r| == |t| * 3 / 4
  {
    if |t| < 4 then DecodeLast(t) else DecodeQuad(t[..4]) + DecodeGroups(t[4..])
  }

  function DecodeQuad(q: string): (r: seq<Byte>)
    requires |q| == 4 && AllAlphabet(q)
    ensures |r| == 3
  {
    var a, b, c, d := CharValue(q[0]), CharValue(q[1]), CharValue(q[2]), CharValue(q[3]);
    [a * 4 + b / 16, (b % 16) * 16 + c / 4, (c % 4) * 64 + d]
  }

  /** The last two or three characters: the bits beyond the last whole byte are discarded. */
  function DecodeLast(t: string): (r: seq<Byte>)
    requires |t| < 4 && |t| != 1 && AllAlphabet(t)
    ensures |r| == |t| * 3 / 4
  {
    if |t| == 0 then []
    else
      var a, b := CharValue(t[0]), CharValue(t[1]);
      if |t| == 2 then [a * 4 + b / 16]
      else [a * 4 + b / 16, (b % 16) * 16 + CharValue(t[2]) / 4]
  }

  /** Base64 without padding: four characters per three bytes, two or three for the last one or two. */
  function Encode(bs: seq<Byte>): (s: string)
    ensures AllAlphabet(s) && |s| % 4 != 1
    ensures |s| == (4 * |bs| + 2) / 3
  {
    if |bs| < 3 then EncodeLast(bs) else EncodeTriple(bs[0], bs[1], bs[2]) + Encode(bs[3..])
  }

  function EncodeTriple(x: Byte, y: Byte, z: Byte): (q: string)
    ensures |q| == 4 && AllAlphabet(q)
  {
    [ValueChar(x / 4), ValueChar((x % 4) * 16 + y / 16), ValueChar((y % 16) * 4 + z / 64), ValueChar(z % 64)]
  }

  function EncodeLast(bs: seq<Byte>): (s: string)
    requires |bs| < 3
    ensures |s| < 4 && |s| != 1 && AllAlphabet(s) && |s| == (4 * |bs| + 2) / 3
  {
    if bs == [] then []
    else if |bs| == 1 then [ValueChar(bs[0] / 4), ValueChar((bs[0] % 4) * 16)]
    else [ValueChar(bs[0] / 4), ValueChar((bs[0] % 4) * 16 + bs[1] / 16), ValueChar((bs[1] % 16) * 4)]
  }

  // ---------------------------------------------------------------
  // Round trip
  // ---------------------------------------------------------------

  /** `atob` reads back what the unpadded encoder writes. */
  lemma {:induction false} DecodeEncode(bs: seq<Byte>)
    ensures Decode(Encode(bs)) == Some(bs)
  {
    var s := Encode(bs);
    NoWs(s);
    NoPadding(s);
    DecodeGroupsEncode(bs);
  }

  /** Padding is optional: the `=`-padded form decodes to the same bytes. */
  lemma {:induction false} DecodePadded(bs: seq<Byte>)
    ensures Decode(Padded(Encode(bs))) == Some(bs)
  {
    var s := Encode(bs);
    var p := Padded(s);
    PaddedNoWs(s);
    StripPadded(s);
    DecodeGroupsEncode(bs);
  }

  /** `s` followed by `=` up to a multiple of four characters. */
  function Padded(s: string): (p: string)
    requires |s| % 4 != 1
    ensures |p| % 4 == 0 && |s| <= |p| < |s| + 3 && p[..|s|] == s
    ensures forall i :: |s| <= i < |p| ==> p[i] == '='
  {
    if |s| % 4 == 2 then s + "==" else if |s| % 4 == 3 then s + "=" else s
  }

  lemma {:induction false} PaddedNoWs(s: string)
    requires AllAlphabet(s) && |s| % 4 != 1
    ensures StripWs(Padded(s)) == Padded(s)
  {
    var p := Padded(s);
    forall i | 0 <= i < |p|
      ensures !IsAsciiWs(p[i])
    {
      if i < |s| {
        assert p[i] == s[i];
      }
    }
  }

  lemma {:induction false} StripPadded(s: string)
    requires AllAlphabet(s) && |s| % 4 != 1
    ensures StripPadding(Padded(s)) == s
  {
    if |s| % 4 == 0 {
      NoPadding(s);
    } else if |s| % 4 == 2 {
      StripTwo(s);
    } else {
      StripOne(s);
    }
  }

  lemma {:induction false} StripTwo(s: string)
    requires |s| % 4 == 2
    ensures StripPadding(s + "==") == s
  {
    var p := s + "==";
    assert |p| % 4 == 0 && p[|p| - 2] == '=' && p[|p| - 1] == '=';
    assert p[..|p| - 2] == s;
  }

  lemma {:induction false} StripOne(s: string)
    requires |s| % 4 == 3 && IsAlphabet(s[|s| - 1])
    ensures StripPadding(s + "=") == s
  {
    var p := s + "=";
    assert |p| % 4 == 0 && p[|p| - 2] != '=' && p[|p| - 1] == '=';
    assert p[..|p| - 1] == s;
  }

  lemma {:induction false} NoWs(s: string)
    requires AllAlphabet(s)
    ensures StripWs(s) == s
  {
    assert forall i :: 0 <= i < |s| ==> !IsAsciiWs(s[i]);
  }

  lemma {:induction false} NoPadding(s: string)
    requires AllAlphabet(s)
    ensures StripPadding(s) == s
  {
    if |s| >= 1 {
      assert IsAlphabet(s[|s| - 1]);
    }
  }

  lemma {:induction false} DecodeGroupsEncode(bs: seq<Byte>)
    ensures DecodeGroups(Encode(bs)) == bs
  {
    if |bs| < 3 {
      DecodeLastEncode(bs);
    } else {
      var q := EncodeTriple(bs[0], bs[1], bs[2]);
      assert Encode(bs) == q + Encode(bs[3..]);
      DecodeGroupsCons(q, Encode(bs[3..]));
      DecodeQuadEncode(bs[0], bs[1], bs[2]);
      DecodeGroupsEncode(bs[3..]);
      assert [bs[0], bs[1], bs[2]] + bs[3..] == bs;
    }
  }

  lemma {:induction false} DecodeGroupsCons(q: string, r: string)
    requires |q| == 4 && AllAlphabet(q) && AllAlphabet(r) && |r| % 4 != 1
    ensures AllAlphabet(q + r) && DecodeGroups(q + r) == DecodeQuad(q) + DecodeGroups(r)
  {
    assert (q + r)[..4] == q && (q + r)[4..] == r;
  }

  lemma {:induction false} DecodeLastEncode(bs: seq<Byte>)
    requires |bs| < 3
    ensures DecodeLast(EncodeLast(bs)) == bs
  {
    if |bs| == 2 {
      Sixteens(bs[0] % 4, bs[1] / 16);
    }
  }

  /** The bit arithmetic of one group of three bytes. */
  lemma {:induction false} DecodeQuadEncode(x: Byte, y: Byte, z: Byte)
    ensures DecodeQuad(EncodeTriple(x, y, z)) == [x, y, z]
  {
    Sixteens(x % 4, y / 16);
    Fours(y % 16, z / 64);
  }

  lemma {:induction false} Sixteens(hi: nat, lo: nat)
    requires lo < 16
    ensures (hi * 16 + lo) / 16 == hi && (hi * 16 + lo) % 16 == lo
  {
  }

  lemma {:induction false} Fours(hi: nat, lo: nat)
    requires lo < 4
    ensures (hi * 4 + lo) / 4 == hi && (hi * 4 + lo) % 4 == lo
  {
  }
}
