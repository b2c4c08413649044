/**
 * UTF-8 as section 3 of RFC 3629 defines it, strictly: no overlong forms,
 * no encoded surrogates, nothing above U+10FFFF. A `char` here is a
 * Unicode scalar value.
 */
module Utf8 {
  import opened Wrappers
  import opened Bytes

  /** A byte of the form 10xxxxxx. */
  predicate IsContinuation(b: Byte)
  {
    0x80 <= b < 0xC0
  }

  /**
   * How many bytes a sequence starting with `lead` has, from its leading
   * one bits; 0 for a continuation byte or a lead of five or more ones.
   */
  function LeadLength(lead: Byte): (n: nat)
    ensures n <= 4
  {
    if lead < 0x80 then 1
    else if lead < 0xC0 then 0
    else if lead < 0xE0 then 2
    else if lead < 0xF0 then 3
    else if lead < 0xF8 then 4
    else 0
  }

  /**
   * The scalar value one complete sequence encodes, or `None` when a
   * continuation byte is wrong or the value is overlong, a surrogate or
   * beyond U+10FFFF.
   */
  function DecodeCodePoint(bs: seq<Byte>): (r: Option<char>)
    requires 1 <= |bs| <= 4 && LeadLength(bs[0]) == |bs|
    ensures r.Some? ==> EncodeChar(r.value) == bs
  {
    if |bs| == 1 then Some(bs[0] as char)
    else if exists i :: 1 <= i < |bs| && !IsContinuation(bs[i]) then None
    else if |bs| == 2 then
      var v := (bs[0] as int - 0xC0) * 0x40 + (bs[1] as int - 0x80);
      if v < 0x80 then None else EncodeTwo(bs); Some(v as char)
    else if |bs| == 3 then
      var v := (bs[0] as int - 0xE0) * 0x1000 + (bs[1] as int - 0x80) * 0x40 + (bs[2] as int - 0x80);
      if v < 0x800 || 0xD800 <= v < 0xE000 then None else EncodeThree(bs); Some(v as char)
    else
      var v := (bs[0] as int - 0xF0) * 0x40000 + (bs[1] as int - 0x80) * 0x1000 + (bs[2] as int - 0x80) * 0x40 + (bs[3] as int - 0x80);
      if v < 0x10000 || v > 0x10FFFF then None else EncodeFour(bs); Some(v as char)
  }

  /** Division by a power of two undoes `q * m + r` for `0 <= r < m`. */
  lemma {:induction false} DivMod(q: int, r: int, m: int)
    requires m == 0x40 || m == 0x1000 || m == 0x40000
    requires 0 <= r < m
    ensures (q * m + r) / m == q && (q * m + r) % m == r
  {
    if m == 0x40 {
      assert (q * 0x40 + r) / 0x40 == q;
    } else if m == 0x1000 {
      assert (q * 0x1000 + r) / 0x1000 == q;
    } else {
      assert (q * 0x40000 + r) / 0x40000 == q;
    }
  }

  /** A valid two-byte sequence is the encoding of the value it carries. */
  lemma {:induction false} EncodeTwo(bs: seq<Byte>)
    requires |bs| == 2 && 0xC0 <= bs[0] < 0xE0 && IsContinuation(bs[1])
    requires 0x80 <= (bs[0] as int - 0xC0) * 0x40 + (bs[1] as int - 0x80)
    ensures EncodeChar(((bs[0] as int - 0xC0) * 0x40 + (bs[1] as int - 0x80)) as char) == bs
  {
    DivMod(bs[0] as int - 0xC0, bs[1] as int - 0x80, 0x40);
  }

  /** A valid three-byte sequence is the encoding of the value it carries. */
  lemma {:induction false} EncodeThree(bs: seq<Byte>)
    requires |bs| == 3 && 0xE0 <= bs[0] < 0xF0 && IsContinuation(bs[1]) && IsContinuation(bs[2])
    requires var v := (bs[0] as int - 0xE0) * 0x1000 + (bs[1] as int - 0x80) * 0x40 + (bs[2] as int - 0x80);
      0x800 <= v && !(0xD800 <= v < 0xE000)
    ensures EncodeChar(((bs[0] as int - 0xE0) * 0x1000 + (bs[1] as int - 0x80) * 0x40 + (bs[2] as int - 0x80)) as char) == bs
  {
    var a, b, c := bs[0] as int - 0xE0, bs[1] as int - 0x80, bs[2] as int - 0x80;
    var v := a * 0x1000 + b * 0x40 + c;
    DivMod(a, b * 0x40 + c, 0x1000);
    assert v == (a * 0x40 + b) * 0x40 + c;
    DivMod(a * 0x40 + b, c, 0x40);
    DivMod(a, b, 0x40);
  }

  /** A valid four-byte sequence is the encoding of the value it carries. */
  lemma {:induction false} EncodeFour(bs: seq<Byte>)
    requires |bs| == 4 && 0xF0 <= bs[0] < 0xF8
    requires IsContinuation(bs[1]) && IsContinuation(bs[2]) && IsContinuation(bs[3])
    requires var v := (bs[0] as int - 0xF0) * 0x40000 + (bs[1] as int - 0x80) * 0x1000 + (bs[2] as int - 0x80) * 0x40 + (bs[3] as int - 0x80);
      0x10000 <= v <= 0x10FFFF
    ensures EncodeChar(((bs[0] as int - 0xF0) * 0x40000 + (bs[1] as int - 0x80) * 0x1000 + (bs[2] as int - 0x80) * 0x40 + (bs[3] as int - 0x80)) as char) == bs
  {
    var a, b, c, d := bs[0] as int - 0xF0, bs[1] as int - 0x80, bs[2] as int - 0x80, bs[3] as int - 0x80;
    var v := a * 0x40000 + b * 0x1000 + c * 0x40 + d;
    DivMod(a, b * 0x1000 + c * 0x40 + d, 0x40000);
    assert v == (a * 0x40 + b) * 0x1000 + (c * 0x40 + d);
    DivMod(a * 0x40 + b, c * 0x40 + d, 0x1000);
    DivMod(a, b, 0x40);
    assert v == (a * 0x1000 + b * 0x40 + c) * 0x40 + d;
    DivMod(a * 0x1000 + b * 0x40 + c, d, 0x40);
    assert a * 0x1000 + b * 0x40 + c == (a * 0x40 + b) * 0x40 + c;
    DivMod(a * 0x40 + b, c, 0x40);
  }

  /**
   * The characters a byte sequence encodes; `None` when it is not valid
   * UTF-8. What it accepts is exactly an encoding: the characters found
   * encode back to the bytes.
   */
  function Decode(bs: seq<Byte>): (r: Option<string>)
    ensures r.Some? ==> Encode(r.value) == bs
  {
    if bs == [] then Some([])
    else
      var n := LeadLength(bs[0]);
      if n == 0 || n > |bs| then None
      else
        match DecodeCodePoint(bs[..n])
        case None => None
        case Some(c) =>
          match Decode(bs[n..])
          case None => None
          case Some(s) =>
            EncodeSplit(bs, n, c, s);
            Some([c] + s)
  }

  /** The one to four bytes of a scalar value. */
  function EncodeChar(c: char): (bs: seq<Byte>)
    ensures 1 <= |bs| <= 4 && LeadLength(bs[0]) == |bs|
  {
    var v := c as int;
    if v < 0x80 then [v]
    else if v < 0x800 then [0xC0 + v / 0x40, 0x80 + v % 0x40]
    else if v < 0x10000 then [0xE0 + v / 0x1000, 0x80 + (v / 0x40) % 0x40, 0x80 + v % 0x40]
    else [0xF0 + v / 0x40000, 0x80 + (v / 0x1000) % 0x40, 0x80 + (v / 0x40) % 0x40, 0x80 + v % 0x40]
  }

  function Encode(s: string): (bs: seq<Byte>)
    ensures |bs| >= |s|
  {
    if s == [] then [] else EncodeChar(s[0]) + Encode(s[1..])
  }

  /** A character's encoding followed by the rest's encodes the whole. */
  lemma {:induction false} EncodeSplit(bs: seq<Byte>, n: nat, c: char, s: string)
    requires n <= |bs| && EncodeChar(c) == bs[..n] && Encode(s) == bs[n..]
    ensures Encode([c] + s) == bs
  {
    EncodeCons(c, s);
    assert bs[..n] + bs[n..] == bs;
  }

  lemma {:induction false} EncodeCons(c: char, s: string)
    ensures Encode([c] + s) == EncodeChar(c) + Encode(s)
  {
    assert ([c] + s)[0] == c && ([c] + s)[1..] == s;
  }

  // ---------------------------------------------------------------
  // Round trip
  // ---------------------------------------------------------------

  /** Decoding the encoding of a string gives the string back. */
  lemma {:induction false} DecodeEncode(s: string)
    ensures Decode(Encode(s)) == Some(s)
  {
    if s != [] {
      var e := EncodeChar(s[0]);
      var bs := Encode(s);
      assert bs == e + Encode(s[1..]);
      assert bs[..|e|] == e && bs[|e|..] == Encode(s[1..]);
      DecodeEncodeChar(s[0]);
      DecodeEncode(s[1..]);
      assert [s[0]] + s[1..] == s;
    }
  }

  lemma {:induction false} DecodeEncodeChar(c: char)
    ensures DecodeCodePoint(EncodeChar(c)) == Some(c)
  {
    var v := c as int;
    if v < 0x80 {
    } else if v < 0x800 {
      DecodeTwo(v);
    } else if v < 0x10000 {
      DecodeThree(v);
    } else {
      DecodeFour(v);
    }
  }

  lemma {:induction false} DecodeTwo(v: int)
    requires 0x80 <= v < 0x800
    ensures (v / 0x40) * 0x40 + v % 0x40 == v
  {
  }

  lemma {:induction false} DecodeThree(v: int)
    requires 0x800 <= v < 0x10000
    ensures (v / 0x1000) * 0x1000 + ((v / 0x40) % 0x40) * 0x40 + v % 0x40 == v
  {
    var q := v / 0x40;
    assert q * 0x40 + v % 0x40 == v;
    assert (q / 0x40) * 0x40 + q % 0x40 == q;
    assert q / 0x40 == v / 0x1000;
  }

  lemma {:induction false} DecodeFour(v: int)
    requires 0x10000 <= v < 0x110000
    ensures (v / 0x40000) * 0x40000 + ((v / 0x1000) % 0x40) * 0x1000 + ((v / 0x40) % 0x40) * 0x40 + v % 0x40 == v
  {
    var q := v / 0x40;
    var p := q / 0x40;
    assert q * 0x40 + v % 0x40 == v;
    assert p * 0x40 + q % 0x40 == q;
    assert p == v / 0x1000;
    assert (p / 0x40) * 0x40 + p % 0x40 == p;
    assert p / 0x40 == v / 0x40000;
  }
}
