/**
 * The last step of the token decoder: every byte `atob` produced is written
 * as `%` and two lower-case hex digits, and `decodeURIComponent` reads the
 * result back as UTF-8 (the abstract operation Decode of section 19.2.6.5
 * of ECMAScript 2024, with an empty reserved set).
 */
module Uri {
  import opened Wrappers
  import opened Bytes
  import Decimal
  import Utf8

  /** `"%" + ("00" + b.toString(16)).slice(-2)` for each byte, joined. */
  function PercentEscape(bs: seq<Byte>): (s: string)
    ensures |s| == 3 * |bs|
  {
    if bs == [] then [] else EscapeByte(bs[0]) + PercentEscape(bs[1..])
  }

  /** One byte as `%` and exactly two lower-case hex digits. */
  function EscapeByte(b: Byte): (e: string)
    ensures |e| == 3 && e[0] == '%'
    ensures Decimal.IsLowerHexDigit(e[1]) && Decimal.IsLowerHexDigit(e[2])
    ensures Decimal.IsHexDigit(e[1]) && Decimal.IsHexDigit(e[2]) && Decimal.HexPairValue(e[1], e[2]) == b
  {
    ['%'] + Decimal.HexPair(b)
  }

  /** The byte of an escape `%XX` at the start of `s`, hex digits of either case. */
  function EscapedByte(s: string): (r: Option<Byte>)
  {
    if |s| >= 3 && s[0] == '%' && Decimal.IsHexDigit(s[1]) && Decimal.IsHexDigit(s[2]) then
      Some(Decimal.HexPairValue(s[1], s[2]))
    else None
  }

  /** The bytes of `n` consecutive escapes at the start of `s`. */
  function EscapedBytes(s: string, n: nat): (r: Option<seq<Byte>>)
    ensures r.Some? ==> |r.value| == n && 3 * n <= |s|
  {
    if n == 0 then Some([])
    else
      match EscapedByte(s)
      case None => None
      case Some(b) =>
        match EscapedBytes(s[3..], n - 1)
        case None => None
        case Some(bs) => Some([b] + bs)
  }

  /**
   * `decodeURIComponent(s)`; `None` is the `URIError` it throws. A character
   * other than `%` is kept; an escape below 0x80 is that character; a lead
   * byte takes as many escapes as its leading one bits say, and the bytes
   * must be one well-formed UTF-8 sequence.
   */
  function DecodeUriComponent(s: string): (r: Option<string>)
    ensures '%' !in s ==> r == Some(s)
    ensures r.Some? ==> |r.value| <= |s|
  {
    if s == [] then Some([])
    else if s[0] != '%' then
      match DecodeUriComponent(s[1..])
      case None => None
      case Some(t) =>
        assert '%' !in s ==> '%' !in s[1..] && [s[0]] + s[1..] == s;
        Some([s[0]] + t)
    else
      match EscapedByte(s)
      case None => None
      case Some(b) =>
        var n := LeadCount(b);
        if n == 0 then None
        else
          match EscapedBytes(s, n)
          case None => None
          case Some(bs) =>
            match Utf8.DecodeCodePoint(bs)
            case None => None
            case Some(c) =>
              match DecodeUriComponent(s[3 * n..])
              case None => None
              case Some(t) => Some([c] + t)
  }

  /**
   * The length of the sequence a first byte starts, as `decodeURIComponent`
   * finds it: 1 when the top bit is clear, else the number of leading one
   * bits, with one bit or more than four an error (0).
   */
  function LeadCount(b: Byte): (n: nat)
    ensures n <= 4
  {
    var ones := LeadingOnes(b, 0x80);
    if ones == 0 then 1 else if ones == 1 || ones > 4 then 0 else ones
  }

  /** The number of consecutive one bits of `b`, from the bit `mask` down. */
  function LeadingOnes(b: nat, mask: nat): (k: nat)
    decreases mask
  {
    if mask == 0 || b < mask then 0 else 1 + LeadingOnes(b - mask, mask / 2)
  }

  /** Counting bits agrees with the ranges UTF-8 gives for each lead byte. */
  lemma {:induction false} LeadCountIsLeadLength(b: Byte)
    ensures LeadCount(b) == Utf8.LeadLength(b)
  {
    var b1, b2, b3, b4 := b - 0x80, b - 0xC0, b - 0xE0, b - 0xF0;
    if b < 0x80 {
      assert LeadingOnes(b, 0x80) == 0;
    } else if b < 0xC0 {
      assert LeadingOnes(b1, 0x40) == 0;
    } else if b < 0xE0 {
      assert LeadingOnes(b2, 0x20) == 0;
      assert LeadingOnes(b1, 0x40) == 1;
    } else if b < 0xF0 {
      assert LeadingOnes(b3, 0x10) == 0;
      assert LeadingOnes(b2, 0x20) == 1;
      assert LeadingOnes(b1, 0x40) == 2;
    } else if b < 0xF8 {
      assert LeadingOnes(b4, 0x08) == 0;
      assert LeadingOnes(b3, 0x10) == 1;
      assert LeadingOnes(b2, 0x20) == 2;
      assert LeadingOnes(b1, 0x40) == 3;
    } else {
      assert LeadingOnes(b4, 0x08) >= 1;
      assert LeadingOnes(b3, 0x10) >= 2;
      assert LeadingOnes(b2, 0x20) >= 3;
      assert LeadingOnes(b1, 0x40) >= 4;
    }
  }

  // ---------------------------------------------------------------
  // Escaping then URI-decoding is UTF-8 decoding
  // ---------------------------------------------------------------

  lemma {:induction false} DecodePercentEscape(bs: seq<Byte>)
    ensures DecodeUriComponent(PercentEscape(bs)) == Utf8.Decode(bs)
  {
    if bs != [] {
      var s := PercentEscape(bs);
      var n := Utf8.LeadLength(bs[0]);
      EscapedByteAt(bs);
      LeadCountIsLeadLength(bs[0]);
      if n != 0 {
        EscapedPrefix(bs, n);
        if n <= |bs| {
          EscapeSuffix(bs, n);
          DecodePercentEscape(bs[n..]);
        }
      }
    }
  }

  /** The escape of byte `i` sits at offset `3 * i`. */
  lemma {:induction false} PercentEscapeAt(bs: seq<Byte>, i: nat)
    requires i < |bs|
    ensures PercentEscape(bs)[3 * i..3 * i + 3] == EscapeByte(bs[i])
  {
    EscapeSuffix(bs, i);
    var t := bs[i..];
    assert t[0] == bs[i];
    assert PercentEscape(t)[..3] == EscapeByte(t[0]);
  }

  lemma {:induction false} EscapedByteAt(bs: seq<Byte>)
    requires bs != []
    ensures PercentEscape(bs)[0] == '%' && EscapedByte(PercentEscape(bs)) == Some(bs[0])
  {
    var e := EscapeByte(bs[0]);
    var s := PercentEscape(bs);
    assert s[..3] == e;
  }

  /** Reading `n` escapes gives the first `n` bytes, or fails when there are fewer. */
  lemma {:induction false} EscapedPrefix(bs: seq<Byte>, n: nat)
    ensures EscapedBytes(PercentEscape(bs), n) == if n <= |bs| then Some(bs[..n]) else None
  {
    if n > 0 && bs != [] {
      var s := PercentEscape(bs);
      EscapedByteAt(bs);
      EscapeSuffix(bs, 1);
      assert s[3..] == PercentEscape(bs[1..]);
      EscapedPrefix(bs[1..], n - 1);
      if n <= |bs| {
        assert [bs[0]] + bs[1..][..n - 1] == bs[..n];
      }
    }
  }

  lemma {:induction false} EscapeSuffix(bs: seq<Byte>, n: nat)
    requires n <= |bs|
    ensures PercentEscape(bs)[3 * n..] == PercentEscape(bs[n..])
  {
    if n > 0 {
      var s := PercentEscape(bs);
      var e := EscapeByte(bs[0]);
      var r := PercentEscape(bs[1..]);
      assert s == e + r;
      assert s[3..] == r;
      EscapeSuffix(bs[1..], n - 1);
      assert bs[1..][n - 1..] == bs[n..];
      assert s[3 * n..] == r[3 * (n - 1)..];
    }
  }
}
