/**
 * `java.net.URLEncoder.encode(s, UTF_8)`: `application/x-www-form-urlencoded`
 * encoding as defined in section 17.13.4.1 of HTML 4.01. ASCII letters and
 * digits and `.`, `-`, `*`, `_` are kept, a space becomes `+`, every other
 * character becomes `%XX` (upper-case hexadecimal) for each byte of its UTF-8
 * encoding. `Decode` is the inverse of `Encode`, used to read queries back.
 */
module FormEncoding {
  import opened Wrappers
  import opened Utf8
  import Text

  predicate IsUnreserved(c: char) {
    'a' <= c <= 'z' || 'A' <= c <= 'Z' || '0' <= c <= '9' || c == '.' || c == '-' || c == '*' || c == '_'
  }

  function HexDigit(d: int): (c: char)
    requires 0 <= d < 16
    ensures IsUnreserved(c)
  {
    if d < 10 then ('0' as int + d) as char else ('A' as int + d - 10) as char
  }

  /** The value of a hexadecimal digit of either case. */
  function HexValue(c: char): (r: Option<int>)
    ensures r.Some? ==> 0 <= r.value < 16
  {
    if '0' <= c <= '9' then Some(c as int - '0' as int)
    else if 'A' <= c <= 'F' then Some(c as int - 'A' as int + 10)
    else if 'a' <= c <= 'f' then Some(c as int - 'a' as int + 10)
    else None
  }

  function PercentEncode(bs: seq<byte>): (s: string)
    ensures |s| == 3 * |bs|
  {
    if bs == [] then "" else ['%', HexDigit(bs[0] / 16), HexDigit(bs[0] % 16)] + PercentEncode(bs[1..])
  }

  function EncodeChar(c: char): string
  {
    if IsUnreserved(c) then [c]
    else if c == ' ' then "+"
    else PercentEncode(Utf8.EncodeChar(c))
  }

  /** `URLEncoder.encode(s, StandardCharsets.UTF_8)`. */
  function Encode(s: string): string
  {
    if s == [] then "" else EncodeChar(s[0]) + Encode(s[1..])
  }

  /** The characters an encoding can contain. */
  predicate IsEncodedChar(c: char) {
    IsUnreserved(c) || c == '+' || c == '%'
  }

  /** An encoded string contains only unreserved characters, `+` and `%`. */
  lemma {:induction false} EncodeAlphabet(s: string)
    ensures forall k :: 0 <= k < |Encode(s)| ==> IsEncodedChar(Encode(s)[k])
  {
    if s != [] {
      var e := EncodeChar(s[0]);
      if !IsUnreserved(s[0]) && s[0] != ' ' {
        PercentAlphabet(Utf8.EncodeChar(s[0]));
      }
      EncodeAlphabet(s[1..]);
      var t := Encode(s[1..]);
      assert Encode(s) == e + t;
      forall k | 0 <= k < |e + t| ensures IsEncodedChar((e + t)[k]) {
        if k >= |e| {
          assert (e + t)[k] == t[k - |e|];
        }
      }
    }
  }

  lemma {:induction false} PercentAlphabet(bs: seq<byte>)
    ensures forall k :: 0 <= k < |PercentEncode(bs)| ==> IsEncodedChar(PercentEncode(bs)[k])
  {
    if bs != [] {
      PercentAlphabet(bs[1..]);
      var h := ['%', HexDigit(bs[0] / 16), HexDigit(bs[0] % 16)];
      var t := PercentEncode(bs[1..]);
      forall k | 0 <= k < |h + t| ensures IsEncodedChar((h + t)[k]) {
        if k >= 3 {
          assert (h + t)[k] == t[k - 3];
        }
      }
    }
  }

  /** The separators of a query string never occur in an encoded key or value. */
  lemma EncodeHasNoSeparators(s: string)
    ensures '&' !in Encode(s) && '=' !in Encode(s) && ' ' !in Encode(s)
    ensures '?' !in Encode(s) && '#' !in Encode(s)
  {
    var e := Encode(s);
    EncodeAlphabet(s);
    forall k | 0 <= k < |e| ensures e[k] !in "&= ?#" {
      assert IsEncodedChar(e[k]);
    }
  }

  /** Reads the bytes an encoded string stands for: `+` is a space, `%XX` one byte. */
  function DecodeBytes(s: string): Option<seq<byte>>
    decreases |s|
  {
    if s == [] then Some([])
    else if s[0] == '%' then
      if |s| < 3 then None
      else
        var hi, lo := HexValue(s[1]), HexValue(s[2]);
        if hi.None? || lo.None? then None
        else Prepend([hi.value * 16 + lo.value], DecodeBytes(s[3..]))
    else if s[0] == '+' then Prepend([0x20], DecodeBytes(s[1..]))
    else Prepend(Utf8.EncodeChar(s[0]), DecodeBytes(s[1..]))
  }

  function Prepend(p: seq<byte>, r: Option<seq<byte>>): Option<seq<byte>>
  {
    match r
    case None => None
    case Some(bs) => Some(p + bs)
  }

  /** The inverse of `Encode`: `+` is a space, `%XX` a byte, and the bytes are read as UTF-8; `None` on malformed input. */
  function Decode(s: string): Option<string>
  {
    match DecodeBytes(s)
    case None => None
    case Some(bs) => Utf8.Decode(bs)
  }

  lemma HexValueDigit(d: int)
    requires 0 <= d < 16
    ensures HexValue(HexDigit(d)) == Some(d)
  {
  }

  lemma {:induction false} DecodePercent(bs: seq<byte>, rest: string)
    ensures DecodeBytes(PercentEncode(bs) + rest) == Prepend(bs, DecodeBytes(rest))
  {
    if bs == [] {
      assert PercentEncode(bs) + rest == rest;
      match DecodeBytes(rest) {
        case None =>
        case Some(r) => assert bs + r == r;
      }
    } else {
      var b, tail := bs[0], PercentEncode(bs[1..]) + rest;
      var h := ['%', HexDigit(b / 16), HexDigit(b % 16)];
      Text.AppendAssoc(h, PercentEncode(bs[1..]), rest);
      var s := h + tail;
      assert PercentEncode(bs) + rest == s;
      HexValueDigit(b / 16);
      HexValueDigit(b % 16);
      assert s[0] == '%' && s[1] == HexDigit(b / 16) && s[2] == HexDigit(b % 16) && s[3..] == tail;
      assert DecodeBytes(s) == Prepend([b], DecodeBytes(tail));
      DecodePercent(bs[1..], rest);
      match DecodeBytes(rest) {
        case None =>
        case Some(r) =>
          Text.AppendAssoc([b], bs[1..], r);
          assert [b] + bs[1..] == bs;
      }
    }
  }

  lemma DecodeEncodedChar(c: char, rest: string)
    ensures DecodeBytes(EncodeChar(c) + rest) == Prepend(Utf8.EncodeChar(c), DecodeBytes(rest))
  {
    if IsUnreserved(c) {
      assert (EncodeChar(c) + rest)[1..] == rest;
    } else if c == ' ' {
      assert (EncodeChar(c) + rest)[1..] == rest;
    } else {
      DecodePercent(Utf8.EncodeChar(c), rest);
    }
  }

  lemma {:induction false} DecodeBytesEncode(s: string)
    ensures DecodeBytes(Encode(s)) == Some(Utf8.Encode(s))
  {
    if s != [] {
      DecodeEncodedChar(s[0], Encode(s[1..]));
      DecodeBytesEncode(s[1..]);
    }
  }

  /** Decoding an encoded string gives back the original string. */
  lemma DecodeEncode(s: string)
    ensures Decode(Encode(s)) == Some(s)
  {
    DecodeBytesEncode(s);
    Utf8.DecodeEncode(s);
  }

  /** Different strings are encoded differently. */
  lemma EncodeInjective(s: string, t: string)
    requires Encode(s) == Encode(t)
    ensures s == t
  {
    DecodeEncode(s);
    DecodeEncode(t);
  }
}
