/**
 * Base 64 encoding with the standard alphabet and `=` padding, as defined in
 * section 4 of RFC 4648 (`java.util.Base64.getEncoder()`), with a decoder
 * that inverts it.
 */
module Base64 {
  import opened Wrappers
  import opened Utf8

  /** The 64-symbol alphabet of RFC 4648, table 1. */
  function Sym(i: int): (c: char)
    requires 0 <= i < 64
  {
    if i < 26 then ('A' as int + i) as char
    else if i < 52 then ('a' as int + (i - 26)) as char
    else if i < 62 then ('0' as int + (i - 52)) as char
    else if i == 62 then '+'
    else '/'
  }

  predicate IsSym(c: char) {
    'A' <= c <= 'Z' || 'a' <= c <= 'z' || '0' <= c <= '9' || c == '+' || c == '/'
  }

  /** The value of an alphabet symbol; `None` for anything else, `=` included. */
  function Index(c: char): (r: Option<int>)
    ensures r.Some? <==> IsSym(c)
    ensures r.Some? ==> 0 <= r.value < 64 && Sym(r.value) == c
  {
    if 'A' <= c <= 'Z' then Some(c as int - 'A' as int)
    else if 'a' <= c <= 'z' then Some(c as int - 'a' as int + 26)
    else if '0' <= c <= '9' then Some(c as int - '0' as int + 52)
    else if c == '+' then Some(62)
    else if c == '/' then Some(63)
    else None
  }

  lemma IndexSym(i: int)
    requires 0 <= i < 64
    ensures Index(Sym(i)) == Some(i)
  {
  }

  /**
   * Every 3 input bytes become 4 symbols; a final group of 1 or 2 bytes
   * becomes 2 or 3 symbols followed by `==` or `=`.
   */
  function Encode(bs: seq<byte>): (s: string)
    ensures |s| == 4 * ((|bs| + 2) / 3)
  {
    if |bs| == 0 then ""
    else if |bs| == 1 then
      [Sym(bs[0] / 4), Sym(bs[0] % 4 * 16), '=', '=']
    else if |bs| == 2 then
      [Sym(bs[0] / 4), Sym(bs[0] % 4 * 16 + bs[1] / 16), Sym(bs[1] % 16 * 4), '=']
    else
      assert (|bs| + 2) / 3 == (|bs| - 1) / 3 + 1;
      [Sym(bs[0] / 4), Sym(bs[0] % 4 * 16 + bs[1] / 16), Sym(bs[1] % 16 * 4 + bs[2] / 64), Sym(bs[2] % 64)]
      + Encode(bs[3..])
  }

  lemma SymIsSym(i: int)
    requires 0 <= i < 64
    ensures IsSym(Sym(i))
  {
  }

  /** The encoding uses only the 64 symbols and `=` padding. */
  lemma {:induction false} EncodeAlphabet(bs: seq<byte>)
    ensures forall k :: 0 <= k < |Encode(bs)| ==> IsSym(Encode(bs)[k]) || Encode(bs)[k] == '='
  {
    if |bs| > 0 {
      var c0, c1 := bs[0] / 4, bs[0] % 4 * 16 + (if |bs| > 1 then bs[1] / 16 else 0);
      SymIsSym(c0);
      SymIsSym(c1);
      if |bs| == 2 {
        SymIsSym(bs[1] % 16 * 4);
      } else if |bs| >= 3 {
        SymIsSym(bs[1] % 16 * 4 + bs[2] / 64);
        SymIsSym(bs[2] % 64);
        EncodeAlphabet(bs[3..]);
      }
    }
  }

  /** One full group at the front of the input. */
  lemma EncodeFullGroup(b0: byte, b1: byte, b2: byte, rest: seq<byte>)
    ensures Encode([b0, b1, b2] + rest)
            == [Sym(b0 / 4), Sym(b0 % 4 * 16 + b1 / 16), Sym(b1 % 16 * 4 + b2 / 64), Sym(b2 % 64)] + Encode(rest)
  {
    assert ([b0, b1, b2] + rest)[3..] == rest;
  }

  /** Reads 4-symbol groups; only the last group may end in padding. */
  function Decode(s: string): Option<seq<byte>>
    decreases |s|
  {
    if |s| == 0 then Some([])
    else if |s| < 4 then None
    else
      var i0, i1, i2, i3 := Index(s[0]), Index(s[1]), Index(s[2]), Index(s[3]);
      if i0.None? || i1.None? then None
      else
        var c0, c1 := i0.value, i1.value;
        if |s| == 4 && s[2] == '=' && s[3] == '=' then
          Some([c0 * 4 + c1 / 16])
        else if i2.None? then None
        else
          var c2 := i2.value;
          if |s| == 4 && s[3] == '=' then
            Some([c0 * 4 + c1 / 16, c1 % 16 * 16 + c2 / 4])
          else if i3.None? then None
          else
            var c3 := i3.value;
            var group := [c0 * 4 + c1 / 16, c1 % 16 * 16 + c2 / 4, c2 % 4 * 64 + c3];
            match Decode(s[4..])
            case None => None
            case Some(rest) => Some(group + rest)
  }

  /** The three symbol values of a group, read back as bytes. */
  lemma Regroup(b0: byte, b1: byte, b2: byte)
    ensures var c1 := b0 % 4 * 16 + b1 / 16;
            var c2 := b1 % 16 * 4 + b2 / 64;
            && b0 / 4 * 4 + c1 / 16 == b0
            && c1 % 16 * 16 + c2 / 4 == b1
            && c2 % 4 * 64 + b2 % 64 == b2
  {
    var c1 := b0 % 4 * 16 + b1 / 16;
    var c2 := b1 % 16 * 4 + b2 / 64;
    assert c1 / 16 == b0 % 4 && c1 % 16 == b1 / 16;
    assert c2 / 4 == b1 % 16 && c2 % 4 == b2 / 64;
  }

  lemma DecodeOne(b0: byte)
    ensures Decode(Encode([b0])) == Some([b0])
  {
    var c0, c1 := b0 / 4, b0 % 4 * 16;
    Regroup(b0, 0, 0);
    IndexSym(c0);
    IndexSym(c1);
    var s := Encode([b0]);
    assert s == [Sym(c0), Sym(c1), '=', '='];
    assert c0 * 4 + c1 / 16 == b0;
  }

  lemma DecodeTwo(b0: byte, b1: byte)
    ensures Decode(Encode([b0, b1])) == Some([b0, b1])
  {
    var c0, c1, c2 := b0 / 4, b0 % 4 * 16 + b1 / 16, b1 % 16 * 4;
    Regroup(b0, b1, 0);
    IndexSym(c0);
    IndexSym(c1);
    IndexSym(c2);
    var s := Encode([b0, b1]);
    assert s == [Sym(c0), Sym(c1), Sym(c2), '='];
  }

  lemma DecodeGroup(b0: byte, b1: byte, b2: byte, rest: string)
    ensures var c0, c1, c2, c3 := b0 / 4, b0 % 4 * 16 + b1 / 16, b1 % 16 * 4 + b2 / 64, b2 % 64;
            var s := [Sym(c0), Sym(c1), Sym(c2), Sym(c3)] + rest;
            Decode(s) == match Decode(rest) case None => None case Some(r) => Some([b0, b1, b2] + r)
  {
    var c0, c1, c2, c3 := b0 / 4, b0 % 4 * 16 + b1 / 16, b1 % 16 * 4 + b2 / 64, b2 % 64;
    Regroup(b0, b1, b2);
    IndexSym(c0);
    IndexSym(c1);
    IndexSym(c2);
    IndexSym(c3);
    var s := [Sym(c0), Sym(c1), Sym(c2), Sym(c3)] + rest;
    assert Index(s[0]) == Some(c0) && Index(s[1]) == Some(c1) && Index(s[2]) == Some(c2) && Index(s[3]) == Some(c3);
    assert s[4..] == rest;
  }

  /** One full group in front of an encoding that decodes. */
  lemma DecodeGroupStep(b0: byte, b1: byte, b2: byte, rest: seq<byte>)
    requires Decode(Encode(rest)) == Some(rest)
    ensures Decode(Encode([b0, b1, b2] + rest)) == Some([b0, b1, b2] + rest)
  {
    EncodeFullGroup(b0, b1, b2, rest);
    DecodeGroup(b0, b1, b2, Encode(rest));
  }

  /** Decoding an encoding gives back the original bytes. */
  lemma {:induction false} DecodeEncode(bs: seq<byte>)
    ensures Decode(Encode(bs)) == Some(bs)
  {
    if |bs| == 1 {
      DecodeOne(bs[0]);
      assert bs == [bs[0]];
    } else if |bs| == 2 {
      DecodeTwo(bs[0], bs[1]);
      assert bs == [bs[0], bs[1]];
    } else if |bs| >= 3 {
      var rest := bs[3..];
      DecodeEncode(rest);
      DecodeGroupStep(bs[0], bs[1], bs[2], rest);
      assert bs == [bs[0], bs[1], bs[2]] + rest;
    }
  }
}
