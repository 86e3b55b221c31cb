/** Percent coding of the HTTP library. */
module Url {
  import opened Text

  /** Every character stands for one byte. */
  predicate Bytes(s: string) {
    forall i | 0 <= i < |s| :: s[i] as int < 256
  }

  /** `from_hex_to_i`: `cnt` digits from position `i` on, behind a number read already. */
  function HexAt(s: string, i: nat, cnt: nat, val: nat): (r: Option<nat>)
    ensures r.Some? && cnt > 0 ==> i + cnt <= |s|
    decreases cnt
  {
    if cnt == 0 then Some(val)
    else if i >= |s| then None
    else
      match HexDigit(s[i])
      case None => None
      case Some(v) => HexAt(s, i + 1, cnt - 1, val * 16 + v)
  }

  lemma {:induction false} HexAtBound(s: string, i: nat, cnt: nat, val: nat)
    requires HexAt(s, i, cnt, val).Some? && cnt <= 4
    ensures HexAt(s, i, cnt, val).value < (val + 1) * [1, 16, 256, 4096, 65536][cnt]
    decreases cnt
  {
    if cnt > 0 { HexAtBound(s, i + 1, cnt - 1, val * 16 + HexDigit(s[i]).value); }
  }

  /** `to_utf8` of a code of four hex digits. */
  function Utf8(code: nat): (r: string)
    requires code < 0x10000
    ensures |r| <= 3
  {
    if code < 0x80 then [code as char]
    else if code < 0x800 then [(0xC0 + code / 64) as char, (0x80 + code % 64) as char]
    else if 0xD800 <= code < 0xE000 then ""
    else [(0xE0 + code / 4096) as char, (0x80 + (code / 64) % 64) as char, (0x80 + code % 64) as char]
  }

  /** The length of the escape at the beginning of `s`, and what it stands for; `None` when there is none. */
  function Escape(s: string): (r: Option<(nat, string)>)
    ensures r.Some? ==> r.value.0 <= |s| && 2 * |r.value.1| <= r.value.0 && r.value.0 >= 3
  {
    if |s| < 2 || s[0] != '%' then None
    else if s[1] == 'u' then
      var v := HexAt(s, 2, 4, 0);
      if v.None? then None else
      HexAtBound(s, 2, 4, 0);
      Some((6, Utf8(v.value)))
    else
      var v := HexAt(s, 1, 2, 0);
      if v.None? then None else
      HexAtBound(s, 1, 2, 0);
      Some((3, [v.value as char]))
  }

  function Decode(s: string, plus: bool): string
    decreases |s|
  {
    if s == "" then ""
    else
      match Escape(s)
      case Some(e) => e.1 + Decode(s[e.0..], plus)
      case None => [if plus && s[0] == '+' then ' ' else s[0]] + Decode(s[1..], plus)
  }

  lemma {:induction false} HexShift(s: string, i: nat, j: nat, cnt: nat, val: nat)
    requires i <= |s|
    ensures HexAt(s[i..], j, cnt, val) == HexAt(s, i + j, cnt, val)
    decreases cnt
  {
    if cnt > 0 && i + j < |s| {
      match HexDigit(s[i + j])
      case None =>
      case Some(v) => HexShift(s, i, j + 1, cnt - 1, val * 16 + v);
    }
  }

  /** The body of the loop of `decode_url`: what position `i` adds to the result, and how far it moves. */
  method DecodeOne(s: string, i: nat, convertPlusToSpace: bool) returns (piece: string, n: nat)
    requires i < |s|
    ensures 0 < n <= |s| - i
    ensures Decode(s[i..], convertPlusToSpace) == piece + Decode(s[i + n..], convertPlusToSpace)
  {
    hide HexAt, Utf8, Decode;
    DecodeStep(s[i..], convertPlusToSpace);
    assert forall k | 0 <= k <= |s| - i :: s[i..][k..] == s[i + k..];
    piece, n := [s[i]], 1;
    if s[i] == '%' && i + 1 < |s| {
      if s[i + 1] == 'u' {
        HexShift(s, i, 2, 4, 0);
        var val := HexAt(s, i + 2, 4, 0);
        if val.Some? {
          HexAtBound(s, i + 2, 4, 0);
          piece, n := Utf8(val.value), 6;
        }
      } else {
        HexShift(s, i, 1, 2, 0);
        var val := HexAt(s, i + 1, 2, 0);
        if val.Some? {
          HexAtBound(s, i + 1, 2, 0);
          piece, n := [val.value as char], 3;
        }
      }
    } else if convertPlusToSpace && s[i] == '+' {
      piece := " ";
    }
  }

  /** `decode_url`. */
  method DecodeUrl(s: string, convertPlusToSpace: bool) returns (result: string)
    ensures result == Decode(s, convertPlusToSpace)
  {
    hide Decode;
    result := "";
    var i := 0;
    assert s[0..] == s;
    while i < |s|
      invariant 0 <= i <= |s| && Decode(s, convertPlusToSpace) == result + Decode(s[i..], convertPlusToSpace)
    {
      var piece, n := DecodeOne(s, i, convertPlusToSpace);
      result := result + piece;
      i := i + n;
    }
    DecodeNothing(s[i..], convertPlusToSpace);
  }

  lemma {:induction false} DecodeNothing(s: string, plus: bool)
    requires s == ""
    ensures Decode(s, plus) == ""
  {
  }

  lemma {:induction false} DecodeStep(s: string, plus: bool)
    requires s != ""
    ensures Escape(s).Some? ==> Decode(s, plus) == Escape(s).value.1 + Decode(s[Escape(s).value.0..], plus)
    ensures Escape(s).None? ==> Decode(s, plus) == [if plus && s[0] == '+' then ' ' else s[0]] + Decode(s[1..], plus)
  {
    hide Escape;
  }

  /** Nothing in `s` is decoded. */
  predicate Verbatim(s: string, plus: bool) {
    s == "" || (Escape(s).None? && !(plus && s[0] == '+') && Verbatim(s[1..], plus))
  }

  function Pluses(s: string): nat {
    if s == "" then 0 else (if s[0] == '+' then 1 else 0) + Pluses(s[1..])
  }

  /** A measure that no decoding raises, and that every decoding that changes something lowers. */
  function Weight(s: string): nat {
    2 * |s| + Pluses(s)
  }

  lemma {:induction false} PlusesAppend(a: string, b: string)
    ensures Pluses(a + b) == Pluses(a) + Pluses(b) && Pluses(a) <= |a|
  {
    if a == "" {
      assert a + b == b;
    } else {
      assert (a + b)[1..] == a[1..] + b;
      PlusesAppend(a[1..], b);
    }
  }

  lemma {:induction false} DecodeWeight(s: string)
    ensures Weight(Decode(s, true)) <= 2 * |s|
    ensures Weight(Decode(s, true)) < Weight(s) || Verbatim(s, true)
    decreases |s|
  {
    hide Escape;
    if s != "" {
      DecodeStep(s, true);
      if Escape(s).Some? {
        var e := Escape(s).value;
        DecodeWeight(s[e.0..]);
        PlusesAppend(e.1, Decode(s[e.0..], true));
      } else {
        DecodeWeight(s[1..]);
        PlusesAppend([if s[0] == '+' then ' ' else s[0]], Decode(s[1..], true));
      }
    }
  }

  /** Without the plus sign, decoding is shorter or changes nothing. */
  lemma {:induction false} DecodeLength(s: string)
    ensures |Decode(s, false)| < |s| || Verbatim(s, false)
    decreases |s|
  {
    hide Escape;
    if s != "" {
      DecodeStep(s, false);
      if Escape(s).Some? {
        DecodeLength(s[Escape(s).value.0..]);
        DecodeNotLonger(s[Escape(s).value.0..]);
      } else {
        DecodeLength(s[1..]);
      }
    }
  }

  lemma {:induction false} DecodeNotLonger(s: string)
    ensures |Decode(s, false)| <= |s|
    decreases |s|
  {
    hide Escape;
    if s != "" {
      DecodeStep(s, false);
      if Escape(s).Some? { DecodeNotLonger(s[Escape(s).value.0..]); } else { DecodeNotLonger(s[1..]); }
    }
  }

  lemma {:induction false} DecodeVerbatim(s: string, plus: bool)
    requires Verbatim(s, plus)
    ensures Decode(s, plus) == s
  {
    hide Escape;
    if s != "" {
      DecodeStep(s, plus);
      DecodeVerbatim(s[1..], plus);
    }
  }

  // ---- Escapes, as anyone may write them ---------------------------------------------------------

  /** A character that begins no escape stands for itself; only a plus sign may stand for a blank. */
  lemma {:induction false} DecodePlain(c: char, t: string, plus: bool)
    requires c != '%'
    ensures Decode([c] + t, plus) == [if c == '+' && plus then ' ' else c] + Decode(t, plus)
  {
    DecodeStep([c] + t, plus);
    assert ([c] + t)[1..] == t;
  }

  /** Two digits in either case are a byte. */
  lemma {:induction false} DecodeByte(h: char, l: char, a: nat, b: nat, t: string, plus: bool)
    requires StandsFor(h, a) && StandsFor(l, b)
    ensures Decode(['%', h, l] + t, plus) == [(16 * a + b) as char] + Decode(t, plus)
  {
    hide StandsFor, HexDigit;
    var s := ['%', h, l] + t;
    DigitIs(h, a);
    DigitIs(l, b);
    assert HexAt(s, 1, 2, 0) == HexAt(s, 2, 1, a) == HexAt(s, 3, 0, 16 * a + b);
    DecodeStep(s, plus);
    assert s[3..] == t;
  }

  /** A code of four digits behind a `u` is written as UTF-8. */
  lemma {:induction false} DecodeCode(c: string, vs: seq<nat>, t: string, plus: bool)
    requires |c| == |vs| == 4 && forall i | 0 <= i < 4 :: StandsFor(c[i], vs[i])
    ensures var code := 4096 * vs[0] + 256 * vs[1] + 16 * vs[2] + vs[3];
            code < 0x10000 && Decode("%u" + c + t, plus) == Utf8(code) + Decode(t, plus)
  {
    hide HexDigit, Utf8, HexAt;
    var s := "%u" + c + t;
    assert forall i | 0 <= i < 4 :: s[i + 2] == c[i];
    HexAtStep(s, 2, 4, 0, vs[0]);
    HexAtStep(s, 3, 3, vs[0], vs[1]);
    HexAtStep(s, 4, 2, vs[0] * 16 + vs[1], vs[2]);
    HexAtStep(s, 5, 1, (vs[0] * 16 + vs[1]) * 16 + vs[2], vs[3]);
    HexAtEnd(s, 6, ((vs[0] * 16 + vs[1]) * 16 + vs[2]) * 16 + vs[3]);
    hide StandsFor;
    DecodeStep(s, plus);
    assert s[6..] == t;
  }

  lemma {:induction false} HexAtStep(s: string, i: nat, cnt: nat, val: nat, v: nat)
    requires cnt > 0 && i < |s| && StandsFor(s[i], v)
    ensures HexAt(s, i, cnt, val) == HexAt(s, i + 1, cnt - 1, val * 16 + v)
  {
    hide HexDigit;
    DigitIs(s[i], v);
  }

  lemma {:induction false} HexAtEnd(s: string, i: nat, val: nat)
    ensures HexAt(s, i, 0, val) == Some(val)
  {
  }

  /** A percent sign in front of anything else stands for itself. */
  lemma {:induction false} DecodeStray(t: string, plus: bool)
    requires !(|t| >= 2 && IsDigit(t[0]) && IsDigit(t[1]))
    requires !(|t| >= 5 && t[0] == 'u' && forall i | 1 <= i < 5 :: IsDigit(t[i]))
    ensures Decode("%" + t, plus) == "%" + Decode(t, plus)
  {
    hide HexDigit, IsDigit;
    var s := "%" + t;
    DecodeStep(s, plus);
    assert s[1..] == t;
    forall i | 0 <= i < |t| ensures HexDigit(s[i + 1]).Some? <==> IsDigit(t[i]) { DigitIff(t[i]); }
    if t != "" {
      if t[0] == 'u' { HexAtDigits(s, 2, 4, 0); } else { HexAtDigits(s, 1, 2, 0); }
    }
  }

  lemma {:induction false} HexAtDigits(s: string, i: nat, cnt: nat, val: nat)
    ensures HexAt(s, i, cnt, val).Some?
       <==> (cnt == 0 || i + cnt <= |s|) && forall k | i <= k < i + cnt && k < |s| :: HexDigit(s[k]).Some?
    decreases cnt
  {
    hide HexDigit;
    if cnt > 0 && i < |s| && HexDigit(s[i]).Some? {
      HexAtDigits(s, i + 1, cnt - 1, val * 16 + HexDigit(s[i]).value);
    }
  }

  /** A byte inside a character. */
  predicate Continuation(c: char) {
    0x80 <= c as int < 0xC0
  }

  /** Section 3 of RFC 3629: the shortest form of the code, from which it can be read back; surrogates are no
      characters. */
  lemma {:induction false} Utf8Is(code: nat)
    requires code < 0x10000
    ensures var r := Utf8(code);
            if 0xD800 <= code < 0xE000 then r == ""
            else if code < 0x80 then |r| == 1 && r[0] as int == code
            else if code < 0x800 then
              |r| == 2 && 0xC0 <= r[0] as int < 0xE0 && Continuation(r[1])
              && code == 64 * (r[0] as int - 0xC0) + (r[1] as int - 0x80)
            else
              |r| == 3 && 0xE0 <= r[0] as int < 0xF0 && Continuation(r[1]) && Continuation(r[2])
              && code == 4096 * (r[0] as int - 0xE0) + 64 * (r[1] as int - 0x80) + (r[2] as int - 0x80)
  {
  }

  // ---- Encoding ----------------------------------------------------------------------------------

  predicate Unreserved(c: char) {
    '0' <= c <= '9' || 'a' <= c <= 'z' || 'A' <= c <= 'Z' || c in "-_.!~*'()"
  }

  function EncodeChar(c: char): string
    requires c as int < 256
  {
    if Unreserved(c) then [c] else ['%', HEX_CAPITAL[c as int / 16], HEX_CAPITAL[c as int % 16]]
  }

  function Encode(s: string): string
    requires Bytes(s)
  {
    if s == "" then "" else EncodeChar(s[0]) + Encode(s[1..])
  }

  lemma {:induction false} EncodeMore(s: string, n: nat)
    requires Bytes(s) && n < |s|
    ensures Encode(s[..n + 1]) == Encode(s[..n]) + EncodeChar(s[n])
    decreases n
  {
    hide EncodeChar;
    if n == 0 {
      assert s[..1][1..] == "";
    } else {
      EncodeMore(s[1..], n - 1);
      assert s[..n + 1][1..] == s[1..][..n] && s[..n][1..] == s[1..][..n - 1];
    }
  }

  /** `encode_query_param`. */
  method EncodeQueryParam(value: string) returns (escaped: string)
    requires Bytes(value)
    ensures escaped == Encode(value)
  {
    escaped := "";
    for i := 0 to |value|
      invariant escaped == Encode(value[..i])
    {
      EncodeMore(value, i);
      var c := value[i];
      if Unreserved(c) {
        escaped := escaped + [c];
      } else {
        escaped := escaped + "%" + [HEX_CAPITAL[c as int / 16], HEX_CAPITAL[c as int % 16]];
      }
    }
    assert value[..|value|] == value;
  }

  const UNRESERVED: string := CAPITALS + SMALL + DIGITS + "-_.!~*'()"

  /** Letters, digits and nine marks are kept; every other byte becomes a percent sign and two digits, capitals
      among them. */
  lemma {:induction false} EncodeIs(c: char, s: string)
    requires c as int < 256 && Bytes(s)
    ensures var escaped := ['%', HEX_CAPITAL[c as int / 16], HEX_CAPITAL[c as int % 16]];
            Encode([c] + s) == (if c in UNRESERVED then [c] else escaped) + Encode(s)
  {
    hide Unreserved;
    assert ([c] + s)[1..] == s;
    UnreservedIff(c);
  }

  lemma {:induction false} UnreservedIff(c: char)
    ensures Unreserved(c) <==> c in UNRESERVED
  {
    AlphanumericIff(c);
    assert c in "-_.!~*'()" <==> c in UNRESERVED[62..];
  }

  lemma {:induction false} UpperDigit(v: nat)
    requires v < 16
    ensures HexDigit(HEX_CAPITAL[v]) == Some(v) && HEX_CAPITAL[v] != 'u'
  {
  }

  lemma {:induction false} EncodeCharDecodes(c: char, t: string)
    requires c as int < 256
    ensures Decode(EncodeChar(c) + t, true) == [c] + Decode(t, true)
  {
    var s := EncodeChar(c) + t;
    DecodeStep(s, true);
    if Unreserved(c) {
      assert Escape(s).None?;
      assert s[1..] == t;
    } else {
      UpperDigit(c as int / 16);
      UpperDigit(c as int % 16);
      assert HexAt(s, 1, 2, 0) == HexAt(s, 2, 1, c as int / 16) == HexAt(s, 3, 0, c as int);
      assert s[3..] == t;
    }
  }

  /** Decoding undoes encoding, for every byte string. */
  lemma {:induction false} DecodeEncode(s: string)
    requires Bytes(s)
    ensures Decode(Encode(s), true) == s
  {
    hide EncodeChar;
    if s != "" {
      EncodeCharDecodes(s[0], Encode(s[1..]));
      DecodeEncode(s[1..]);
    }
  }

  /** An encoded string has no characters that a query gives a meaning to. */
  lemma {:induction false} EncodeClean(s: string)
    requires Bytes(s)
    ensures forall x | x in Encode(s) :: !IsBlank(x) && x != '&' && x != '='
    ensures Encode(s) == "" <==> s == ""
  {
    hide EncodeChar;
    if s != "" {
      EncodeClean(s[1..]);
      EncodeCharClean(s[0]);
      assert Encode(s) == EncodeChar(s[0]) + Encode(s[1..]);
    }
  }

  lemma {:induction false} EncodeCharClean(c: char)
    requires c as int < 256
    ensures forall x | x in EncodeChar(c) :: !IsBlank(x) && x != '&' && x != '='
    ensures EncodeChar(c) != ""
  {
    UpperDigit(c as int / 16);
    UpperDigit(c as int % 16);
  }
}
