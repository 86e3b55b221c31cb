/** The base64 encoder: a loop over a 32-bit accumulator that wraps, against the grouping of RFC 4648
    section 4 and its decoder. */
module Base64 {
  import opened Text

  type Byte = b: int | 0 <= b < 256

  type Sextet = x: int | 0 <= x < 64

  const LOOKUP: string := CAPITALS + SMALL + DIGITS + "+/"

  function Symbol(x: Sextet): char {
    LOOKUP[x]
  }

  /** Value of a symbol of the alphabet. */
  function Value(c: char): Option<Sextet> {
    if 'A' <= c <= 'Z' then Some(c as int - 'A' as int)
    else if 'a' <= c <= 'z' then Some(c as int - 'a' as int + 26)
    else if '0' <= c <= '9' then Some(c as int - '0' as int + 52)
    else if c == '+' then Some(62)
    else if c == '/' then Some(63)
    else None
  }

  lemma {:induction false} SymbolValue(x: Sextet)
    ensures Value(Symbol(x)) == Some(x) && Symbol(x) != '='
  {
    if x < 26 {
      LetterOrder(x);
      assert LOOKUP[x] == CAPITALS[x];
    } else if x < 52 {
      LetterOrder(x - 26);
      assert LOOKUP[x] == SMALL[x - 26];
    } else if x < 62 {
      assert LOOKUP[x] == DIGITS[x - 52];
    } else {
      assert LOOKUP[x] == "+/"[x - 62];
    }
  }

  // ---- RFC 4648, section 4 -----------------------------------------------------------------------

  function First(a: Byte): Sextet { a / 4 }

  function Second(a: Byte, b: Byte): Sextet { a % 4 * 16 + b / 16 }

  function Third(b: Byte, c: Byte): Sextet { b % 16 * 4 + c / 64 }

  function Fourth(c: Byte): Sextet { c % 64 }

  /** Groups of three bytes as four symbols; a shorter last group is padded. */
  function Encode(s: seq<Byte>): string {
    if s == [] then ""
    else if |s| == 1 then [Symbol(First(s[0])), Symbol(Second(s[0], 0)), '=', '=']
    else if |s| == 2 then [Symbol(First(s[0])), Symbol(Second(s[0], s[1])), Symbol(Third(s[1], 0)), '=']
    else
      [Symbol(First(s[0])), Symbol(Second(s[0], s[1])), Symbol(Third(s[1], s[2])), Symbol(Fourth(s[2]))]
      + Encode(s[3..])
  }

  function FirstByte(x: Sextet, y: Sextet): Byte { x * 4 + y / 16 }

  function SecondByte(y: Sextet, z: Sextet): Byte { y % 16 * 16 + z / 4 }

  function ThirdByte(z: Sextet, u: Sextet): Byte { z % 4 * 64 + u }

  /** Four symbols back to up to three bytes; padding only at the end and with zero bits under it. */
  function Decode(t: string): Option<seq<Byte>> {
    if t == "" then Some([])
    else if |t| < 4 then None
    else if |t| == 4 && t[3] == '=' then DecodeLast(t)
    else match (Value(t[0]), Value(t[1]), Value(t[2]), Value(t[3]), Decode(t[4..]))
      case (Some(x), Some(y), Some(z), Some(u), Some(rest)) =>
        Some([FirstByte(x, y), SecondByte(y, z), ThirdByte(z, u)] + rest)
      case _ => None
  }

  function DecodeLast(t: string): Option<seq<Byte>>
    requires |t| == 4
  {
    match (Value(t[0]), Value(t[1]), Value(t[2]))
    case (Some(x), Some(y), Some(z)) => if z % 4 == 0 then Some([FirstByte(x, y), SecondByte(y, z)]) else None
    case (Some(x), Some(y), None) => if t[2] == '=' && y % 16 == 0 then Some([FirstByte(x, y)]) else None
    case _ => None
  }

  /** Decoding inverts encoding, for every byte string. */
  lemma {:induction false} RoundTrip(s: seq<Byte>)
    ensures Decode(Encode(s)) == Some(s)
    decreases |s|
  {
    hide Symbol, Value, FirstByte, SecondByte, ThirdByte, First, Second, Third, Fourth;
    if 0 < |s| < 3 {
      LastGroup(s);
    } else if |s| >= 3 {
      var a, b, c := s[0], s[1], s[2];
      SymbolValue(First(a));
      SymbolValue(Second(a, b));
      SymbolValue(Third(b, c));
      SymbolValue(Fourth(c));
      BytesBack(a, b, c);
      RoundTrip(s[3..]);
      assert Encode(s)[4..] == Encode(s[3..]);
      assert s == [a, b, c] + s[3..];
    }
  }

  lemma {:induction false} LastGroup(s: seq<Byte>)
    requires 0 < |s| < 3
    ensures Decode(Encode(s)) == Some(s)
  {
    hide Symbol, Value, FirstByte, SecondByte, First, Second, Third;
    var a, b := s[0], if |s| == 2 then s[1] else 0;
    BytesBack(a, b, 0);
    SymbolValue(First(a));
    SymbolValue(Second(a, b));
    if |s| == 2 {
      SymbolValue(Third(b, 0));
      assert s == [a, b];
    } else {
      assert s == [a];
      assert Value('=') == None by { PadIsNoSymbol(); }
    }
  }

  lemma {:induction false} PadIsNoSymbol()
    ensures Value('=') == None
  {
  }

  lemma {:induction false} BytesBack(a: Byte, b: Byte, c: Byte)
    ensures FirstByte(First(a), Second(a, b)) == a
    ensures SecondByte(Second(a, b), Third(b, c)) == b
    ensures ThirdByte(Third(b, c), Fourth(c)) == c
    ensures Second(a, 0) % 16 == 0 && Third(b, 0) % 4 == 0
  {
  }

  lemma {:induction false} EncodeLength(s: seq<Byte>)
    ensures |Encode(s)| == 4 * ((|s| + 2) / 3)
    decreases |s|
  {
    hide Symbol, First, Second, Third, Fourth;
    if |s| >= 3 { EncodeLength(s[3..]); }
  }

  /** Whole groups are encoded on their own. */
  lemma {:induction false} EncodeAppend(s: seq<Byte>, t: seq<Byte>)
    requires |s| % 3 == 0
    ensures Encode(s + t) == Encode(s) + Encode(t)
    decreases |s|
  {
    hide Symbol;
    if s == [] {
      assert s + t == t;
    } else {
      assert (s + t)[3..] == s[3..] + t;
      EncodeAppend(s[3..], t);
    }
  }

  // ---- The loop ----------------------------------------------------------------------------------

  /** The value an `int` of 32 bits holds after an operation: two's complement, wrapping. */
  function Wrap(x: int): int {
    (x + 0x8000_0000) % 0x1_0000_0000 - 0x8000_0000
  }

  function Pow2(n: nat): (p: nat)
    ensures p > 0
  {
    if n == 0 then 1 else 2 * Pow2(n - 1)
  }

  /** `(val >> k) & 0x3F`, with an arithmetic shift. */
  function Window(val: int, k: nat): Sextet {
    val / Pow2(k) % 64
  }

  lemma {:induction false} Powers()
    ensures Pow2(0) == 1 && Pow2(2) == 4 && Pow2(4) == 16 && Pow2(6) == 64
  {
    assert Pow2(1) == 2 && Pow2(3) == 8 && Pow2(5) == 32;
  }

  /** `valb` in front of byte `i`: 6 less than the number of bits not yet written. */
  function Valb(i: nat): int {
    -6 + i % 3 * 2
  }

  /** The bits not yet written in front of byte `i` are the lowest ones of `val`. */
  predicate BitsKept(s: seq<Byte>, i: nat, val: int)
    requires i <= |s|
  {
    (i % 3 == 1 ==> val % 4 == s[i - 1] % 4) && (i % 3 == 2 ==> val % 16 == s[i - 1] % 16)
  }

  /** The text written in front of byte `i`. */
  function Written(s: seq<Byte>, i: nat): string
    requires i <= |s|
  {
    var k := i - i % 3;
    Encode(s[..k]) + (if i % 3 == 0 then "" else [Symbol(First(s[k]))])
                   + (if i % 3 == 2 then [Symbol(Second(s[k], s[k + 1]))] else "")
  }

  lemma {:induction false} Mod256(x: int, q: int, r: int)
    requires x == 256 * q + r && 0 <= r < 256
    ensures x % 256 == r
  {
  }

  lemma {:induction false} Mod1024(x: int, q: int, r: int)
    requires x == 1024 * q + r && 0 <= r < 1024
    ensures x % 1024 == r
  {
  }

  lemma {:induction false} Mod4096(x: int, q: int, r: int)
    requires x == 4096 * q + r && 0 <= r < 4096
    ensures x % 4096 == r
  {
  }

  lemma {:induction false} WrapTakes(x: int)
    ensures Wrap(x) == x - 0x1_0000_0000 * ((x + 0x8000_0000) / 0x1_0000_0000)
  {
  }

  /** Wrapping never touches the bits that are still to be written. */
  lemma {:induction false} NextBits(val: int, c: Byte)
    ensures var v := Wrap(val * 256) + c;
            v % 256 == c && v % 1024 == val % 4 * 256 + c && v % 4096 == val % 16 * 256 + c
  {
    hide Wrap;
    WrapTakes(val * 256);
    var v := Wrap(val * 256) + c;
    var j := (val * 256 + 0x8000_0000) / 0x1_0000_0000;
    assert v == 256 * val + c - 0x1_0000_0000 * j;
    Mod256(v, val - 0x100_0000 * j, c);
    Mod1024(v, val / 4 - 0x40_0000 * j, val % 4 * 256 + c);
    Mod4096(v, val / 16 - 0x10_0000 * j, val % 16 * 256 + c);
  }

  lemma {:induction false} Windows(v: int)
    ensures Window(v, 0) == v % 64 && Window(v, 2) == v % 256 / 4
    ensures Window(v, 4) == v % 1024 / 16 && Window(v, 6) == v % 4096 / 64
  {
    Powers();
    Window2(v);
    Window4(v);
    Window6(v);
  }

  lemma {:induction false} Window2(v: int)
    ensures v / 4 % 64 == v % 256 / 4
  {
    var q, r := v / 256, v % 256;
    assert v == 256 * q + r;
    assert v / 4 == 64 * q + r / 4;
  }

  lemma {:induction false} Window4(v: int)
    ensures v / 16 % 64 == v % 1024 / 16
  {
    var q, r := v / 1024, v % 1024;
    assert v == 1024 * q + r;
    assert v / 16 == 64 * q + r / 16;
  }

  lemma {:induction false} Window6(v: int)
    ensures v / 64 % 64 == v % 4096 / 64
  {
    var q, r := v / 4096, v % 4096;
    assert v == 4096 * q + r;
    assert v / 64 == 64 * q + r / 64;
  }

  /** The symbols written for byte `c` behind byte `p`, whose low bits are pending in `val`. */
  lemma {:induction false} WindowIs(val: int, p: Byte, c: Byte)
    ensures var v := Wrap(val * 256) + c;
            && Window(v, 2) == First(c) && Window(v, 0) == Fourth(c)
            && (val % 4 == p % 4 ==> Window(v, 4) == Second(p, c))
            && (val % 16 == p % 16 ==> Window(v, 6) == Third(p, c))
            && v % 4 == c % 4 && v % 16 == c % 16
  {
    hide Wrap, Window;
    var v := Wrap(val * 256) + c;
    NextBits(val, c);
    Windows(v);
    assert v % 4 == v % 256 % 4 && v % 16 == v % 256 % 16 && v % 64 == v % 256 % 64 by { LowBits(v); }
  }

  lemma {:induction false} Mod4(x: int, q: int, r: int)
    requires x == 4 * q + r && 0 <= r < 4
    ensures x % 4 == r
  {
  }

  lemma {:induction false} Mod16(x: int, q: int, r: int)
    requires x == 16 * q + r && 0 <= r < 16
    ensures x % 16 == r
  {
  }

  lemma {:induction false} Mod64(x: int, q: int, r: int)
    requires x == 64 * q + r && 0 <= r < 64
    ensures x % 64 == r
  {
  }

  lemma {:induction false} LowBits(v: int)
    ensures v % 4 == v % 256 % 4 && v % 16 == v % 256 % 16 && v % 64 == v % 256 % 64
  {
    var q, r := v / 256, v % 256;
    Mod4(v, 64 * q + r / 4, r % 4);
    Mod16(v, 16 * q + r / 16, r % 16);
    Mod64(v, 4 * q + r / 64, r % 64);
  }

  /** One more byte: what the inner loop writes is what the encoding of the longer prefix adds. */
  lemma {:induction false} PushByte(s: seq<Byte>, i: nat, val: int)
    requires i < |s| && BitsKept(s, i, val)
    ensures var v := Wrap(val * 256) + s[i];
            var one := Written(s, i) + [Symbol(Window(v, (Valb(i) + 8) as nat))];
            && Written(s, i + 1) == (if i % 3 == 2 then one + [Symbol(Window(v, 0))] else one)
            && BitsKept(s, i + 1, v)
  {
    hide Symbol, Encode, Wrap, Window, First, Second, Third, Fourth;
    WindowIs(val, if i > 0 then s[i - 1] else 0, s[i]);
    if i % 3 == 2 { EncodeGroup(s, i - 2); }
  }

  lemma {:induction false} EncodeGroup(s: seq<Byte>, k: nat)
    requires k % 3 == 0 && k + 3 <= |s|
    ensures Encode(s[..k + 3]) == Encode(s[..k])
         + [Symbol(First(s[k])), Symbol(Second(s[k], s[k + 1])),
            Symbol(Third(s[k + 1], s[k + 2])), Symbol(Fourth(s[k + 2]))]
  {
    hide Symbol;
    var g := s[k..k + 3];
    assert s[..k + 3] == s[..k] + g;
    EncodeAppend(s[..k], g);
    assert g[3..] == [];
  }

  lemma {:induction false} EncodeShort(t: seq<Byte>)
    requires 0 < |t| < 3
    ensures |t| == 1 ==> Encode(t) == [Symbol(First(t[0]))] + [Symbol(Second(t[0], 0))] + "=="
    ensures |t| == 2 ==> Encode(t) == [Symbol(First(t[0])), Symbol(Second(t[0], t[1]))] + [Symbol(Third(t[1], 0))] + "="
  {
    hide Symbol, First, Second, Third;
  }

  /** The bits left at the end, filled up with zeros, give the last symbol. */
  lemma {:induction false} LastBits(s: seq<Byte>, val: int)
    requires BitsKept(s, |s|, val) && |s| % 3 != 0
    ensures Encode(s) == Written(s, |s|) + [Symbol(Window(Wrap(val * 256), (Valb(|s|) + 8) as nat))]
                         + (if |s| % 3 == 1 then "==" else "=")
  {
    hide Symbol, Wrap, Window, First, Second, Third, Fourth, Encode;
    var k := |s| - |s| % 3;
    WindowIs(val, s[|s| - 1], 0);
    assert Wrap(val * 256) + 0 == Wrap(val * 256);
    assert s == s[..k] + s[k..];
    EncodeAppend(s[..k], s[k..]);
    EncodeShort(s[k..]);
  }

  /** Between whole groups everything is written. */
  lemma {:induction false} AllWritten(s: seq<Byte>, i: nat)
    requires i <= |s| && i % 3 == 0
    ensures Written(s, i) == Encode(s[..i])
  {
    hide Encode;
  }

  /** The inner loop, with `n` more bits than a symbol has. */
  method WriteSymbols(text: string, val: int, n: nat) returns (out: string, valb: int)
    requires n == 2 || n == 4 || n == 6
    ensures valb == if n == 6 then -6 else n - 6
    ensures var one := text + [Symbol(Window(val, n))]; out == if n == 6 then one + [Symbol(Window(val, 0))] else one
  {
    hide Symbol, Window;
    out, valb := text, n;
    while valb >= 0
      invariant || (valb == n && out == text)
                || (valb == n - 6 && out == text + [Symbol(Window(val, n))])
                || (valb == -6 && n == 6 && out == text + [Symbol(Window(val, 6))] + [Symbol(Window(val, 0))])
      decreases valb + 6
    {
      out := out + [Symbol(Window(val, valb))];
      valb := valb - 6;
    }
  }

  method Base64Encode(input: seq<Byte>) returns (out: string)
    ensures out == Encode(input)
  {
    hide Symbol, Wrap, Window, Encode, BitsKept, Written;
    out := "";
    var val, valb := 0, -6;
    NothingWritten(input);
    for i := 0 to |input|
      invariant out == Written(input, i) && valb == Valb(i) && BitsKept(input, i, val)
    {
      PushByte(input, i, val);
      val := Wrap(val * 256) + input[i];
      valb := valb + 8;
      out, valb := WriteSymbols(out, val, valb);
    }
    if valb > -6 {
      LastBits(input, val);
      out := out + [Symbol(Window(Wrap(val * 256), valb + 8))];
    } else {
      AllWritten(input, |input|);
      assert input[..|input|] == input;
    }
    EncodeLength(input);
    while |out| % 4 != 0
      invariant |out| <= |Encode(input)| && |Encode(input)| - |out| < 4
      invariant Encode(input)[..|out|] == out && Encode(input)[|out|..] == Pads(|Encode(input)| - |out|)
      decreases |Encode(input)| - |out|
    {
      out := out + "=";
    }
  }

  function Pads(n: nat): string {
    seq(n, _ => '=')
  }

  lemma {:induction false} NothingWritten(s: seq<Byte>)
    ensures Written(s, 0) == "" && BitsKept(s, 0, 0)
  {
    assert s[..0] == [];
  }
}
