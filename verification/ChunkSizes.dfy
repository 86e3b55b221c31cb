/** Chunk sizes as other writers print them: digits in either case, leading zeros, extensions. */
module ChunkSizes {
  import opened Text
  import opened LineReader
  import opened Chunked

  /** `text` is written with the digits of the values `vs`. */
  predicate Spells(text: string, vs: seq<nat>) {
    |text| == |vs| && forall i | 0 <= i < |vs| :: StandsFor(text[i], vs[i])
  }

  function Power(n: nat): (p: nat)
    ensures p > 0
  {
    if n == 0 then 1 else 16 * Power(n - 1)
  }

  /** The sum of the digits, each with the power of its place. */
  function Worth(vs: seq<nat>): nat {
    if vs == [] then 0 else vs[0] * Power(|vs| - 1) + Worth(vs[1..])
  }

  lemma {:induction false} WorthMore(vs: seq<nat>, v: nat)
    ensures Worth(vs + [v]) == 16 * Worth(vs) + v
  {
    if vs == [] {
      assert [v][1..] == [] && Power(0) == 1 && Worth([v]) == v * 1 + 0;
    } else {
      assert (vs + [v])[1..] == vs[1..] + [v];
      WorthMore(vs[1..], v);
      var a, p := vs[0], Power(|vs| - 1);
      assert Power(|vs|) == 16 * p;
      assert a * (16 * p) == 16 * (a * p);
    }
  }

  lemma {:induction false} NumberIs(text: string, vs: seq<nat>)
    requires Spells(text, vs)
    ensures (forall i | 0 <= i < |text| :: IsHex(text[i])) && HexNumber(text) == Worth(vs)
    decreases |text|
  {
    hide HexDigit, StandsFor, Worth;
    forall i | 0 <= i < |text| ensures IsHex(text[i]) { DigitIs(text[i], vs[i]); }
    if text == "" {
      assert Worth([]) == 0 by { WorthNone(); }
    } else {
      var n := |text| - 1;
      NumberIs(text[..n], vs[..n]);
      DigitIs(text[n], vs[n]);
      WorthMore(vs[..n], vs[n]);
      assert vs == vs[..n] + [vs[n]];
    }
  }

  lemma {:induction false} WorthNone()
    ensures Worth([]) == 0
  {
  }

  // ---- strtoul -----------------------------------------------------------------------------------

  /** `text` with the values `vs` is all of the digits in front of `tail`. */
  predicate Whole(text: string, vs: seq<nat>, tail: string) {
    && Spells(text, vs) && text != ""
    && (tail == "" || !IsDigit(tail[0]))
    && !(text == "0" && |tail| >= 2 && tail[0] in "xX" && IsDigit(tail[1]))
  }

  /** The digits, without or with "0x" in front. */
  lemma {:induction false} DigitsRead(text: string, vs: seq<nat>, tail: string)
    requires Whole(text, vs, tail)
    ensures HexPrefix(text + tail) == text && text != "" && (text + tail)[0] == text[0]
    ensures var u := text + tail;
            !(|u| > 2 && u[0] == '0' && (u[1] == 'x' || u[1] == 'X') && IsHex(u[2]))
  {
    hide HexPrefix, StandsFor, HexDigit;
    NumberIs(text, vs);
    if tail != "" { DigitIff(tail[0]); }
    HexPrefixIs(text, tail);
    var u := text + tail;
    if |u| > 2 && u[0] == '0' && (u[1] == 'x' || u[1] == 'X') {
      if |text| >= 2 { DigitIs(text[1], vs[1]); } else { assert text == "0"; DigitIff(tail[1]); }
    }
  }

  /** Blanks, a sign, "0x" and digits: the number they spell, as an `unsigned long`. */
  lemma {:induction false} StrtoulReads(blank: string, sign: string, prefix: string, text: string, vs: seq<nat>,
                                        tail: string)
    requires White(blank) && sign in ["", "+", "-"] && prefix in ["", "0x", "0X"] && Whole(text, vs, tail)
    ensures Strtoul(blank + (sign + (prefix + (text + tail))))
         == Some(if Worth(vs) > ULONG_MAX then ULONG_MAX
                 else if sign == "-" && Worth(vs) > 0 then ULONG_MAX + 1 - Worth(vs)
                 else Worth(vs))
  {
    hide SkipSpaces, HexPrefix, HexNumber, Worth, HexDigit, StandsFor, Spells;
    var t := text + tail;
    var u := prefix + t;
    DigitsRead(text, vs, tail);
    NumberIs(text, vs);
    FirstDigit(text, vs);
    assert u[0] == '0' || u[0] == text[0];
    assert (sign + u)[0] == (if sign == "" then u[0] else sign[0]);
    SkipWhite(blank, sign + u);
    assert sign != "" ==> (sign + u)[1..] == u;
    assert sign == "" ==> sign + u == u;
    assert prefix != "" ==> u[0] == '0' && u[1] == prefix[1] && u[2] == t[0] && u[2..] == t;
    assert prefix == "" ==> u == t;
  }

  lemma {:induction false} FirstDigit(text: string, vs: seq<nat>)
    requires Spells(text, vs) && text != ""
    ensures IsHex(text[0]) && !IsSpace(text[0]) && text[0] != '+' && text[0] != '-'
    ensures !IsSpace('0') && !IsSpace('+') && !IsSpace('-')
  {
    DigitIs(text[0], vs[0]);
  }

  /** Anything else in front of the first digit is no number. */
  lemma {:induction false} StrtoulRefuses(blank: string, sign: string, tail: string)
    requires White(blank) && sign in ["", "+", "-"]
    requires tail == "" || !(IsDigit(tail[0]) || (sign == "" && (tail[0] in "+-" || White(tail[..1]))))
    ensures Strtoul(blank + (sign + tail)) == None
  {
    hide SkipSpaces, HexNumber;
    if tail != "" {
      DigitIff(tail[0]);
      SpaceWhite(tail[0]);
      assert tail[..1] == [tail[0]];
    }
    var t := sign + tail;
    assert sign != "" ==> t[0] == sign[0] && t[1..] == tail;
    assert sign == "" ==> t == tail;
    SkipWhite(blank, t);
  }

  // ---- Size lines --------------------------------------------------------------------------------

  /** A size line: digits and whatever follows them, for example an extension behind a semicolon. */
  function SizeLine(text: string, extension: string): string {
    text + extension + CRLF
  }

  predicate Extension(text: string, vs: seq<nat>, extension: string) {
    LF !in extension && Whole(text, vs, extension + CRLF)
  }

  lemma {:induction false} CStringPrefix(a: string, b: string)
    requires NUL !in a
    ensures CString(a + b) == a + CString(b)
  {
    if a == "" {
      assert a + b == b;
    } else {
      assert (a + b)[1..] == a[1..] + b;
      CStringPrefix(a[1..], b);
    }
  }

  /** What C string functions see of an extension ends at its first NUL. */
  lemma {:induction false} SizeRead(text: string, vs: seq<nat>, extension: string)
    requires Extension(text, vs, extension)
    ensures Strtoul(CString(SizeLine(text, extension)))
         == Some(if Worth(vs) > ULONG_MAX then ULONG_MAX else Worth(vs))
  {
    hide CString, Strtoul, Worth, StandsFor;
    var tail := extension + CRLF;
    assert SizeLine(text, extension) == text + tail;
    forall i | 0 <= i < |text| ensures text[i] != NUL { DigitIs(text[i], vs[i]); }
    CStringPrefix(text, tail);
    var seen := CString(tail);
    assert seen == tail[..|seen|];
    StrtoulReads("", "", "", text, vs, seen);
    assert "" + ("" + ("" + (text + seen))) == text + seen;
  }

  lemma {:induction false} SizeLineIs(text: string, vs: seq<nat>, extension: string, rest: string)
    requires Extension(text, vs, extension)
    ensures var l := SizeLine(text, extension); Line(l + rest) == l && Rest(l + rest) == rest && l + rest != ""
  {
    hide Line, StandsFor;
    var l := SizeLine(text, extension);
    forall i | 0 <= i < |l| - 1 ensures l[i] != LF {
      if i < |text| {
        DigitIs(text[i], vs[i]);
      } else if i < |text| + |extension| {
        assert l[i] == extension[i - |text|];
      }
    }
    LineIs(l, rest);
  }

  /** A chunk with a size line of digits in either case, leading zeros and extensions included: as many bytes are
      taken as the digits say, and reading goes on behind them. */
  lemma {:induction false} ChunkReads(text: string, vs: seq<nat>, extension: string, data: string, rest: string)
    requires Extension(text, vs, extension) && Worth(vs) == |data| && 0 < |data| < ULONG_MAX
    ensures Decode(SizeLine(text, extension) + (data + (CRLF + rest))) == Prepend(data, Decode(rest))
  {
    hide Line, CString, Strtoul, Worth, Spells, Decode, AfterData;
    var s := data + (CRLF + rest);
    SizeDecides(text, vs, extension, s);
    assert s[..|data|] == data && s[|data|..] == CRLF + rest;
    BlankDecodes(rest);
  }

  /** What a size line decides, whatever follows it. */
  lemma {:induction false} SizeDecides(text: string, vs: seq<nat>, extension: string, s: string)
    requires Extension(text, vs, extension)
    ensures var n := Worth(vs);
            && (n >= ULONG_MAX ==> Decode(SizeLine(text, extension) + s) == Reading(false, "", s))
            && (0 < n < ULONG_MAX && |s| < n ==> Decode(SizeLine(text, extension) + s) == Reading(false, s, ""))
            && (0 < n < ULONG_MAX && n <= |s| ==>
                  Decode(SizeLine(text, extension) + s) == Prepend(s[..n], AfterData(s[n..])))
  {
    hide Line, CString, Strtoul, Worth, Spells, AfterData;
    SizeLineIs(text, vs, extension, s);
    SizeRead(text, vs, extension);
  }

  /** The last chunk: zeros, and then a blank line or a failure. */
  lemma {:induction false} LastReads(text: string, vs: seq<nat>, extension: string, tail: string)
    requires Extension(text, vs, extension) && forall i | 0 <= i < |vs| :: vs[i] == 0
    ensures Decode(SizeLine(text, extension) + tail)
         == if tail == "" then Reading(false, "", "") else Reading(Line(tail) == CRLF, "", Rest(tail))
  {
    hide Line, CString, Strtoul, Worth, Spells;
    SizeLineIs(text, vs, extension, tail);
    SizeRead(text, vs, extension);
    ZeroWorth(vs);
    OnlyBlank(tail);
  }

  lemma {:induction false} ZeroWorth(vs: seq<nat>)
    requires forall i | 0 <= i < |vs| :: vs[i] == 0
    ensures Worth(vs) == 0
  {
    if vs != [] { ZeroWorth(vs[1..]); }
  }

  /** A line without a number is a failure. */
  lemma {:induction false} NoSize(line: string, rest: string)
    requires Ended(line) && !IsDigit(line[0]) && line[0] !in "+-" && !White(line[..1])
    ensures Decode(line + rest) == Reading(false, "", rest)
  {
    hide Line, Strtoul, CString;
    LineIs(line, rest);
    var seen := CString(line);
    if seen != "" { assert seen[0] == line[0] && seen[..1] == line[..1]; }
    StrtoulRefuses("", "", seen);
    assert "" + ("" + seen) == seen;
  }
}
