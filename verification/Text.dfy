/** Byte strings as the C++ runtime sees them, and the few `std::string` operations that the modelled
    code rests on. A `char` stands for one byte of a C++ `char` buffer. */
module Text {

  datatype Option<+T> = None | Some(value: T)

  const CR: char := '\r'
  const LF: char := '\n'
  const CRLF: string := "\r\n"
  const NUL: char := 0 as char

  /** The value of a hexadecimal digit. */
  function HexDigit(c: char): Option<nat> {
    if '0' <= c <= '9' then Some(c as int - '0' as int)
    else if 'A' <= c <= 'F' then Some(c as int - 'A' as int + 10)
    else if 'a' <= c <= 'f' then Some(c as int - 'a' as int + 10)
    else None
  }

  const HEX_SMALL: string := "0123456789abcdef"
  const HEX_CAPITAL: string := "0123456789ABCDEF"

  /** The sixteen digits, in both cases. */
  predicate StandsFor(c: char, v: nat) {
    v < 16 && (c == HEX_SMALL[v] || c == HEX_CAPITAL[v])
  }

  predicate IsDigit(c: char) {
    c in HEX_SMALL || c in HEX_CAPITAL
  }

  lemma {:induction false} DecimalOrder(v: nat)
    requires v < 10
    ensures HEX_SMALL[v] as int == '0' as int + v
  {
  }

  lemma {:induction false} DigitIff(c: char)
    ensures HexDigit(c).Some? <==> IsDigit(c)
  {
    if HexDigit(c).Some? {
      var v := HexDigit(c).value;
      if v < 10 { DecimalOrder(v); }
      assert c == HEX_SMALL[v] || c == HEX_CAPITAL[v];
    }
    if c in HEX_SMALL {
      var i :| 0 <= i < |HEX_SMALL| && HEX_SMALL[i] == c;
    } else if c in HEX_CAPITAL {
      var i :| 0 <= i < |HEX_CAPITAL| && HEX_CAPITAL[i] == c;
    }
  }

  lemma {:induction false} DigitIs(c: char, v: nat)
    requires StandsFor(c, v)
    ensures HexDigit(c) == Some(v) && !IsSpace(c)
    ensures c !in [NUL, LF, '+', '-', 'x', 'X', 'u']
  {
  }

  /** `pat` starts at position `i` of `s`. */
  predicate OccursAt(s: string, pat: string, i: nat) {
    i + |pat| <= |s| && s[i..i + |pat|] == pat
  }

  predicate Contains(s: string, pat: string) {
    Find(s, pat, 0).Some?
  }

  /** `std::string::find(pat, from)`; `None` is `npos`. */
  function Find(s: string, pat: string, from: nat): (r: Option<nat>)
    ensures r.Some? ==> from <= r.value && r.value + |pat| <= |s|
    decreases |s| - from
  {
    if from + |pat| > |s| then None
    else if s[from..from + |pat|] == pat then Some(from)
    else Find(s, pat, from + 1)
  }

  /** `Find` returns the first occurrence at or behind `from`, and `None` only if there is none. */
  lemma {:induction false} FindFirst(s: string, pat: string, from: nat)
    ensures Find(s, pat, from).Some? ==> OccursAt(s, pat, Find(s, pat, from).value)
    ensures forall i: nat | from <= i && OccursAt(s, pat, i) ::
              Find(s, pat, from).Some? && Find(s, pat, from).value <= i
    decreases |s| - from
  {
    if from + |pat| <= |s| && s[from..from + |pat|] != pat {
      FindFirst(s, pat, from + 1);
    }
  }

  /** Being the first occurrence determines the position. */
  lemma {:induction false} FindIs(s: string, pat: string, from: nat, k: nat)
    requires from <= k && OccursAt(s, pat, k)
    requires forall i: nat | from <= i < k :: !OccursAt(s, pat, i)
    ensures Find(s, pat, from) == Some(k)
  {
    FindFirst(s, pat, from);
  }

  lemma {:induction false} FindNone(s: string, pat: string, from: nat)
    requires forall i: nat | from <= i :: !OccursAt(s, pat, i)
    ensures Find(s, pat, from) == None
  {
    FindFirst(s, pat, from);
  }

  /** Text appended behind an occurrence does not move it. */
  lemma {:induction false} OccursAppend(s: string, t: string, pat: string, i: nat)
    requires i + |pat| <= |s|
    ensures OccursAt(s + t, pat, i) == OccursAt(s, pat, i)
  {
    assert (s + t)[i..i + |pat|] == s[i..i + |pat|];
  }

  lemma {:induction false} OccursDrop(s: string, pat: string, k: nat, i: nat)
    requires k <= |s|
    ensures OccursAt(s[k..], pat, i) == OccursAt(s, pat, k + i)
  {
    if k + i + |pat| <= |s| {
      assert s[k..][i..i + |pat|] == s[k + i..k + i + |pat|];
    }
  }

  /** A pattern found in `s` is found at the same place in `s + t`. */
  lemma {:induction false} FindAppend(s: string, t: string, pat: string, from: nat)
    requires Find(s, pat, from).Some?
    ensures Find(s + t, pat, from) == Find(s, pat, from)
  {
    FindFirst(s, pat, from);
    var k := Find(s, pat, from).value;
    OccursAppend(s, t, pat, k);
    forall i: nat | from <= i < k ensures !OccursAt(s + t, pat, i) {
      OccursAppend(s, t, pat, i);
    }
    FindIs(s + t, pat, from, k);
  }

  /** A pattern that ends inside the prefix of length `n` is found in that prefix. */
  lemma {:induction false} FindTake(s: string, pat: string, from: nat, n: nat)
    requires n <= |s|
    requires Find(s, pat, from).Some? && Find(s, pat, from).value + |pat| <= n
    ensures Find(s[..n], pat, from) == Find(s, pat, from)
  {
    FindFirst(s, pat, from);
    var k := Find(s, pat, from).value;
    assert s == s[..n] + s[n..];
    forall i: nat | i <= k ensures OccursAt(s[..n], pat, i) == OccursAt(s, pat, i) {
      OccursAppend(s[..n], s[n..], pat, i);
    }
    FindIs(s[..n], pat, from, k);
  }

  lemma {:induction false} FindDrop(s: string, pat: string, k: nat, from: nat)
    requires k <= |s|
    ensures Find(s, pat, k + from).None? ==> Find(s[k..], pat, from) == None
    ensures Find(s, pat, k + from).Some? ==> Find(s[k..], pat, from) == Some(Find(s, pat, k + from).value - k)
  {
    forall i: nat ensures OccursAt(s[k..], pat, i) == OccursAt(s, pat, k + i) {
      OccursDrop(s, pat, k, i);
    }
    FindFirst(s, pat, k + from);
    match Find(s, pat, k + from)
    case None => FindNone(s[k..], pat, from);
    case Some(j) => assert OccursAt(s[k..], pat, j - k); FindIs(s[k..], pat, from, j - k);
  }

  predicate IsBlank(c: char) {
    c == ' ' || c == '\t'
  }

  function SkipBlanks(s: string): (r: string)
    ensures |r| <= |s|
    ensures |r| > 0 ==> !IsBlank(r[0])
  {
    if |s| > 0 && IsBlank(s[0]) then SkipBlanks(s[1..]) else s
  }

  function DropTrailingBlanks(s: string): (r: string)
    ensures |r| <= |s|
    ensures |r| > 0 ==> !IsBlank(r[|r| - 1])
  {
    if |s| > 0 && IsBlank(s[|s| - 1]) then DropTrailingBlanks(s[..|s| - 1]) else s
  }

  /** `trim_copy`: without the blanks and tabs at both ends. */
  function Trim(s: string): (r: string) {
    DropTrailingBlanks(SkipBlanks(s))
  }

  predicate Trimmed(s: string) {
    |s| > 0 ==> !IsBlank(s[0]) && !IsBlank(s[|s| - 1])
  }

  /** `tolower`. */
  function Lower(c: char): char {
    if 'A' <= c <= 'Z' then c + 32 as char else c
  }

  const CAPITALS: string := "ABCDEFGHIJKLMNOPQRSTUVWXYZ"
  const SMALL: string := "abcdefghijklmnopqrstuvwxyz"

  predicate SameLetter(x: char, y: char) {
    x == y || exists i | 0 <= i < 26 :: (x == CAPITALS[i] && y == SMALL[i]) || (x == SMALL[i] && y == CAPITALS[i])
  }

  /** The same word in any letter case. */
  predicate SameWord(a: string, b: string) {
    |a| == |b| && forall i | 0 <= i < |a| :: SameLetter(a[i], b[i])
  }

  lemma {:induction false} LetterOrder(i: nat)
    requires i < 26
    ensures CAPITALS[i] as int == 'A' as int + i && SMALL[i] as int == 'a' as int + i
  {
  }

  lemma {:induction false} LowerIs(x: char, y: char)
    requires Lower(x) == Lower(y)
    ensures SameLetter(x, y)
  {
    if 'A' <= x <= 'Z' { LetterOrder(x as int - 'A' as int); }
    if 'A' <= y <= 'Z' { LetterOrder(y as int - 'A' as int); }
  }

  lemma {:induction false} LowerSame(x: char, y: char)
    ensures Lower(x) == Lower(y) <==> SameLetter(x, y)
  {
    if Lower(x) == Lower(y) {
      LowerIs(x, y);
    } else if SameLetter(x, y) {
      var i :| 0 <= i < 26 && ((x == CAPITALS[i] && y == SMALL[i]) || (x == SMALL[i] && y == CAPITALS[i]));
      LetterOrder(i);
    }
  }

  /** `isspace`. */
  predicate IsSpace(c: char) {
    c == ' ' || '\t' <= c <= '\r'
  }

  function SkipSpaces(s: string): (r: string)
    ensures |r| <= |s|
  {
    if |s| > 0 && IsSpace(s[0]) then SkipSpaces(s[1..]) else s
  }

  /** Nothing but what C calls white space. */
  predicate White(s: string) {
    forall i | 0 <= i < |s| :: s[i] in [' ', '\t', '\n', 11 as char, 12 as char, '\r']
  }

  lemma {:induction false} SpaceWhite(c: char)
    ensures IsSpace(c) <==> White([c])
  {
    assert White([c]) ==> [c][0] in [' ', '\t', '\n', 11 as char, 12 as char, '\r'];
  }

  lemma {:induction false} SkipWhite(white: string, s: string)
    requires White(white) && (s == "" || !IsSpace(s[0]))
    ensures SkipSpaces(white + s) == s
  {
    if white == "" {
      assert white + s == s;
    } else {
      assert (white + s)[1..] == white[1..] + s;
      SkipWhite(white[1..], s);
    }
  }

  /** What is skipped is white space, and all of it. */
  lemma {:induction false} SkippedWhite(s: string)
    ensures var t := SkipSpaces(s);
            White(s[..|s| - |t|]) && s == s[..|s| - |t|] + t && (t == "" || !IsSpace(t[0]))
    ensures SkipSpaces(s) == "" <==> White(s)
  {
    if s != "" && IsSpace(s[0]) {
      SkippedWhite(s[1..]);
      SpaceWhite(s[0]);
      var t := SkipSpaces(s[1..]);
      assert s[..|s| - |t|] == [s[0]] + s[1..][..|s| - 1 - |t|];
      assert White(s) <==> White(s[1..]) by {
        assert [s[0]][0] == s[0];
        assert s == [s[0]] + s[1..];
      }
    } else if s != "" {
      SpaceWhite(s[0]);
      assert [s[0]][0] == s[0];
    }
  }

  /** Blanks and tabs. */
  predicate Padding(s: string) {
    forall i | 0 <= i < |s| :: s[i] == ' ' || s[i] == '\t'
  }

  lemma {:induction false} SkipPadding(p: string, s: string)
    requires Padding(p) && (s == "" || (s[0] != ' ' && s[0] != '\t'))
    ensures SkipBlanks(p + s) == s
  {
    if p == "" {
      assert p + s == s;
    } else {
      assert (p + s)[1..] == p[1..] + s;
      SkipPadding(p[1..], s);
    }
  }

  lemma {:induction false} DropPadding(s: string, p: string)
    requires Padding(p) && (s == "" || (s[|s| - 1] != ' ' && s[|s| - 1] != '\t'))
    ensures DropTrailingBlanks(s + p) == s
    decreases |p|
  {
    if p == "" {
      assert s + p == s;
    } else {
      assert (s + p)[..|s + p| - 1] == s + p[..|p| - 1];
      DropPadding(s, p[..|p| - 1]);
    }
  }

  /** Trimming takes off what pads a text at both ends, and nothing else. */
  lemma {:induction false} TrimIs(p: string, s: string, q: string)
    requires Padding(p) && Padding(q)
    requires s == "" || (s[0] !in " \t" && s[|s| - 1] !in " \t")
    ensures Trim(p + s + q) == s
  {
    if s == "" {
      DropPadding("", p + q);
      assert "" + (p + q) == p + s + q;
      SkipPadding(p + q, "");
      assert p + q + "" == p + s + q;
    } else {
      assert p + s + q == p + (s + q);
      SkipPadding(p, s + q);
      DropPadding(s, q);
    }
  }

  const DIGITS: string := "0123456789"

  /** Letters and digits, as listed and as ranges. */
  lemma {:induction false} AlphanumericIff(c: char)
    ensures c in CAPITALS <==> 'A' <= c <= 'Z'
    ensures c in SMALL <==> 'a' <= c <= 'z'
    ensures c in DIGITS <==> '0' <= c <= '9'
  {
    assert DIGITS == HEX_SMALL[..10];
    if 'A' <= c <= 'Z' { LetterOrder(c as int - 'A' as int); }
    if 'a' <= c <= 'z' { LetterOrder(c as int - 'a' as int); }
    if '0' <= c <= '9' { DecimalOrder(c as int - '0' as int); }
    if c in CAPITALS {
      var i :| 0 <= i < 26 && CAPITALS[i] == c;
      LetterOrder(i);
    }
    if c in SMALL {
      var i :| 0 <= i < 26 && SMALL[i] == c;
      LetterOrder(i);
    }
    if c in DIGITS {
      var i :| 0 <= i < 10 && DIGITS[i] == c;
      DecimalOrder(i);
    }
  }

  /** A whole number as it is printed. */
  function Decimal(n: nat): (s: string)
    ensures s != ""
  {
    if n < 10 then [DIGITS[n]] else Decimal(n / 10) + [DIGITS[n % 10]]
  }

  /** What is in front of the first `d`, or everything. */
  function Upto(s: string, d: char): (r: string)
    ensures r <= s && d !in r
    ensures |r| < |s| ==> s[|r|] == d
  {
    if s == "" || s[0] == d then "" else [s[0]] + Upto(s[1..], d)
  }

  lemma {:induction false} UptoIs(a: string, d: char, b: string)
    requires d !in a
    ensures Upto(a + [d] + b, d) == a && Upto(a, d) == a
  {
    if a != "" {
      assert (a + [d] + b)[1..] == a[1..] + [d] + b;
      UptoIs(a[1..], d, b);
    }
  }

  lemma {:induction false} UptoCuts(a: string, d: char)
    requires d in a
    ensures var p := Upto(a, d); |p| < |a| && a == p + [d] + a[|p| + 1..]
  {
    hide Upto;
    var p := Upto(a, d);
    assert |p| < |a| || a == p;
  }

  function TotalLength(v: seq<string>): nat {
    if v == [] then 0 else |v[0]| + TotalLength(v[1..])
  }
}
