/** Form data in a query string: `split`, `params_to_query_str` and `parse_query_text`. */
module Query {
  import opened Text
  import opened Multimap
  import Url

  // ---- split -------------------------------------------------------------------------------------

  /** A piece that is not blank, without the blanks around it. */
  function Token(x: string): seq<string> {
    if Trim(x) == "" then [] else [Trim(x)]
  }

  /** What `split` calls its function with. */
  function Tokens(s: string, d: char): seq<string>
    decreases |s|
  {
    var p := Upto(s, d);
    Token(p) + if |p| < |s| then Tokens(s[|p| + 1..], d) else []
  }

  lemma {:induction false} TokensFirst(a: string, d: char, b: string)
    requires d !in a
    ensures Tokens(a + [d] + b, d) == Token(a) + Tokens(b, d)
    ensures Tokens(a, d) == Token(a)
  {
    hide Token, Upto;
    UptoIs(a, d, b);
    assert (a + [d] + b)[|a| + 1..] == b;
  }

  lemma {:induction false} TokensJoin(a: string, d: char, b: string)
    ensures Tokens(a + [d] + b, d) == Tokens(a, d) + Tokens(b, d)
    decreases |a|
  {
    hide Token, Upto, Tokens;
    if d !in a {
      TokensFirst(a, d, b);
    } else {
      var p := Upto(a, d);
      var t := a[|p| + 1..];
      assert a == p + [d] + t by { UptoCuts(a, d); }
      TokensJoin(t, d, b);
      TokensFirst(p, d, t);
      TokensFirst(p, d, t + [d] + b);
      assert a + [d] + b == p + [d] + (t + [d] + b);
    }
  }

  lemma {:induction false} TotalAppend(a: seq<string>, b: seq<string>)
    ensures TotalLength(a + b) == TotalLength(a) + TotalLength(b)
  {
    if a == [] {
      assert a + b == b;
    } else {
      assert (a + b)[1..] == a[1..] + b;
      TotalAppend(a[1..], b);
    }
  }

  lemma {:induction false} TotalMember(v: seq<string>, i: nat)
    requires i < |v|
    ensures |v[i]| <= TotalLength(v)
  {
    if i > 0 { TotalMember(v[1..], i - 1); }
  }

  lemma {:induction false} TokenLength(x: string)
    ensures |Trim(x)| <= |x|
    ensures TotalLength(Token(x)) + |Token(x)| <= |x| + 1
  {
    hide SkipBlanks, DropTrailingBlanks;
    if Token(x) != [] { assert Token(x)[1..] == []; }
  }

  /** Each delimiter and each blank is lost. */
  lemma {:induction false} TokensTotal(s: string, d: char)
    ensures TotalLength(Tokens(s, d)) + |Tokens(s, d)| <= |s| + 1
    decreases |s|
  {
    hide Token, Upto;
    var p := Upto(s, d);
    TokenLength(p);
    if |p| < |s| {
      TokensTotal(s[|p| + 1..], d);
      TotalAppend(Token(p), Tokens(s[|p| + 1..], d));
    } else {
      TotalAppend(Token(p), []);
    }
  }

  /** `split`, with the pieces collected. */
  method Split(s: string, d: char) returns (pieces: seq<string>)
    ensures pieces == Tokens(s, d)
  {
    hide Tokens, Token, Trim;
    pieces := [];
    var i, beg := 0, 0;
    assert s[0..] == s;
    while i < |s|
      invariant 0 <= beg <= i <= |s| && d !in s[beg..i]
      invariant Tokens(s, d) == pieces + Tokens(s[beg..], d)
    {
      if s[i] == d {
        TokensFirst(s[beg..i], d, s[i + 1..]);
        assert s[beg..] == s[beg..i] + [d] + s[i + 1..];
        pieces := pieces + Token(s[beg..i]);
        beg := i + 1;
      } else {
        assert s[beg..i + 1] == s[beg..i] + [s[i]];
      }
      i := i + 1;
    }
    assert s[beg..] == s[beg..i];
    TokensFirst(s[beg..i], d, "");
    if i > 0 { pieces := pieces + Token(s[beg..i]); } else { NoToken(); }
  }

  lemma {:induction false} NoToken()
    ensures Token("") == []
  {
  }

  // ---- Parsing -----------------------------------------------------------------------------------

  /** One piece between ampersands: the first part is the key, the last of the others the value. */
  function ParsePair(t: string): seq<Entry> {
    var parts := Tokens(t, '=');
    if parts == [] then []
    else [Entry(Url.Decode(parts[0], true), Url.Decode(if |parts| > 1 then parts[|parts| - 1] else "", true))]
  }

  function ParsePairs(ts: seq<string>): seq<Entry> {
    if ts == [] then [] else ParsePair(ts[0]) + ParsePairs(ts[1..])
  }

  /** `parse_query_text`, into an empty map: the entries in the order in which they are emplaced. */
  function Parsed(s: string): seq<Entry> {
    ParsePairs(Tokens(s, '&'))
  }

  lemma {:induction false} ParsePairsAppend(a: seq<string>, b: seq<string>)
    ensures ParsePairs(a + b) == ParsePairs(a) + ParsePairs(b)
  {
    hide ParsePair;
    if a == [] {
      assert a + b == b;
    } else {
      assert (a + b)[1..] == a[1..] + b;
      ParsePairsAppend(a[1..], b);
    }
  }

  lemma {:induction false} ParsedJoin(a: string, b: string)
    ensures Parsed(a + "&" + b) == Parsed(a) + Parsed(b)
  {
    hide Tokens, ParsePairs;
    TokensJoin(a, '&', b);
    ParsePairsAppend(Tokens(a, '&'), Tokens(b, '&'));
  }

  lemma {:induction false} ParsedOne(a: string)
    requires '&' !in a
    ensures Parsed(a) == if Trim(a) == "" then [] else ParsePair(Trim(a))
  {
    hide Tokens, Trim, ParsePair;
    TokensFirst(a, '&', "");
    if Trim(a) != "" {
      assert [Trim(a)][1..] == [] && ParsePairs([]) == [];
      assert ParsePair(Trim(a)) + [] == ParsePair(Trim(a));
    }
  }

  // ---- Texts as others write them ----------------------------------------------------------------

  lemma {:induction false} SkipMore(p: string, t: string)
    requires Padding(p)
    ensures SkipBlanks(p + t) == SkipBlanks(t)
  {
    if p == "" {
      assert p + t == t;
    } else {
      assert (p + t)[1..] == p[1..] + t;
      SkipMore(p[1..], t);
    }
  }

  lemma {:induction false} DropMore(t: string, q: string)
    requires Padding(q)
    ensures DropTrailingBlanks(t + q) == DropTrailingBlanks(t)
    decreases |q|
  {
    if q == "" {
      assert t + q == t;
    } else {
      assert (t + q)[..|t + q| - 1] == t + q[..|q| - 1];
      DropMore(t, q[..|q| - 1]);
    }
  }

  lemma {:induction false} TokenPadded(p: string, t: string, q: string)
    requires Padding(p) && Padding(q)
    ensures Token(p + t) == Token(t) && Token(t + q) == Token(t)
  {
    SkipMore(p, t);
    DropMore(t, q);
    TrimDrop(t + q);
    TrimDrop(t);
  }

  /** The ends can be trimmed in either order. */
  lemma {:induction false} TrimDrop(t: string)
    ensures Trim(t) == SkipBlanks(DropTrailingBlanks(t))
  {
    if t != "" && IsBlank(t[0]) {
      TrimDrop(t[1..]);
      DropFront(t);
    } else if t != "" {
      DropSolid(t);
    }
  }

  lemma {:induction false} DropFront(t: string)
    requires t != "" && IsBlank(t[0])
    ensures SkipBlanks(DropTrailingBlanks(t)) == SkipBlanks(DropTrailingBlanks(t[1..]))
  {
    if IsBlank(t[|t| - 1]) && |t| > 1 {
      var u := t[..|t| - 1];
      DropFront(u);
      assert u[1..] == t[1..][..|t| - 2];
    } else if |t| == 1 {
      assert t[..0] == "" && t[1..] == "";
    }
  }

  lemma {:induction false} DropSolid(t: string)
    requires t != "" && !IsBlank(t[0])
    ensures DropTrailingBlanks(t) != "" && DropTrailingBlanks(t)[0] == t[0]
  {
    if IsBlank(t[|t| - 1]) { DropSolid(t[..|t| - 1]); }
  }

  /** Blanks around a text do not change its pieces. */
  lemma {:induction false} TokensPadded(p: string, t: string, q: string, d: char)
    requires Padding(p) && Padding(q) && d != ' ' && d != '\t'
    ensures Tokens(p + t + q, d) == Tokens(t, d)
    decreases |t|
  {
    hide Token, Tokens;
    if d in t {
      var x := Upto(t, d);
      UptoCuts(t, d);
      var y := t[|x| + 1..];
      TokensFirst(x, d, y);
      TokensFirst(p + x, d, y + q);
      assert p + t + q == p + x + [d] + (y + q);
      TokenPadded(p, x, "");
      TokensPadded("", y, q, d);
      assert "" + y + q == y + q;
    } else {
      TokensFirst(t, d, "");
      TokensFirst(p + t + q, d, "");
      TokenPadded(p, t + q, "");
      TokenPadded("", t, q);
      assert p + t + q == p + (t + q);
    }
  }

  /** What a text is without the blanks at its ends. */
  lemma {:induction false} TrimParts(t: string) returns (p: string, q: string)
    ensures Padding(p) && Padding(q) && t == p + Trim(t) + q
  {
    hide Trim, Padding, SkipBlanks, DropTrailingBlanks;
    var u := SkipBlanks(t);
    p := t[..|t| - |u|];
    SkippedPadding(t);
    DroppedPadding(u);
    q := u[|DropTrailingBlanks(u)|..];
    TrimIsDrop(t);
    assert p + (Trim(t) + q) == p + Trim(t) + q;
  }

  lemma {:induction false} TrimIsDrop(t: string)
    ensures Trim(t) == DropTrailingBlanks(SkipBlanks(t))
  {
  }

  lemma {:induction false} SkippedPadding(t: string)
    ensures var u := SkipBlanks(t); Padding(t[..|t| - |u|]) && t == t[..|t| - |u|] + u
  {
    if t != "" && IsBlank(t[0]) {
      SkippedPadding(t[1..]);
      var u := SkipBlanks(t[1..]);
      assert t[..|t| - |u|] == [t[0]] + t[1..][..|t| - 1 - |u|];
    }
  }

  lemma {:induction false} DroppedPadding(t: string)
    ensures var u := DropTrailingBlanks(t); Padding(t[|u|..]) && t == u + t[|u|..]
  {
    if t != "" && IsBlank(t[|t| - 1]) {
      DroppedPadding(t[..|t| - 1]);
      var u := DropTrailingBlanks(t[..|t| - 1]);
      assert t[|u|..] == t[..|t| - 1][|u|..] + [t[|t| - 1]];
    }
  }

  /** Between ampersands. */
  lemma {:induction false} ParsedPair(t: string)
    requires '&' !in t
    ensures Parsed(t) == ParsePair(t)
  {
    hide Tokens, Trim;
    ParsedOne(t);
    var p, q := TrimParts(t);
    TokensPadded(p, Trim(t), q, '=');
    if Trim(t) == "" { TokensFirst("", '=', ""); NoToken(); }
  }

  /** A part of a pair: no ampersand, no equals sign, no blanks at its ends. */
  predicate PartOfPair(x: string) {
    '&' !in x && '=' !in x && (x == "" || (x[0] !in " \t" && x[|x| - 1] !in " \t"))
  }

  lemma {:induction false} PartToken(p: string, x: string, q: string)
    requires Padding(p) && Padding(q) && PartOfPair(x)
    ensures Token(p + x + q) == if x == "" then [] else [x]
    ensures '=' !in p + x + q && '&' !in p + x + q
  {
    TrimIs(p, x, q);
  }

  /** A pair with any blanks around its parts: both decoded, plus signs as blanks; without a key the value takes its
      place, and with neither there is no entry. */
  lemma {:induction false} PairRead(p: string, key: string, q: string, r: string, value: string, t: string)
    requires Padding(p) && Padding(q) && Padding(r) && Padding(t) && PartOfPair(key) && PartOfPair(value)
    ensures Parsed(p + key + q + "=" + (r + value + t))
         == if key == "" && value == "" then []
            else if key == "" then [Entry(Url.Decode(value, true), "")]
            else [Entry(Url.Decode(key, true), Url.Decode(value, true))]
    ensures Parsed(p + key + q) == if key == "" then [] else [Entry(Url.Decode(key, true), "")]
  {
    hide Tokens, Token, Parsed, Url.Decode, PartOfPair;
    var a, b := p + key + q, r + value + t;
    PartToken(p, key, q);
    PartToken(r, value, t);
    TokensFirst(a, '=', b);
    TokensFirst(b, '=', "");
    ParsedPair(a + "=" + b);
    ParsedPair(a);
    Url.DecodeNothing("", true);
  }

  /** Of more than two parts the first is the key and the last the value. */
  lemma {:induction false} LastRead(key: string, between: string, value: string)
    requires PartOfPair(key) && PartOfPair(value) && key != "" && value != "" && '&' !in between
    ensures Parsed(key + "=" + between + "=" + value) == [Entry(Url.Decode(key, true), Url.Decode(value, true))]
  {
    hide Tokens, Token, Parsed, Url.Decode, PartOfPair;
    var text := key + "=" + between + "=" + value;
    PartToken("", key, "");
    PartToken("", value, "");
    assert "" + key + "" == key && "" + value + "" == value;
    assert text == key + "=" + (between + "=" + value);
    TokensFirst(key, '=', between + "=" + value);
    TokensJoin(between, '=', value);
    TokensFirst(value, '=', "");
    ParsedPair(text);
  }

  // ---- Printing ----------------------------------------------------------------------------------

  predicate ByteValues(ps: seq<Entry>) {
    forall i | 0 <= i < |ps| :: Url.Bytes(ps[i].value)
  }

  function Print(e: Entry): string
    requires Url.Bytes(e.value)
  {
    e.key + "=" + Url.Encode(e.value)
  }

  function PrintAll(ps: seq<Entry>): string
    requires ByteValues(ps)
  {
    if ps == [] then ""
    else if |ps| == 1 then Print(ps[0])
    else Print(ps[0]) + "&" + PrintAll(ps[1..])
  }

  /** What becomes of the entries, one by one. */
  function Reread(ps: seq<Entry>): seq<Entry>
    requires ByteValues(ps)
  {
    if ps == [] then [] else Parsed(Print(ps[0])) + Reread(ps[1..])
  }

  lemma {:induction false} ParsedPrintAll(ps: seq<Entry>)
    requires ByteValues(ps)
    ensures Parsed(PrintAll(ps)) == Reread(ps)
  {
    hide Parsed, Print;
    if |ps| > 1 {
      ParsedPrintAll(ps[1..]);
      ParsedJoin(Print(ps[0]), PrintAll(ps[1..]));
    } else if |ps| == 1 {
      assert ps[1..] == [];
    } else {
      NothingParsed();
    }
  }

  lemma {:induction false} NothingParsed()
    ensures Parsed("") == []
  {
    hide Tokens;
    TokensFirst("", '&', "");
    NoToken();
  }

  // ---- One entry ---------------------------------------------------------------------------------

  /** A key that is printed as it is and read back as itself. */
  predicate PlainKey(k: string) {
    k != "" && Trimmed(k) && '&' !in k && '=' !in k && Url.Verbatim(k, true)
  }

  /** Lowered by everything that reading back does to an entry that is not plain. */
  function Rank(e: Entry): nat {
    (if e.key == "" then 1 else Url.Weight(e.key)) + Url.Weight(e.value)
  }

  lemma {:induction false} TrimmedTrim(s: string)
    ensures Trimmed(s) <==> Trim(s) == s
    ensures |Trim(s)| < |s| || Trim(s) == s
  {
  }

  /** Blanks in front of the equals sign count, those behind the value cannot be there. */
  lemma {:induction false} TrimPrinted(k: string, w: string)
    requires w != "" ==> !IsBlank(w[|w| - 1])
    ensures Trim(k + "=" + w) == SkipBlanks(k) + "=" + w
  {
    SkipPrinted(k, "=" + w);
    assert k + "=" + w == k + ("=" + w);
    var t := SkipBlanks(k) + ("=" + w);
    assert !IsBlank(t[|t| - 1]);
    assert t == SkipBlanks(k) + "=" + w;
  }

  lemma {:induction false} SkipPrinted(k: string, t: string)
    requires t != "" && !IsBlank(t[0])
    ensures SkipBlanks(k + t) == SkipBlanks(k) + t
  {
    if k == "" {
      assert k + t == t;
    } else {
      assert (k + t)[1..] == k[1..] + t;
      if IsBlank(k[0]) { SkipPrinted(k[1..], t); }
    }
  }

  /** The parts of a printed pair. */
  lemma {:induction false} PrintedParts(k: string, v: string)
    requires Url.Bytes(v) && '&' !in k
    ensures var parts := Tokens(SkipBlanks(k), '=') + if v == "" then [] else [Url.Encode(v)];
            Tokens(Trim(Print(Entry(k, v))), '=') == parts && Trim(Print(Entry(k, v))) != ""
  {
    hide Tokens, Url.Encode, SkipBlanks, DropTrailingBlanks, Trim;
    var w := Url.Encode(v);
    Url.EncodeClean(v);
    TrimPrinted(k, w);
    TokensJoin(SkipBlanks(k), '=', w);
    TokensFirst(w, '=', "");
    TokenClean(w);
  }

  lemma {:induction false} TokenClean(w: string)
    requires forall x | x in w :: !IsBlank(x)
    ensures Token(w) == if w == "" then [] else [w]
  {
    TrimmedTrim(w);
  }

  lemma {:induction false} NoAmpersand(k: string, v: string)
    requires Url.Bytes(v) && '&' !in k
    ensures '&' !in Print(Entry(k, v))
    ensures Parsed(Print(Entry(k, v))) == ParsePair(Trim(Print(Entry(k, v))))
  {
    hide Tokens, Url.Encode, Trim, ParsePair, Parsed;
    Url.EncodeClean(v);
    PrintedParts(k, v);
    ParsedOne(Print(Entry(k, v)));
  }

  /** A plain entry comes back as itself. */
  lemma {:induction false} PlainParsed(e: Entry)
    requires Url.Bytes(e.value) && PlainKey(e.key)
    ensures Parsed(Print(e)) == [e]
  {
    hide Tokens, Url.Encode, Trim, Parsed, SkipBlanks, Url.Decode, Url.Verbatim;
    var k, v := e.key, e.value;
    NoAmpersand(k, v);
    PrintedParts(k, v);
    PlainParts(k);
    Url.DecodeVerbatim(k, true);
    Url.DecodeEncode(v);
    Url.DecodeNothing("", true);
  }

  lemma {:induction false} PlainParts(k: string)
    requires PlainKey(k)
    ensures Tokens(SkipBlanks(k), '=') == [k]
  {
    hide Tokens, Url.Verbatim;
    TrimmedTrim(k);
    assert SkipBlanks(k) == k;
    TokensFirst(k, '=', "");
  }

  /** Parts taken from `n` characters make an entry of a rank of at most twice that. */
  lemma {:induction false} PairRank(a: string, b: string)
    requires a != ""
    ensures Rank(Entry(Url.Decode(a, true), Url.Decode(b, true))) <= 2 * |a| + 2 * |b|
  {
    hide Url.Decode, Url.Weight;
    Url.DecodeWeight(a);
    Url.DecodeWeight(b);
  }

  lemma {:induction false} PartsNonEmpty(s: string, d: char)
    ensures forall i | 0 <= i < |Tokens(s, d)| :: Tokens(s, d)[i] != ""
    decreases |s|
  {
    hide Upto, Trim;
    var p := Upto(s, d);
    if |p| < |s| { PartsNonEmpty(s[|p| + 1..], d); }
  }

  /** The first and the last part. */
  lemma {:induction false} PartsLength(s: string, d: char)
    ensures var parts := Tokens(s, d);
            (parts != [] ==> parts[0] != "" && |parts[0]| <= |s|)
            && (|parts| > 1 ==> |parts[0]| + |parts[|parts| - 1]| < |s|)
  {
    hide Tokens;
    var parts := Tokens(s, d);
    TokensTotal(s, d);
    PartsNonEmpty(s, d);
    if |parts| > 1 {
      TotalMember(parts[1..], |parts| - 2);
    }
  }

  lemma {:induction false} ParsePairRank(t: string)
    ensures forall e | e in ParsePair(t) :: Rank(e) <= 2 * |t|
  {
    hide Tokens, Url.Decode, Rank;
    var parts := Tokens(t, '=');
    PartsLength(t, '=');
    if parts != [] { PairRank(parts[0], if |parts| > 1 then parts[|parts| - 1] else ""); }
  }

  /** What is read back from one entry without an ampersand. */
  lemma {:induction false} OneRank(k: string, v: string)
    requires Url.Bytes(v) && '&' !in k
    ensures forall e | e in Parsed(Print(Entry(k, v))) :: Rank(e) <= 2 * |k| + Url.Weight(v)
  {
    hide Tokens, Url.Encode, Url.Decode, Url.Weight, Parsed, Trim, Print, SkipBlanks;
    NoAmpersand(k, v);
    PrintedParts(k, v);
    PartsOfKey(k);
    var parts := Tokens(SkipBlanks(k), '=');
    Url.DecodeNothing("", true);
    Url.DecodeEncode(v);
    if v == "" {
      if parts != [] { PairRank(parts[0], if |parts| > 1 then parts[|parts| - 1] else ""); }
    } else if parts == [] {
      BareValue(v);
    } else {
      KeyRank(parts[0], v);
    }
  }

  lemma {:induction false} PartsOfKey(k: string)
    ensures var parts := Tokens(SkipBlanks(k), '=');
            (parts != [] ==> parts[0] != "" && |parts[0]| <= |k|)
            && (|parts| > 1 ==> |parts[0]| + |parts[|parts| - 1]| < |k|)
  {
    hide Tokens;
    PartsLength(SkipBlanks(k), '=');
  }

  lemma {:induction false} BareValue(v: string)
    requires v != ""
    ensures Rank(Entry(v, "")) == Url.Weight(v)
  {
  }

  lemma {:induction false} KeyRank(a: string, v: string)
    requires a != ""
    ensures Rank(Entry(Url.Decode(a, true), v)) <= 2 * |a| + Url.Weight(v)
  {
    hide Url.Decode, Url.Weight;
    Url.DecodeWeight(a);
  }

  /** What is read back from any entry. */
  lemma {:induction false} AnyRank(k: string, v: string)
    requires Url.Bytes(v)
    ensures forall e | e in Parsed(Print(Entry(k, v))) :: Rank(e) <= 2 * |k| + Url.Weight(v)
    ensures '&' in k ==> forall e | e in Parsed(Print(Entry(k, v))) :: Rank(e) < 2 * |k| + Url.Weight(v)
    decreases |k|
  {
    hide Upto, Url.Encode, Parsed, Rank, Url.Weight, Trim;
    if '&' !in k {
      OneRank(k, v);
    } else {
      var a := Upto(k, '&');
      UptoCuts(k, '&');
      var b := k[|a| + 1..];
      assert Print(Entry(k, v)) == a + "&" + Print(Entry(b, v));
      ParsedJoin(a, Print(Entry(b, v)));
      AnyRank(b, v);
      ParsedOne(a);
      ParsePairRank(Trim(a));
      TokenLength(a);
    }
  }

  /** The first part is shorter than the key, or it is the key. */
  lemma {:induction false} FirstPart(k: string)
    ensures var parts := Tokens(SkipBlanks(k), '=');
            parts == [] || |parts[0]| < |k| || (parts == [k] && '=' !in k && Trimmed(k))
  {
    hide Tokens, Upto, Trim;
    var s := SkipBlanks(k);
    SkipShorter(k);
    if '=' in s {
      var p := Upto(s, '=');
      UptoCuts(s, '=');
      var t := s[|p| + 1..];
      TokensFirst(p, '=', t);
      TokenLength(p);
      PartsLength(t, '=');
    } else {
      TokensFirst(s, '=', "");
      TokenLength(s);
      TrimmedTrim(s);
    }
  }

  lemma {:induction false} SkipShorter(k: string)
    ensures |SkipBlanks(k)| < |k| || SkipBlanks(k) == k
  {
  }

  /** Reading back an entry that is not plain makes entries of a lower rank. */
  lemma {:induction false} NotPlainRank(e: Entry)
    requires Url.Bytes(e.value) && !PlainKey(e.key)
    ensures forall x | x in Parsed(Print(e)) :: Rank(x) < Rank(e)
  {
    hide Url.Encode, Parsed, Tokens, Trim, Print, Url.Decode, Url.Verbatim, SkipBlanks, Trimmed;
    var k, v := e.key, e.value;
    AnyRank(k, v);
    if '&' !in k && k != "" {
      NoAmpersand(k, v);
      PrintedParts(k, v);
      PartsOfKey(k);
      FirstPart(k);
      Url.DecodeNothing("", true);
      Url.DecodeEncode(v);
      var parts := Tokens(SkipBlanks(k), '=');
      if parts != [] && (v != "" || |parts| == 1) {
        Url.DecodeWeight(parts[0]);
      } else if parts != [] {
        PairRank(parts[0], parts[|parts| - 1]);
      } else if v != "" {
        BareValue(v);
      }
    }
  }

  // ---- The round trip ----------------------------------------------------------------------------

  predicate AllPlain(ps: seq<Entry>) {
    forall i | 0 <= i < |ps| :: PlainKey(ps[i].key)
  }

  lemma {:induction false} PlainReread(ps: seq<Entry>)
    requires ByteValues(ps) && AllPlain(ps)
    ensures Reread(ps) == ps
  {
    hide Parsed, Print, PlainKey;
    if ps != [] {
      PlainParsed(ps[0]);
      PlainReread(ps[1..]);
      assert ps == [ps[0]] + ps[1..];
    }
  }

  /** Whatever is read back comes from some entry. */
  lemma {:induction false} RereadFrom(ps: seq<Entry>, x: Entry) returns (j: nat)
    requires ByteValues(ps) && x in Reread(ps)
    ensures j < |ps| && x in Parsed(Print(ps[j]))
  {
    hide Parsed, Print;
    if x in Parsed(Print(ps[0])) {
      j := 0;
    } else {
      j := RereadFrom(ps[1..], x);
      j := j + 1;
    }
  }

  lemma {:induction false} HighestNotPlain(ps: seq<Entry>) returns (i: nat)
    requires !AllPlain(ps)
    ensures i < |ps| && !PlainKey(ps[i].key)
    ensures forall j | 0 <= j < |ps| && !PlainKey(ps[j].key) :: Rank(ps[j]) <= Rank(ps[i])
  {
    hide PlainKey, Rank;
    i :| 0 <= i < |ps| && !PlainKey(ps[i].key);
    for n := 0 to |ps|
      invariant i < |ps| && !PlainKey(ps[i].key)
      invariant forall j | 0 <= j < n && !PlainKey(ps[j].key) :: Rank(ps[j]) <= Rank(ps[i])
    {
      if !PlainKey(ps[n].key) && Rank(ps[n]) > Rank(ps[i]) { i := n; }
    }
  }

  /** Some entry that is not plain is not read back. */
  lemma {:induction false} NotPlainLost(ps: seq<Entry>)
    requires ByteValues(ps) && !AllPlain(ps)
    ensures multiset(Reread(ps)) != multiset(ps)
  {
    hide Parsed, Print, PlainKey, Rank;
    var i := HighestNotPlain(ps);
    if ps[i] in Reread(ps) {
      var j := RereadFrom(ps, ps[i]);
      if PlainKey(ps[j].key) { PlainParsed(ps[j]); } else { NotPlainRank(ps[j]); }
      assert false;
    }
    assert ps[i] in multiset(ps) && ps[i] !in multiset(Reread(ps));
  }

  /** Parsing the printed parameters rebuilds them exactly if every key is plain: repeated keys, empty
      values and all bytes in values are kept. */
  lemma {:induction false} QueryRoundTrip(ps: seq<Entry>)
    requires Sorted(ps, false) && ByteValues(ps)
    ensures EmplaceAll([], Parsed(PrintAll(ps)), false) == ps <==> AllPlain(ps)
  {
    hide Parsed, PrintAll, PlainKey, Reread, Before;
    ParsedPrintAll(ps);
    if AllPlain(ps) {
      PlainReread(ps);
      assert [] + ps == ps;
      EmplaceInOrder([], ps, false);
    } else {
      NotPlainLost(ps);
      if EmplaceAll([], Reread(ps), false) == ps { SameEntries(Reread(ps), ps, false); }
    }
  }

  // ---- The functions of the library --------------------------------------------------------------

  /** `params_to_query_str`. */
  method ParamsToQueryStr(params: seq<Entry>) returns (query: string)
    requires ByteValues(params)
    ensures query == PrintAll(params)
  {
    hide PrintAll, Url.Encode;
    query := "";
    NothingPrinted();
    for i := 0 to |params|
      invariant query == PrintAll(params[..i])
    {
      PrintMore(params, i);
      if i != 0 { query := query + "&"; }
      query := query + params[i].key;
      query := query + "=";
      var v := Url.EncodeQueryParam(params[i].value);
      query := query + v;
    }
    assert params[..|params|] == params;
  }

  lemma {:induction false} NothingPrinted()
    ensures PrintAll([]) == ""
  {
  }

  lemma {:induction false} PrintMore(ps: seq<Entry>, n: nat)
    requires ByteValues(ps) && n < |ps|
    ensures PrintAll(ps[..n + 1])
            == PrintAll(ps[..n]) + (if n != 0 then "&" else "") + ps[n].key + "=" + Url.Encode(ps[n].value)
    decreases n
  {
    hide Url.Encode;
    if n > 0 {
      PrintMore(ps[1..], n - 1);
      assert ps[..n + 1][1..] == ps[1..][..n] && ps[..n][1..] == ps[1..][..n - 1];
      if n == 1 { assert ps[..n - 1] == [] && PrintAll(ps[1..][..0]) == ""; }
    }
  }

  /** `parse_query_text`. */
  method ParseQueryText(s: string, params: seq<Entry>) returns (params': seq<Entry>)
    ensures params' == EmplaceAll(params, Parsed(s), false)
  {
    hide Tokens, Emplace, Url.Decode, EmplaceAll, Parsed, ParsePairs;
    params' := params;
    var pieces := Split(s, '&');
    ghost var all := Parsed(s);
    assert all == ParsePairs(pieces) by { ParsedIs(s); }
    EmplaceNone(params, false);
    assert pieces[..0] == [] && ParsePairs([]) == [] by { NoPairs(); }
    for i := 0 to |pieces|
      invariant params' == EmplaceAll(params, ParsePairs(pieces[..i]), false)
    {
      var parts := Split(pieces[i], '=');
      var key, val := "", "";
      for j := 0 to |parts|
        invariant key == (if j == 0 then "" else parts[0]) && val == (if j <= 1 then "" else parts[j - 1])
      {
        PartsNonEmpty(pieces[i], '=');
        if key == "" { key := parts[j]; } else { val := parts[j]; }
      }
      PartsNonEmpty(pieces[i], '=');
      OnePair(pieces, i, params);
      if key != "" {
        var k := Url.DecodeUrl(key, true);
        var v := Url.DecodeUrl(val, true);
        params' := Emplace(params', Entry(k, v), false);
      }
    }
    assert pieces[..|pieces|] == pieces;
  }

  lemma {:induction false} ParsedIs(s: string)
    ensures Parsed(s) == ParsePairs(Tokens(s, '&'))
  {
  }

  lemma {:induction false} NoPairs()
    ensures ParsePairs([]) == []
  {
  }

  /** One more piece. */
  lemma {:induction false} OnePair(pieces: seq<string>, i: nat, m: seq<Entry>)
    requires i < |pieces|
    ensures var was := EmplaceAll(m, ParsePairs(pieces[..i]), false);
            var parts := Tokens(pieces[i], '=');
            EmplaceAll(m, ParsePairs(pieces[..i + 1]), false)
            == if parts == [] then was
               else Emplace(was, Entry(Url.Decode(parts[0], true),
                                       Url.Decode(if |parts| > 1 then parts[|parts| - 1] else "", true)), false)
  {
    hide Tokens, Emplace, EmplaceAll, Url.Decode;
    assert pieces[..i + 1] == pieces[..i] + [pieces[i]];
    ParsePairsAppend(pieces[..i], [pieces[i]]);
    assert [pieces[i]][1..] == [];
    var done := ParsePairs(pieces[..i]);
    var pair := ParsePair(pieces[i]);
    assert ParsePairs([pieces[i]]) == pair;
    if pair == [] {
      assert done + [] == done;
    } else {
      EmplaceAppend(m, done, [pair[0]], false);
      EmplaceOne(EmplaceAll(m, done, false), pair[0], false);
      assert pair == [pair[0]];
    }
  }
}
