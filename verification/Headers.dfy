/** Header blocks: `write_headers`, and `read_headers` over the line reader. */
module Headers {
  import opened Text
  import opened Streams
  import opened LineReader
  import opened Multimap
  import Url

  // ---- Writing -----------------------------------------------------------------------------------

  /** `"%s: %s\r\n"`: what is behind a NUL is not printed. */
  function HeaderLine(e: Entry): string {
    CString(e.key) + ": " + CString(e.value) + CRLF
  }

  function HeaderLines(hs: seq<Entry>): string {
    if hs == [] then "" else HeaderLine(hs[0]) + HeaderLines(hs[1..])
  }

  const SKIPPED: string := "EXCEPTION_WHAT"

  /** The headers of a message that are written. */
  function Shown(hs: seq<Entry>): seq<Entry> {
    if hs == [] then [] else (if hs[0].key == SKIPPED then [] else [hs[0]]) + Shown(hs[1..])
  }

  lemma {:induction false} LinesAppend(a: seq<Entry>, b: seq<Entry>)
    ensures HeaderLines(a + b) == HeaderLines(a) + HeaderLines(b)
  {
    hide HeaderLine;
    if a == [] {
      assert a + b == b;
    } else {
      assert (a + b)[1..] == a[1..] + b;
      LinesAppend(a[1..], b);
    }
  }

  lemma {:induction false} ShownMore(hs: seq<Entry>, n: nat)
    requires n < |hs|
    ensures Shown(hs[..n + 1]) == Shown(hs[..n]) + if hs[n].key == SKIPPED then [] else [hs[n]]
    decreases n
  {
    if n == 0 {
      assert hs[..1][1..] == [];
    } else {
      ShownMore(hs[1..], n - 1);
      assert hs[..n + 1][1..] == hs[1..][..n] && hs[..n][1..] == hs[1..][..n - 1];
    }
  }

  /** `write_headers`, into a buffer. */
  method WriteHeaders(strm: string, info: seq<Entry>, headers: seq<Entry>) returns (strm': string)
    ensures strm' == strm + HeaderLines(Shown(info) + headers) + CRLF
  {
    hide HeaderLine, HeaderLines, Shown;
    strm' := strm;
    assert info[..0] == [] && Shown([]) == [] && HeaderLines([]) == "" by { NoLines(); }
    for i := 0 to |info|
      invariant strm' == strm + HeaderLines(Shown(info[..i]))
    {
      var x := info[i];
      ShownMore(info, i);
      if x.key == SKIPPED {
        assert Shown(info[..i]) + [] == Shown(info[..i]);
        continue;
      }
      LinesAppend(Shown(info[..i]), [x]);
      OneLine(x);
      strm' := strm' + HeaderLine(x);
    }
    assert info[..|info|] == info;
    ghost var shown := Shown(info);
    assert shown + headers[..0] == shown;
    for i := 0 to |headers|
      invariant strm' == strm + HeaderLines(shown + headers[..i])
    {
      var x := headers[i];
      assert shown + headers[..i + 1] == (shown + headers[..i]) + [x];
      LinesAppend(shown + headers[..i], [x]);
      OneLine(x);
      strm' := strm' + HeaderLine(x);
    }
    assert headers[..|headers|] == headers;
    strm' := strm' + CRLF;
  }

  lemma {:induction false} NoLines()
    ensures Shown([]) == [] && HeaderLines([]) == ""
  {
  }

  lemma {:induction false} OneLine(x: Entry)
    ensures HeaderLines([x]) == HeaderLine(x)
  {
    hide HeaderLine;
    assert [x][1..] == [];
  }

  // ---- Reading -----------------------------------------------------------------------------------

  /** `parse_header`: a line without its CRLF. */
  function ParseHeader(line: string): seq<Entry> {
    var text := DropTrailingBlanks(line);
    var key := Upto(text, ':');
    if |key| == |text| then []
    else
      var val := SkipBlanks(text[|key| + 1..]);
      if val == "" then [] else [Entry(key, Url.Decode(val, false))]
  }

  predicate EndsCrlf(line: string) {
    |line| >= 2 && line[|line| - 2..] == CRLF
  }

  function EntryOf(line: string): seq<Entry> {
    if EndsCrlf(line) then ParseHeader(line[..|line| - 2]) else []
  }

  /** What a header reader makes of a stream: the entries in the order in which they are emplaced. */
  datatype Block = Block(ok: bool, entries: seq<Entry>, rest: string)

  function ReadBlock(s: string): Block
    decreases |s|
  {
    if s == "" then Block(false, [], "")
    else if Line(s) == CRLF then Block(true, [], Rest(s))
    else
      var b := ReadBlock(Rest(s));
      b.(entries := EntryOf(Line(s)) + b.entries)
  }

  /** One round of the loop of `ReadHeaders`, with the entry of the line if it has one. A line that does not
      end with CRLF is passed over. */
  method ReadHeaderLine(lineReader: StreamLineReader, headers: seq<Entry>)
    returns (more: bool, ok: bool, headers': seq<Entry>, ghost entry: seq<Entry>)
    requires lineReader.Valid()
    modifies lineReader`used, lineReader`growable, lineReader.fixedBuffer, lineReader.strm`pending
    ensures lineReader.Valid() && headers' == EmplaceAll(headers, entry, true)
    ensures var was, now := old(lineReader.strm.pending), lineReader.strm.pending;
            var b, rest := ReadBlock(was), ReadBlock(now);
            && (more ==> |now| < |was| && b.ok == rest.ok && b.rest == rest.rest && b.entries == entry + rest.entries)
            && (!more ==> entry == [])
            && (!more && (ok || lineReader.strm.reliable) ==> ok == b.ok && now == b.rest && b.entries == [])
  {
    hide Line, ParseHeader, ReadBlock, EntryOf, Rest, EmplaceAll, Emplace;
    ghost var was := lineReader.strm.pending;
    more, headers', entry := false, headers, [];
    EmplaceNone(headers, true);
    ReadBlockStep(was);
    ok := lineReader.GetLine();
    if !ok { return; }
    RestShorter(was);
    var line := lineReader.Content();
    var crlf := lineReader.EndsWithCrlf();
    if crlf && |line| == 2 {
      assert line == line[0..];
      return;
    }
    more := true;
    entry := EntryOf(line);
    LineCases(line);
    if crlf {
      var parsed := ParseHeader(line[..|line| - 2]);
      LineEmplaced(headers, line[..|line| - 2]);
      if parsed != [] { headers' := Emplace(headers, parsed[0], true); }
    }
  }

  /** A line has one entry or none. */
  lemma {:induction false} LineEmplaced(headers: seq<Entry>, line: string)
    ensures var parsed := ParseHeader(line);
            EmplaceAll(headers, parsed, true) == if parsed == [] then headers else Emplace(headers, parsed[0], true)
  {
    hide Emplace, EmplaceAll, Url.Decode, SkipBlanks, DropTrailingBlanks, Upto;
    var parsed := ParseHeader(line);
    EmplaceNone(headers, true);
    if parsed != [] {
      EmplaceOne(headers, parsed[0], true);
      assert parsed == [parsed[0]];
    }
  }

  /** The entries emplaced when reading was given up are the first ones of the block. */
  ghost predicate Begun(headers: seq<Entry>, entries: seq<Entry>, headers': seq<Entry>) {
    exists k | 0 <= k <= |entries| :: headers' == EmplaceAll(headers, entries[..k], true)
  }

  /** `read_headers`. */
  method ReadHeaders(strm: Input, headers: seq<Entry>) returns (ok: bool, headers': seq<Entry>)
    modifies strm`pending
    ensures var b := ReadBlock(old(strm.pending));
            && (ok || strm.reliable ==>
                  ok == b.ok && strm.pending == b.rest && headers' == EmplaceAll(headers, b.entries, true))
            && Begun(headers, b.entries, headers')
  {
    hide ReadBlock, EmplaceAll;
    var buf := new char[2048];
    var lineReader := new StreamLineReader(strm, buf);
    headers' := headers;
    ghost var b, seen, entry: seq<Entry> := ReadBlock(strm.pending), [], [];
    EmplaceNone(headers, true);
    assert [] + b.entries == b.entries;
    var more := true;
    ok := true;
    while more
      invariant lineReader.Valid() && lineReader.strm == strm && lineReader.fixedBuffer == buf && fresh(lineReader)
      invariant seen <= b.entries && headers' == EmplaceAll(headers, seen, true)
      invariant more ==>
        var rest := ReadBlock(strm.pending);
        b.ok == rest.ok && b.rest == rest.rest && b.entries == seen + rest.entries
      invariant !more && (ok || strm.reliable) ==> ok == b.ok && strm.pending == b.rest && seen == b.entries
      decreases more, |strm.pending|
    {
      more, ok, headers', entry := ReadHeaderLine(lineReader, headers');
      EmplaceAppend(headers, seen, entry, true);
      if more {
        ghost var left := ReadBlock(strm.pending).entries;
        assert seen + (entry + left) == seen + entry + left;
      }
      assert !more ==> seen + entry == seen;
      seen := seen + entry;
    }
    assert b.entries[..|seen|] == seen;
  }

  lemma {:induction false} RestShorter(s: string)
    requires s != ""
    ensures |Rest(s)| < |s|
  {
  }

  lemma {:induction false} LineCases(line: string)
    ensures |line| == 2 && EndsCrlf(line) <==> line == CRLF
    ensures EntryOf(line) == if EndsCrlf(line) then ParseHeader(line[..|line| - 2]) else []
  {
    hide ParseHeader;
    if |line| == 2 { assert line == line[0..]; }
  }

  lemma {:induction false} ReadBlockStep(s: string)
    ensures s == "" ==> ReadBlock(s) == Block(false, [], "")
    ensures s != "" && Line(s) == CRLF ==> ReadBlock(s) == Block(true, [], Rest(s))
    ensures s != "" && Line(s) != CRLF ==>
      var b := ReadBlock(Rest(s));
      ReadBlock(s) == Block(b.ok, EntryOf(Line(s)) + b.entries, b.rest)
  {
    hide EntryOf, Line;
  }

  // ---- Which headers come back -------------------------------------------------------------------

  predicate PlainKey(k: string) {
    ':' !in k && LF !in k && NUL !in k
  }

  predicate PlainValue(v: string) {
    v != "" && Trimmed(v) && LF !in v && NUL !in v && Url.Verbatim(v, false)
  }

  predicate Plain(e: Entry) {
    PlainKey(e.key) && PlainValue(e.value)
  }

  predicate AllPlain(hs: seq<Entry>) {
    forall i | 0 <= i < |hs| :: Plain(hs[i])
  }

  /** What is left of a value without the blanks at its ends. */
  function Core(w: string): (r: string)
    ensures |r| <= |w|
  {
    SkipBlanks(DropTrailingBlanks(w))
  }

  lemma {:induction false} CoreTrimmed(w: string)
    ensures |Core(w)| == |w| <==> Trimmed(w)
    ensures Trimmed(w) ==> Core(w) == w
  {
  }

  lemma {:induction false} DropBehind(a: string, w: string)
    requires a != "" && !IsBlank(a[|a| - 1])
    ensures DropTrailingBlanks(a + w) == a + DropTrailingBlanks(w)
  {
    if w == "" || !IsBlank(w[|w| - 1]) {
      assert a + w == a || (a + w)[|a + w| - 1] == w[|w| - 1];
    } else {
      assert (a + w)[..|a + w| - 1] == a + w[..|w| - 1];
      DropBehind(a, w[..|w| - 1]);
    }
  }

  lemma {:induction false} CoreBlank(w: string)
    ensures Core(" " + w) == Core(w)
  {
    if w == "" {
      assert " " + w == " " && " "[..0] == "" && DropTrailingBlanks(" ") == "";
    } else if IsBlank(w[|w| - 1]) {
      assert (" " + w)[..|w|] == " " + w[..|w| - 1];
      CoreBlank(w[..|w| - 1]);
    } else {
      assert (" " + w)[1..] == w;
    }
  }

  /** A printed header, whatever its value is. */
  lemma {:induction false} ParsePrinted(k: string, w: string)
    requires ':' !in k
    ensures ParseHeader(k + ": " + w) == if Core(w) == "" then [] else [Entry(k, Url.Decode(Core(w), false))]
  {
    hide Url.Decode, SkipBlanks, DropTrailingBlanks, Upto;
    var t := DropTrailingBlanks(" " + w);
    assert k + ": " + w == (k + ":") + (" " + w);
    DropBehind(k + ":", " " + w);
    UptoIs(k, ':', t);
    assert (k + ":" + t)[|k| + 1..] == t;
    CoreBlank(w);
  }

  lemma {:induction false} LineEnded(s: string)
    requires LF in s
    ensures Ended(Line(s)) && s == Line(s) + Rest(s)
  {
    if s[0] != LF {
      LineEnded(s[1..]);
      var t := Line(s[1..]);
      assert Line(s) == [s[0]] + t;
      forall i | 0 <= i < |t| ensures i < |t| - 1 ==> t[i] != LF && Line(s)[i] != LF {
        if i > 0 { assert Line(s)[i] == t[i - 1]; }
      }
    }
  }

  lemma {:induction false} LineAppend(a: string, b: string)
    requires LF in a
    ensures Line(a + b) == Line(a) && Rest(a + b) == Rest(a) + b
  {
    hide Line;
    LineEnded(a);
    assert a + b == Line(a) + (Rest(a) + b);
    LineIs(Line(a), Rest(a) + b);
  }

  /** The line of a header without a line feed. */
  lemma {:induction false} HeaderLineIs(k: string, w: string, rest: string)
    requires LF !in k && LF !in w
    ensures var t := k + ": " + w + CRLF;
            Line(t + rest) == t && Rest(t + rest) == rest && EntryOf(t) == ParseHeader(k + ": " + w) && t != CRLF
  {
    hide Line, ParseHeader;
    var t := k + ": " + w + CRLF;
    LineIs(t, rest);
    assert t[..|t| - 2] == k + ": " + w && t[|t| - 2..] == CRLF;
  }

  lemma {:induction false} PlainEntry(e: Entry, rest: string)
    requires Plain(e)
    ensures Line(HeaderLine(e) + rest) == HeaderLine(e) && Rest(HeaderLine(e) + rest) == rest
    ensures EntryOf(HeaderLine(e)) == [e] && HeaderLine(e) != CRLF
  {
    hide Line, ParseHeader, CString, Url.Verbatim, Url.Decode, Core;
    CStringWhole(e.key);
    CStringWhole(e.value);
    HeaderLineIs(e.key, e.value, rest);
    ParsePrinted(e.key, e.value);
    CoreTrimmed(e.value);
    Url.DecodeVerbatim(e.value, false);
  }

  lemma {:induction false} BlankEnds(rest: string)
    ensures ReadBlock(CRLF + rest) == Block(true, [], rest)
  {
    LineIs(CRLF, rest);
  }

  /** Plain headers are read back in order, and what follows the block is left alone. */
  lemma {:induction false} PlainBlock(hs: seq<Entry>, rest: string)
    requires AllPlain(hs)
    ensures ReadBlock(HeaderLines(hs) + CRLF + rest) == Block(true, hs, rest)
  {
    hide Line, HeaderLine, Plain, EntryOf;
    var s := HeaderLines(hs) + CRLF + rest;
    if hs == [] {
      assert s == CRLF + rest;
      BlankEnds(rest);
    } else {
      var t := HeaderLines(hs[1..]) + CRLF + rest;
      assert s == HeaderLine(hs[0]) + t;
      PlainEntry(hs[0], t);
      PlainBlock(hs[1..], rest);
      ReadBlockStep(s);
      assert hs == [hs[0]] + hs[1..];
    }
  }

  // ---- Headers as others write them --------------------------------------------------------------

  /** A header line with any blanks and tabs, or none, around its value: the value without them, decoded; a line
      without a colon or without a value is none. */
  lemma {:induction false} HeaderForm(key: string, p: string, value: string, q: string)
    requires ':' !in key && Padding(p) && Padding(q)
    requires value == "" || (value[0] !in " \t" && value[|value| - 1] !in " \t")
    ensures ParseHeader(key + ":" + (p + value + q))
         == if value == "" then [] else [Entry(key, Url.Decode(value, false))]
    ensures ParseHeader(key) == []
  {
    hide Url.Decode, SkipBlanks, DropTrailingBlanks, Upto;
    var text := if value == "" then key + ":" else key + ":" + (p + value);
    var rest := if value == "" then p + q else q;
    assert key + ":" + (p + value + q) == text + rest;
    DropPadding(text, rest);
    UptoIs(key, ':', text[|key| + 1..]);
    assert text == key + [':'] + text[|key| + 1..];
    assert text[|key| + 1..] == if value == "" then "" else p + value;
    SkipPadding(p, value);
    SkipPadding("", "");
    NoColon(key);
  }

  lemma {:induction false} NoColon(key: string)
    requires ':' !in key
    ensures ParseHeader(key) == []
  {
    hide Url.Decode, SkipBlanks, DropTrailingBlanks, Upto;
    var t := DropTrailingBlanks(key);
    DropPrefix(key);
    UptoIs(t, ':', "");
  }

  /** A line of a block: with CR LF, or with a bare LF, which makes it no header. */
  datatype RawLine = RawLine(text: string, proper: bool)

  predicate IsRaw(l: RawLine) {
    LF !in l.text && l.text != "" && (!l.proper ==> l.text[|l.text| - 1] != CR)
  }

  function Raw(l: RawLine): string {
    l.text + if l.proper then CRLF else [LF]
  }

  function AllRaw(ls: seq<RawLine>): string {
    if ls == [] then "" else Raw(ls[0]) + AllRaw(ls[1..])
  }

  function RawEntries(ls: seq<RawLine>): seq<Entry> {
    if ls == [] then [] else (if ls[0].proper then ParseHeader(ls[0].text) else []) + RawEntries(ls[1..])
  }

  lemma {:induction false} RawIs(l: RawLine, rest: string)
    requires IsRaw(l)
    ensures var t := Raw(l);
            && Line(t + rest) == t && Rest(t + rest) == rest && t != CRLF
            && EntryOf(t) == if l.proper then ParseHeader(l.text) else []
  {
    hide Line, ParseHeader;
    var t := Raw(l);
    LineIs(t, rest);
    if l.proper {
      assert t[..|t| - 2] == l.text && t[|t| - 2..] == CRLF;
    } else {
      assert t[|t| - 2..][0] == l.text[|l.text| - 1];
    }
  }

  /** Any block of lines up to the blank one: the entries of its proper lines, in order, and nothing is read behind
      it; a block that breaks off is none. */
  lemma {:induction false} BlockRead(ls: seq<RawLine>, rest: string)
    requires forall i | 0 <= i < |ls| :: IsRaw(ls[i])
    ensures ReadBlock(AllRaw(ls) + CRLF + rest) == Block(true, RawEntries(ls), rest)
    ensures ReadBlock(AllRaw(ls)) == Block(false, RawEntries(ls), "")
  {
    hide Line, IsRaw, EntryOf, ParseHeader, Raw;
    var s := AllRaw(ls) + CRLF + rest;
    if ls == [] {
      assert s == CRLF + rest;
      BlankEnds(rest);
      ReadBlockStep("");
    } else {
      var t := AllRaw(ls[1..]) + CRLF + rest;
      assert s == Raw(ls[0]) + t;
      RawIs(ls[0], t);
      RawIs(ls[0], AllRaw(ls[1..]));
      BlockRead(ls[1..], rest);
      ReadBlockStep(s);
      ReadBlockStep(AllRaw(ls));
      RawSome(ls[0]);
    }
  }

  lemma {:induction false} RawSome(l: RawLine)
    ensures Raw(l) != ""
  {
  }

  // ---- No others do ------------------------------------------------------------------------------

  /** The entries of all lines, past blank ones too. */
  function AllEntries(s: string): seq<Entry>
    decreases |s|
  {
    if s == "" then [] else EntryOf(Line(s)) + AllEntries(Rest(s))
  }

  predicate Closed(s: string) {
    s == "" || s[|s| - 1] == LF
  }

  lemma {:induction false} ClosedLine(s: string)
    requires Closed(s) && s != ""
    ensures LF in s && Closed(Rest(s))
  {
    hide Line;
    assert s[|s| - 1] == LF;
    LineEnded(s);
    if Rest(s) != "" { assert Rest(s)[|Rest(s)| - 1] == s[|s| - 1]; }
  }

  lemma {:induction false} EntriesAppend(a: string, b: string)
    requires Closed(a)
    ensures AllEntries(a + b) == AllEntries(a) + AllEntries(b)
    decreases |a|
  {
    hide Line, EntryOf;
    if a == "" {
      assert a + b == b;
    } else {
      ClosedLine(a);
      LineAppend(a, b);
      EntriesAppend(Rest(a), b);
    }
  }

  /** A block ends at its blank line at the latest. */
  lemma {:induction false} BlockWithin(t: string, rest: string)
    requires Closed(t)
    ensures forall e | e in ReadBlock(t + CRLF + rest).entries :: e in AllEntries(t)
    decreases |t|
  {
    hide Line, EntryOf;
    var s := t + CRLF + rest;
    if t == "" {
      assert s == CRLF + rest;
      BlankEnds(rest);
    } else {
      ClosedLine(t);
      assert s == t + (CRLF + rest);
      LineAppend(t, CRLF + rest);
      assert Rest(t) + (CRLF + rest) == Rest(t) + CRLF + rest;
      ReadBlockStep(s);
      BlockWithin(Rest(t), rest);
    }
  }

  /** Keys read from a text have nothing in them that keys cannot have. */
  lemma {:induction false} KeysPlain(s: string)
    requires NUL !in s
    ensures forall e | e in AllEntries(s) :: PlainKey(e.key)
    decreases |s|
  {
    hide EntryOf, Line;
    if s != "" {
      var l := Line(s);
      KeysPlain(Rest(s));
      InnerFeeds(s);
      KeyPlain(l);
    }
  }

  lemma {:induction false} KeyPlain(l: string)
    requires NUL !in l && forall i | 0 <= i < |l| - 1 :: l[i] != LF
    ensures forall e | e in EntryOf(l) :: PlainKey(e.key)
  {
    hide Url.Decode, SkipBlanks, DropTrailingBlanks;
    if EndsCrlf(l) {
      var line := l[..|l| - 2];
      var text := DropTrailingBlanks(line);
      DropPrefix(line);
      assert Upto(text, ':') <= line;
    }
  }

  lemma {:induction false} DropPrefix(s: string)
    ensures DropTrailingBlanks(s) <= s
  {
    if s != "" && IsBlank(s[|s| - 1]) { DropPrefix(s[..|s| - 1]); }
  }

  /** The length of an entry. */
  function Rank(e: Entry): nat {
    |e.key| + |e.value|
  }

  lemma {:induction false} EntryRank(line: string)
    ensures forall e | e in EntryOf(line) :: Rank(e) + 3 <= |line|
  {
    hide Url.Decode, SkipBlanks, DropTrailingBlanks, Upto;
    if EntryOf(line) != [] {
      var text := DropTrailingBlanks(line[..|line| - 2]);
      Url.DecodeNotLonger(SkipBlanks(text[|Upto(text, ':')| + 1..]));
    }
  }

  lemma {:induction false} EntriesRank(s: string)
    ensures forall e | e in AllEntries(s) :: Rank(e) + 3 <= |s|
    decreases |s|
  {
    hide Line, EntryOf, Rank;
    if s != "" {
      EntryRank(Line(s));
      EntriesRank(Rest(s));
    }
  }

  /** A header that is not plain, but for its key, comes back shorter, in pieces, or not at all. */
  lemma {:induction false} NotPlainRank(e: Entry)
    requires PlainKey(e.key) && !PlainValue(e.value)
    ensures forall x | x in AllEntries(HeaderLine(e)) :: Rank(x) < Rank(e)
  {
    hide Line, CString, EntryOf, ParseHeader, Url.Decode, Url.Verbatim, Core, AllEntries;
    var k, w := e.key, CString(e.value);
    CStringWhole(k);
    var t := HeaderLine(e);
    assert t != "";
    if LF in w {
      PiecesRank(k, w);
    } else {
      HeaderLineIs(k, w, "");
      assert t + "" == t;
      OneLineEntries(t);
      ParsePrinted(k, w);
      CoreTrimmed(w);
      Url.DecodeLength(Core(w));
      if NUL !in e.value { CStringWhole(e.value); } else { CStringShorter(e.value); }
      Url.DecodeNotLonger(Core(w));
    }
  }

  lemma {:induction false} OneLineEntries(t: string)
    requires t != "" && Line(t) == t && Rest(t) == ""
    ensures AllEntries(t) == EntryOf(t)
  {
    hide Line, EntryOf;
    assert AllEntries("") == [];
    assert EntryOf(t) + [] == EntryOf(t);
  }

  lemma {:induction false} CStringShorter(s: string)
    requires NUL in s
    ensures |CString(s)| < |s|
  {
    if s[0] != NUL { CStringShorter(s[1..]); }
  }

  /** A value with a line feed. */
  lemma {:induction false} PiecesRank(k: string, w: string)
    requires LF !in k && LF in w
    ensures forall x | x in AllEntries(k + ": " + w + CRLF) :: Rank(x) < |k| + |w|
  {
    hide Line, EntryOf, Rank;
    LineEnded(w);
    var first, tail := k + ": " + Line(w), Rest(w) + CRLF;
    var t := k + ": " + w + CRLF;
    assert t == first + tail;
    assert Ended(first) by {
      forall i | 0 <= i < |first| - 1 ensures first[i] != LF {
        if i >= |k| + 2 { assert first[i] == Line(w)[i - |k| - 2]; }
      }
    }
    LineIs(first, tail);
    EntryRank(first);
    EntriesRank(tail);
  }

  // ---- The round trip ----------------------------------------------------------------------------

  lemma {:induction false} LinesClosed(hs: seq<Entry>)
    ensures Closed(HeaderLines(hs)) && NUL !in HeaderLines(hs)
  {
    if hs != [] {
      LinesClosed(hs[1..]);
      HeaderLineClosed(hs[0]);
    }
  }

  lemma {:induction false} HeaderLineClosed(e: Entry)
    ensures HeaderLine(e) != "" && Closed(HeaderLine(e)) && NUL !in HeaderLine(e)
  {
    CStringNoNul(e.key);
    CStringNoNul(e.value);
  }

  lemma {:induction false} CStringNoNul(s: string)
    ensures NUL !in CString(s)
  {
    if s != "" { CStringNoNul(s[1..]); }
  }

  /** Whatever is read back comes from some header. */
  lemma {:induction false} EntryFrom(hs: seq<Entry>, x: Entry) returns (j: nat)
    requires x in AllEntries(HeaderLines(hs))
    ensures j < |hs| && x in AllEntries(HeaderLine(hs[j]))
  {
    hide HeaderLine, AllEntries;
    if hs == [] {
      NoEntries();
      assert false;
    }
    HeaderLineClosed(hs[0]);
    EntriesAppend(HeaderLine(hs[0]), HeaderLines(hs[1..]));
    if x in AllEntries(HeaderLine(hs[0])) {
      j := 0;
    } else {
      j := EntryFrom(hs[1..], x);
      j := j + 1;
    }
  }

  lemma {:induction false} NoEntries()
    ensures AllEntries("") == []
  {
  }

  lemma {:induction false} LongestNotPlain(hs: seq<Entry>) returns (i: nat)
    requires !AllPlain(hs)
    ensures i < |hs| && !Plain(hs[i])
    ensures forall j | 0 <= j < |hs| && !Plain(hs[j]) :: Rank(hs[j]) <= Rank(hs[i])
  {
    hide Plain, Rank;
    i :| 0 <= i < |hs| && !Plain(hs[i]);
    for n := 0 to |hs|
      invariant i < |hs| && !Plain(hs[i])
      invariant forall j | 0 <= j < n && !Plain(hs[j]) :: Rank(hs[j]) <= Rank(hs[i])
    {
      if !Plain(hs[n]) && Rank(hs[n]) > Rank(hs[i]) { i := n; }
    }
  }

  lemma {:induction false} PlainAlone(e: Entry)
    requires Plain(e)
    ensures AllEntries(HeaderLine(e)) == [e]
  {
    hide Line, EntryOf, HeaderLine, Plain, AllEntries;
    PlainEntry(e, "");
    HeaderLineClosed(e);
    assert HeaderLine(e) + "" == HeaderLine(e);
    OneLineEntries(HeaderLine(e));
  }

  /** Of headers some of which are written, one that is not plain does not come back. */
  lemma {:induction false} NotPlainLost(hs: seq<Entry>, written: seq<Entry>)
    requires !AllPlain(hs) && forall j | 0 <= j < |written| :: written[j] in hs
    ensures exists i :: 0 <= i < |hs| && hs[i] !in AllEntries(HeaderLines(written))
  {
    hide HeaderLine, Plain, PlainKey, PlainValue, Rank, AllEntries;
    LinesClosed(written);
    KeysPlain(HeaderLines(written));
    if forall i | 0 <= i < |hs| :: hs[i] in AllEntries(HeaderLines(written)) {
      var i := LongestNotPlain(hs);
      var j := EntryFrom(written, hs[i]);
      NotFrom(hs[i], written[j]);
      assert false;
    }
  }

  lemma {:induction false} NotFrom(h: Entry, e: Entry)
    requires !Plain(h) && h in AllEntries(HeaderLine(e)) && PlainKey(e.key)
    ensures !Plain(e) && Rank(h) < Rank(e)
  {
    hide HeaderLine, PlainKey, PlainValue, Rank, AllEntries;
    if Plain(e) { PlainAlone(e); } else { NotPlainRank(e); }
  }

  predicate NoneSkipped(hs: seq<Entry>) {
    forall i | 0 <= i < |hs| :: hs[i].key != "EXCEPTION_WHAT"
  }

  lemma {:induction false} ShownWithin(hs: seq<Entry>)
    ensures forall e | e in Shown(hs) :: e in hs
  {
    if hs != [] { ShownWithin(hs[1..]); }
  }

  lemma {:induction false} NoneSkippedFirst(hs: seq<Entry>)
    requires hs != []
    ensures NoneSkipped(hs) <==> hs[0].key != SKIPPED && NoneSkipped(hs[1..])
  {
    var t := hs[1..];
    if hs[0].key != SKIPPED && NoneSkipped(t) {
      forall i | 0 <= i < |hs| ensures hs[i].key != SKIPPED {
        if i > 0 { assert hs[i] == t[i - 1]; }
      }
    }
  }

  lemma {:induction false} ShownWhole(hs: seq<Entry>)
    ensures NoneSkipped(hs) ==> Shown(hs) == hs
    ensures |Shown(hs)| <= |hs| && (!NoneSkipped(hs) ==> |Shown(hs)| < |hs|)
  {
    hide NoneSkipped;
    if hs != [] {
      NoneSkippedFirst(hs);
      ShownWhole(hs[1..]);
      assert hs == [hs[0]] + hs[1..];
    } else {
      assert NoneSkipped([]) by { NoneSkippedNone(); }
    }
  }

  lemma {:induction false} NoneSkippedNone()
    ensures NoneSkipped([])
  {
  }

  lemma {:induction false} WrittenWithin(info: seq<Entry>, headers: seq<Entry>)
    ensures forall j | 0 <= j < |Shown(info) + headers| :: (Shown(info) + headers)[j] in info + headers
    ensures AllPlain(info + headers) ==> AllPlain(Shown(info) + headers)
  {
    hide Shown, Plain;
    ShownWithin(info);
    var all, written := info + headers, Shown(info) + headers;
    forall j | 0 <= j < |written| ensures written[j] in all {
      if j < |Shown(info)| { assert written[j] in Shown(info); } else { assert written[j] in headers; }
    }
  }

  /** Reading what `WriteHeaders` sent for two maps makes the map of all their headers, names in any case and
      repeated names in order, exactly if all headers are plain and the first map has none that is skipped. */
  lemma {:induction false} HeadersRoundTrip(info: seq<Entry>, headers: seq<Entry>, rest: string)
    ensures var all := info + headers;
            EmplaceAll([], ReadBlock(HeaderLines(Shown(info) + headers) + CRLF + rest).entries, true)
              == EmplaceAll([], all, true)
            <==> AllPlain(all) && NoneSkipped(info)
    ensures AllPlain(info + headers) ==>
      ReadBlock(HeaderLines(Shown(info) + headers) + CRLF + rest) == Block(true, Shown(info) + headers, rest)
  {
    hide ReadBlock, HeaderLines, Plain, Before, AllEntries, Shown, EmplaceAll, NoneSkipped, AllPlain;
    var all, written := info + headers, Shown(info) + headers;
    var xs := ReadBlock(HeaderLines(written) + CRLF + rest).entries;
    EmplaceAllElements([], xs, true);
    EmplaceAllElements([], all, true);
    ShownWhole(info);
    WrittenWithin(info, headers);
    if AllPlain(all) {
      PlainBlock(written, rest);
      if !NoneSkipped(info) { assert |multiset(xs)| < |multiset(all)|; }
    } else {
      LinesClosed(written);
      BlockWithin(HeaderLines(written), rest);
      NotPlainLost(all, written);
      var i :| 0 <= i < |all| && all[i] !in AllEntries(HeaderLines(written));
      assert all[i] in multiset(all) && all[i] !in multiset(xs);
      assert multiset([]) + multiset(xs) == multiset(xs) && multiset([]) + multiset(all) == multiset(all);
    }
  }

  /** For the single map of a message: reading rebuilds the map itself. */
  lemma {:induction false} MapRoundTrip(info: seq<Entry>, rest: string)
    requires Sorted(info, true)
    ensures EmplaceAll([], ReadBlock(HeaderLines(Shown(info)) + CRLF + rest).entries, true) == info
       <==> AllPlain(info) && NoneSkipped(info)
  {
    hide ReadBlock, HeaderLines, Plain, Before, Shown, EmplaceAll, NoneSkipped, AllPlain;
    HeadersRoundTrip(info, [], rest);
    assert [] + info == info && info + [] == info && Shown(info) + [] == Shown(info);
    EmplaceInOrder([], info, true);
  }

  /** Headers given one by one, in any order, next to an empty map. */
  lemma {:induction false} ListRoundTrip(hs: seq<Entry>, rest: string)
    ensures EmplaceAll([], ReadBlock(HeaderLines(hs) + CRLF + rest).entries, true) == EmplaceAll([], hs, true)
       <==> AllPlain(hs)
  {
    hide ReadBlock, HeaderLines, Plain, EmplaceAll, AllPlain;
    HeadersRoundTrip([], hs, rest);
    NoLines();
    assert [] + hs == hs && Shown([]) + hs == hs;
  }
}
