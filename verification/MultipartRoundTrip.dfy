/** What the parser makes of a body that `Build` wrote. */
module MultipartRoundTrip {
  import opened Text
  import opened Multipart
  import opened MultipartFragments
  import opened MultipartStraddle
  import opened MultipartForm
  import opened MultipartHeaders

  /** Fields that can be written into header lines at all. */
  predicate Fits(item: Item) {
    OneLine(item.name) && OneLine(item.filename) && Trimmed(item.contentType) && !Contains(item.contentType, CRLF)
  }

  /** What is written behind the opening quote of the name. */
  function Quoted(item: Item): string {
    item.name + QUOTE + FilenameField(item.filename)
  }

  /** `s` begins like a file name parameter, with something behind its opening quote. */
  predicate LooksFiled(s: string) {
    s != "" && s[0] == ';'
    && match After(SkipSpaces(s[1..]), "filename=\"")
       case Some(r) => r != ""
       case None => false
  }

  /** A quote inside the name that is taken for its end. */
  predicate EndsEarly(item: Item, k: nat) {
    k < |item.name| && item.name[k] == '"' && LooksFiled(Quoted(item)[k + 1..])
  }

  /** Fields that come back as they were written: names may hold quotes, but none that seems to be followed
      by a file name. */
  predicate Readable(item: Item) {
    Fits(item) && forall k: nat | k < |item.name| :: !EndsEarly(item, k)
  }

  function InfoOf(item: Item): FileInfo {
    FileInfo(item.name, item.filename, item.contentType)
  }

  function PartsOf(items: seq<Item>): (p: seq<Part>)
    ensures |p| == |items|
  {
    if items == [] then [] else [Part(InfoOf(items[0]), items[0].content)] + PartsOf(items[1..])
  }

  // ---- Header lines ------------------------------------------------------------------------------

  lemma {:induction false} AfterLiteral(lit: string, s: string)
    ensures After(lit + s, lit) == Some(s)
  {
  }

  lemma {:induction false} AfterSpace(lit: string, s: string)
    requires lit != "" && !IsSpace(lit[0])
    ensures After(SkipSpaces(" " + (lit + s)), lit) == Some(s)
  {
    assert (" " + (lit + s))[1..] == lit + s;
    AfterLiteral(lit, s);
  }

  function FilenameField(filename: string): string {
    if filename == "" then "" else FILENAME + filename + QUOTE
  }

  lemma {:induction false} NotBlankEnd(s: string)
    requires s != "" && s[|s| - 1] == '"'
    ensures SkipSpaces(s) != ""
  {
    if IsSpace(s[0]) { NotBlankEnd(s[1..]); }
  }

  /** A file name ends at the last quote of the line, whatever quotes it holds. */
  lemma {:induction false} LazyFilenameReads(name: string, k: nat)
    requires OneLine(name) && k <= |name|
    ensures LazyFilename(name + QUOTE, k) == Some(name)
  {
    hide LazyFilename;
    assert (name + QUOTE)[..|name|] == name && (name + QUOTE)[|name| + 1..] == "";
    LazyFilenameIs(name + QUOTE, k, |name|);
  }

  lemma {:induction false} NoSpaces()
    ensures SkipSpaces("") == ""
  {
  }

  lemma {:induction false} TailReads(filename: string)
    requires OneLine(filename)
    ensures DispositionTail(FilenameField(filename)) == Some(filename)
  {
    hide LazyFilename, After;
    if filename != "" {
      var s := FilenameField(filename);
      assert s[1..] == " " + ("filename=\"" + (filename + QUOTE));
      AfterSpace("filename=\"", filename + QUOTE);
      LazyFilenameReads(filename, 0);
    }
  }

  /** On a line that ends with a quote, a tail is found exactly if it looks like a file name. */
  lemma {:induction false} FiledIff(s: string)
    requires s != "" && s[|s| - 1] == '"' && OneLine(s)
    ensures DispositionTail(s).Some? <==> LooksFiled(s)
  {
    hide LazyFilename, SkipSpaces;
    NotBlankEnd(s);
    if s[0] == ';' {
      SpacesSuffix(s[1..]);
      var t := SkipSpaces(s[1..]);
      if After(t, "filename=\"").Some? {
        var r := After(t, "filename=\"").value;
        assert r == t[|t| - |r|..] == s[1..][|s[1..]| - |r|..] == s[|s| - |r|..];
        SuffixFilename(r, s);
      }
    }
  }

  lemma {:induction false} SuffixFilename(r: string, s: string)
    requires s != "" && s[|s| - 1] == '"' && OneLine(s) && |r| <= |s| && r == s[|s| - |r|..]
    ensures LazyFilename(r, 0).Some? <==> r != ""
  {
    if r != "" {
      assert r[|r| - 1] == s[|s| - 1];
      forall i | 0 <= i < |r| ensures r[i] == s[|s| - |r| + i] {}
      LazyFilenameReads(r[..|r| - 1], 0);
      assert r == r[..|r| - 1] + QUOTE;
    }
  }

  lemma {:induction false} SpacesSuffix(s: string)
    ensures |SkipSpaces(s)| <= |s| && SkipSpaces(s) == s[|s| - |SkipSpaces(s)|..]
  {
    if s != "" && IsSpace(s[0]) { SpacesSuffix(s[1..]); }
  }

  lemma {:induction false} LazyNameEarly(s: string, k: nat, n: nat)
    requires k <= n && NameStop(s, n) && OneLine(s[..n])
    ensures LazyName(s, k).Some? && |LazyName(s, k).value.0| <= n
  {
    LazyNameStops(s, k, n);
  }

  lemma {:induction false} QuotedOneLine(item: Item)
    requires Fits(item)
    ensures OneLine(Quoted(item)) && Quoted(item)[|Quoted(item)| - 1] == '"'
  {
    assert forall i | 0 <= i < |FILENAME| :: FILENAME[i] != CR && FILENAME[i] != LF;
  }

  /** Inside the name, it can end exactly where it ends early. */
  lemma {:induction false} StopIff(item: Item, k: nat)
    requires Fits(item) && k < |item.name|
    ensures NameStop(Quoted(item), k) <==> EndsEarly(item, k)
  {
    hide DispositionTail, LooksFiled;
    var s := Quoted(item);
    QuotedOneLine(item);
    assert s[k] == item.name[k];
    var t := s[k + 1..];
    assert t != "" && t[|t| - 1] == s[|s| - 1];
    FiledIff(t);
  }

  lemma {:induction false} StopAtEnd(item: Item)
    requires Fits(item)
    ensures var s, n := Quoted(item), |item.name|;
            NameStop(s, n) && s[..n] == item.name && DispositionTail(s[n + 1..]) == Some(item.filename)
  {
    hide DispositionTail;
    var s, n := Quoted(item), |item.name|;
    assert s[n + 1..] == FilenameField(item.filename);
    TailReads(item.filename);
  }

  /** The name and the file name are read back exactly if the name does not end early. */
  lemma {:induction false} NameReadsIff(item: Item)
    requires Fits(item)
    ensures LazyName(Quoted(item), 0).Some?
    ensures Readable(item) ==> LazyName(Quoted(item), 0) == Some((item.name, item.filename))
    ensures !Readable(item) ==> LazyName(Quoted(item), 0).value.0 != item.name
  {
    hide DispositionTail, LazyName, NameStop, EndsEarly, Quoted;
    var s, n := Quoted(item), |item.name|;
    StopAtEnd(item);
    if Readable(item) {
      forall i: nat | i < n ensures !NameStop(s, i) { StopIff(item, i); }
      LazyNameStops(s, 0, n);
    } else {
      var k: nat :| k < |item.name| && EndsEarly(item, k);
      EarlyInName(item, k);
      StopIff(item, k);
      assert s[..k] == s[..n][..k];
      LazyNameEarly(s, 0, k);
      LazyNameEarly(s, 0, n);
    }
  }

  lemma {:induction false} EarlyInName(item: Item, k: nat)
    requires EndsEarly(item, k)
    ensures k < |item.name| < |Quoted(item)|
  {
  }

  lemma {:induction false} DispositionParses(item: Item)
    ensures MatchDisposition(DispositionLine(item)) == LazyName(Quoted(item), 0)
  {
    hide After, LazyName;
    var q := " " + ("name=\"" + Quoted(item));
    AfterSpace("name=\"", Quoted(item));
    AfterSpace("form-data;", q);
    AfterLiteral("Content-Disposition:", " " + ("form-data;" + q));
    LineShape(Quoted(item));
    Assoc4(DISPOSITION, item.name, QUOTE, FilenameField(item.filename));
  }

  lemma {:induction false} LineShape(value: string)
    ensures DISPOSITION + value == "Content-Disposition:" + (" " + ("form-data;" + (" " + ("name=\"" + value))))
  {
  }

  /** What the recogniser reads from the disposition line of an item. */
  function NamesRead(item: Item): FileInfo
    requires Fits(item)
  {
    NameReadsIff(item);
    var (name, filename) := LazyName(Quoted(item), 0).value;
    FileInfo(name, filename, item.contentType)
  }

  /** A built Content-Disposition line gives back name and file name exactly for a readable item; for any other
      that fits on its line it gives another name. */
  lemma {:induction false} DispositionHeader(item: Item, file: FileInfo)
    requires Fits(item)
    ensures ReadHeader(file, DispositionLine(item))
            == file.(name := NamesRead(item).name, filename := NamesRead(item).filename)
    ensures Readable(item) <==> NamesRead(item) == InfoOf(item)
    ensures Readable(item) <==> NamesRead(item).name == item.name
  {
    hide MatchDisposition, LazyName, EndsEarly;
    NameReadsIff(item);
    DispositionParses(item);
    assert DispositionLine(item)[8] == 'D';
    assert "content-type:"[8] == 't';
  }

  lemma {:induction false} TrimSpace(s: string)
    ensures Trim(" " + s) == Trim(s)
    ensures Trim(s) == s <==> Trimmed(s)
  {
    assert (" " + s)[1..] == s;
  }

  /** A built Content-Type line gives back the type without the blanks at its ends. */
  lemma {:induction false} TypeHeader(contentType: string, file: FileInfo)
    ensures ReadHeader(file, CONTENT_TYPE + contentType) == file.(contentType := Trim(contentType))
    ensures Trim(contentType) == contentType <==> Trimmed(contentType)
  {
    hide Trim, MatchDisposition;
    var line := CONTENT_TYPE + contentType;
    assert line[13..] == " " + contentType;
    TrimSpace(contentType);
  }

  // ---- From one phase to the next ----------------------------------------------------------------

  /** Running from `s` comes to the same as running from `t`, and lands if that does. */
  ghost predicate LeadsTo(boundary: string, accept: Answers, s: State, t: State) {
    RunAll(boundary, accept, s) == RunAll(boundary, accept, t)
    && Lands(boundary, accept, s) == Lands(boundary, accept, t)
  }

  lemma {:induction false} StepLeads(boundary: string, accept: Answers, s: State, t: State)
    requires s.buf != "" && s.phase != Body && Step(boundary, ACCEPT_ALL, s) == Next(t) && !Declined(accept, s)
    ensures LeadsTo(boundary, accept, s, t)
  {
    hide Step;
  }

  /** A line without CR LF ends at the CR LF behind it. */
  lemma {:induction false} LineEnds(line: string, rest: string)
    requires !Contains(line, CRLF)
    ensures Find(line + CRLF + rest, CRLF, 0) == Some(|line|)
  {
    var s := line + CRLF;
    FindFirst(line, CRLF, 0);
    forall i: nat | i < |line| ensures !OccursAt(s, CRLF, i) {
      if i + 2 <= |line| { OccursAppend(line, CRLF, CRLF, i); } else { assert s[i..i + 2][1] == s[|line|]; }
    }
    assert s[|line|..|line| + 2] == CRLF;
    FindIs(s, CRLF, 0, |line|);
    FindAppend(s, rest, CRLF, 0);
  }

  lemma {:induction false} NoLineBreak(line: string)
    requires forall i | 0 <= i < |line| :: line[i] != CR
    ensures !Contains(line, CRLF)
  {
    forall i: nat ensures !OccursAt(line, CRLF, i) {
      if i + 2 <= |line| { assert line[i..i + 2][0] == line[i]; }
    }
    FindNone(line, CRLF, 0);
  }

  lemma {:induction false} HeadersOnOneLine(item: Item)
    requires Fits(item)
    ensures !Contains(DispositionLine(item), CRLF)
    ensures !Contains(CONTENT_TYPE + item.contentType, CRLF)
  {
    assert forall i | 0 <= i < |DISPOSITION| :: DISPOSITION[i] != CR;
    assert forall i | 0 <= i < |FILENAME| :: FILENAME[i] != CR;
    NoLineBreak(DispositionLine(item));
    var line := CONTENT_TYPE + item.contentType;
    FindFirst(item.contentType, CRLF, 0);
    forall i: nat ensures !OccursAt(line, CRLF, i) {
      if i + 2 <= |line| {
        assert line[i..i + 2][0] == line[i];
        if i < |CONTENT_TYPE| {
          assert CONTENT_TYPE[i] != CR;
        } else {
          assert line[|CONTENT_TYPE|..] == item.contentType;
          OccursDrop(line, CRLF, |CONTENT_TYPE|, i - |CONTENT_TYPE|);
        }
      }
    }
    FindNone(line, CRLF, 0);
  }

  lemma {:induction false} LineLeads(boundary: string, accept: Answers, st: State, line: string, rest: string)
    requires st.phase == Headers && line != "" && !Contains(line, CRLF) && st.buf == line + CRLF + rest
    ensures var file := ReadHeader(st.file, line);
            LeadsTo(boundary, accept, st, st.(buf := rest, off := st.off + |line| + 2, file := file))
  {
    hide Contains, ReadHeader, Text.Find;
    LineEnds(line, rest);
    assert st.buf[..|line|] == line && st.buf[|line| + 2..] == rest;
    StepLeads(boundary, accept, st, st.(buf := rest, off := st.off + |line| + 2, file := ReadHeader(st.file, line)));
  }

  /** The parser where the content of `item` begins, its headers read as `info`. */
  function AtContent(st: State, item: Item, info: FileInfo, rest: string): State {
    st.(phase := Body, buf := rest, off := st.off + |Head(item)|, file := info,
        finished := st.Parts(), current := Some(Part(info, "")))
  }

  lemma {:induction false} BlankLineLeads(boundary: string, accept: Answers, st: State, rest: string)
    requires st.phase == Headers && st.buf == CRLF + rest && accept(st.Announce().Parts())
    ensures LeadsTo(boundary, accept, st, st.Announce().(phase := Body, buf := rest, off := st.off + 2))
  {
    hide Text.Find, Contains;
    NoLineBreak("");
    LineEnds("", rest);
    assert "" + CRLF + rest == st.buf;
    assert st.buf[2..] == rest;
    StepLeads(boundary, accept, st, st.Announce().(phase := Body, buf := rest, off := st.off + 2));
  }

  lemma {:induction false} HeadLeads(boundary: string, st: State, item: Item, rest: string)
    requires Fits(item) && st.phase == Headers && st.file == NO_INFO && st.buf == Head(item) + rest
    ensures LeadsTo(boundary, ACCEPT_ALL, st, AtContent(st, item, NamesRead(item), rest))
  {
    hide Contains, ReadHeader, LeadsTo, NamesRead, Readable;
    HeadersOnOneLine(item);
    var line, t, info := DispositionLine(item), CONTENT_TYPE + item.contentType, NamesRead(item);
    DispositionHeader(item, NO_INFO);
    TypeRead(item);
    var r := TypeLine(item) + CRLF + rest;
    assert st.buf == line + CRLF + r;
    LineLeads(boundary, ACCEPT_ALL, st, line, r);
    var s := st.(buf := r, off := st.off + |line| + 2, file := ReadHeader(NO_INFO, line));
    if item.contentType == "" {
      assert r == CRLF + rest;
      BlankLineLeads(boundary, ACCEPT_ALL, s, rest);
      LeadsOn(boundary, ACCEPT_ALL, st, s, AtContent(st, item, info, rest));
    } else {
      TypeHeader(item.contentType, s.file);
      assert r == t + CRLF + (CRLF + rest);
      LineLeads(boundary, ACCEPT_ALL, s, t, CRLF + rest);
      var u := s.(buf := CRLF + rest, off := s.off + |t| + 2, file := info);
      LeadsOn(boundary, ACCEPT_ALL, st, s, u);
      BlankLineLeads(boundary, ACCEPT_ALL, u, rest);
      LeadsOn(boundary, ACCEPT_ALL, st, u, AtContent(st, item, info, rest));
    }
  }

  lemma {:induction false} TypeRead(item: Item)
    requires Fits(item)
    ensures NamesRead(item).contentType == item.contentType
  {
  }

  lemma {:induction false} LeadsOn(boundary: string, accept: Answers, s: State, t: State, u: State)
    requires LeadsTo(boundary, accept, s, t) && LeadsTo(boundary, accept, t, u)
    ensures LeadsTo(boundary, accept, s, u)
  {
  }

  // ---- The content of a part ---------------------------------------------------------------------

  /** Where the parser, given the whole body at once, sees the content end. */
  function ContentEnd(d: string, content: string): nat
    requires Find(content + d, d, 0).Some?
  {
    Find(content + d, d, 0).value
  }

  /** In front of its delimiter, a content can only be cut short by a delimiter of its own. */
  lemma {:induction false} ContentEnds(boundary: string, content: string)
    requires CR !in boundary
    ensures var d := Delimiter(boundary);
            Find(content + d, d, 0).Some? && ContentEnd(d, content) <= |content|
            && (ContentEnd(d, content) == |content| <==> !Contains(content, d))
  {
    var d := Delimiter(boundary);
    var s := content + d;
    assert s[|content|..|content| + |d|] == d;
    FindFirst(s, d, 0);
    FindFirst(content, d, 0);
    if Contains(content, d) {
      FindAppend(content, d, d, 0);
    } else {
      forall i: nat | i < |content| ensures !OccursAt(s, d, i) {
        if i + |d| <= |content| {
          OccursAppend(content, d, d, i);
        } else {
          DelimiterChars(boundary, |content| - i);
          NoOverlap(s, d, i, |content| - i);
        }
      }
      FindIs(s, d, 0, |content|);
    }
  }

  /** No occurrence of `pat` runs across a CR that is not its own. */
  lemma {:induction false} NoOverlap(s: string, pat: string, i: nat, j: nat)
    requires j < |pat| && i + j < |s| && s[i + j] == CR && pat[j] != CR
    ensures !OccursAt(s, pat, i)
  {
    if i + |pat| <= |s| { assert s[i..i + |pat|][j] == s[i + j]; }
  }

  /** The only CR of a delimiter is its first character. */
  lemma {:induction false} DelimiterChars(boundary: string, j: nat)
    requires CR !in boundary && 0 < j < |Delimiter(boundary)|
    ensures Delimiter(boundary)[j] != CR
  {
    if j < 4 { assert Delimiter(boundary)[j] == MARK[j]; } else { assert boundary[j - 4] in boundary; }
  }

  lemma {:induction false} ContentScan(boundary: string, content: string, rest: string)
    requires CR !in boundary
    ensures var d := Delimiter(boundary);
            var s := content + d + rest;
            Find(content + d, d, 0).Some? && ContentEnd(d, content) + |d| <= |content| + |d|
            && ScanMark(s) <= ContentEnd(d, content)
            && Find(s, d, ScanMark(s)) == Some(ContentEnd(d, content))
  {
    var d := Delimiter(boundary);
    var s := content + d + rest;
    ContentEnds(boundary, content);
    FindAppend(content + d, rest, d, 0);
    FindFirst(s, d, 0);
    DelimiterMark(boundary);
    MarkAtDelimiter(d, s, ContentEnd(d, content));
    FindStringFirst(s, MARK, 0);
    FindIs(s, d, ScanMark(s), ContentEnd(d, content));
  }

  /** Reading a content ends the part at the first delimiter, and lands if the blocks do. */
  lemma {:induction false} ContentLeads(boundary: string, accept: Answers, st: State, content: string, rest: string)
    requires CR !in boundary && st.phase == Body && st.buf == content + Delimiter(boundary) + rest
    ensures var d := Delimiter(boundary);
            Find(content + d, d, 0).Some? && ContentEnd(d, content) <= |content|
            && RunAll(boundary, accept, st) == RunAll(boundary, accept, EndPart(d, st, ContentEnd(d, content)))
            && (Lands(boundary, accept, st) <==>
                  BodyLands(d, st.buf) && Lands(boundary, accept, EndPart(d, st, ContentEnd(d, content))))
  {
    hide Text.Find, FindString, StopsAt, BodyLands;
    var d := Delimiter(boundary);
    DelimiterMark(boundary);
    ContentEnds(boundary, content);
    ContentScan(boundary, content, rest);
    BodyPass(d, st);
    RunNext(boundary, accept, st);
  }

  /** The condition of fragmentation independence for one content: cut at each mark into blocks as long
      as the delimiter, it ends where a block ends or a mark is looked for. */
  predicate ContentLands(boundary: string, content: string) {
    BodyLands(Delimiter(boundary), content + Delimiter(boundary))
  }

  lemma {:induction false} ContentLandsAppend(boundary: string, content: string, rest: string)
    requires CR !in boundary
    ensures BodyLands(Delimiter(boundary), content + Delimiter(boundary) + rest) == ContentLands(boundary, content)
  {
    hide Text.Find, FindString, StopsAt, BlocksLand;
    var d := Delimiter(boundary);
    ContentEnds(boundary, content);
    var q := ContentEnd(d, content);
    ContentScan(boundary, content, rest);
    ContentScan(boundary, content, "");
    assert content + d + "" == content + d;
    ScanAppend(content + d, rest);
    BlocksAppend(|d|, content + d, rest, q, ScanMark(content + d));
  }

  /** Text behind the delimiter does not matter to the blocks in front of it. */
  lemma {:induction false} BlocksAppend(n: nat, s: string, t: string, q: nat, k: nat)
    requires n >= 4 && k <= q && q + n <= |s|
    ensures BlocksLand(n, s + t, q, k) == BlocksLand(n, s, q, k)
    decreases q - k
  {
    hide FindString, StopsAt;
    if k < q && k + n <= q {
      NextMarkAppend(s, t, k + n);
      var j := NextMark(s, k + n);
      if j <= q {
        BlocksAppend(n, s, t, q, j);
      } else if NextMark(s + t, k + n) <= q {
        assert false;
      }
    }
  }

  lemma {:induction false} NextMarkAppend(s: string, t: string, j: nat)
    requires j <= |s|
    ensures NextMark(s, j) <= NextMark(s + t, j)
    ensures |s| - NextMark(s, j) >= 4 ==> NextMark(s + t, j) == NextMark(s, j)
  {
    FindStringDrop(s, j, 0);
    FindStringDrop(s + t, j, 0);
    assert (s + t)[j..] == s[j..] + t;
    ScanAppend(s[j..], t);
  }

  /** A content without CR LF and two dashes lands under every boundary on one line. */
  lemma {:induction false} NoMarkLands(boundary: string, content: string)
    requires CR !in boundary && !Contains(content, MARK)
    ensures ContentLands(boundary, content) && !Contains(content, Delimiter(boundary))
  {
    var d := Delimiter(boundary);
    var s := content + d;
    ContentScan(boundary, content, "");
    assert s + "" == s;
    FindFirst(content, MARK, 0);
    FindStringFirst(s, MARK, 0);
    forall i: nat | i < |content| ensures !OccursAt(s, MARK, i) {
      if i + 4 <= |content| {
        OccursAppend(content, d, MARK, i);
      } else {
        NoOverlap(s, MARK, i, |content| - i);
      }
    }
    assert ScanMark(s) >= |content|;
    DelimiterMark(boundary);
    forall i: nat ensures !OccursAt(content, d, i) {
      assert !OccursAt(content, MARK, i);
      if i + |d| <= |content| { assert content[i..i + 4] == content[i..i + |d|][..4]; }
    }
    FindNone(content, d, 0);
    ContentEnds(boundary, content);
  }

  // ---- Whole forms -------------------------------------------------------------------------------

  /** A form behind its opening boundary. */
  function Tail(items: seq<Item>, boundary: string): string
    requires items != []
    decreases |items|, 1
  {
    Head(items[0]) + (items[0].content + Delimiter(boundary) + AfterDelimiter(items, boundary))
  }

  /** What follows the delimiter behind the first item's content. */
  function AfterDelimiter(items: seq<Item>, boundary: string): string
    requires items != []
    decreases |items|, 0
  {
    if |items| == 1 then DASHES + CRLF else CRLF + Tail(items[1..], boundary)
  }

  /** The two ways to write the text around a content are the same. */
  lemma {:induction false} Regroup(t: string, o: string, h: string, c: string, boundary: string, r: string)
    ensures t + o + h + c + CRLF + (DASHES + boundary + r) == t + o + (h + (c + Delimiter(boundary) + r))
  {
    assert CRLF + (DASHES + boundary + r) == Delimiter(boundary) + r;
  }

  lemma {:induction false} FormFrom(items: seq<Item>, boundary: string, k: nat)
    requires k < |items|
    ensures ItemsText(items[..k], boundary) + Opening(boundary) + Tail(items[k..], boundary) == Form(items, boundary)
    decreases |items| - k
  {
    hide Head, Opening;
    var item, t := items[k], ItemsText(items[..k], boundary);
    assert items[..k + 1][..k] == items[..k];
    assert ItemsText(items[..k + 1], boundary) == t + Opening(boundary) + Head(item) + item.content + CRLF;
    assert items[k..][1..] == items[k + 1..];
    var o, h, c := Opening(boundary), Head(item), item.content;
    if k + 1 == |items| {
      assert items[..k + 1] == items;
      Regroup(t, o, h, c, boundary, DASHES + CRLF);
      LastLine(ItemsText(items, boundary), boundary);
    } else {
      FormFrom(items, boundary, k + 1);
      var r := Tail(items[k + 1..], boundary);
      Regroup(t, o, h, c, boundary, CRLF + r);
      OpenLine(ItemsText(items[..k + 1], boundary), boundary, r);
    }
  }

  lemma {:induction false} LastLine(t: string, boundary: string)
    ensures t + DASHES + boundary + DASHES + CRLF == t + (DASHES + boundary + (DASHES + CRLF))
  {
  }

  lemma {:induction false} OpenLine(t: string, boundary: string, r: string)
    ensures t + Opening(boundary) + r == t + (DASHES + boundary + (CRLF + r))
  {
  }

  lemma {:induction false} FormOpens(items: seq<Item>, boundary: string)
    requires items != []
    ensures Form(items, boundary) == Opening(boundary) + Tail(items, boundary)
  {
    hide Head, Opening, Tail;
    FormFrom(items, boundary, 0);
    assert items[0..] == items && items[..0] == [];
    assert "" + Opening(boundary) == Opening(boundary);
  }

  predicate Clean(items: seq<Item>, boundary: string) {
    forall i | 0 <= i < |items| :: !Contains(items[i].content, Delimiter(boundary))
  }

  predicate AllLand(items: seq<Item>, boundary: string) {
    forall i | 0 <= i < |items| :: ContentLands(boundary, items[i].content)
  }

  predicate AllReadable(items: seq<Item>) {
    forall i | 0 <= i < |items| :: Readable(items[i])
  }

  /** The parser where the headers of an item begin. */
  predicate AtItems(st: State, items: seq<Item>, boundary: string) {
    st.phase == Headers && st.file == NO_INFO && items != [] && st.buf == Tail(items, boundary)
  }

  /** The state behind the first item of the form. */
  function BehindItem(st: State, item: Item, rest: string, d: string): State {
    st.(phase := AfterBoundary, buf := rest, off := st.off + |Head(item)| + |item.content| + |d|,
        file := InfoOf(item), finished := st.Parts(), current := Some(Part(InfoOf(item), item.content)))
  }

  lemma {:induction false} ItemLeads(boundary: string, st: State, items: seq<Item>)
    requires BoundaryAllowed(boundary) && AtItems(st, items, boundary) && Readable(items[0])
    requires !Contains(items[0].content, Delimiter(boundary))
    ensures var s := BehindItem(st, items[0], AfterDelimiter(items, boundary), Delimiter(boundary));
            RunAll(boundary, ACCEPT_ALL, st) == RunAll(boundary, ACCEPT_ALL, s)
            && (Lands(boundary, ACCEPT_ALL, st) <==>
                  ContentLands(boundary, items[0].content) && Lands(boundary, ACCEPT_ALL, s))
  {
    hide Contains, ContentLands, BodyLands, Head, Run, Lands, ReadHeader, NamesRead, EndsEarly;
    var item, d, rest := items[0], Delimiter(boundary), AfterDelimiter(items, boundary);
    var b := item.content + d + rest;
    assert Readable(item);
    HeadLeads(boundary, st, item, b);
    DispositionHeader(item, NO_INFO);
    var at := AtContent(st, item, InfoOf(item), b);
    ContentEnds(boundary, item.content);
    ContentLeads(boundary, ACCEPT_ALL, at, item.content, rest);
    ContentLandsAppend(boundary, item.content, rest);
    EndPartBehind(st, item, rest, d);
  }

  lemma {:induction false} EndPartBehind(st: State, item: Item, rest: string, d: string)
    requires d != ""
    ensures var b := item.content + d + rest;
            EndPart(d, AtContent(st, item, InfoOf(item), b), |item.content|) == BehindItem(st, item, rest, d)
  {
    hide Head;
    var b := item.content + d + rest;
    assert b[..|item.content|] == item.content;
    assert b[|item.content|..][|d|..] == rest;
    assert "" + item.content == item.content;
  }

  /** A content with a delimiter of its own is cut short for good. */
  lemma {:induction false} ItemCutShort(boundary: string, st: State, items: seq<Item>)
    requires BoundaryAllowed(boundary) && AtItems(st, items, boundary) && Readable(items[0])
    requires Contains(items[0].content, Delimiter(boundary))
    ensures var parts := Settled(RunAll(boundary, ACCEPT_ALL, st)).Parts();
            |st.Parts()| < |parts| ==> parts[|st.Parts()|].content != items[0].content
  {
    hide Contains, ContentLands, BodyLands, Head, Run, Lands, Settled, Text.Find, ReadHeader, NamesRead, EndsEarly;
    var item, d, rest := items[0], Delimiter(boundary), AfterDelimiter(items, boundary);
    var b := item.content + d + rest;
    assert Readable(item);
    HeadLeads(boundary, st, item, b);
    DispositionHeader(item, NO_INFO);
    var at := AtContent(st, item, InfoOf(item), b);
    ContentEnds(boundary, item.content);
    ContentLeads(boundary, ACCEPT_ALL, at, item.content, rest);
    var e := EndPart(d, at, ContentEnd(d, item.content));
    AllTaken(boundary, e);
    RunKept(boundary, ACCEPT_ALL, e);
    assert e.Parts()[|st.Parts()|] == e.current.value;
    assert |e.current.value.content| == ContentEnd(d, item.content);
  }

  lemma {:induction false} LastBoundary(boundary: string, st: State)
    requires st.phase == AfterBoundary && st.buf == DASHES + CRLF
    ensures LeadsTo(boundary, ACCEPT_ALL, st, st.(phase := Done, buf := "", off := st.off + 4, valid := true))
    ensures var s := st.(phase := Done, buf := "", off := st.off + 4, valid := true);
            RunAll(boundary, ACCEPT_ALL, s) == s && Lands(boundary, ACCEPT_ALL, s)
  {
    assert st.buf[..2] == DASHES && st.buf[..4] == DASHES + CRLF && st.buf[4..] == "";
    StepLeads(boundary, ACCEPT_ALL, st, st.(phase := Done, buf := "", off := st.off + 4, valid := true));
  }

  lemma {:induction false} NextBoundary(boundary: string, accept: Answers, st: State, rest: string)
    requires st.phase == AfterBoundary && st.buf == CRLF + rest && rest != ""
    ensures LeadsTo(boundary, accept, st, st.(phase := Headers, buf := rest, off := st.off + 2, file := NO_INFO))
  {
    assert st.buf[..2] == CRLF && st.buf[2..] == rest;
    var s := st.(phase := NewEntry, buf := rest, off := st.off + 2);
    var t := s.(phase := Headers, file := NO_INFO);
    StepLeads(boundary, accept, st, s);
    StepLeads(boundary, accept, s, t);
    LeadsOn(boundary, accept, st, s, t);
  }

  /** The parser has read a complete form: exactly these parts, in order, and nothing is left over. */
  predicate Recovered(st: State, parts: seq<Part>, off: nat) {
    st.phase == Done && st.valid && st.buf == "" && st.off == off && st.Parts() == parts
  }

  /** The state where the headers of the second item begin. */
  function AtSecond(st: State, items: seq<Item>, boundary: string): State
    requires |items| > 1
  {
    var s := BehindItem(st, items[0], AfterDelimiter(items, boundary), Delimiter(boundary));
    s.(phase := Headers, buf := Tail(items[1..], boundary), off := s.off + 2, file := NO_INFO)
  }

  lemma {:induction false} TailLength(items: seq<Item>, boundary: string)
    requires |items| > 1
    ensures |Tail(items, boundary)| == |Head(items[0])| + |items[0].content| + |Delimiter(boundary)| + 2
                                     + |Tail(items[1..], boundary)|
  {
    hide Head, Delimiter;
    var rest := Tail(items[1..], boundary);
    assert AfterDelimiter(items, boundary) == CRLF + rest;
  }

  lemma {:induction false} SecondAccounts(st: State, items: seq<Item>, boundary: string)
    requires |items| > 1
    ensures var t := AtSecond(st, items, boundary);
            t.Parts() + PartsOf(items[1..]) == st.Parts() + PartsOf(items)
            && t.off + |Tail(items[1..], boundary)| == st.off + |Tail(items, boundary)|
  {
    hide Head, Delimiter, Tail, AfterDelimiter;
    TailLength(items, boundary);
    var p, q, part := st.Parts(), PartsOf(items[1..]), Part(InfoOf(items[0]), items[0].content);
    assert p + [part] + q == p + ([part] + q);
  }

  lemma {:induction false} SecondItem(boundary: string, st: State, items: seq<Item>)
    requires BoundaryAllowed(boundary) && AtItems(st, items, boundary) && Readable(items[0])
    requires !Contains(items[0].content, Delimiter(boundary)) && |items| > 1
    ensures var t := AtSecond(st, items, boundary);
            AtItems(t, items[1..], boundary)
            && RunAll(boundary, ACCEPT_ALL, st) == RunAll(boundary, ACCEPT_ALL, t)
            && (Lands(boundary, ACCEPT_ALL, st) <==>
                  ContentLands(boundary, items[0].content) && Lands(boundary, ACCEPT_ALL, t))
  {
    hide Run, Lands, ContentLands, Contains, Readable, Head, Step, Tail;
    ItemLeads(boundary, st, items);
    var s := BehindItem(st, items[0], AfterDelimiter(items, boundary), Delimiter(boundary));
    TailNotEmpty(items[1..], boundary);
    NextBoundary(boundary, ACCEPT_ALL, s, Tail(items[1..], boundary));
  }

  lemma {:induction false} ItemsRecovered(boundary: string, st: State, items: seq<Item>)
    requires BoundaryAllowed(boundary) && AllReadable(items) && AtItems(st, items, boundary)
    requires Clean(items, boundary)
    ensures Recovered(RunAll(boundary, ACCEPT_ALL, st), st.Parts() + PartsOf(items), st.off + |Tail(items, boundary)|)
    ensures Lands(boundary, ACCEPT_ALL, st) <==> AllLand(items, boundary)
    decreases |items|
  {
    hide Run, Lands, ContentLands, Contains, Readable, Head, Step;
    AllLandCons(items, boundary);
    if |items| == 1 {
      ItemLeads(boundary, st, items);
      var s := BehindItem(st, items[0], AfterDelimiter(items, boundary), Delimiter(boundary));
      assert s.Parts() == st.Parts() + [Part(InfoOf(items[0]), items[0].content)];
      LastBoundary(boundary, s);
    } else {
      SecondItem(boundary, st, items);
      SecondAccounts(st, items, boundary);
      ItemsRecovered(boundary, AtSecond(st, items, boundary), items[1..]);
    }
  }

  lemma {:induction false} AllLandCons(items: seq<Item>, boundary: string)
    requires items != []
    ensures AllLand(items, boundary) <==> ContentLands(boundary, items[0].content) && AllLand(items[1..], boundary)
  {
    hide ContentLands;
    forall i | 0 < i < |items| ensures items[i] == items[1..][i - 1] {}
  }

  lemma {:induction false} TailNotEmpty(items: seq<Item>, boundary: string)
    requires items != []
    ensures Tail(items, boundary) != ""
  {
    hide Head;
    assert |Delimiter(boundary)| >= 4;
  }

  // ---- Headers that are read as others -----------------------------------------------------------

  predicate PartInfo(st: State, i: nat, info: FileInfo) {
    i < |st.Parts()| && st.Parts()[i].info == info
  }

  lemma {:induction false} DeliverInfo(st: State, text: string, i: nat, info: FileInfo)
    requires PartInfo(st, i, info)
    ensures PartInfo(st.Deliver(text), i, info)
  {
  }

  lemma {:induction false} StepInfo(boundary: string, st: State, i: nat, info: FileInfo)
    requires st.buf != "" && PartInfo(st, i, info)
    ensures PartInfo(Step(boundary, ACCEPT_ALL, st).st, i, info)
  {
    hide Text.Find, FindString, StopsAt, ReadHeader, State.Deliver, Delimiter;
    if st.phase == Body && |st.buf| >= 4 {
      var n := ScanMark(st.buf);
      DeliverInfo(st, st.buf[..n], i, info);
      var e := st.Emit(n);
      var d := Delimiter(boundary);
      if |d| <= |e.buf| {
        var pos := match Find(e.buf, d, 0) case Some(k) => k case None => |d|;
        DeliverInfo(e, e.buf[..pos], i, info);
      }
    }
  }

  /** The headers of a part do not change any more. */
  lemma {:induction false} RunInfo(boundary: string, st: State, i: nat, info: FileInfo)
    requires PartInfo(st, i, info)
    ensures PartInfo(Settled(RunAll(boundary, ACCEPT_ALL, st)), i, info)
    decreases Rank(st)
  {
    hide Text.Find, FindString, StopsAt, Step, PartInfo, State.Deliver;
    if st.buf == "" {
      SettledInfo(st, i, info);
    } else {
      StepInfo(boundary, st, i, info);
      var o := Step(boundary, ACCEPT_ALL, st);
      if o.Next? {
        StepRank(boundary, ACCEPT_ALL, st);
        RunInfo(boundary, o.st, i, info);
      } else {
        SettledInfo(o.st, i, info);
      }
    }
  }

  lemma {:induction false} SettledInfo(st: State, i: nat, info: FileInfo)
    requires PartInfo(st, i, info)
    ensures PartInfo(Settled(st), i, info)
  {
    hide FindString, StopsAt;
    if st.phase == Body { DeliverInfo(st, st.buf[..ScanMark(st.buf)], i, info); }
  }

  /** An item whose name ends early is announced under another name for good. */
  lemma {:induction false} ItemMisread(boundary: string, st: State, items: seq<Item>)
    requires AtItems(st, items, boundary) && Fits(items[0]) && !Readable(items[0])
    ensures var i := |st.Parts()|;
            var parts := Settled(RunAll(boundary, ACCEPT_ALL, st)).Parts();
            i < |parts| && parts[i].info != InfoOf(items[0])
  {
    hide Contains, Head, Run, Lands, Settled, ReadHeader, NamesRead, EndsEarly;
    var item, rest := items[0], AfterDelimiter(items, boundary);
    var b := item.content + Delimiter(boundary) + rest;
    HeadLeads(boundary, st, item, b);
    DispositionHeader(item, NO_INFO);
    var at := AtContent(st, item, NamesRead(item), b);
    assert PartInfo(at, |st.Parts()|, NamesRead(item));
    RunInfo(boundary, at, |st.Parts()|, NamesRead(item));
  }

  /** Everything that header lines can hold. */
  predicate Sober(info: FileInfo) {
    OneLine(info.name) && OneLine(info.filename) && Trimmed(info.contentType) && !Contains(info.contentType, CRLF)
  }

  predicate AllSober(st: State) {
    Sober(st.file) && (st.current.Some? ==> Sober(st.current.value.info))
    && forall i | 0 <= i < |st.finished| :: Sober(st.finished[i].info)
  }

  lemma {:induction false} PartsSober(st: State)
    requires AllSober(st)
    ensures forall i | 0 <= i < |st.Parts()| :: Sober(st.Parts()[i].info)
  {
    hide Sober;
  }

  lemma {:induction false} TailSober(s: string, filename: string)
    requires TailOf(s, filename)
    ensures OneLine(filename)
  {
    hide White, SameWord;
  }

  /** Whatever the item is, its disposition line gives back name and file name exactly if both are on one line
      and the name does not end early. */
  lemma {:induction false} DispositionIff(item: Item)
    ensures MatchDisposition(DispositionLine(item)) == Some((item.name, item.filename))
       <==> (OneLine(item.name) && OneLine(item.filename) && forall k: nat | k < |item.name| :: !EndsEarly(item, k))
  {
    hide LazyName, MatchDisposition, EndsEarly, Quoted;
    DispositionParses(item);
    if OneLine(item.name) && OneLine(item.filename) {
      var untyped := item.(contentType := "");
      SameQuoted(item, untyped);
      UntypedFits(untyped);
      NameReadsIff(untyped);
    } else if LazyName(Quoted(item), 0).Some? {
      NameParts(Quoted(item));
      var (name, filename) := LazyName(Quoted(item), 0).value;
      TailSober(Quoted(item)[|name| + 1..], filename);
    }
  }

  lemma {:induction false} UntypedFits(item: Item)
    requires OneLine(item.name) && OneLine(item.filename) && item.contentType == ""
    ensures Fits(item)
  {
  }

  lemma {:induction false} SameQuoted(a: Item, b: Item)
    requires a.name == b.name && a.filename == b.filename
    ensures Quoted(a) == Quoted(b)
    ensures forall k: nat :: EndsEarly(a, k) <==> EndsEarly(b, k)
  {
  }

  lemma {:induction false} TrimPart(s: string)
    ensures Trimmed(Trim(s))
    ensures !Contains(s, CRLF) ==> !Contains(Trim(s), CRLF)
  {
    var t := SkipBlanks(s);
    SkipPart(s);
    DropPart(t);
  }

  lemma {:induction false} SkipPart(s: string)
    ensures !Contains(s, CRLF) ==> !Contains(SkipBlanks(s), CRLF)
  {
    if s != "" && IsBlank(s[0]) {
      SkipPart(s[1..]);
      FindDrop(s, CRLF, 1, 0);
      FindFirst(s, CRLF, 0);
      FindFirst(s, CRLF, 1);
    }
  }

  lemma {:induction false} DropPart(s: string)
    ensures !Contains(s, CRLF) ==> !Contains(DropTrailingBlanks(s), CRLF)
    ensures s != "" && !IsBlank(s[0]) ==> DropTrailingBlanks(s) != "" && DropTrailingBlanks(s)[0] == s[0]
  {
    if s != "" && IsBlank(s[|s| - 1]) {
      var t := s[..|s| - 1];
      DropPart(t);
      assert s == t + s[|s| - 1..];
      if Contains(t, CRLF) { FindAppend(t, s[|s| - 1..], CRLF, 0); }
    }
  }

  lemma {:induction false} HeaderSober(file: FileInfo, header: string)
    requires Sober(file) && !Contains(header, CRLF)
    ensures Sober(ReadHeader(file, header))
  {
    hide Text.Find, Trim, LazyName, SkipSpaces;
    if StartsWithIgnoreCase(header, "content-type:") {
      FindDrop(header, CRLF, 13, 0);
      FindFirst(header, CRLF, 0);
      FindFirst(header, CRLF, 13);
      TrimPart(header[13..]);
    } else if MatchDisposition(header).Some? {
      MatchSober(header);
    }
  }

  lemma {:induction false} MatchSober(header: string)
    requires MatchDisposition(header).Some?
    ensures OneLine(MatchDisposition(header).value.0) && OneLine(MatchDisposition(header).value.1)
  {
    hide MatchDisposition, TailOf, SameWord, White;
    ReadMatches(header);
    var (name, filename) := MatchDisposition(header).value;
    var p: Named :| NamedAs(header, p) && p.name == name && TailOf(p.tail, filename);
    TailSober(p.tail, filename);
  }

  lemma {:induction false} DeliverSober(st: State, text: string)
    requires AllSober(st)
    ensures AllSober(st.Deliver(text))
  {
    hide Sober;
  }

  lemma {:induction false} StepSober(boundary: string, accept: Answers, st: State)
    requires st.buf != "" && AllSober(st)
    ensures AllSober(Step(boundary, accept, st).st)
  {
    hide Text.Find, FindString, StopsAt, ReadHeader, State.Deliver, Delimiter, Sober, Contains;
    if st.phase == Body {
      if |st.buf| >= 4 {
        var n := ScanMark(st.buf);
        DeliverSober(st, st.buf[..n]);
        var e := st.Emit(n);
        var d := Delimiter(boundary);
        if |d| <= |e.buf| {
          var pos := match Find(e.buf, d, 0) case Some(k) => k case None => |d|;
          DeliverSober(e, e.buf[..pos]);
        }
      }
    } else if st.phase == Headers {
      if Find(st.buf, CRLF, 0).Some? {
        var pos := Find(st.buf, CRLF, 0).value;
        FirstLine(st.buf, pos);
        HeaderSober(st.file, st.buf[..pos]);
      }
    } else {
      NoInfoSober();
    }
  }

  lemma {:induction false} FirstLine(s: string, pos: nat)
    requires Find(s, CRLF, 0) == Some(pos)
    ensures !Contains(s[..pos], CRLF)
  {
    assert s == s[..pos] + s[pos..];
    if Contains(s[..pos], CRLF) { FindAppend(s[..pos], s[pos..], CRLF, 0); }
  }

  lemma {:induction false} NoInfoSober()
    ensures Sober(NO_INFO)
  {
  }

  /** Whatever is fed and answered, names come without line breaks, and types trimmed and on one line. */
  lemma {:induction false} RunSober(boundary: string, accept: Answers, st: State)
    requires AllSober(st)
    ensures AllSober(Run(boundary, accept, st).0)
    decreases Rank(st)
  {
    hide Text.Find, Step, AllSober;
    if st.buf != "" {
      StepSober(boundary, accept, st);
      var o := Step(boundary, accept, st);
      if o.Next? {
        StepRank(boundary, accept, st);
        RunSober(boundary, accept, o.st);
      }
    }
  }

  lemma {:induction false} PartAt(items: seq<Item>, i: nat)
    requires i < |items|
    ensures PartsOf(items)[i] == Part(InfoOf(items[i]), items[i].content)
  {
    if i > 0 { PartAt(items[1..], i - 1); }
  }

  predicate AllFit(items: seq<Item>) {
    forall i | 0 <= i < |items| :: Fits(items[i])
  }

  /** Items that come back fit on their lines. */
  lemma {:induction false} RecoveredFit(boundary: string, body: string, items: seq<Item>)
    requires Run(boundary, ACCEPT_ALL, Extend(Initial(), body)).0.Parts() == PartsOf(items)
    ensures AllFit(items)
  {
    hide Run, Sober, Text.Find;
    NoInfoSober();
    RunSober(boundary, ACCEPT_ALL, Extend(Initial(), body));
    PartsSober(Run(boundary, ACCEPT_ALL, Extend(Initial(), body)).0);
    forall i | 0 <= i < |items| ensures Fits(items[i]) {
      PartAt(items, i);
      SoberFits(items[i]);
    }
  }

  lemma {:induction false} SoberFits(item: Item)
    ensures Sober(InfoOf(item)) <==> Fits(item)
  {
  }

  lemma {:induction false} ItemsSpoiled(boundary: string, st: State, items: seq<Item>)
    requires BoundaryAllowed(boundary) && AllFit(items) && AtItems(st, items, boundary)
    requires !(Clean(items, boundary) && AllReadable(items))
    ensures Settled(RunAll(boundary, ACCEPT_ALL, st)).Parts() != st.Parts() + PartsOf(items)
    decreases |items|
  {
    hide Run, Lands, ContentLands, Contains, Readable, Head, Step, Settled, Tail, AfterDelimiter, Fits;
    assert (st.Parts() + PartsOf(items))[|st.Parts()|] == Part(InfoOf(items[0]), items[0].content);
    if !Readable(items[0]) {
      ItemMisread(boundary, st, items);
    } else if Contains(items[0].content, Delimiter(boundary)) {
      ItemCutShort(boundary, st, items);
    } else {
      SecondItem(boundary, st, items);
      SecondAccounts(st, items, boundary);
      ItemsSpoiled(boundary, AtSecond(st, items, boundary), items[1..]);
    }
  }

  lemma {:induction false} OpeningRun(boundary: string, accept: Answers, tail: string)
    requires tail != ""
    ensures var st := Initial().(phase := Headers, buf := tail, off := |Opening(boundary)|);
            LeadsTo(boundary, accept, Extend(Initial(), Opening(boundary) + tail), st)
  {
    var p := Opening(boundary);
    var start := Extend(Initial(), p + tail);
    assert start.buf == p + tail;
    assert start.buf[|p|..] == tail && OccursAt(start.buf, p, 0);
    FindIs(start.buf, p, 0, 0);
    var s := Initial().(phase := NewEntry, buf := tail, off := |p|);
    StepLeads(boundary, accept, start, s);
    StepLeads(boundary, accept, s, s.(phase := Headers));
    LeadsOn(boundary, accept, start, s, s.(phase := Headers));
  }

  lemma {:induction false} OpeningLeads(boundary: string, items: seq<Item>)
    requires items != []
    ensures var st := Initial().(phase := Headers, buf := Tail(items, boundary), off := |Opening(boundary)|);
            LeadsTo(boundary, ACCEPT_ALL, Extend(Initial(), Form(items, boundary)), st)
  {
    hide Tail, Form, LeadsTo;
    FormOpens(items, boundary);
    TailNotEmpty(items, boundary);
    OpeningRun(boundary, ACCEPT_ALL, Tail(items, boundary));
  }

  /** Feeding a built form in one call gives back exactly its items, if and only if there are items, no content
      contains the delimiter, and all names and types are readable. */
  lemma {:induction false} FormRoundTrip(items: seq<Item>, boundary: string)
    requires BoundaryAllowed(boundary)
    ensures var body := Form(items, boundary);
            Recovered(Run(boundary, ACCEPT_ALL, Extend(Initial(), body)).0, PartsOf(items), |body|)
            <==> items != [] && Clean(items, boundary) && AllReadable(items)
  {
    hide Run, RunAll, Lands, Readable, Contains, Head, Step, Settled, Form, Fits;
    var body := Form(items, boundary);
    AllTaken(boundary, Extend(Initial(), body));
    if items == [] {
      EmptyForm(boundary);
    } else {
      OpeningLeads(boundary, items);
      FormOpens(items, boundary);
      var st := Initial().(phase := Headers, buf := Tail(items, boundary), off := |Opening(boundary)|);
      assert st.Parts() + PartsOf(items) == PartsOf(items);
      if Clean(items, boundary) && AllReadable(items) {
        ItemsRecovered(boundary, st, items);
      } else {
        if Run(boundary, ACCEPT_ALL, Extend(Initial(), body)).0.Parts() == PartsOf(items) {
          RecoveredFit(boundary, body, items);
          ItemsSpoiled(boundary, st, items);
        }
        DoneSettled(RunAll(boundary, ACCEPT_ALL, st));
      }
    }
  }

  lemma {:induction false} DoneSettled(st: State)
    ensures st.phase != Body ==> Settled(st) == st
  {
  }

  /** A form without items is refused: it starts with the closing delimiter. */
  lemma {:induction false} EmptyForm(boundary: string)
    ensures Run(boundary, ACCEPT_ALL, Extend(Initial(), Form([], boundary))).0.phase == InitialBoundary
  {
    var st, p := Extend(Initial(), Form([], boundary)), Opening(boundary);
    assert st.buf == DASHES + boundary + DASHES + CRLF;
    assert st.buf[..|p|][|boundary| + 2] == '-' && p[|boundary| + 2] == CR;
    FindFirst(st.buf, p, 0);
  }

  /** A caller that stops at the first refusal meets none, and has read the whole form. */
  predicate RecoveredBy(r: (State, bool), parts: seq<Part>, off: nat) {
    r.1 && Recovered(r.0, parts, off)
  }

  lemma {:induction false} SeenRecovered(boundary: string, r: (State, bool), whole: State, parts: seq<Part>, off: nat)
    requires Seen(r) == Seen(Run(boundary, ACCEPT_ALL, whole))
    ensures RecoveredBy(r, parts, off) <==> RecoveredBy(Run(boundary, ACCEPT_ALL, whole), parts, off)
  {
    hide Run, FindString, StopsAt, Text.Find;
  }

  lemma {:induction false} RecoveredAccepted(boundary: string, whole: State, parts: seq<Part>, off: nat)
    requires Sound(whole) && Recovered(Run(boundary, ACCEPT_ALL, whole).0, parts, off)
    ensures RecoveredBy(Run(boundary, ACCEPT_ALL, whole), parts, off)
  {
    hide Run, RunAll;
    AllTaken(boundary, whole);
  }

  /** However a built form is cut into calls, they bring back the items, exactly if there are items, all are
      readable, and every content is free of the delimiter and lands. */
  lemma {:induction false} FormAnyCut(items: seq<Item>, boundary: string)
    requires BoundaryAllowed(boundary)
    ensures (forall chunks: seq<string> | Flatten(chunks) == Form(items, boundary) ::
               RecoveredBy(Calls(boundary, ACCEPT_ALL, Initial(), chunks), PartsOf(items), |Form(items, boundary)|))
            <==> items != [] && Clean(items, boundary) && AllReadable(items) && AllLand(items, boundary)
  {
    hide Run, Lands, Readable, Contains, Head, Step, Form, AllLand, Calls, Recovered, Seen, Clean, AllReadable;
    var body := Form(items, boundary);
    var whole := Extend(Initial(), body);
    FormRoundTrip(items, boundary);
    OneCall(boundary, body);
    if items != [] && Clean(items, boundary) && AllReadable(items) {
      RecoveredAccepted(boundary, whole, PartsOf(items), |body|);
      OpeningLeads(boundary, items);
      var st := Initial().(phase := Headers, buf := Tail(items, boundary), off := |Opening(boundary)|);
      ItemsRecovered(boundary, st, items);
      assert Lands(boundary, ACCEPT_ALL, whole) <==> AllLand(items, boundary);
      AllTaken(boundary, Initial());
      if AllLand(items, boundary) {
        CutIndependentIff(boundary, ACCEPT_ALL, body);
        forall chunks: seq<string> | Flatten(chunks) == body
          ensures RecoveredBy(Calls(boundary, ACCEPT_ALL, Initial(), chunks), PartsOf(items), |body|)
        {
          SeenRecovered(boundary, Calls(boundary, ACCEPT_ALL, Initial(), chunks), whole, PartsOf(items), |body|);
        }
      } else {
        SpoilingCut(boundary, body, PartsOf(items));
      }
    } else {
      assert !RecoveredBy(Calls(boundary, ACCEPT_ALL, Initial(), [body]), PartsOf(items), |body|);
    }
  }

  lemma {:induction false} OneCall(boundary: string, body: string)
    ensures Flatten([body]) == body
    ensures Calls(boundary, ACCEPT_ALL, Initial(), [body]) == Run(boundary, ACCEPT_ALL, Extend(Initial(), body))
  {
    hide Run;
    assert [body][1..] == [] && body + "" == body;
  }

  /** A body that is read in one call, but whose delimiters are not all landed on, has a cut that spoils it. */
  lemma {:induction false} SpoilingCut(boundary: string, body: string, parts: seq<Part>)
    requires !Lands(boundary, ACCEPT_ALL, Extend(Initial(), body))
    requires Recovered(Run(boundary, ACCEPT_ALL, Extend(Initial(), body)).0, parts, |body|)
    ensures exists chunks: seq<string> ::
      Flatten(chunks) == body && !RecoveredBy(Calls(boundary, ACCEPT_ALL, Initial(), chunks), parts, |body|)
  {
    hide Run, Lands, Calls, Seen;
    var whole := Extend(Initial(), body);
    AllTaken(boundary, whole);
    var n := BadCut(boundary, ACCEPT_ALL, whole);
    assert whole.buf == body;
    TwoChunks(boundary, ACCEPT_ALL, body, n);
    var chunks := [body[..n], body[n..]];
    SeenOther(boundary, ACCEPT_ALL, Initial(), chunks, whole);
    assert Flatten(chunks) == body;
    if RecoveredBy(Calls(boundary, ACCEPT_ALL, Initial(), chunks), parts, |body|) {
      SeenParts(Calls(boundary, ACCEPT_ALL, Initial(), chunks), parts, |body|);
    }
    RecoveredAccepted(boundary, whole, parts, |body|);
    SeenParts(Run(boundary, ACCEPT_ALL, whole), parts, |body|);
  }

  lemma {:induction false} SeenParts(r: (State, bool), parts: seq<Part>, off: nat)
    requires RecoveredBy(r, parts, off)
    ensures Seen(r).0.Parts() == parts
  {
  }
}
