/** What header lines of a part mean: the fixed pattern for Content-Disposition, and any other lines. */
module MultipartHeaders {
  import opened Text
  import opened Multipart

  // ---- Words in any letter case ------------------------------------------------------------------

  lemma {:induction false} StartsIff(s: string, lit: string)
    ensures StartsWithIgnoreCase(s, lit) <==> |lit| <= |s| && SameWord(s[..|lit|], lit)
  {
    hide SameLetter, Lower;
    if |lit| <= |s| {
      forall i | 0 <= i < |lit| ensures Lower(s[i]) == Lower(lit[i]) <==> SameLetter(s[..|lit|][i], lit[i]) {
        LowerSame(s[i], lit[i]);
      }
    }
  }

  lemma {:induction false} AfterWord(word: string, lit: string, rest: string)
    requires SameWord(word, lit)
    ensures After(word + rest, lit) == Some(rest)
  {
    hide SameWord, StartsWithIgnoreCase;
    SameLength(word, lit);
    assert (word + rest)[..|lit|] == word && (word + rest)[|lit|..] == rest;
    StartsIff(word + rest, lit);
  }

  lemma {:induction false} SameLength(a: string, b: string)
    requires SameWord(a, b)
    ensures |a| == |b|
  {
  }

  lemma {:induction false} AfterSome(s: string, lit: string)
    requires After(s, lit).Some?
    ensures |lit| <= |s| && SameWord(s[..|lit|], lit) && s == s[..|lit|] + After(s, lit).value
  {
    hide SameWord, StartsWithIgnoreCase;
    StartsIff(s, lit);
  }

  /** A word in any letter case behind white space, when it starts with a letter. */
  lemma {:induction false} AfterWhite(white: string, word: string, lit: string, rest: string)
    requires White(white) && SameWord(word, lit) && lit != "" && 'a' <= lit[0] <= 'z'
    ensures After(SkipSpaces(white + (word + rest)), lit) == Some(rest)
  {
    hide StartsWithIgnoreCase, SkipSpaces, After;
    LowerSame(word[0], lit[0]);
    assert (word + rest)[0] == word[0];
    SkipWhite(white, word + rest);
    AfterWord(word, lit, rest);
  }

  // ---- The pattern -------------------------------------------------------------------------------

  predicate OneLine(s: string) {
    forall i | 0 <= i < |s| :: s[i] != CR && s[i] != LF
  }

  /** A file name parameter: `;`, white space, `filename="` in any letter case, the name, a quote, white space. */
  datatype Filed = Filed(w1: string, word: string, filename: string, w2: string)

  predicate FiledAs(s: string, p: Filed) {
    && s == ";" + (p.w1 + (p.word + (p.filename + ("\"" + p.w2))))
    && White(p.w1) && SameWord(p.word, "filename=\"") && OneLine(p.filename) && White(p.w2)
  }

  /** What may follow the quoted name: nothing but white space, or a file name. */
  ghost predicate TailOf(s: string, filename: string) {
    (White(s) && filename == "") || exists p: Filed :: FiledAs(s, p) && p.filename == filename
  }

  /** A whole line: three words in any letter case, white space between them, the name, a quote and a tail. */
  datatype Named = Named(header: string, w1: string, kind: string, w2: string, word: string, name: string, tail: string)

  predicate NamedAs(line: string, p: Named) {
    && line == p.header + (p.w1 + (p.kind + (p.w2 + (p.word + (p.name + ("\"" + p.tail))))))
    && SameWord(p.header, "Content-Disposition:") && White(p.w1) && SameWord(p.kind, "form-data;")
    && White(p.w2) && SameWord(p.word, "name=\"") && OneLine(p.name)
  }

  /** The line matches the pattern with this name and file name. */
  ghost predicate Matches(line: string, name: string, filename: string) {
    exists p: Named :: NamedAs(line, p) && p.name == name && TailOf(p.tail, filename)
  }

  // ---- The file name -----------------------------------------------------------------------------

  predicate FilenameStop(s: string, k: nat) {
    k < |s| && s[k] == '"' && White(s[k + 1..])
  }

  lemma {:induction false} OneStop(s: string, k: nat, j: nat)
    requires FilenameStop(s, k) && FilenameStop(s, j)
    ensures k == j
  {
  }

  lemma {:induction false} LazyFilenameIs(s: string, k: nat, n: nat)
    requires k <= n && FilenameStop(s, n) && OneLine(s[..n])
    ensures LazyFilename(s, k) == Some(s[..n])
    decreases n - k
  {
    hide SkipSpaces;
    SkippedWhite(s[k + 1..]);
    if k < n {
      assert s[..n][k] == s[k];
      if s[k] == '"' && White(s[k + 1..]) { OneStop(s, k, n); }
      LazyFilenameIs(s, k + 1, n);
    }
  }

  lemma {:induction false} LazyFilenameSome(s: string, k: nat)
    requires k <= |s| && OneLine(s[..k]) && LazyFilename(s, k).Some?
    ensures var r := LazyFilename(s, k).value; |r| <= |s| && r == s[..|r|] && FilenameStop(s, |r|) && OneLine(r)
    decreases |s| - k
  {
    hide SkipSpaces;
    SkippedWhite(s[k + 1..]);
    if !(s[k] == '"' && White(s[k + 1..])) {
      assert s[..k + 1] == s[..k] + [s[k]];
      LazyFilenameSome(s, k + 1);
    }
  }

  lemma {:induction false} FiledRead(s: string, p: Filed)
    requires FiledAs(s, p)
    ensures FilenameParameter(s) == Some(p.filename) && !White(s)
  {
    hide SkipSpaces, After, LazyFilename, SameWord;
    var r := p.filename + ("\"" + p.w2);
    assert s[1..] == p.w1 + (p.word + r) && s[0] == ';';
    AfterWhite(p.w1, p.word, "filename=\"", r);
    assert r[|p.filename| + 1..] == p.w2 && r[..|p.filename|] == p.filename;
    LazyFilenameIs(r, 0, |p.filename|);
  }

  lemma {:induction false} FilenameParts(r: string)
    requires LazyFilename(r, 0).Some?
    ensures var v := LazyFilename(r, 0).value;
            |v| < |r| && r == v + ("\"" + r[|v| + 1..]) && OneLine(v) && White(r[|v| + 1..])
  {
    hide LazyFilename, White;
    assert r[..0] == "";
    LazyFilenameSome(r, 0);
  }

  lemma {:induction false} ReadFiled(s: string) returns (p: Filed)
    requires FilenameParameter(s).Some?
    ensures FiledAs(s, p) && p.filename == FilenameParameter(s).value
  {
    hide SkipSpaces, After, LazyFilename, SameWord, White, OneLine;
    var t := SkipSpaces(s[1..]);
    SkippedWhite(s[1..]);
    AfterSome(t, "filename=\"");
    var r := After(t, "filename=\"").value;
    FilenameParts(r);
    var v, w := LazyFilename(r, 0).value, s[1..][..|s| - 1 - |t|];
    p := Filed(w, t[..10], v, r[|v| + 1..]);
    assert s == ";" + s[1..];
  }

  /** The tail is read exactly if it is one, and then its file name is. */
  lemma {:induction false} TailIff(s: string, filename: string)
    ensures DispositionTail(s) == Some(filename) <==> TailOf(s, filename)
  {
    hide FilenameParameter, SkipSpaces, FiledAs;
    SkippedWhite(s);
    if p: Filed :| FiledAs(s, p) && p.filename == filename { FiledRead(s, p); }
    if FilenameParameter(s).Some? {
      var p := ReadFiled(s);
      FiledRead(s, p);
    }
  }

  // ---- The name ----------------------------------------------------------------------------------

  /** Where the lazy name can end. */
  predicate NameStop(s: string, k: nat) {
    k < |s| && s[k] == '"' && DispositionTail(s[k + 1..]).Some?
  }

  /** The name ends at the first place where it can. */
  lemma {:induction false} LazyNameStops(s: string, k: nat, n: nat)
    requires k <= n && NameStop(s, n) && OneLine(s[..n])
    ensures LazyName(s, k).Some? && |LazyName(s, k).value.0| <= n
    ensures (forall i: nat | k <= i < n :: !NameStop(s, i)) ==>
      LazyName(s, k) == Some((s[..n], DispositionTail(s[n + 1..]).value))
    decreases n - k
  {
    hide DispositionTail;
    var here := NameStop(s, k);
    if k < n {
      assert s[k] == s[..n][k];
      LazyNameStops(s, k + 1, n);
    }
  }

  lemma {:induction false} LazyNameSome(s: string, k: nat)
    requires k <= |s| && OneLine(s[..k]) && LazyName(s, k).Some?
    ensures var (name, filename) := LazyName(s, k).value;
            |name| < |s| && s == name + ("\"" + s[|name| + 1..]) && OneLine(name) && TailOf(s[|name| + 1..], filename)
    decreases |s| - k
  {
    hide DispositionTail, TailOf;
    if s[k] == '"' && DispositionTail(s[k + 1..]).Some? {
      TailIff(s[k + 1..], DispositionTail(s[k + 1..]).value);
    } else {
      assert s[..k + 1] == s[..k] + [s[k]];
      LazyNameSome(s, k + 1);
    }
  }

  lemma {:induction false} NamedParts(line: string, p: Named)
    requires NamedAs(line, p)
    ensures MatchDisposition(line) == LazyName(p.name + ("\"" + p.tail), 0)
  {
    hide SkipSpaces, After, LazyName, SameWord;
    var r := p.name + ("\"" + p.tail);
    AfterWhite(p.w2, p.word, "name=\"", r);
    AfterWhite(p.w1, p.kind, "form-data;", p.w2 + (p.word + r));
    AfterWord(p.header, "Content-Disposition:", p.w1 + (p.kind + (p.w2 + (p.word + r))));
  }

  /** A line that matches in some way is read, with a name that is not longer, and with that file name if it is
      as long. */
  lemma {:induction false} MatchRead(line: string, name: string, filename: string)
    requires Matches(line, name, filename)
    ensures MatchDisposition(line).Some?
    ensures var (n, f) := MatchDisposition(line).value; |n| <= |name| && (|n| == |name| ==> n == name && f == filename)
  {
    hide LazyName, MatchDisposition, TailOf, SameWord;
    var p: Named :| NamedAs(line, p) && p.name == name && TailOf(p.tail, filename);
    NamedParts(line, p);
    var r := name + ("\"" + p.tail);
    assert r[..|name|] == name && r[|name| + 1..] == p.tail && r[..0] == "";
    TailIff(p.tail, filename);
    LazyNameStops(r, 0, |name|);
    LazyNameSome(r, 0);
    var (n, f) := LazyName(r, 0).value;
    assert n == r[..|n|];
    TailIff(p.tail, f);
  }

  lemma {:induction false} NameParts(r: string)
    requires LazyName(r, 0).Some?
    ensures var (name, filename) := LazyName(r, 0).value;
            |name| < |r| && r == name + ("\"" + r[|name| + 1..]) && OneLine(name) && TailOf(r[|name| + 1..], filename)
  {
    hide LazyName, TailOf;
    assert r[..0] == "";
    LazyNameSome(r, 0);
  }

  /** A word behind white space, taken apart. */
  lemma {:induction false} WordBehind(s: string, lit: string)
    requires After(SkipSpaces(s), lit).Some?
    ensures |lit| <= |SkipSpaces(s)|
    ensures var t := SkipSpaces(s);
            var white, word, rest := s[..|s| - |t|], t[..|lit|], After(t, lit).value;
            White(white) && SameWord(word, lit) && s == white + (word + rest)
  {
    hide SkipSpaces, After, SameWord, White;
    SkippedWhite(s);
    AfterSome(SkipSpaces(s), lit);
  }

  lemma {:induction false} ReadMatches(line: string)
    requires MatchDisposition(line).Some?
    ensures Matches(line, MatchDisposition(line).value.0, MatchDisposition(line).value.1)
  {
    hide SkipSpaces, After, LazyName, SameWord, TailOf, White, OneLine;
    AfterSome(line, "Content-Disposition:");
    var a := After(line, "Content-Disposition:").value;
    WordBehind(a, "form-data;");
    var t := SkipSpaces(a);
    var b := After(t, "form-data;").value;
    WordBehind(b, "name=\"");
    var u := SkipSpaces(b);
    var r := After(u, "name=\"").value;
    NameParts(r);
    var (name, filename) := LazyName(r, 0).value;
    var p := Named(line[..20], a[..|a| - |t|], t[..10], b[..|b| - |u|], u[..6], name, r[|name| + 1..]);
    assert NamedAs(line, p);
  }

  /** A Content-Disposition line is read if and only if it matches the pattern, in any letter case and with any white
      space; the name is the shortest with which it does. */
  lemma {:induction false} MatchIff(line: string, name: string, filename: string)
    ensures MatchDisposition(line) == Some((name, filename))
       <==> (Matches(line, name, filename) && forall n: string, f: string | Matches(line, n, f) :: |name| <= |n|)
  {
    hide MatchDisposition, Matches;
    if MatchDisposition(line).Some? { ReadMatches(line); }
    forall n: string, f: string | Matches(line, n, f)
      ensures MatchDisposition(line).Some? && |MatchDisposition(line).value.0| <= |n|
    {
      MatchRead(line, n, f);
    }
    if Matches(line, name, filename) { MatchRead(line, name, filename); }
  }

  // ---- All lines of a part -----------------------------------------------------------------------

  predicate BeginsWith(line: string, word: string) {
    |line| >= |word| && SameWord(line[..|word|], word)
  }

  const TYPE_WORD: string := "Content-Type:"
  const DISPOSITION_WORD: string := "Content-Disposition:"

  /** The last Content-Type line, in any letter case, without the blanks around its value. */
  function LastType(lines: seq<string>): string {
    if lines == [] then ""
    else
      var line := lines[|lines| - 1];
      if BeginsWith(line, TYPE_WORD) then Trim(line[|TYPE_WORD|..]) else LastType(lines[..|lines| - 1])
  }

  /** The last line that matches the pattern for Content-Disposition. */
  function LastNames(lines: seq<string>): (string, string) {
    if lines == [] then ("", "")
    else
      match MatchDisposition(lines[|lines| - 1])
      case Some(names) => names
      case None => LastNames(lines[..|lines| - 1])
  }

  /** What the lines of a part say about it. */
  function InfoOfLines(lines: seq<string>): FileInfo {
    FileInfo(LastNames(lines).0, LastNames(lines).1, LastType(lines))
  }

  /** What the parser makes of them, one after the other. */
  function Noted(file: FileInfo, lines: seq<string>): FileInfo
    decreases |lines|
  {
    if lines == [] then file else Noted(ReadHeader(file, lines[0]), lines[1..])
  }

  lemma {:induction false} NotedLast(file: FileInfo, lines: seq<string>)
    requires lines != []
    ensures Noted(file, lines) == ReadHeader(Noted(file, lines[..|lines| - 1]), lines[|lines| - 1])
    decreases |lines|
  {
    hide ReadHeader;
    if |lines| > 1 {
      NotedLast(ReadHeader(file, lines[0]), lines[1..]);
      assert lines[1..][..|lines| - 2] == lines[..|lines| - 1][1..];
    } else {
      assert lines[1..] == [] && lines[..0] == [];
    }
  }

  /** One line: a type, in any letter case, sets the type; a disposition that matches sets both names; any other
      line changes nothing. */
  lemma {:induction false} LineRead(file: FileInfo, line: string)
    ensures BeginsWith(line, TYPE_WORD) ==>
      ReadHeader(file, line) == file.(contentType := Trim(line[|TYPE_WORD|..])) && MatchDisposition(line) == None
    ensures !BeginsWith(line, TYPE_WORD) && MatchDisposition(line).Some? ==>
      ReadHeader(file, line)
      == file.(name := MatchDisposition(line).value.0, filename := MatchDisposition(line).value.1)
    ensures !BeginsWith(line, TYPE_WORD) && MatchDisposition(line).None? ==> ReadHeader(file, line) == file
    ensures MatchDisposition(line).Some? ==> BeginsWith(line, DISPOSITION_WORD)
  {
    hide SameWord, StartsWithIgnoreCase, Trim, FormDataParameters;
    StartsIff(line, "content-type:");
    if |line| >= 13 { SameTypeWord(line[..13]); }
    if MatchDisposition(line).Some? {
      AfterSome(line, DISPOSITION_WORD);
      TwoWords(line);
    }
  }

  lemma {:induction false} SameTypeWord(a: string)
    ensures SameWord(a, "content-type:") <==> SameWord(a, TYPE_WORD)
  {
    if |a| == 13 {
      var small, word := "content-type:", TYPE_WORD;
      LetterCase();
      forall i | 0 <= i < 13 ensures SameLetter(a[i], small[i]) <==> SameLetter(a[i], word[i]) {
        LowerSame(a[i], small[i]);
        LowerSame(a[i], word[i]);
      }
    }
  }

  lemma {:induction false} LetterCase()
    ensures forall i | 0 <= i < 13 :: Lower("content-type:"[i]) == Lower(TYPE_WORD[i])
  {
  }

  lemma {:induction false} TwoWords(line: string)
    ensures !(BeginsWith(line, TYPE_WORD) && BeginsWith(line, DISPOSITION_WORD))
  {
    if |line| >= 20 {
      assert line[..13][8] == line[8] && line[..20][8] == line[8];
      assert TYPE_WORD[8] == 'T' && DISPOSITION_WORD[8] == 'D';
      LowerSame(line[8], 'T');
      LowerSame(line[8], 'D');
    }
  }

  /** What the parser notes of a part is what its last lines of either kind say, whatever else there is. */
  lemma {:induction false} NotedIs(lines: seq<string>)
    ensures Noted(NO_INFO, lines) == InfoOfLines(lines)
    decreases |lines|
  {
    hide ReadHeader, MatchDisposition, BeginsWith, Trim;
    if lines != [] {
      var before := lines[..|lines| - 1];
      NotedIs(before);
      NotedLast(NO_INFO, lines);
      LineRead(Noted(NO_INFO, before), lines[|lines| - 1]);
    }
  }

  /** The lines of the two kinds that are looked at. */
  function Relevant(lines: seq<string>): seq<string> {
    if lines == [] then []
    else
      var line := lines[|lines| - 1];
      Relevant(lines[..|lines| - 1])
      + if BeginsWith(line, TYPE_WORD) || BeginsWith(line, DISPOSITION_WORD) then [line] else []
  }

  /** Lines of other kinds do not count. */
  lemma {:induction false} OthersIgnored(lines: seq<string>)
    ensures InfoOfLines(Relevant(lines)) == InfoOfLines(lines)
    decreases |lines|
  {
    hide MatchDisposition, BeginsWith, Trim;
    if lines != [] {
      var before, line := lines[..|lines| - 1], lines[|lines| - 1];
      OthersIgnored(before);
      LineRead(NO_INFO, line);
      if BeginsWith(line, TYPE_WORD) || BeginsWith(line, DISPOSITION_WORD) {
        assert Relevant(lines)[..|Relevant(lines)| - 1] == Relevant(before);
      } else {
        assert Relevant(lines) == Relevant(before);
      }
    }
  }
}
