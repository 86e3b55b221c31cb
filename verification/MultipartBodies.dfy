/** Bodies that others have written: any header lines, any contents, text behind the end. */
module MultipartBodies {
  import opened Text
  import opened Multipart
  import opened MultipartFragments
  import opened MultipartHeaders
  import opened MultipartStraddle
  import opened MultipartRoundTrip

  /** One part as it stands in a body. */
  datatype Section = Section(lines: seq<string>, content: string)

  predicate HeaderLine(line: string) {
    line != "" && !Contains(line, CRLF)
  }

  /** Header lines are lines, and no content has CR LF and two dashes. */
  predicate WithoutMarks(sections: seq<Section>) {
    forall i | 0 <= i < |sections| ::
      !Contains(sections[i].content, MARK)
      && forall j | 0 <= j < |sections[i].lines| :: HeaderLine(sections[i].lines[j])
  }

  function LinesText(lines: seq<string>): string {
    if lines == [] then "" else lines[0] + CRLF + LinesText(lines[1..])
  }

  /** A body behind its opening boundary, with an epilogue. */
  function SectionsText(sections: seq<Section>, boundary: string, epilogue: string): string
    requires sections != []
    decreases |sections|, 1
  {
    LinesText(sections[0].lines)
    + (CRLF + (sections[0].content + Delimiter(boundary) + BehindSection(sections, boundary, epilogue)))
  }

  function BehindSection(sections: seq<Section>, boundary: string, epilogue: string): string
    requires sections != []
    decreases |sections|, 0
  {
    if |sections| == 1 then DASHES + CRLF + epilogue else CRLF + SectionsText(sections[1..], boundary, epilogue)
  }

  /** The parser behind header lines. */
  function BehindLines(st: State, lines: seq<string>, rest: string): State {
    st.(buf := rest, off := st.off + |LinesText(lines)|, file := Noted(st.file, lines))
  }

  lemma {:induction false} LinesLead(boundary: string, accept: Answers, st: State, lines: seq<string>, rest: string)
    requires st.phase == Headers && st.buf == LinesText(lines) + rest
    requires forall j | 0 <= j < |lines| :: HeaderLine(lines[j])
    ensures LeadsTo(boundary, accept, st, BehindLines(st, lines, rest))
    decreases |lines|
  {
    hide Contains, ReadHeader, LeadsTo;
    if lines == [] {
      assert st.buf == rest;
      LeadsSelf(boundary, accept, st);
    } else {
      var r := LinesText(lines[1..]) + rest;
      assert st.buf == lines[0] + CRLF + r;
      assert HeaderLine(lines[0]);
      LineLeads(boundary, accept, st, lines[0], r);
      var s := st.(buf := r, off := st.off + |lines[0]| + 2, file := ReadHeader(st.file, lines[0]));
      LinesLead(boundary, accept, s, lines[1..], rest);
      LeadsOn(boundary, accept, st, s, BehindLines(s, lines[1..], rest));
    }
  }

  lemma {:induction false} LeadsSelf(boundary: string, accept: Answers, st: State)
    ensures LeadsTo(boundary, accept, st, st)
  {
  }

  /** The content of a section without a mark, up to the end of its delimiter. */
  lemma {:induction false} SectionLands(boundary: string, accept: Answers, st: State, content: string, rest: string)
    requires CR !in boundary && st.phase == Body && st.current.Some? && !Contains(content, MARK)
    requires st.buf == content + Delimiter(boundary) + rest
    ensures var s := EndPart(Delimiter(boundary), st, |content|);
            (Lands(boundary, accept, st) <==> Lands(boundary, accept, s)) && s.phase == AfterBoundary && s.buf == rest
  {
    hide Contains, Lands, Run, BodyLands, ContentLands, Text.Find;
    NoMarkLands(boundary, content);
    ContentEnds(boundary, content);
    ContentLeads(boundary, accept, st, content, rest);
    ContentLandsAppend(boundary, content, rest);
    assert st.buf[|content|..][|Delimiter(boundary)|..] == rest;
  }

  lemma {:induction false} EndLands(boundary: string, accept: Answers, st: State, epilogue: string)
    requires st.phase == AfterBoundary && st.buf == DASHES + CRLF + epilogue
    ensures Lands(boundary, accept, st)
  {
    hide Text.Find;
    assert st.buf[..2] == DASHES && st.buf[..4] == DASHES + CRLF && st.buf[4..] == epilogue;
    var s := st.(phase := Done, buf := epilogue, off := st.off + 4, valid := true);
    StepLeads(boundary, accept, st, s);
    assert Lands(boundary, accept, s);
  }

  lemma {:induction false} SectionsLand(boundary: string, accept: Answers, st: State, sections: seq<Section>,
                                        epilogue: string)
    requires CR !in boundary && sections != [] && WithoutMarks(sections)
    requires st.phase == Headers && st.buf == SectionsText(sections, boundary, epilogue)
    ensures Lands(boundary, accept, st)
    decreases |sections|
  {
    hide Contains, Lands, Run, LeadsTo, ReadHeader, Delimiter, SectionsText, HeaderLine;
    var section, rest := sections[0], BehindSection(sections, boundary, epilogue);
    var b := section.content + Delimiter(boundary) + rest;
    FirstSection(sections, boundary, epilogue);
    LinesLead(boundary, accept, st, section.lines, CRLF + b);
    var t := BehindLines(st, section.lines, CRLF + b);
    if !accept(t.Announce().Parts()) {
      LeadsLands(boundary, accept, st, t);
      DeclinedLands(boundary, accept, t, b);
      return;
    }
    BlankLineLeads(boundary, accept, t, b);
    var at := t.Announce().(phase := Body, buf := b, off := t.off + 2);
    LeadsOn(boundary, accept, st, t, at);
    LeadsLands(boundary, accept, st, at);
    SectionLands(boundary, accept, at, section.content, rest);
    var s := EndPart(Delimiter(boundary), at, |section.content|);
    if |sections| == 1 {
      EndLands(boundary, accept, s, epilogue);
    } else {
      var more := SectionsText(sections[1..], boundary, epilogue);
      SectionsNotEmpty(sections[1..], boundary, epilogue);
      NextBoundary(boundary, accept, s, more);
      var next := s.(phase := Headers, buf := more, off := s.off + 2, file := NO_INFO);
      LeadsLands(boundary, accept, s, next);
      SectionsLand(boundary, accept, next, sections[1..], epilogue);
    }
  }

  /** Nothing is looked for behind the headers of a part that is refused. */
  lemma {:induction false} DeclinedLands(boundary: string, accept: Answers, st: State, rest: string)
    requires st.phase == Headers && st.buf == CRLF + rest && !accept(st.Announce().Parts())
    ensures Lands(boundary, accept, st)
  {
    hide Text.Find;
    assert st.buf[..2] == CRLF;
    assert OccursAt(st.buf, CRLF, 0);
    FindIs(st.buf, CRLF, 0, 0);
  }

  lemma {:induction false} LeadsLands(boundary: string, accept: Answers, s: State, t: State)
    requires LeadsTo(boundary, accept, s, t)
    ensures Lands(boundary, accept, s) == Lands(boundary, accept, t)
  {
  }

  lemma {:induction false} FirstSection(sections: seq<Section>, boundary: string, epilogue: string)
    requires sections != []
    ensures SectionsText(sections, boundary, epilogue)
            == LinesText(sections[0].lines)
               + (CRLF + (sections[0].content + Delimiter(boundary) + BehindSection(sections, boundary, epilogue)))
  {
  }

  lemma {:induction false} SectionsNotEmpty(sections: seq<Section>, boundary: string, epilogue: string)
    requires sections != []
    ensures SectionsText(sections, boundary, epilogue) != ""
  {
    hide LinesText;
    assert CRLF != "";
  }

  /** Any well-formed body, with any header lines and anything behind its end, can be cut in any way, if no
      content has CR LF and two dashes; also when one of its parts is refused. */
  lemma {:induction false} WithoutMarksIndependent(boundary: string, accept: Answers, sections: seq<Section>,
                                                   epilogue: string)
    requires ContentAccepted(accept) && CR !in boundary && sections != [] && WithoutMarks(sections)
    ensures CutIndependent(boundary, accept, Opening(boundary) + SectionsText(sections, boundary, epilogue))
  {
    hide Lands, Run, SectionsText, CutIndependent, WithoutMarks, Opening, ContentAccepted;
    var p, tail := Opening(boundary), SectionsText(sections, boundary, epilogue);
    SectionsNotEmpty(sections, boundary, epilogue);
    OpeningRun(boundary, accept, tail);
    LeadsLands(boundary, accept, Extend(Initial(), p + tail), Initial().(phase := Headers, buf := tail, off := |p|));
    SectionsLand(boundary, accept, Initial().(phase := Headers, buf := tail, off := |p|), sections, epilogue);
    CutIndependentIff(boundary, accept, p + tail);
  }

  // ---- What is read from a body ------------------------------------------------------------------

  /** No content has the delimiter, and header lines are lines. */
  predicate WellFormed(boundary: string, sections: seq<Section>) {
    forall i | 0 <= i < |sections| ::
      !Contains(sections[i].content, Delimiter(boundary))
      && forall j | 0 <= j < |sections[i].lines| :: HeaderLine(sections[i].lines[j])
  }

  /** The parts that the callbacks are given, up to the first one refused, and whether none is. */
  function Delivered(accept: Answers, parts: seq<Part>, sections: seq<Section>): (seq<Part>, bool)
    decreases |sections|
  {
    if sections == [] then (parts, true)
    else
      var announced := Part(InfoOfLines(sections[0].lines), "");
      if !accept(parts + [announced]) then (parts + [announced], false)
      else Delivered(accept, parts + [announced.(content := sections[0].content)], sections[1..])
  }

  /** The parser where the content of a section begins. */
  function AtSection(st: State, section: Section, rest: string): State {
    BehindLines(st, section.lines, CRLF + rest).Announce().(phase := Body, buf := rest,
      off := st.off + |LinesText(section.lines)| + 2)
  }

  /** And behind the delimiter that ends it. */
  function BehindContent(boundary: string, st: State, section: Section, rest: string): State {
    var info := Noted(st.file, section.lines);
    st.(phase := AfterBoundary, buf := rest, file := info,
        off := st.off + |LinesText(section.lines)| + 2 + |section.content| + |Delimiter(boundary)|,
        finished := st.Parts(), current := Some(Part(info, section.content)))
  }

  lemma {:induction false} SectionRun(boundary: string, accept: Answers, st: State, section: Section, rest: string)
    requires CR !in boundary && WellFormed(boundary, [section]) && st.phase == Headers
    requires st.buf == LinesText(section.lines) + (CRLF + (section.content + Delimiter(boundary) + rest))
    ensures var b := section.content + Delimiter(boundary) + rest;
            var t := BehindLines(st, section.lines, CRLF + b);
            if accept(t.Announce().Parts())
            then RunAll(boundary, accept, st) == RunAll(boundary, accept, BehindContent(boundary, st, section, rest))
            else RunAll(boundary, accept, st) == t && Declined(accept, t)
  {
    hide Contains, Lands, RunAll, Noted, BodyLands, Text.Find, Delimiter;
    var d, content := Delimiter(boundary), section.content;
    var b := content + d + rest;
    var t := BehindLines(st, section.lines, CRLF + b);
    assert [section][0] == section;
    LinesLead(boundary, accept, st, section.lines, CRLF + b);
    if accept(t.Announce().Parts()) {
      BlankLineLeads(boundary, accept, t, b);
      var at := AtSection(st, section, b);
      ContentEnds(boundary, content);
      ContentLeads(boundary, accept, at, content, rest);
      PartEnded(boundary, st, section, rest);
    } else {
      DeclinedHere(boundary, accept, t, b);
    }
  }

  lemma {:induction false} PartEnded(boundary: string, st: State, section: Section, rest: string)
    ensures EndPart(Delimiter(boundary), AtSection(st, section, section.content + Delimiter(boundary) + rest),
                    |section.content|)
         == BehindContent(boundary, st, section, rest)
  {
    hide Noted, LinesText, Delimiter;
    var d, content := Delimiter(boundary), section.content;
    var b := content + d + rest;
    assert b[..|content|] == content && b[|content|..][|d|..] == rest && "" + content == content;
  }

  lemma {:induction false} DeclinedHere(boundary: string, accept: Answers, st: State, rest: string)
    requires st.phase == Headers && st.buf == CRLF + rest && !accept(st.Announce().Parts())
    ensures Declined(accept, st) && RunAll(boundary, accept, st) == st
  {
    hide Text.Find;
    assert st.buf[..2] == CRLF;
    assert OccursAt(st.buf, CRLF, 0);
    FindIs(st.buf, CRLF, 0, 0);
  }

  /** The last boundary line, and what is behind it. */
  lemma {:induction false} EndRun(boundary: string, accept: Answers, st: State, epilogue: string)
    requires st.phase == AfterBoundary && st.buf == DASHES + CRLF + epilogue
    ensures RunAll(boundary, accept, st)
         == st.(phase := Done, buf := epilogue, off := st.off + 4, valid := epilogue == "")
  {
    hide Text.Find;
    assert st.buf[..2] == DASHES && st.buf[..4] == DASHES + CRLF && st.buf[4..] == epilogue;
    var s := st.(phase := Done, buf := epilogue, off := st.off + 4, valid := true);
    StepLeads(boundary, accept, st, s);
    assert RunAll(boundary, accept, s) == if epilogue == "" then s else s.(valid := false);
  }

  lemma {:induction false} SectionsRun(boundary: string, accept: Answers, st: State, sections: seq<Section>,
                                       epilogue: string)
    requires CR !in boundary && sections != [] && WellFormed(boundary, sections)
    requires st.phase == Headers && st.file == NO_INFO && st.buf == SectionsText(sections, boundary, epilogue)
    ensures var r := RunAll(boundary, accept, st);
            var (parts, all) := Delivered(accept, st.Parts(), sections);
            && Told(accept, r).Parts() == parts
            && (all ==> r.phase == Done && r.valid == (epilogue == "") && r.buf == epilogue
                        && r.off + |epilogue| == st.off + |st.buf|)
            && (!all ==> Declined(accept, r))
    decreases |sections|
  {
    hide RunAll, Lands, Noted, InfoOfLines, Contains, Delimiter, SectionsText, LinesText, Text.Find;
    var section, rest := sections[0], BehindSection(sections, boundary, epilogue);
    var b := section.content + Delimiter(boundary) + rest;
    FirstSection(sections, boundary, epilogue);
    assert WellFormed(boundary, [section]);
    SectionRun(boundary, accept, st, section, rest);
    NotedIs(section.lines);
    var t := BehindLines(st, section.lines, CRLF + b);
    assert t.Announce().Parts() == st.Parts() + [Part(InfoOfLines(section.lines), "")];
    if accept(t.Announce().Parts()) {
      var s := BehindContent(boundary, st, section, rest);
      assert s.Parts() == st.Parts() + [Part(InfoOfLines(section.lines), section.content)];
      if |sections| == 1 {
        EndRun(boundary, accept, s, epilogue);
        assert sections[1..] == [];
      } else {
        var more := SectionsText(sections[1..], boundary, epilogue);
        SectionsNotEmpty(sections[1..], boundary, epilogue);
        NextBoundary(boundary, accept, s, more);
        var next := s.(phase := Headers, buf := more, off := s.off + 2, file := NO_INFO);
        assert WellFormed(boundary, sections[1..]) by {
          forall i | 0 <= i < |sections| - 1 ensures sections[1..][i] == sections[i + 1] {}
        }
        SectionsRun(boundary, accept, next, sections[1..], epilogue);
      }
    }
  }

  /** A well-formed body fed in one call, with any header lines and anything behind its end: the callbacks are given
      exactly the parts of the body, in order, each under what its header lines say, up to the first part that they
      refuse; the form is valid exactly if none is refused and nothing follows it. */
  lemma {:induction false} BodyRead(boundary: string, accept: Answers, sections: seq<Section>, epilogue: string)
    requires ContentAccepted(accept) && CR !in boundary && sections != [] && WellFormed(boundary, sections)
    ensures var body := Opening(boundary) + SectionsText(sections, boundary, epilogue);
            var (s, ret) := Feed(boundary, accept, Initial(), body);
            var (parts, all) := Delivered(accept, [], sections);
            && s.Parts() == parts
            && ret == s.valid == (all && epilogue == "")
            && s.phase == (if all then Done else Headers)
            && (all ==> s.buf == epilogue && s.off + |epilogue| == |body|)
  {
    hide Lands, Run, RunAll, SectionsText, WellFormed, Opening, ContentAccepted, Delivered, Text.Find;
    var p, tail := Opening(boundary), SectionsText(sections, boundary, epilogue);
    SectionsNotEmpty(sections, boundary, epilogue);
    OpeningRun(boundary, accept, tail);
    var start := Extend(Initial(), p + tail);
    RunAccepting(boundary, accept, start);
    SectionsRun(boundary, accept, Initial().(phase := Headers, buf := tail, off := |p|), sections, epilogue);
    var r := RunAll(boundary, accept, start);
    NotDeclined(boundary, accept, r);
  }

  /** The same sections but for header lines of other kinds than the two that are looked at. */
  predicate SameButOthers(a: seq<Section>, b: seq<Section>) {
    |a| == |b|
    && forall i | 0 <= i < |a| :: a[i].content == b[i].content && Relevant(a[i].lines) == Relevant(b[i].lines)
  }

  lemma {:induction false} DeliveredSame(accept: Answers, parts: seq<Part>, a: seq<Section>, b: seq<Section>)
    requires SameButOthers(a, b)
    ensures Delivered(accept, parts, a) == Delivered(accept, parts, b)
    decreases |a|
  {
    hide InfoOfLines, Relevant;
    if a != [] {
      OthersIgnored(a[0].lines);
      OthersIgnored(b[0].lines);
      DeliveredSame(accept, parts + [Part(InfoOfLines(a[0].lines), a[0].content)], a[1..], b[1..]);
    }
  }

  /** Lines like Content-Length or Content-Transfer-Encoding, put into the headers of any parts, make no difference
      to the parts, to the phase, to validity or to the answer. */
  lemma {:induction false} OtherLinesIgnored(boundary: string, accept: Answers, a: seq<Section>, b: seq<Section>,
                                             epilogue: string)
    requires ContentAccepted(accept) && CR !in boundary && a != [] && SameButOthers(a, b)
    requires WellFormed(boundary, a) && WellFormed(boundary, b)
    ensures var (s, ret) := Feed(boundary, accept, Initial(), Opening(boundary) + SectionsText(a, boundary, epilogue));
            var (t, ret') := Feed(boundary, accept, Initial(), Opening(boundary) + SectionsText(b, boundary, epilogue));
            s.Parts() == t.Parts() && s.phase == t.phase && s.valid == t.valid && ret == ret'
  {
    hide Feed, SectionsText, WellFormed, Opening, ContentAccepted, Delivered, SameButOthers;
    DeliveredSame(accept, [], a, b);
    SameLength(a, b);
    BodyRead(boundary, accept, a, epilogue);
    BodyRead(boundary, accept, b, epilogue);
  }

  lemma {:induction false} SameLength(a: seq<Section>, b: seq<Section>)
    requires SameButOthers(a, b)
    ensures |a| == |b|
  {
  }

  // ---- Input that fits nowhere -------------------------------------------------------------------

  /** A body that does not begin with the opening boundary line is refused as soon as that can be told. */
  lemma {:induction false} NotOpened(boundary: string, accept: Answers, body: string)
    requires !(Opening(boundary) <= body)
    ensures Feed(boundary, accept, Initial(), body) == (Extend(Initial(), body), |body| < |Opening(boundary)|)
  {
    hide Text.Find, Opening;
    var st, p := Extend(Initial(), body), Opening(boundary);
    assert st.buf == body;
    FindFirst(body, p, 0);
    assert p <= body <==> OccursAt(body, p, 0);
  }

  /** Behind a boundary anything but CR LF, or two dashes and CR LF, is waited on for ever. */
  lemma {:induction false} WaitsForEver(boundary: string, accept: Answers, st: State, data: string)
    requires st.phase == AfterBoundary && !(CRLF <= st.buf + data) && !(DASHES + CRLF <= st.buf + data)
    ensures Feed(boundary, accept, st, data) == (Extend(st, data), true)
  {
    var text := st.buf + data;
    assert |text| >= 2 ==> (text[..2] == CRLF <==> CRLF <= text);
    assert |text| >= 4 ==> (text[..4] == DASHES + CRLF <==> DASHES + CRLF <= text);
  }

  /** Whatever comes behind the end of the form spoils it. */
  lemma {:induction false} SpoiledBehindEnd(boundary: string, accept: Answers, st: State, data: string)
    requires st.phase == Done && st.buf + data != ""
    ensures Feed(boundary, accept, st, data) == (Extend(st, data).(valid := false), false)
  {
  }

  // ---- A cut that spoils a content ---------------------------------------------------------------

  /** The content CR LF and two dashes, in front of its delimiter. */
  function LoneMark(): State {
    Initial().(phase := Body, buf := MARK + Delimiter("B"), current := Some(Part(NO_INFO, "")))
  }

  lemma {:induction false} LoneMarkSearch()
    ensures var s := MARK + Delimiter("B");
            |s| == 9 && ScanMark(s) == 0 && Find(s, Delimiter("B"), 0) == Some(4)
            && ScanMark(s[..8]) == 0 && Find(s[..8], Delimiter("B"), 0) == None
  {
    var d, s := Delimiter("B"), MARK + Delimiter("B");
    assert d == "\r\n--B" && s == "\r\n--\r\n--B" && s[..8] == "\r\n--\r\n--";
    forall i: nat | i < 4 ensures !OccursAt(s, d, i) && !OccursAt(s[..8], d, i) {
      assert i + 5 <= 9 && s[i..i + 5][4] == s[i + 4] && d[4] == 'B' && s[i + 4] != 'B';
      if i + 5 <= 8 { assert s[..8][i..i + 5][4] == s[i + 4]; }
    }
    assert OccursAt(s, d, 4) by { assert s[4..9] == d; }
    FindIs(s, d, 0, 4);
    FindNone(s[..8], d, 0);
    assert StopsAt(s, MARK, 0) by { assert s[..4] == MARK; }
    assert StopsAt(s[..8], MARK, 0) by { assert s[..8][..4] == MARK; }
  }

  /** Given in one call, the content is the mark; when the call ends in front of the last byte of the
      delimiter, the first byte of the delimiter is delivered with it. */
  lemma {:induction false} StraddlingContent()
    ensures Step("B", ACCEPT_ALL, LoneMark()).st.phase == AfterBoundary
    ensures Step("B", ACCEPT_ALL, LoneMark()).st.Parts() == [Part(NO_INFO, MARK)]
    ensures Run("B", ACCEPT_ALL, Prefix(LoneMark(), 8)).0.Parts() == [Part(NO_INFO, MARK + [CR])]
    ensures PartsDiffer("B", ACCEPT_ALL, LoneMark(), 8)
  {
    hide Text.Find, FindString, StopsAt, Run, RunAll, Settled, Told, Step, ContentAccepted;
    LoneMarkSearch();
    LoneMarkWhole();
    LoneMarkCut();
    var st := LoneMark();
    AllTaken("B", Prefix(st, 8));
    var long := Extend(RunAll("B", ACCEPT_ALL, Prefix(st, 8)), st.buf[8..]);
    FinalKept("B", ACCEPT_ALL, long);
    RunNext("B", ACCEPT_ALL, st);
    var whole := Step("B", ACCEPT_ALL, st).st;
    FinalKept("B", ACCEPT_ALL, whole);
    assert whole.Parts()[0].content == MARK;
  }

  lemma {:induction false} LoneMarkWhole()
    ensures var o := Step("B", ACCEPT_ALL, LoneMark());
            o.Next? && o.st.phase == AfterBoundary && o.st.Parts() == [Part(NO_INFO, MARK)]
  {
    hide Text.Find, FindString, StopsAt;
    LoneMarkSearch();
    var st := LoneMark();
    var s := MARK + Delimiter("B");
    assert st.buf == s && s[..0] == "" && s[0..] == s && s[..4] == MARK;
    assert "" + MARK == MARK;
    EmitNone(st);
    assert BodyStep(Delimiter("B"), ACCEPT_ALL, st) == BoundaryInBody(Delimiter("B"), ACCEPT_ALL, st);
  }

  lemma {:induction false} LoneMarkCut()
    ensures var r := RunAll("B", ACCEPT_ALL, Prefix(LoneMark(), 8));
            r.phase == Body && r.finished == [] && r.current == Some(Part(NO_INFO, MARK + [CR]))
  {
    hide Text.Find, FindString, StopsAt, Run;
    LoneMarkSearch();
    var st := Prefix(LoneMark(), 8);
    var s := st.buf;
    assert s == (MARK + Delimiter("B"))[..8] == "\r\n--\r\n--";
    assert s[..0] == "" && s[0..] == s && s[..5] == MARK + [CR];
    assert "" + (MARK + [CR]) == MARK + [CR];
    EmitNone(st);
    assert BodyStep(Delimiter("B"), ACCEPT_ALL, st) == BoundaryInBody(Delimiter("B"), ACCEPT_ALL, st);
    var t := Step("B", ACCEPT_ALL, st).st;
    assert Step("B", ACCEPT_ALL, st) == Next(t) && |t.buf| == 3;
    RunNext("B", ACCEPT_ALL, st);
    ShortBody("B", ACCEPT_ALL, t);
  }
}
