/** The parser object itself, proved against the step function, and what every call keeps. */
module MultipartParser {
  import opened Text
  import opened Multipart

  /** The two callbacks of one request: what they received, and how they answer. */
  class Sink {
    const accept: Answers
    var parts: seq<Part>

    constructor (accept: Answers)
      ensures this.accept == accept && parts == []
    {
      this.accept := accept;
      parts := [];
    }

    method OnHeader(info: FileInfo) returns (ok: bool)
      modifies this
      ensures parts == old(parts) + [Part(info, "")]
      ensures ok == accept(parts)
    {
      parts := parts + [Part(info, "")];
      ok := accept(parts);
    }

    method OnContent(text: string) returns (ok: bool)
      modifies this
      ensures old(parts) == [] ==> parts == []
      ensures old(parts) != [] ==>
        var last := old(parts)[|old(parts)| - 1];
        parts == old(parts)[..|old(parts)| - 1] + [last.(content := last.content + text)]
      ensures ok == accept(parts)
    {
      if parts != [] {
        var last := parts[|parts| - 1];
        parts := parts[..|parts| - 1] + [last.(content := last.content + text)];
      }
      ok := accept(parts);
    }
  }

  class MultipartFormDataParser {
    var boundary: string
    var buf: string
    var state: Phase
    var isValid: bool
    var off: nat
    var file: FileInfo

    constructor (boundary: string)
      ensures this.boundary == boundary
      ensures forall s: Sink | s.parts == [] :: View(s) == Initial()
    {
      this.boundary := boundary;
      buf, state, isValid, off, file := "", InitialBoundary, false, 0, NO_INFO;
    }

    /** The parser and what its callbacks have received, as one value. */
    ghost function View(sink: Sink): (st: State)
      reads this, sink
      ensures st.Parts() == sink.parts
    {
      var n := |sink.parts|;
      if n == 0 then State(state, buf, off, isValid, file, [], None)
      else State(state, buf, off, isValid, file, sink.parts[..n - 1], Some(sink.parts[n - 1]))
    }

    /** The first `n` bytes are done with. */
    method Erase(n: nat, ghost sink: Sink)
      requires n <= |buf|
      modifies this`buf, this`off
      ensures View(sink) == old(View(sink)).Consume(n)
    {
      buf := buf[n..];
      off := off + n;
    }

    method Enter(phase: Phase, ghost sink: Sink)
      modifies this`state
      ensures View(sink) == old(View(sink)).(phase := phase)
    {
      state := phase;
    }

    method Refuse(ghost sink: Sink)
      modifies this`isValid
      ensures View(sink) == old(View(sink)).(valid := false)
    {
      isValid := false;
    }

    method DeliverHeader(sink: Sink) returns (ok: bool)
      modifies sink
      ensures View(sink) == old(View(sink)).Announce() && ok == sink.accept(View(sink).Parts())
    {
      ok := sink.OnHeader(file);
    }

    method DeliverContent(sink: Sink, n: nat) returns (ok: bool)
      requires n <= |buf|
      modifies sink
      ensures View(sink) == old(View(sink)).Deliver(buf[..n]) && ok == sink.accept(View(sink).Parts())
    {
      ok := sink.OnContent(buf[..n]);
    }

    /** The blank line: the header callback decides whether the part is taken. */
    method EndHeaders(sink: Sink) returns (go: bool, ret: bool)
      requires state == Headers && Find(buf, CRLF, 0) == Some(0)
      modifies this, sink
      ensures boundary == old(boundary)
      ensures HeaderStep(sink.accept, old(View(sink))) == if go then Next(View(sink)) else Halt(ret, View(sink))
    {
      hide Text.Find;
      var ok := DeliverHeader(sink);
      if !ok {
        Refuse(sink);
        return false, false;
      }
      Erase(2, sink);
      Enter(Body, sink);
      return true, true;
    }

    method ParseHeaderLine(pos: nat, ghost sink: Sink)
      requires state == Headers && pos > 0 && Find(buf, CRLF, 0) == Some(pos)
      modifies this
      ensures boundary == old(boundary) && state == Headers && |buf| < old(|buf|)
      ensures HeaderStep(sink.accept, old(View(sink))) == Next(View(sink))
    {
      hide ReadHeader, Text.Find;
      file := ReadHeader(file, buf[..pos]);
      Erase(pos + 2, sink);
    }

    /** The lines of a header block, up to the blank line or to the end of the buffer. */
    method ParseHeaders(sink: Sink) returns (go: bool, ret: bool)
      requires state == Headers && buf != ""
      modifies this, sink
      ensures boundary == old(boundary)
      ensures Run(boundary, sink.accept, old(View(sink)))
           == if go then Run(boundary, sink.accept, View(sink)) else (View(sink), ret)
      ensures go ==> Rank(View(sink)) < old(Rank(View(sink)))
    {
      hide ReadHeader, Text.Find, Run, Step;
      ghost var start := View(sink);
      var pos := Find(buf, CRLF, 0);
      while pos.Some?
        invariant state == Headers && boundary == old(boundary) && pos == Find(buf, CRLF, 0)
        invariant |buf| <= |start.buf|
        invariant Run(boundary, sink.accept, start) == Run(boundary, sink.accept, View(sink))
        decreases |buf|
      {
        HeaderRun(boundary, sink.accept, View(sink));
        if pos.value == 0 {
          go, ret := EndHeaders(sink);
          return;
        }
        ParseHeaderLine(pos.value, sink);
        pos := Find(buf, CRLF, 0);
      }
      HeaderRun(boundary, sink.accept, View(sink));
      return false, true;
    }

    /** One pass through body bytes. */
    method ParseBody(sink: Sink) returns (go: bool, ret: bool)
      requires state == Body && buf != ""
      modifies this, sink
      ensures boundary == old(boundary)
      ensures BodyStep(Delimiter(boundary), sink.accept, old(View(sink)))
           == if go then Next(View(sink)) else Halt(ret, View(sink))
    {
      hide Text.Find, FindString, StopsAt;
      if |buf| < 4 { return false, true; }
      var n := FindStringIn(buf, MARK);
      var ok := DeliverContent(sink, n);
      if !ok {
        Refuse(sink);
        return false, false;
      }
      Erase(n, sink);
      go, ret := ParseDelimiter(sink);
    }

    /** Second half of the pass: the search for the whole delimiter. */
    method ParseDelimiter(sink: Sink) returns (go: bool, ret: bool)
      requires state == Body
      modifies this, sink
      ensures boundary == old(boundary)
      ensures BoundaryInBody(Delimiter(boundary), sink.accept, old(View(sink)))
           == if go then Next(View(sink)) else Halt(ret, View(sink))
    {
      hide Text.Find, State.Deliver, State.Parts;
      var d := MARK + boundary;
      assert d == Delimiter(boundary);
      hide Delimiter;
      if |d| > |buf| { return false, true; }
      var pos := Find(buf, d, 0);
      var n := if pos.Some? then pos.value else |d|;
      var ok := DeliverContent(sink, n);
      if !ok {
        Refuse(sink);
        return false, false;
      }
      if pos.Some? {
        Erase(n + |d|, sink);
        Enter(AfterBoundary, sink);
      } else {
        Erase(n, sink);
      }
      return true, true;
    }

    /** The end of a boundary line: another part follows, or the form is complete. */
    method ParseBoundaryEnd(sink: Sink) returns (go: bool, ret: bool)
      requires state == AfterBoundary
      modifies this
      ensures boundary == old(boundary)
      ensures BoundaryEndStep(old(View(sink))) == if go then Next(View(sink)) else Halt(ret, View(sink))
    {
      if |buf| < 2 { return false, true; }
      if buf[..2] == CRLF {
        Erase(2, sink);
        Enter(NewEntry, sink);
        return true, true;
      }
      if |buf| < 4 || buf[..4] != DASHES + CRLF { return false, true; }
      Erase(4, sink);
      isValid := true;
      Enter(Done, sink);
      return true, true;
    }

    method ParseOpening(sink: Sink) returns (go: bool, ret: bool)
      requires state == InitialBoundary
      modifies this
      ensures boundary == old(boundary)
      ensures OpeningStep(boundary, old(View(sink))) == if go then Next(View(sink)) else Halt(ret, View(sink))
    {
      hide Text.Find;
      var pattern := DASHES + boundary + CRLF;
      if |pattern| > |buf| { return false, true; }
      if Find(buf, pattern, 0) != Some(0) { return false, false; }
      Erase(|pattern|, sink);
      Enter(NewEntry, sink);
      return true, true;
    }

    /** `find_string`: the loop over the occurrences of the pattern's first byte. */
    static method FindStringIn(s: string, pattern: string) returns (n: nat)
      requires pattern != ""
      ensures n == FindString(s, pattern, 0)
    {
      var off := 0;
      while off < |s|
        invariant off <= |s|
        invariant FindString(s, pattern, 0) == FindString(s, pattern, off)
      {
        var pos := Find(s, [pattern[0]], off);
        SkipOthers(s, pattern, off);
        if pos.None? { return |s|; }
        if |pattern| > |s| - pos.value { return pos.value; }
        if OccursAt(s, pattern, pos.value) { return pos.value; }
        off := pos.value + 1;
      }
      return |s|;
    }

    /** The scan does not stop in front of the next occurrence of the first byte. */
    static lemma {:induction false} SkipOthers(s: string, pattern: string, off: nat)
      requires pattern != "" && off <= |s|
      ensures var pos := Find(s, [pattern[0]], off);
              FindString(s, pattern, off)
              == if pos.None? then |s| else FindString(s, pattern, pos.value)
      ensures Find(s, [pattern[0]], off).Some? ==> s[Find(s, [pattern[0]], off).value] == pattern[0]
      decreases |s| - off
    {
      if off < |s| {
        assert s[off..off + 1] == [s[off]];
        if s[off] != pattern[0] { SkipOthers(s, pattern, off + 1); }
      }
    }

    /** One pass of the loop, by phase. */
    method ParsePhase(sink: Sink) returns (go: bool, ret: bool)
      requires buf != ""
      modifies this, sink
      ensures boundary == old(boundary)
      ensures Run(boundary, sink.accept, old(View(sink)))
           == if go then Run(boundary, sink.accept, View(sink)) else (View(sink), ret)
      ensures go ==> Rank(View(sink)) < old(Rank(View(sink)))
    {
      hide Run, OpeningStep, HeaderStep, BodyStep, BoundaryEndStep, Rank;
      ghost var before := View(sink);
      StepRun(boundary, sink.accept, before);
      if Step(boundary, sink.accept, before).Next? { StepRank(boundary, sink.accept, before); }
      go, ret := true, true;
      match state {
        case InitialBoundary => go, ret := ParseOpening(sink);
        case NewEntry =>
          file := NO_INFO;
          Enter(Headers, sink);
        case Headers => go, ret := ParseHeaders(sink);
        case Body => go, ret := ParseBody(sink);
        case AfterBoundary => go, ret := ParseBoundaryEnd(sink);
        case Done =>
          Refuse(sink);
          go, ret := false, false;
      }
    }

    /** One call with the next bytes of the body. */
    method Parse(data: string, sink: Sink) returns (ret: bool)
      modifies this, sink
      ensures boundary == old(boundary)
      ensures (View(sink), ret) == Feed(boundary, sink.accept, old(View(sink)), data)
    {
      hide Run;
      buf := buf + data;
      ghost var start := View(sink);
      while buf != ""
        invariant boundary == old(boundary)
        invariant Run(boundary, sink.accept, start) == Run(boundary, sink.accept, View(sink))
        decreases Rank(View(sink))
      {
        var go, r := ParsePhase(sink);
        if !go { return r; }
      }
      EmptyRun(boundary, sink.accept, View(sink));
      return true;
    }
  }

  lemma {:induction false} HeaderRun(boundary: string, accept: Answers, st: State)
    requires st.phase == Headers
    ensures var o := HeaderStep(accept, st);
            Run(boundary, accept, st) == if o.Next? then Run(boundary, accept, o.st) else (o.st, o.ret)
    ensures HeaderStep(accept, st).Next? ==> |HeaderStep(accept, st).st.buf| < |st.buf|
  {
    hide Run, ReadHeader;
    if st.buf == "" { EmptyRun(boundary, accept, st); } else { StepRun(boundary, accept, st); }
  }

  // ---- What every call keeps ---------------------------------------------------------------------

  /** `s` has taken bytes from the front of the buffer of `st` and counted them. */
  predicate Consumed(st: State, s: State) {
    |s.buf| <= |st.buf| && s.off + |s.buf| == st.off + |st.buf| && s.buf == st.buf[|st.buf| - |s.buf|..]
  }

  lemma {:induction false} ConsumedOn(r: State, s: State, t: State)
    requires Consumed(r, s) && Consumed(s, t)
    ensures Consumed(r, t)
  {
    assert r.buf[|r.buf| - |s.buf|..][|s.buf| - |t.buf|..] == r.buf[|r.buf| - |t.buf|..];
  }

  /** Bytes are never lost or made up: what is counted and what is buffered add up to what was fed, and
      the buffer is the unread end of the input. */
  lemma {:induction false} Conservation(boundary: string, accept: Answers, st: State)
    ensures Consumed(st, Run(boundary, accept, st).0)
    decreases Rank(st)
  {
    hide Step;
    if st.buf != "" {
      StepConserves(boundary, accept, st);
      if Step(boundary, accept, st).Next? {
        var s := Step(boundary, accept, st).st;
        StepRank(boundary, accept, st);
        Conservation(boundary, accept, s);
        ConsumedOn(st, s, Run(boundary, accept, s).0);
      }
    }
  }

  lemma {:induction false} StepConserves(boundary: string, accept: Answers, st: State)
    requires st.buf != ""
    ensures Consumed(st, Step(boundary, accept, st).st)
  {
    hide Text.Find, HeaderStep, BodyStep, Opening, Delimiter;
    if st.phase == Body {
      BodyConserves(Delimiter(boundary), accept, st);
    } else if st.phase == Headers {
      HeaderConserves(accept, st);
    }
  }

  lemma {:induction false} HeaderConserves(accept: Answers, st: State)
    ensures Consumed(st, HeaderStep(accept, st).st)
  {
    hide Text.Find, ReadHeader;
  }

  lemma {:induction false} BodyConserves(d: string, accept: Answers, st: State)
    ensures Consumed(st, BodyStep(d, accept, st).st)
  {
    hide FindString, StopsAt, BoundaryInBody;
    if |st.buf| >= 4 {
      var e := st.Emit(ScanMark(st.buf));
      assert Consumed(st, e);
      BoundaryConserves(d, accept, e);
      ConsumedOn(st, e, BoundaryInBody(d, accept, e).st);
    }
  }

  lemma {:induction false} BoundaryConserves(d: string, accept: Answers, st: State)
    ensures Consumed(st, BoundaryInBody(d, accept, st).st)
  {
    hide Text.Find;
  }

  /** A call that ends inside a part holds back fewer bytes than the delimiter is long. */
  lemma {:induction false} BoundedBuffer(boundary: string, accept: Answers, st: State)
    ensures var (r, ret) := Run(boundary, accept, st);
            ret && r.phase == Body ==> |r.buf| < |boundary| + 4
    decreases Rank(st)
  {
    hide Step;
    if st.buf != "" {
      if Step(boundary, accept, st).Next? {
        StepRank(boundary, accept, st);
        BoundedBuffer(boundary, accept, Step(boundary, accept, st).st);
      } else {
        HaltBounded(boundary, accept, st);
      }
    }
  }

  lemma {:induction false} HaltBounded(boundary: string, accept: Answers, st: State)
    requires st.buf != "" && Step(boundary, accept, st).Halt?
    ensures var o := Step(boundary, accept, st);
            o.ret && o.st.phase == Body ==> |o.st.buf| < |boundary| + 4
  {
    hide Text.Find, FindString, StopsAt, ReadHeader;
  }

  /** The bytes taken between `st` and `s` were given to the content callback, once and in order, but for
      a delimiter, which ends the part. */
  predicate Accounted(d: string, st: State, s: State) {
    |s.buf| <= |st.buf| && st.current.Some? && s.current.Some? && s.finished == st.finished &&
    var n := |st.buf| - |s.buf|;
    var c := st.current.value.content;
    if s.phase == Body then s.current.value.content == c + st.buf[..n]
    else
      && s.phase == AfterBoundary && n >= |d| && OccursAt(st.buf, d, n - |d|)
      && s.current.value.content == c + st.buf[..n - |d|]
  }

  lemma {:induction false} BodyAccounts(boundary: string, accept: Answers, st: State)
    requires st.phase == Body && st.current.Some? && st.buf != "" && Step(boundary, accept, st).Next?
    ensures Accounted(Delimiter(boundary), st, Step(boundary, accept, st).st)
  {
    hide Text.Find, FindString, StopsAt;
    var d, k := Delimiter(boundary), ScanMark(st.buf);
    BoundaryAccounts(d, accept, st.Emit(k));
    AccountedEmit(d, st, k, BoundaryInBody(d, accept, st.Emit(k)).st);
  }

  lemma {:induction false} BoundaryAccounts(d: string, accept: Answers, st: State)
    requires st.phase == Body && st.current.Some? && BoundaryInBody(d, accept, st).Next?
    ensures Accounted(d, st, BoundaryInBody(d, accept, st).st)
  {
    hide Text.Find;
    FindFirst(st.buf, d, 0);
  }

  lemma {:induction false} AccountedEmit(d: string, st: State, k: nat, s: State)
    requires k <= |st.buf| && st.phase == Body && Accounted(d, st.Emit(k), s)
    ensures Accounted(d, st, s)
  {
    var n := |st.buf| - |s.buf|;
    var m := if s.phase == Body then n else n - |d|;
    var c := st.current.value.content;
    assert c + st.buf[..k] + st.buf[k..][..m - k] == c + st.buf[..m];
    if s.phase != Body { OccursDrop(st.buf, d, k, m - k); }
  }

  /** The part that was open at `st` holds the first `m` bytes of the buffer after a call that led to `r`: all
      bytes taken since, or those in front of the delimiter that ended it. After a refusal, what was refused
      has been delivered but stays in the buffer. */
  predicate AccountedBy(d: string, st: State, r: State, ret: bool, m: nat)
    requires st.current.Some? && |r.buf| <= |st.buf|
  {
    var taken, parts := |st.buf| - |r.buf|, r.Parts();
    m <= |st.buf| && |st.finished| < |parts|
    && parts[|st.finished|].content == st.current.value.content + st.buf[..m]
    && ((r.phase == Body && r.finished == st.finished && (m == taken || (!ret && m >= taken)))
        || (OccursAt(st.buf, d, m) && m + |d| <= taken))
  }

  ghost predicate PartAccounted(d: string, st: State, r: State, ret: bool)
    requires st.current.Some?
  {
    |r.buf| <= |st.buf| && exists m: nat :: AccountedBy(d, st, r, ret, m)
  }

  lemma {:induction false} AccountedOn(d: string, st: State, s: State, r: State, ret: bool)
    requires st.current.Some? && s.phase == Body && Accounted(d, st, s) && Consumed(st, s)
    requires PartAccounted(d, s, r, ret)
    ensures PartAccounted(d, st, r, ret)
  {
    hide Text.Find;
    var c, n := st.current.value.content, |st.buf| - |s.buf|;
    var m: nat :| AccountedBy(d, s, r, ret, m);
    Behind(c, st.buf, n, m);
    OccursDrop(st.buf, d, n, m);
    assert AccountedBy(d, st, r, ret, n + m);
  }

  lemma {:induction false} Behind(c: string, s: string, n: nat, m: nat)
    requires n + m <= |s|
    ensures c + s[..n] + s[n..][..m] == c + s[..n + m]
  {
  }

  /** `parts` are closed: they do not change any more. */
  predicate Closed(st: State, parts: seq<Part>) {
    parts <= st.finished || (parts == st.Parts() && st.phase != Body)
  }

  lemma {:induction false} StepClosed(boundary: string, accept: Answers, st: State, parts: seq<Part>)
    requires st.buf != "" && Closed(st, parts)
    ensures var s := Step(boundary, accept, st).st; Closed(s, parts)
  {
    hide Text.Find, BodyStep, ReadHeader, Delimiter, Opening;
    if st.phase == Body { BodyFinished(Delimiter(boundary), accept, st); }
  }

  lemma {:induction false} BodyFinished(d: string, accept: Answers, st: State)
    ensures BodyStep(d, accept, st).st.finished == st.finished
  {
    hide Text.Find, FindString, StopsAt;
  }

  lemma {:induction false} RunClosed(boundary: string, accept: Answers, st: State, parts: seq<Part>)
    requires Closed(st, parts)
    ensures parts <= Run(boundary, accept, st).0.Parts()
    decreases Rank(st)
  {
    hide Step, Closed;
    if st.buf != "" {
      StepClosed(boundary, accept, st, parts);
      var s := Step(boundary, accept, st).st;
      if Step(boundary, accept, st).Next? {
        StepRank(boundary, accept, st);
        RunClosed(boundary, accept, s, parts);
      } else {
        ClosedParts(s, parts);
      }
    } else {
      ClosedParts(st, parts);
    }
  }

  lemma {:induction false} ClosedParts(st: State, parts: seq<Part>)
    requires Closed(st, parts)
    ensures parts <= st.Parts()
  {
  }

  /** A call that begins inside a part, whatever the callbacks answer: every byte it takes is delivered to that
      part, once and in order, up to the delimiter that ends it. */
  lemma {:induction false} PartAccounts(boundary: string, accept: Answers, st: State)
    requires st.phase == Body && st.current.Some?
    ensures var (r, ret) := Run(boundary, accept, st); PartAccounted(Delimiter(boundary), st, r, ret)
    decreases Rank(st)
  {
    hide Step, Accounted, Consumed, PartAccounted;
    var d := Delimiter(boundary);
    if st.buf == "" {
      NothingTaken(d, st);
    } else {
      var s := Step(boundary, accept, st).st;
      StepRun(boundary, accept, st);
      if Step(boundary, accept, st).Next? {
        StepRank(boundary, accept, st);
        BodyAccounts(boundary, accept, st);
        StepConserves(boundary, accept, st);
        var (r, ret) := Run(boundary, accept, s);
        if s.phase == Body {
          StillCurrent(d, st, s);
          PartAccounts(boundary, accept, s);
          AccountedOn(d, st, s, r, ret);
        } else {
          Conservation(boundary, accept, s);
          PartEnds(boundary, accept, st, s);
        }
      } else {
        HaltAccounts(boundary, accept, st);
      }
    }
  }

  lemma {:induction false} StillCurrent(d: string, st: State, s: State)
    requires Accounted(d, st, s)
    ensures s.current.Some?
  {
  }

  lemma {:induction false} NothingTaken(d: string, st: State)
    requires st.phase == Body && st.current.Some?
    ensures PartAccounted(d, st, st, true)
  {
    assert st.current.value.content + st.buf[..0] == st.current.value.content;
    assert AccountedBy(d, st, st, true, 0);
  }

  lemma {:induction false} HaltAccounts(boundary: string, accept: Answers, st: State)
    requires st.phase == Body && st.current.Some? && st.buf != "" && Step(boundary, accept, st).Halt?
    ensures var o := Step(boundary, accept, st); PartAccounted(Delimiter(boundary), st, o.st, o.ret)
  {
    hide Text.Find, FindString, StopsAt, BoundaryInBody, Delimiter;
    var d, o := Delimiter(boundary), Step(boundary, accept, st);
    if |st.buf| < 4 {
      NothingTaken(d, st);
    } else {
      var n := ScanMark(st.buf);
      if accept(st.Deliver(st.buf[..n]).Parts()) {
        HaltInBoundary(d, accept, st, n);
      } else {
        assert AccountedBy(d, st, o.st, o.ret, n);
      }
    }
  }

  lemma {:induction false} HaltInBoundary(d: string, accept: Answers, st: State, n: nat)
    requires st.phase == Body && st.current.Some? && n <= |st.buf| && BoundaryInBody(d, accept, st.Emit(n)).Halt?
    ensures var o := BoundaryInBody(d, accept, st.Emit(n)); PartAccounted(d, st, o.st, o.ret)
  {
    hide Text.Find;
    var c, e := st.current.value.content, st.Emit(n);
    var o := BoundaryInBody(d, accept, e);
    if |d| > |e.buf| {
      assert AccountedBy(d, st, o.st, o.ret, n);
    } else {
      var pos := match Find(e.buf, d, 0) case Some(k) => k case None => |d|;
      Behind(c, st.buf, n, pos);
      assert AccountedBy(d, st, o.st, o.ret, n + pos);
    }
  }

  lemma {:induction false} PartEnds(boundary: string, accept: Answers, st: State, s: State)
    requires st.current.Some? && st.phase == Body && s.phase != Body && Accounted(Delimiter(boundary), st, s)
    requires Consumed(s, Run(boundary, accept, s).0)
    ensures var (r, ret) := Run(boundary, accept, s); PartAccounted(Delimiter(boundary), st, r, ret)
  {
    hide Text.Find, Run;
    var d, n := Delimiter(boundary), |st.buf| - |s.buf|;
    var (r, ret) := Run(boundary, accept, s);
    RunClosed(boundary, accept, s, s.Parts());
    assert s.Parts()[|s.finished|] == s.current.value;
    assert AccountedBy(d, st, r, ret, n - |d|);
  }
}
