/** The other direction: when a block straddles a delimiter, some cut in two changes the parts. */
module MultipartStraddle {
  import opened Text
  import opened Multipart
  import opened MultipartFragments

  /** The state that has seen only the first `n` bytes of the buffer. */
  function Prefix(st: State, n: nat): State
    requires n <= |st.buf|
  {
    st.(buf := st.buf[..n])
  }

  // ---- Delivered parts never change --------------------------------------------------------------

  /** A part has been opened before any of its content is seen. */
  predicate Sound(st: State) {
    st.phase == Body ==> st.current.Some?
  }

  lemma {:induction false} StepSound(boundary: string, accept: Answers, st: State)
    requires Sound(st) && st.buf != ""
    ensures Sound(Step(boundary, accept, st).st)
  {
    hide Text.Find, FindString, StopsAt, ReadHeader;
  }

  /** The current part, and those before it, are among `parts` with at least the content they have now. */
  predicate Growing(st: State, parts: seq<Part>) {
    st.current.Some? && |st.finished| < |parts| && st.finished <= parts &&
    st.current.value.content <= parts[|st.finished|].content
  }

  predicate Kept(st: State, parts: seq<Part>) {
    if st.phase == Body then Growing(st, parts) else st.Parts() <= parts
  }

  lemma {:induction false} DeliverKept(st: State, text: string, parts: seq<Part>)
    requires st.current.Some? && Growing(st.Deliver(text), parts)
    ensures Growing(st, parts)
  {
    var c := st.current.value.content;
    assert c <= c + text;
  }

  lemma {:induction false} StepKept(boundary: string, accept: Answers, st: State, parts: seq<Part>)
    requires Sound(st) && st.buf != "" && Kept(Step(boundary, accept, st).st, parts)
    ensures Kept(st, parts)
  {
    hide Text.Find, FindString, StopsAt, ReadHeader;
    var s := Step(boundary, accept, st).st;
    if st.phase == Body {
      assert |st.buf| >= 4 ==> Growing(s, parts) by {
        if s.phase != Body { assert s.Parts()[|s.finished|] == s.current.value; }
      }
      BodyKept(Delimiter(boundary), accept, st, parts);
    } else if st.phase == Headers && s.phase == Body {
      assert s.finished == st.Parts();
    }
  }

  lemma {:induction false} BodyKept(d: string, accept: Answers, st: State, parts: seq<Part>)
    requires st.current.Some? && st.phase == Body && Growing(BodyStep(d, accept, st).st, parts)
    ensures Growing(st, parts)
  {
    hide Text.Find, FindString, StopsAt;
    if |st.buf| >= 4 {
      var e := st.Emit(ScanMark(st.buf));
      if accept(st.Deliver(st.buf[..ScanMark(st.buf)]).Parts()) && |d| <= |e.buf| {
        var pos := match Find(e.buf, d, 0) case Some(p) => p case None => |d|;
        DeliverKept(e, e.buf[..pos], parts);
      }
      DeliverKept(st, st.buf[..ScanMark(st.buf)], parts);
    }
  }

  /** Whatever the callbacks answer, a call takes nothing back of the parts delivered before it. */
  lemma {:induction false} RunKept(boundary: string, accept: Answers, st: State)
    requires Sound(st)
    ensures Kept(st, Settled(Run(boundary, accept, st).0).Parts())
    decreases Rank(st)
  {
    hide Text.Find, FindString, StopsAt, Step, Kept;
    if st.buf == "" {
      SettledKept(st);
    } else {
      var o := Step(boundary, accept, st);
      StepSound(boundary, accept, st);
      var parts := Settled(Run(boundary, accept, st).0).Parts();
      assert Kept(o.st, parts) by {
        if o.Next? { StepRank(boundary, accept, st); RunKept(boundary, accept, o.st); } else { SettledKept(o.st); }
      }
      StepKept(boundary, accept, st, parts);
    }
  }

  lemma {:induction false} SettledKept(st: State)
    requires Sound(st)
    ensures Kept(st, Settled(st).Parts())
  {
    if st.phase == Body {
      var t := Settled(st);
      assert t.Parts()[|t.finished|] == t.current.value;
      DeliverKept(st, st.buf[..ScanMark(st.buf)], t.Parts());
    }
  }

  // ---- Callbacks that refuse parts, but no content ------------------------------------------------

  /** A callback that takes the headers of a part takes all of its content. */
  ghost predicate ContentAccepted(accept: Answers) {
    forall st: State, text: string | st.current.Some? && accept(st.Parts()) :: accept(st.Deliver(text).Parts())
  }

  predicate Ready(accept: Answers, st: State) {
    st.phase == Body ==> st.current.Some? && accept(st.Parts())
  }

  lemma {:induction false} StepAccepting(boundary: string, accept: Answers, st: State)
    requires ContentAccepted(accept) && Ready(accept, st) && st.buf != "" && !Declined(accept, st)
    ensures Step(boundary, accept, st) == Step(boundary, ACCEPT_ALL, st)
    ensures Ready(accept, Step(boundary, accept, st).st)
  {
    hide Text.Find, FindString, StopsAt, ReadHeader;
    if st.phase == Body { BodyAccepting(Delimiter(boundary), accept, st); }
  }

  lemma {:induction false} BodyAccepting(d: string, accept: Answers, st: State)
    requires ContentAccepted(accept) && st.phase == Body && st.current.Some? && accept(st.Parts())
    ensures BodyStep(d, accept, st) == BodyStep(d, ACCEPT_ALL, st)
    ensures Ready(accept, BodyStep(d, accept, st).st)
  {
    hide Text.Find, FindString, StopsAt;
    if |st.buf| >= 4 {
      var n := ScanMark(st.buf);
      assert accept(st.Deliver(st.buf[..n]).Parts());
      var e := st.Emit(n);
      assert e.Parts() == st.Deliver(st.buf[..n]).Parts();
      if |d| <= |e.buf| {
        var pos := match Find(e.buf, d, 0) case Some(p) => p case None => |d|;
        assert accept(e.Deliver(e.buf[..pos]).Parts());
      }
    }
  }

  /** The states in which a call with more input returns false. */
  predicate Refusing(boundary: string, accept: Answers, st: State) {
    Declined(accept, st)
    || (st.phase == Done && st.buf != "" && !st.valid)
    || (st.phase == InitialBoundary && |Opening(boundary)| <= |st.buf| && Find(st.buf, Opening(boundary), 0) != Some(0))
  }

  /** What a refused part leaves behind: its headers have been delivered. */
  function Told(accept: Answers, st: State): State {
    if Declined(accept, st) then st.Announce().(valid := false) else st
  }

  lemma {:induction false} HaltRefuses(boundary: string, accept: Answers, st: State)
    requires st.buf != "" && Step(boundary, ACCEPT_ALL, st).Halt? && !Declined(accept, st)
    ensures var o := Step(boundary, ACCEPT_ALL, st);
            !Declined(accept, o.st) && (o.ret <==> !Refusing(boundary, accept, o.st))
  {
    hide Text.Find, FindString, StopsAt, ReadHeader;
  }

  lemma {:induction false} EmptyNotRefusing(boundary: string, accept: Answers, st: State)
    requires st.buf == ""
    ensures !Refusing(boundary, accept, st)
  {
  }

  lemma {:induction false} DeclinedRun(boundary: string, accept: Answers, st: State)
    requires Declined(accept, st)
    ensures st.buf != "" && Run(boundary, accept, st) == (Told(accept, st), false)
  {
    hide Text.Find;
    FindFirst(st.buf, CRLF, 0);
  }

  /** A call stops where it would stop if all content were asked for, and whether it refuses can be seen there. */
  lemma {:induction false} RunAccepting(boundary: string, accept: Answers, st: State)
    requires ContentAccepted(accept) && Ready(accept, st)
    ensures var r := RunAll(boundary, accept, st);
            Ready(accept, r) && Run(boundary, accept, st) == (Told(accept, r), !Refusing(boundary, accept, r))
    decreases Rank(st)
  {
    hide Step, Refusing, Ready, Declined, ContentAccepted;
    if st.buf == "" {
      EmptyRun(boundary, accept, st);
      EmptyNotRefusing(boundary, accept, st);
      NotDeclined(boundary, accept, st);
    } else if Declined(accept, st) {
      DeclinedRun(boundary, accept, st);
      NotDeclined(boundary, accept, st);
    } else {
      StepAccepting(boundary, accept, st);
      var o := Step(boundary, ACCEPT_ALL, st);
      if o.Next? {
        StepRank(boundary, accept, st);
        RunAccepting(boundary, accept, o.st);
      } else {
        HaltRefuses(boundary, accept, st);
      }
    }
  }

  lemma {:induction false} NotDeclined(boundary: string, accept: Answers, st: State)
    ensures !Refusing(boundary, accept, st) ==> !Declined(accept, st)
  {
  }

  /** A callback that never refuses is such a callback. */
  lemma {:induction false} AllTaken(boundary: string, st: State)
    requires Sound(st)
    ensures ContentAccepted(ACCEPT_ALL) && Ready(ACCEPT_ALL, st)
    ensures var r := RunAll(boundary, ACCEPT_ALL, st);
            Run(boundary, ACCEPT_ALL, st) == (r, !Refusing(boundary, ACCEPT_ALL, r))
  {
    hide Run, RunAll, Refusing;
    RunAccepting(boundary, ACCEPT_ALL, st);
  }

  // ---- A step on a prefix ------------------------------------------------------------------------

  lemma {:induction false} HeaderOnPrefix(st: State, n: nat)
    requires HeaderStep(ACCEPT_ALL, st).Next? && n <= |st.buf|
    requires |st.buf| - |HeaderStep(ACCEPT_ALL, st).st.buf| <= n
    ensures HeaderStep(ACCEPT_ALL, Prefix(st, n)).Next?
  {
    hide ReadHeader;
    FindTake(st.buf, CRLF, 0, n);
  }

  lemma {:induction false} OpeningOnPrefix(boundary: string, st: State, n: nat)
    requires OpeningStep(boundary, st).Next? && n <= |st.buf|
    requires |st.buf| - |OpeningStep(boundary, st).st.buf| <= n
    ensures OpeningStep(boundary, Prefix(st, n)).Next?
  {
    FindTake(st.buf, Opening(boundary), 0, n);
  }

  lemma {:induction false} BoundaryEndOnPrefix(st: State, n: nat)
    requires BoundaryEndStep(st).Next? && n <= |st.buf|
    requires |st.buf| - |BoundaryEndStep(st).st.buf| <= n
    ensures BoundaryEndStep(Prefix(st, n)).Next?
  {
    assert st.buf[..n][..2] == st.buf[..2];
    if n >= 4 { assert st.buf[..n][..4] == st.buf[..4]; }
  }

  /** The scan of a buffer and of a prefix that holds four bytes behind it stop together. */
  lemma {:induction false} ScanPrefix(s: string, n: nat)
    requires n <= |s| && ScanMark(s) + 4 <= n
    ensures ScanMark(s[..n]) == ScanMark(s)
  {
    assert s[..n] + s[n..] == s;
    ScanAppend(s[..n], s[n..]);
  }

  /** The whole delimiter search sees the same on a prefix that holds what the pass consumes. */
  lemma {:induction false} BodyOnPrefix(d: string, st: State, n: nat)
    requires |d| >= 4 && |st.buf| - ScanMark(st.buf) >= |d| && n <= |st.buf|
    requires |st.buf| - |AfterBody(d, st).buf| <= n
    ensures ScanMark(st.buf[..n]) == ScanMark(st.buf) && n - ScanMark(st.buf) >= |d|
    ensures AfterBody(d, st) == Extend(AfterBody(d, Prefix(st, n)), st.buf[n..])
  {
    hide FindString, StopsAt, Text.Find;
    var t := Prefix(st, n);
    var k := ScanMark(st.buf);
    assert t.buf + st.buf[n..] == st.buf;
    assert Extend(t, st.buf[n..]) == st;
    ScanPrefix(st.buf, n);
    if Find(st.buf, d, k).Some? {
      FindTake(st.buf, d, k, n);
    } else if Find(t.buf, d, k).Some? {
      FindAppend(t.buf, st.buf[n..], d, k);
    }
    BodyExtend(d, t, st.buf[n..]);
  }

  /** A step that consumes bytes of a prefix only is taken on the prefix alone. */
  lemma {:induction false} StepOnPrefix(boundary: string, st: State, n: nat)
    requires 0 < n <= |st.buf| && Step(boundary, ACCEPT_ALL, st).Next?
    requires st.phase == Body ==> |st.buf| - ScanMark(st.buf) >= |Delimiter(boundary)|
    requires |st.buf| - |Step(boundary, ACCEPT_ALL, st).st.buf| <= n
    ensures Step(boundary, ACCEPT_ALL, Prefix(st, n)).Next?
    ensures Step(boundary, ACCEPT_ALL, st).st == Extend(Step(boundary, ACCEPT_ALL, Prefix(st, n)).st, st.buf[n..])
  {
    hide Text.Find, FindString, StopsAt, HeaderStep, OpeningStep, BoundaryEndStep, BodyStep;
    var t := Prefix(st, n);
    assert Extend(t, st.buf[n..]) == st by { assert t.buf + st.buf[n..] == st.buf; }
    if st.phase == Body {
      DelimiterMark(boundary);
      BodyPass(Delimiter(boundary), st);
      BodyOnPrefix(Delimiter(boundary), st, n);
      BodyPass(Delimiter(boundary), t);
    } else {
      match st.phase {
        case InitialBoundary => OpeningOnPrefix(boundary, st, n);
        case Headers => HeaderOnPrefix(st, n);
        case AfterBoundary => BoundaryEndOnPrefix(st, n);
        case _ =>
      }
      StepExtend(boundary, ACCEPT_ALL, t, st.buf[n..]);
    }
  }

  // ---- A straddled delimiter ---------------------------------------------------------------------

  /** Body bytes `k..e` of the buffer, as they are when everything before `k` has been delivered. */
  function Window(st: State, k: nat, e: nat): State
    requires k <= e <= |st.buf|
  {
    Prefix(st.Emit(k), e - k)
  }

  lemma {:induction false} WindowEmit(st: State, k: nat, e: nat, j: nat)
    requires k <= j <= e <= |st.buf|
    ensures Window(st, k, e).Emit(j - k) == Window(st, j, e)
  {
    EmitTwice(st, k, j - k);
    var w := Window(st, k, e).buf;
    assert w[..j - k] == st.buf[k..][..j - k];
    assert w[j - k..] == st.buf[j..][..e - j];
  }

  lemma {:induction false} WindowOccurs(s: string, pat: string, k: nat, e: nat, i: nat)
    requires k <= e <= |s| && k + i + |pat| <= e
    ensures OccursAt(s[k..][..e - k], pat, i) == OccursAt(s, pat, k + i)
  {
    assert s[k..][..e - k][i..i + |pat|] == s[k + i..k + i + |pat|];
  }

  /** With four bytes to spare, the scan of a window stops at the next mark of the whole buffer. */
  lemma {:induction false} WindowScan(s: string, k: nat, e: nat)
    requires k <= e <= |s| && NextMark(s, k) + 4 <= e
    ensures ScanMark(s[k..][..e - k]) == NextMark(s, k) - k
  {
    FindStringDrop(s, k, 0);
    ScanPrefix(s[k..], e - k);
  }

  lemma {:induction false} MarkHere(s: string, k: nat)
    requires k <= |s| && StopsAt(s, MARK, k)
    ensures NextMark(s, k) == k
  {
  }

  /** A window that ends inside the delimiter does not contain it: one block of it is delivered. */
  lemma {:induction false} SwallowBlock(boundary: string, accept: Answers, st: State, k: nat, e: nat, q: nat)
    requires st.phase == Body && Find(st.buf, Delimiter(boundary), ScanMark(st.buf)) == Some(q)
    requires ScanMark(st.buf) <= k < q && NextMark(st.buf, k) == k
    requires k + |Delimiter(boundary)| <= e < q + |Delimiter(boundary)|
    ensures RunAll(boundary, accept, Window(st, k, e))
         == RunAll(boundary, accept, Window(st, k + |Delimiter(boundary)|, e))
  {
    hide FindString, StopsAt, Text.Find;
    var d := Delimiter(boundary);
    DelimiterMark(boundary);
    var w := Window(st, k, e);
    WindowScan(st.buf, k, e);
    assert Find(w.buf, d, 0) == None by {
      FindFirst(st.buf, d, ScanMark(st.buf));
      forall i: nat ensures !OccursAt(w.buf, d, i) {
        if i + |d| <= |w.buf| { WindowOccurs(st.buf, d, k, e, i); }
      }
      FindNone(w.buf, d, 0);
    }
    BodyPass(d, w);
    WindowEmit(st, k, e, k + |d|);
  }

  /** The blocks cover the delimiter: if the input stops behind the covering block, all of it is
      delivered as content, the first bytes of the delimiter included. */
  lemma {:induction false} Swallow(boundary: string, accept: Answers, st: State, q: nat, k: nat) returns (e: nat)
    requires st.phase == Body && Find(st.buf, Delimiter(boundary), ScanMark(st.buf)) == Some(q)
    requires ScanMark(st.buf) <= k < q && NextMark(st.buf, k) == k
    requires !BlocksLand(|Delimiter(boundary)|, st.buf, q, k)
    ensures q < e < q + |Delimiter(boundary)| && k + |Delimiter(boundary)| <= e
    ensures RunAll(boundary, accept, Window(st, k, e)) == Window(st, e, e)
    decreases q - k
  {
    hide FindString, StopsAt, Text.Find, RunAll;
    var d := Delimiter(boundary);
    DelimiterMark(boundary);
    if k + |d| > q {
      e := k + |d|;
      SwallowBlock(boundary, accept, st, k, e, q);
      assert Window(st, e, e).buf == "";
      RunEmpty(boundary, accept, Window(st, e, e));
    } else {
      var n := NextMark(st.buf, k + |d|);
      MarkBefore(d, st.buf, q, k + |d|);
      e := Swallow(boundary, accept, st, q, n);
      SwallowBlock(boundary, accept, st, k, e, q);
      WindowScan(st.buf, k + |d|, e);
      EmitStep(boundary, accept, Window(st, k + |d|, e), n - (k + |d|));
      WindowEmit(st, k + |d|, e, n);
    }
  }

  lemma {:induction false} RunEmpty(boundary: string, accept: Answers, st: State)
    requires st.buf == ""
    ensures RunAll(boundary, accept, st) == st
  {
  }

  /** In front of the delimiter the next mark is at most the delimiter's own. */
  lemma {:induction false} MarkBefore(d: string, s: string, q: nat, j: nat)
    requires IsDelimiter(d) && Find(s, d, ScanMark(s)) == Some(q) && ScanMark(s) <= j <= q
    ensures NextMark(s, j) <= q && NextMark(s, NextMark(s, j)) == NextMark(s, j)
  {
    FindFirst(s, d, ScanMark(s));
    MarkAtDelimiter(d, s, q);
    FindStringFirst(s, MARK, j);
    MarkHere(s, NextMark(s, j));
  }

  /** The parts delivered in the end when the buffer is cut after `n` bytes. */
  function CutParts(boundary: string, accept: Answers, st: State, n: nat): seq<Part>
    requires n <= |st.buf|
  {
    FinalParts(boundary, accept, Extend(RunAll(boundary, accept, Prefix(st, n)), st.buf[n..]))
  }

  function FinalParts(boundary: string, accept: Answers, st: State): seq<Part> {
    Settled(Told(accept, RunAll(boundary, accept, st))).Parts()
  }

  /** Cutting the buffer after `n` bytes leads to other parts than handling it in one call. */
  predicate PartsDiffer(boundary: string, accept: Answers, st: State, n: nat)
    requires n <= |st.buf|
  {
    CutParts(boundary, accept, st, n) != FinalParts(boundary, accept, st)
  }

  lemma {:induction false} FinalKept(boundary: string, accept: Answers, st: State)
    requires ContentAccepted(accept) && Ready(accept, st) && Sound(st)
    ensures Kept(st, FinalParts(boundary, accept, st))
  {
    hide Run, RunAll, Kept, Settled, Refusing;
    RunAccepting(boundary, accept, st);
    RunKept(boundary, accept, st);
  }

  /** The call on the prefix delivers more than the part really has. */
  lemma {:induction false} StraddleCut(boundary: string, accept: Answers, st: State) returns (n: nat)
    requires ContentAccepted(accept) && Ready(accept, st)
    requires st.phase == Body && |st.buf| >= 4 && !BodyLands(Delimiter(boundary), st.buf)
    ensures 0 < n < |st.buf| && PartsDiffer(boundary, accept, st, n)
  {
    hide FindString, StopsAt, Text.Find, Run, RunAll, BodyStep, Settled, Told;
    var d, k := Delimiter(boundary), ScanMark(st.buf);
    var q := Find(st.buf, d, k).value;
    DelimiterMark(boundary);
    FindStringFirst(st.buf, MARK, 0);
    MarkHere(st.buf, k);
    n := Swallow(boundary, accept, st, q, k);
    assert RunAll(boundary, accept, Prefix(st, n)) == Window(st, n, n) by {
      ScanPrefix(st.buf, n);
      EmitStep(boundary, accept, Prefix(st, n), k);
      WindowEmit(st, 0, n, k);
      EmitNone(st);
    }
    var long := Extend(Window(st, n, n), st.buf[n..]);
    assert long.Parts() == st.Deliver(st.buf[..n]).Parts();
    FinalKept(boundary, accept, long);
    BodyPass(d, st);
    var short := EndPart(d, st, q);
    RunNext(boundary, accept, st);
    FinalKept(boundary, accept, short);
    assert short.Parts()[|st.finished|] == short.current.value;
    assert |short.current.value.content| < |long.current.value.content|;
  }

  lemma {:induction false} RunNext(boundary: string, accept: Answers, st: State)
    requires st.buf != "" && !Declined(accept, st) && Step(boundary, ACCEPT_ALL, st).Next?
    ensures RunAll(boundary, accept, st) == RunAll(boundary, accept, Step(boundary, ACCEPT_ALL, st).st)
  {
  }

  lemma {:induction false} DeclinedPrefix(accept: Answers, st: State, n: nat)
    requires n <= |st.buf| && !Declined(accept, st)
    ensures !Declined(accept, Prefix(st, n))
  {
    var t := Prefix(st, n);
    assert Extend(t, st.buf[n..]) == st by { assert t.buf + st.buf[n..] == st.buf; }
    if Declined(accept, t) { DeclinedExtend(accept, t, st.buf[n..]); }
  }

  lemma {:induction false} BadCut(boundary: string, accept: Answers, st: State) returns (n: nat)
    requires ContentAccepted(accept) && Ready(accept, st) && !Lands(boundary, accept, st)
    ensures 0 < n < |st.buf| && PartsDiffer(boundary, accept, st, n)
    decreases Rank(st)
  {
    hide FindString, StopsAt, Text.Find, Run, RunAll, BodyLands, Step, Declined, Settled, ContentAccepted;
    if st.phase == Body && |st.buf| >= 4 && !BodyLands(Delimiter(boundary), st.buf) {
      n := StraddleCut(boundary, accept, st);
    } else {
      var s := Step(boundary, ACCEPT_ALL, st).st;
      StepAccepting(boundary, accept, st);
      StepRank(boundary, ACCEPT_ALL, st);
      StepTakes(boundary, st);
      var m := |st.buf| - |s.buf|;
      var n' := BadCut(boundary, accept, s);
      n := m + n';
      StepOnPrefix(boundary, st, n);
      var p := Step(boundary, ACCEPT_ALL, Prefix(st, n)).st;
      assert p == Prefix(s, n') && st.buf[n..] == s.buf[n'..] by {
        assert s.buf == p.buf + st.buf[n..];
      }
      RunNext(boundary, accept, st);
      DeclinedPrefix(accept, st, n);
      RunNext(boundary, accept, Prefix(st, n));
    }
  }

  /** A step only takes bytes from the front; in the body it needs room for a delimiter. */
  lemma {:induction false} StepTakes(boundary: string, st: State)
    requires st.buf != "" && Step(boundary, ACCEPT_ALL, st).Next?
    ensures |Step(boundary, ACCEPT_ALL, st).st.buf| <= |st.buf|
    ensures st.phase == Body ==> |st.buf| - ScanMark(st.buf) >= |Delimiter(boundary)|
  {
    hide FindString, StopsAt, Text.Find;
  }

  // ---- Two fragments -----------------------------------------------------------------------------

  lemma {:induction false} TwoChunks(boundary: string, accept: Answers, body: string, n: nat)
    requires n <= |body|
    ensures var chunks := [body[..n], body[n..]];
            var first := RunAll(boundary, accept, Prefix(Extend(Initial(), body), n));
            Flatten(chunks) == body
            && FeedAll(boundary, accept, Initial(), chunks) == RunAll(boundary, accept, Extend(first, body[n..]))
  {
    hide Run;
    var chunks := [body[..n], body[n..]];
    assert Extend(Initial(), body).buf == body;
    assert Extend(Initial(), body[..n]) == Prefix(Extend(Initial(), body), n);
    assert chunks[1..] == [body[n..]] && chunks[1..][1..] == [];
    assert Flatten(chunks[1..]) == body[n..] + Flatten([]);
    assert body[..n] + (body[n..] + "") == body;
    var first := RunAll(boundary, accept, Extend(Initial(), body[..n]));
    assert FeedAll(boundary, accept, Initial(), chunks) == FeedAll(boundary, accept, first, chunks[1..]);
    var second := RunAll(boundary, accept, Extend(first, body[n..]));
    assert FeedAll(boundary, accept, first, chunks[1..]) == FeedAll(boundary, accept, second, []);
  }

  // ---- A caller that stops at the first refusal --------------------------------------------------

  /** The server's reader: it calls `parse` with one fragment after the other until a call returns false. */
  function Calls(boundary: string, accept: Answers, st: State, chunks: seq<string>): (State, bool)
    decreases |chunks|
  {
    if chunks == [] then (st, true)
    else
      var (s, ret) := Run(boundary, accept, Extend(st, chunks[0]));
      if ret then Calls(boundary, accept, s, chunks[1..]) else (s, false)
  }

  /** Once refused, always refused: nothing but the buffer changes any more. */
  lemma {:induction false} RefusingStays(boundary: string, accept: Answers, st: State, c: string)
    requires Refusing(boundary, accept, st)
    ensures RunAll(boundary, accept, Extend(st, c)) == Extend(st, c) && Refusing(boundary, accept, Extend(st, c))
    ensures Told(accept, Extend(st, c)).(buf := "") == Told(accept, st).(buf := "")
  {
    hide Text.Find;
    if st.phase == InitialBoundary {
      var p := Opening(boundary);
      FindFirst(st.buf, p, 0);
      FindFirst(st.buf + c, p, 0);
      OccursAppend(st.buf, c, p, 0);
    } else if st.phase == Headers {
      DeclinedExtend(accept, st, c);
    }
  }

  lemma {:induction false} RefusingFeed(boundary: string, accept: Answers, st: State, chunks: seq<string>)
    requires Refusing(boundary, accept, st)
    ensures var f := FeedAll(boundary, accept, st, chunks);
            Refusing(boundary, accept, f) && Told(accept, f).(buf := "") == Told(accept, st).(buf := "")
    decreases |chunks|
  {
    hide Refusing, Told;
    if chunks != [] {
      RefusingStays(boundary, accept, st, chunks[0]);
      RefusingFeed(boundary, accept, Extend(st, chunks[0]), chunks[1..]);
    }
  }

  /** Stopping at the first refusal or going on comes to the same, but for the bytes not looked at. */
  lemma {:induction false} CallsFeed(boundary: string, accept: Answers, st: State, chunks: seq<string>)
    requires ContentAccepted(accept) && Ready(accept, st) && chunks != []
    ensures var (s, ok) := Calls(boundary, accept, st, chunks);
            var f := FeedAll(boundary, accept, st, chunks);
            (ok <==> !Refusing(boundary, accept, f)) && (ok ==> s == f)
            && (!ok ==> s.(buf := "") == Told(accept, f).(buf := ""))
    decreases |chunks|
  {
    hide Run, RunAll, Refusing, ContentAccepted;
    var r := RunAll(boundary, accept, Extend(st, chunks[0]));
    RunAccepting(boundary, accept, Extend(st, chunks[0]));
    NotDeclined(boundary, accept, r);
    if Refusing(boundary, accept, r) {
      RefusingFeed(boundary, accept, r, chunks[1..]);
    } else if |chunks| > 1 {
      CallsFeed(boundary, accept, r, chunks[1..]);
    } else {
      assert chunks[1..] == [] && FeedAll(boundary, accept, r, []) == r && Calls(boundary, accept, r, []) == (r, true);
    }
  }

  // ---- The exact condition -----------------------------------------------------------------------

  /** What the calls lead to: their answer, and the parser, forgetting what it holds back of a body and what
      it was given behind the point where it refused. */
  function Seen(r: (State, bool)): (State, bool) {
    (if r.1 then Settled(r.0) else r.0.(buf := ""), r.1)
  }

  /** However the body is cut into calls, the caller sees what it sees after one call on all of it: the same
      parts, phase, validity and position, and a refusal if and only if that call refuses. */
  ghost predicate CutIndependent(boundary: string, accept: Answers, body: string) {
    forall chunks: seq<string> | Flatten(chunks) == body ::
      Seen(Calls(boundary, accept, Initial(), chunks)) == Seen(Run(boundary, accept, Extend(Initial(), body)))
  }

  lemma {:induction false} RefusingSettled(boundary: string, accept: Answers, s: State, t: State)
    requires Settled(s) == Settled(t)
    ensures Refusing(boundary, accept, s) <==> Refusing(boundary, accept, t)
    ensures Refusing(boundary, accept, s) ==> s == t
  {
    hide Text.Find, FindString, StopsAt;
  }

  /** The same state after all fragments and after one call means that the caller sees the same. */
  lemma {:induction false} SeenSame(boundary: string, accept: Answers, st: State, chunks: seq<string>, whole: State)
    requires ContentAccepted(accept) && Ready(accept, st) && Ready(accept, whole) && chunks != []
    requires Settled(FeedAll(boundary, accept, st, chunks)) == Settled(RunAll(boundary, accept, whole))
    ensures Seen(Calls(boundary, accept, st, chunks)) == Seen(Run(boundary, accept, whole))
  {
    hide Run, RunAll, Refusing, Settled, FeedAll, Calls, Declined;
    var f, r := FeedAll(boundary, accept, st, chunks), RunAll(boundary, accept, whole);
    CallsFeed(boundary, accept, st, chunks);
    RunAccepting(boundary, accept, whole);
    RefusingSettled(boundary, accept, f, r);
    NotDeclined(boundary, accept, r);
  }

  lemma {:induction false} SeenTold(boundary: string, accept: Answers, r: State, s: State)
    requires if Refusing(boundary, accept, r) then s.(buf := "") == Told(accept, r).(buf := "") else s == r
    ensures Seen((s, !Refusing(boundary, accept, r))).0.Parts() == Settled(Told(accept, r)).Parts()
  {
    hide Text.Find, FindString, StopsAt;
  }

  /** Other parts are seen as such. */
  lemma {:induction false} SeenOther(boundary: string, accept: Answers, st: State, chunks: seq<string>, whole: State)
    requires ContentAccepted(accept) && Ready(accept, st) && Ready(accept, whole) && chunks != []
    requires Settled(Told(accept, FeedAll(boundary, accept, st, chunks))).Parts() != FinalParts(boundary, accept, whole)
    ensures Seen(Calls(boundary, accept, st, chunks)).0.Parts() != Seen(Run(boundary, accept, whole)).0.Parts()
  {
    hide Run, RunAll, Refusing, Settled, FeedAll, Calls, Declined, Seen;
    CallsFeed(boundary, accept, st, chunks);
    RunAccepting(boundary, accept, whole);
    NotDeclined(boundary, accept, RunAll(boundary, accept, whole));
    SeenTold(boundary, accept, FeedAll(boundary, accept, st, chunks), Calls(boundary, accept, st, chunks).0);
    SeenTold(boundary, accept, RunAll(boundary, accept, whole), Run(boundary, accept, whole).0);
  }

  /** Fragmentation independence holds exactly for the bodies whose delimiters are landed on, up to the part that
      is refused if one is. */
  lemma {:induction false} CutIndependentIff(boundary: string, accept: Answers, body: string)
    requires ContentAccepted(accept)
    ensures CutIndependent(boundary, accept, body) <==> Lands(boundary, accept, Extend(Initial(), body))
  {
    hide Run, RunAll, Lands, Settled, Step, Seen, Calls, ContentAccepted;
    var st := Extend(Initial(), body);
    assert st.buf == body;
    if Lands(boundary, accept, st) {
      forall chunks: seq<string> | Flatten(chunks) == body
        ensures Seen(Calls(boundary, accept, Initial(), chunks)) == Seen(Run(boundary, accept, st))
      {
        if chunks == [] {
          NoCalls(boundary, accept, st);
        } else {
          FeedManyTimes(boundary, accept, Initial(), chunks);
          SeenSame(boundary, accept, Initial(), chunks, st);
        }
      }
    } else {
      var n := BadCut(boundary, accept, st);
      TwoChunks(boundary, accept, body, n);
      SeenOther(boundary, accept, Initial(), [body[..n], body[n..]], st);
      assert Flatten([body[..n], body[n..]]) == body;
    }
  }

  lemma {:induction false} NoCalls(boundary: string, accept: Answers, st: State)
    requires st.buf == ""
    ensures Run(boundary, accept, st) == (st, true) && Calls(boundary, accept, st, []) == (st, true)
  {
  }
}
