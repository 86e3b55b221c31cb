/** How the multipart parser depends on the way a body is cut into `parse` calls. */
module MultipartFragments {
  import opened Text
  import opened Multipart

  const ACCEPT_ALL: Answers := (_: seq<Part>) => true

  /** The parser between two calls, forgetting how many harmless body bytes it still holds back. */
  function Settled(st: State): State {
    if st.phase == Body then st.Emit(ScanMark(st.buf)) else st
  }

  function Extend(st: State, data: string): State {
    st.(buf := st.buf + data)
  }

  /** The header callback refuses the part whose headers end here. */
  predicate Declined(accept: Answers, st: State) {
    st.phase == Headers && Find(st.buf, CRLF, 0) == Some(0) && !accept(st.Announce().Parts())
  }

  /** Where a call stops when all content is taken: in front of a part that is refused, and else where the loop
      returns. */
  function RunAll(boundary: string, accept: Answers, st: State): State
    decreases Rank(st)
  {
    if st.buf == "" || Declined(accept, st) then st
    else match Step(boundary, ACCEPT_ALL, st)
      case Next(s) => RunAll(boundary, accept, s)
      case Halt(_, s) => s
  }

  function Flatten(chunks: seq<string>): string {
    if chunks == [] then "" else chunks[0] + Flatten(chunks[1..])
  }

  /** The state after feeding the fragments one by one. */
  function FeedAll(boundary: string, accept: Answers, st: State, chunks: seq<string>): State
    decreases |chunks|
  {
    if chunks == [] then st
    else FeedAll(boundary, accept, RunAll(boundary, accept, Extend(st, chunks[0])), chunks[1..])
  }

  /** Blocks of `n` bytes, the first at `k` and each further one at the next mark, begin exactly at `q`:
      none of them covers `q` without starting there. */
  predicate BlocksLand(n: nat, s: string, q: nat, k: nat)
    requires n > 0 && k <= q <= |s|
    decreases q - k
  {
    k == q || (k + n <= q && NextMark(s, k + n) <= q && BlocksLand(n, s, q, NextMark(s, k + n)))
  }

  function NextMark(s: string, k: nat): (n: nat)
    requires k <= |s|
    ensures k <= n <= |s|
  {
    FindString(s, MARK, k)
  }

  /** In one call on the whole buffer, every delimiter the parser finds is one the blocks land on. */
  predicate Lands(boundary: string, accept: Answers, st: State)
    decreases Rank(st)
  {
    st.buf == "" || Declined(accept, st) ||
    ((st.phase == Body && |st.buf| >= 4 ==> BodyLands(Delimiter(boundary), st.buf)) &&
     match Step(boundary, ACCEPT_ALL, st)
     case Next(s) => Lands(boundary, accept, s)
     case Halt(_, _) => true)
  }

  predicate BodyLands(d: string, s: string)
    requires d != ""
  {
    var at := Find(s, d, ScanMark(s));
    at.Some? ==> BlocksLand(|d|, s, at.value, ScanMark(s))
  }

  // ---- Scanning for marks ------------------------------------------------------------------------

  lemma {:induction false} StopsAtDrop(s: string, k: nat, i: nat)
    requires k <= |s|
    ensures StopsAt(s[k..], MARK, i) == StopsAt(s, MARK, k + i)
  {
    OccursDrop(s, MARK, k, i);
  }

  lemma {:induction false} FindStringIs(s: string, from: nat, n: nat)
    requires from <= n <= |s| && StopsAt(s, MARK, n)
    requires forall i: nat | from <= i < n :: !StopsAt(s, MARK, i)
    ensures FindString(s, MARK, from) == n
  {
    FindStringFirst(s, MARK, from);
  }

  lemma {:induction false} FindStringDrop(s: string, k: nat, from: nat)
    requires k + from <= |s|
    ensures FindString(s[k..], MARK, from) == FindString(s, MARK, k + from) - k
  {
    forall i: nat ensures StopsAt(s[k..], MARK, i) == StopsAt(s, MARK, k + i) {
      StopsAtDrop(s, k, i);
    }
    FindStringFirst(s, MARK, k + from);
    FindStringIs(s[k..], from, FindString(s, MARK, k + from) - k);
  }

  lemma {:induction false} ScanDrop(s: string, k: nat)
    requires k <= ScanMark(s)
    ensures ScanMark(s[k..]) == ScanMark(s) - k
  {
    FindStringDrop(s, k, 0);
    FindStringFirst(s, MARK, 0);
    FindStringIs(s, k, ScanMark(s));
  }

  /** More bytes never make the scan stop earlier, and a mark seen in full stays the first one. */
  lemma {:induction false} ScanAppend(s: string, t: string)
    ensures ScanMark(s) <= ScanMark(s + t)
    ensures |s| - ScanMark(s) >= 4 ==> ScanMark(s + t) == ScanMark(s)
  {
    var n := ScanMark(s);
    FindStringFirst(s, MARK, 0);
    FindStringFirst(s + t, MARK, 0);
    forall i: nat | i < n ensures !StopsAt(s + t, MARK, i) {
      assert !StopsAt(s, MARK, i);
      if i + 4 <= |s| { OccursAppend(s, t, MARK, i); }
    }
    if |s| - n >= 4 {
      OccursAppend(s, t, MARK, n);
      FindStringIs(s + t, 0, n);
    }
  }

  /** `BlocksLand` speaks about the text from `j` on only. */
  lemma {:induction false} BlocksDrop(n: nat, s: string, q: nat, j: nat, k: nat)
    requires n > 0 && j <= k <= q <= |s|
    ensures BlocksLand(n, s[j..], q - j, k - j) == BlocksLand(n, s, q, k)
    decreases q - k
  {
    hide FindString, StopsAt;
    if k < q && k + n <= q {
      FindStringDrop(s, j, k - j + n);
      if NextMark(s, k + n) <= q { BlocksDrop(n, s, q, j, NextMark(s, k + n)); }
    }
  }

  lemma {:induction false} BodyLandsDrop(d: string, s: string, k: nat)
    requires d != "" && k <= ScanMark(s)
    ensures BodyLands(d, s[k..]) == BodyLands(d, s)
  {
    hide Text.Find, FindString, StopsAt, BlocksLand;
    ScanDrop(s, k);
    FindDrop(s, d, k, ScanMark(s) - k);
    if Find(s, d, ScanMark(s)).Some? {
      BlocksDrop(|d|, s, Find(s, d, ScanMark(s)).value, k, ScanMark(s));
    }
  }

  // ---- Emitting ----------------------------------------------------------------------------------

  lemma {:induction false} EmitTwice(st: State, i: nat, j: nat)
    requires i + j <= |st.buf|
    ensures st.Emit(i).Emit(j) == st.Emit(i + j)
  {
    assert st.buf[i..][j..] == st.buf[i + j..];
    if st.current.Some? {
      var c := st.current.value.content;
      assert c + st.buf[..i] + st.buf[i..][..j] == c + st.buf[..i + j];
    }
  }

  lemma {:induction false} EmitNone(st: State)
    ensures st.Emit(0) == st
  {
    if st.current.Some? {
      assert st.current.value.content + st.buf[..0] == st.current.value.content;
    }
  }

  lemma {:induction false} SettledEmit(st: State, k: nat)
    requires st.phase == Body && k <= ScanMark(st.buf)
    ensures Settled(st.Emit(k)) == Settled(st)
  {
    ScanDrop(st.buf, k);
    EmitTwice(st, k, ScanMark(st.buf) - k);
  }

  /** A body buffer that is held back as a whole. */
  lemma {:induction false} ShortBody(boundary: string, accept: Answers, st: State)
    requires st.phase == Body && |st.buf| < 4
    ensures RunAll(boundary, accept, st) == st && Lands(boundary, accept, st)
  {
  }

  /** When fewer than four bytes are left behind the scan, the call stops there. */
  lemma {:induction false} NearlyAll(boundary: string, accept: Answers, st: State)
    requires st.phase == Body && |st.buf| >= 4 && |st.buf| - ScanMark(st.buf) < 4
    ensures RunAll(boundary, accept, st) == st.Emit(ScanMark(st.buf)) && Lands(boundary, accept, st)
  {
    assert BoundaryInBody(Delimiter(boundary), ACCEPT_ALL, st.Emit(ScanMark(st.buf))).Halt?;
    assert Find(st.buf, Delimiter(boundary), ScanMark(st.buf)) == None;
  }

  lemma {:induction false} EmitStep(boundary: string, accept: Answers, st: State, k: nat)
    requires st.phase == Body && k <= ScanMark(st.buf) && |st.buf| - k >= 4
    ensures RunAll(boundary, accept, st.Emit(k)) == RunAll(boundary, accept, st)
    ensures Lands(boundary, accept, st.Emit(k)) == Lands(boundary, accept, st)
  {
    hide Text.Find, FindString, StopsAt;
    var s, n := st.Emit(k), ScanMark(st.buf);
    ScanDrop(st.buf, k);
    EmitTwice(st, k, n - k);
    assert BodyStep(Delimiter(boundary), ACCEPT_ALL, s) == BodyStep(Delimiter(boundary), ACCEPT_ALL, st);
    BodyLandsDrop(Delimiter(boundary), st.buf, k);
  }

  /** Bytes in front of the first possible mark may be delivered before or during the call. */
  lemma {:induction false} EmitEarly(boundary: string, accept: Answers, st: State, k: nat)
    requires st.phase == Body && k <= ScanMark(st.buf)
    ensures Settled(RunAll(boundary, accept, st.Emit(k))) == Settled(RunAll(boundary, accept, st))
    ensures Lands(boundary, accept, st.Emit(k)) == Lands(boundary, accept, st)
  {
    SettledEmit(st, k);
    if |st.buf| - k >= 4 {
      EmitStep(boundary, accept, st, k);
    } else {
      ShortBody(boundary, accept, st.Emit(k));
      if |st.buf| >= 4 {
        NearlyAll(boundary, accept, st);
        SettledEmit(st, ScanMark(st.buf));
      } else {
        ShortBody(boundary, accept, st);
      }
    }
  }

  // ---- Cutting the input in two ------------------------------------------------------------------

  lemma {:induction false} EmitExtend(st: State, n: nat, c: string)
    requires n <= |st.buf|
    ensures Extend(st, c).Emit(n) == Extend(st.Emit(n), c)
  {
    assert (st.buf + c)[..n] == st.buf[..n];
    assert (st.buf + c)[n..] == st.buf[n..] + c;
  }

  lemma {:induction false} OpeningExtend(boundary: string, st: State, c: string)
    requires OpeningStep(boundary, st).Next?
    ensures OpeningStep(boundary, Extend(st, c)) == Next(Extend(OpeningStep(boundary, st).st, c))
  {
    var p := Opening(boundary);
    OccursAppend(st.buf, c, p, 0);
    assert (st.buf + c)[|p|..] == st.buf[|p|..] + c;
  }

  lemma {:induction false} HeaderExtend(accept: Answers, st: State, c: string)
    requires HeaderStep(accept, st).Next?
    ensures HeaderStep(accept, Extend(st, c)) == Next(Extend(HeaderStep(accept, st).st, c))
  {
    hide Text.Find, ReadHeader;
    FindAppend(st.buf, c, CRLF, 0);
    var pos := Find(st.buf, CRLF, 0).value;
    assert (st.buf + c)[..pos] == st.buf[..pos];
    assert (st.buf + c)[pos + 2..] == st.buf[pos + 2..] + c;
  }

  lemma {:induction false} BoundaryEndExtend(st: State, c: string)
    requires BoundaryEndStep(st).Next?
    ensures BoundaryEndStep(Extend(st, c)) == Next(Extend(BoundaryEndStep(st).st, c))
  {
    assert (st.buf + c)[..2] == st.buf[..2] && (st.buf + c)[2..] == st.buf[2..] + c;
    if |st.buf| >= 4 { assert (st.buf + c)[..4] == st.buf[..4] && (st.buf + c)[4..] == st.buf[4..] + c; }
  }

  /** Outside the body, more input does not change a step that was possible without it. */
  lemma {:induction false} StepExtend(boundary: string, accept: Answers, st: State, c: string)
    requires st.phase != Body && st.buf != "" && Step(boundary, accept, st).Next?
    ensures Step(boundary, accept, Extend(st, c)) == Next(Extend(Step(boundary, accept, st).st, c))
  {
    match st.phase
    case InitialBoundary => OpeningExtend(boundary, st, c);
    case NewEntry =>
    case Headers => HeaderExtend(accept, st, c);
    case AfterBoundary => BoundaryEndExtend(st, c);
  }

  /** Whether a part is refused does not depend on what follows its headers. */
  lemma {:induction false} DeclinedExtend(accept: Answers, st: State, c: string)
    requires st.phase == Headers ==> Find(st.buf, CRLF, 0).Some?
    ensures Declined(accept, Extend(st, c)) == Declined(accept, st)
  {
    if st.phase == Headers { FindAppend(st.buf, c, CRLF, 0); }
  }

  /** A step that returns leaves a state from which more input leads where it would have led. */
  lemma {:induction false} HaltExtend(boundary: string, accept: Answers, st: State, c: string)
    requires st.phase != Body && st.buf != "" && Step(boundary, ACCEPT_ALL, st).Halt?
    ensures var s := Extend(Step(boundary, ACCEPT_ALL, st).st, c);
            RunAll(boundary, accept, s) == RunAll(boundary, accept, Extend(st, c))
            && Lands(boundary, accept, s) == Lands(boundary, accept, Extend(st, c))
  {
    if st.phase == Done {
      assert Step(boundary, ACCEPT_ALL, Extend(st, c)).Halt?;
    } else {
      assert Step(boundary, ACCEPT_ALL, st).st == st;
    }
  }

  // ---- Passes through the body -------------------------------------------------------------------

  predicate IsDelimiter(d: string) {
    |d| >= 4 && d[..4] == MARK
  }

  lemma {:induction false} DelimiterMark(boundary: string)
    ensures IsDelimiter(Delimiter(boundary)) && |Delimiter(boundary)| == 4 + |boundary|
  {
  }

  /** The body up to position `k` is delivered, and the delimiter there is passed. */
  function EndPart(d: string, st: State, k: nat): State
    requires k + |d| <= |st.buf|
  {
    st.Emit(k).Consume(|d|).(phase := AfterBoundary)
  }

  /** The state after a pass through a body buffer long enough to hold a delimiter. */
  function AfterBody(d: string, st: State): State
    requires |st.buf| - ScanMark(st.buf) >= |d|
  {
    match Find(st.buf, d, ScanMark(st.buf))
    case Some(k) => EndPart(d, st, k)
    case None => st.Emit(ScanMark(st.buf) + |d|)
  }

  lemma {:induction false} ConsumeMore(st: State, k: nat, w: nat)
    requires k + w <= |st.buf|
    ensures st.Consume(k).Consume(w) == st.Consume(k + w)
  {
    assert st.buf[k..][w..] == st.buf[k + w..];
  }

  lemma {:induction false} EndPartLater(d: string, st: State, k: nat, q: nat)
    requires k <= q && q + |d| <= |st.buf|
    ensures EndPart(d, st.Emit(k), q - k) == EndPart(d, st, q)
  {
    EmitTwice(st, k, q - k);
  }

  lemma {:induction false} BoundaryPass(d: string, s: State)
    requires |s.buf| >= |d|
    ensures BoundaryInBody(d, ACCEPT_ALL, s)
         == Next(match Find(s.buf, d, 0) case Some(q) => EndPart(d, s, q) case None => s.Emit(|d|))
  {
    hide Text.Find;
    if Find(s.buf, d, 0).Some? {
      var q := Find(s.buf, d, 0).value;
      ConsumeMore(s.Deliver(s.buf[..q]), q, |d|);
    }
  }

  lemma {:induction false} BodyPass(d: string, st: State)
    requires |d| >= 4 && |st.buf| - ScanMark(st.buf) >= |d|
    ensures BodyStep(d, ACCEPT_ALL, st) == Next(AfterBody(d, st))
  {
    hide Text.Find, FindString, StopsAt;
    var n := ScanMark(st.buf);
    var s := st.Emit(n);
    BoundaryPass(d, s);
    FindDrop(st.buf, d, n, 0);
    match Find(st.buf, d, n)
    case Some(k) => EndPartLater(d, st, n, k);
    case None => EmitTwice(st, n, |d|);
  }

  /** A full delimiter starts with a mark. */
  lemma {:induction false} MarkAtDelimiter(d: string, s: string, q: nat)
    requires IsDelimiter(d) && OccursAt(s, d, q)
    ensures StopsAt(s, MARK, q)
  {
    assert s[q..q + 4] == s[q..q + |d|][..4];
  }

  /** `t` is `s` from position `j` on: the next mark and the delimiter are where they were. */
  lemma {:induction false} AheadOfDelimiter(d: string, s: string, q: nat, j: nat, t: string)
    requires IsDelimiter(d) && Find(s, d, ScanMark(s)) == Some(q)
    requires ScanMark(s) <= j <= q && t == s[j..]
    ensures NextMark(s, j) == j + ScanMark(t) <= q && Find(t, d, ScanMark(t)) == Some(q - j)
  {
    hide Text.Find, FindString, StopsAt;
    FindFirst(s, d, ScanMark(s));
    MarkAtDelimiter(d, s, q);
    FindStringFirst(s, MARK, j);
    FindStringDrop(s, j, 0);
    FindIs(s, d, NextMark(s, j), q);
    FindDrop(s, d, j, ScanMark(t));
  }

  lemma {:induction false} LandsAhead(d: string, s: string, q: nat, t: string)
    requires IsDelimiter(d) && Find(s, d, ScanMark(s)) == Some(q) && BodyLands(d, s)
    requires ScanMark(s) + |d| <= q && t == s[ScanMark(s) + |d|..]
    ensures BodyLands(d, t)
  {
    hide Text.Find, FindString, StopsAt;
    var j := ScanMark(s) + |d|;
    AheadOfDelimiter(d, s, q, j, t);
    BlocksDrop(|d|, s, q, j, NextMark(s, j));
  }

  /** One block of a part that the blocks land on: the rest is handled as if it had not been delivered. */
  lemma {:induction false} DeliverBlock(d: string, st: State, q: nat, t: State)
    requires IsDelimiter(d) && ScanMark(st.buf) + |d| <= q && Find(st.buf, d, ScanMark(st.buf)) == Some(q)
    requires BodyLands(d, st.buf) && t == st.Emit(ScanMark(st.buf) + |d|)
    ensures |t.buf| - ScanMark(t.buf) >= |d|
    ensures AfterBody(d, t) == AfterBody(d, st)
    ensures BodyLands(d, t.buf)
  {
    hide Text.Find, FindString, StopsAt;
    var j := ScanMark(st.buf) + |d|;
    AheadOfDelimiter(d, st.buf, q, j, t.buf);
    LandsAhead(d, st.buf, q, t.buf);
    EndPartLater(d, st, j, q);
  }

  lemma {:induction false} EndPartExtend(d: string, st: State, k: nat, c: string)
    requires k + |d| <= |st.buf|
    ensures EndPart(d, Extend(st, c), k) == Extend(EndPart(d, st, k), c)
  {
    EmitExtend(st, k, c);
    assert (st.buf[k..] + c)[|d|..] == st.buf[k..][|d|..] + c;
  }

  /** A pass that matches a delimiter, or finds none even with `c` behind, is not changed by `c`. */
  lemma {:induction false} BodyExtend(d: string, st: State, c: string)
    requires |d| >= 4 && |st.buf| - ScanMark(st.buf) >= |d|
    requires Find(st.buf, d, ScanMark(st.buf)) == Find(st.buf + c, d, ScanMark(st.buf))
    ensures ScanMark(st.buf + c) == ScanMark(st.buf)
    ensures AfterBody(d, Extend(st, c)) == Extend(AfterBody(d, st), c)
  {
    hide Text.Find, FindString, StopsAt;
    var n := ScanMark(st.buf);
    ScanAppend(st.buf, c);
    assert Extend(st, c).buf == st.buf + c;
    match Find(st.buf, d, n)
    case Some(k) => EndPartExtend(d, st, k, c);
    case None => EmitExtend(st, n + |d|, c);
  }

  // ---- Two calls instead of one ------------------------------------------------------------------

  lemma {:induction false} SameNext(boundary: string, accept: Answers, st: State, t: State)
    requires st.phase == t.phase == Body
    requires |st.buf| - ScanMark(st.buf) >= |Delimiter(boundary)|
    requires |t.buf| - ScanMark(t.buf) >= |Delimiter(boundary)|
    requires AfterBody(Delimiter(boundary), t) == AfterBody(Delimiter(boundary), st)
    ensures RunAll(boundary, accept, t) == RunAll(boundary, accept, st)
    ensures Lands(boundary, accept, st) && BodyLands(Delimiter(boundary), t.buf) ==> Lands(boundary, accept, t)
  {
    DelimiterMark(boundary);
    BodyPass(Delimiter(boundary), st);
    BodyPass(Delimiter(boundary), t);
  }

  lemma {:induction false} DelimiterBehind(d: string, s: string, c: string)
    requires |d| >= 4 && |s| - ScanMark(s) >= |d|
    requires Find(s, d, ScanMark(s)).None? && Find(s + c, d, ScanMark(s)).Some?
    ensures ScanMark(s + c) == ScanMark(s) < Find(s + c, d, ScanMark(s)).value
  {
    var n := ScanMark(s);
    ScanAppend(s, c);
    FindFirst(s, d, n);
    FindFirst(s + c, d, n);
    OccursAppend(s, c, d, n);
  }

  /** The delimiter is completed by `c` only: the block delivered meanwhile ends in front of it. */
  lemma {:induction false} DelimiterLater(boundary: string, accept: Answers, st: State, c: string)
    requires st.phase == Body && |st.buf| - ScanMark(st.buf) >= |Delimiter(boundary)|
    requires Find(st.buf, Delimiter(boundary), ScanMark(st.buf)).None?
    requires Find(st.buf + c, Delimiter(boundary), ScanMark(st.buf)).Some?
    requires BodyLands(Delimiter(boundary), st.buf + c)
    ensures var s := Extend(AfterBody(Delimiter(boundary), st), c);
            RunAll(boundary, accept, s) == RunAll(boundary, accept, Extend(st, c))
            && (Lands(boundary, accept, Extend(st, c)) ==> Lands(boundary, accept, s))
  {
    hide Text.Find, FindString, StopsAt, Lands, Run, Multipart.Step;
    DelimiterMark(boundary);
    var d, n := Delimiter(boundary), ScanMark(st.buf);
    DelimiterBehind(d, st.buf, c);
    var e, t := Extend(st, c), Extend(AfterBody(d, st), c);
    assert t == e.Emit(n + |d|) by { EmitExtend(st, n + |d|, c); }
    DeliverBlock(d, e, Find(st.buf + c, d, n).value, t);
    SameNext(boundary, accept, e, t);
  }

  /** After a full pass over the buffer, the rest of the input is still in good shape. */
  lemma {:induction false} NextOnward(boundary: string, accept: Answers, st: State, c: string)
    requires st.phase == Body && |st.buf| - ScanMark(st.buf) >= |Delimiter(boundary)|
    requires Lands(boundary, accept, Extend(st, c))
    ensures var s := Extend(AfterBody(Delimiter(boundary), st), c);
            RunAll(boundary, accept, s) == RunAll(boundary, accept, Extend(st, c)) && Lands(boundary, accept, s)
  {
    DelimiterMark(boundary);
    var d, n := Delimiter(boundary), ScanMark(st.buf);
    if Find(st.buf, d, n) == Find(st.buf + c, d, n) {
      BodyExtend(d, st, c);
      BodyPass(d, Extend(st, c));
    } else {
      if Find(st.buf, d, n).Some? { FindAppend(st.buf, c, d, n); }
      DelimiterLater(boundary, accept, st, c);
    }
  }

  /** Feeding `c` in a second call gives what feeding it together with the buffer gives. */
  lemma {:induction false} CutInTwo(boundary: string, accept: Answers, st: State, c: string)
    requires Lands(boundary, accept, Extend(st, c))
    ensures Settled(RunAll(boundary, accept, Extend(RunAll(boundary, accept, st), c)))
         == Settled(RunAll(boundary, accept, Extend(st, c)))
    ensures Lands(boundary, accept, Extend(RunAll(boundary, accept, st), c))
    decreases Rank(st), 1
  {
    if st.buf == "" {
    } else if Declined(accept, st) {
      DeclinedExtend(accept, st, c);
    } else if st.phase != Body {
      if Step(boundary, ACCEPT_ALL, st).Next? {
        StepExtend(boundary, ACCEPT_ALL, st, c);
        DeclinedExtend(accept, st, c);
        CutInTwo(boundary, accept, Step(boundary, ACCEPT_ALL, st).st, c);
      } else {
        HaltExtend(boundary, accept, st, c);
      }
    } else if |st.buf| >= 4 {
      CutBody(boundary, accept, st, c);
    }
  }

  lemma {:induction false} CutBody(boundary: string, accept: Answers, st: State, c: string)
    requires Lands(boundary, accept, Extend(st, c))
    requires st.phase == Body && |st.buf| >= 4
    ensures Settled(RunAll(boundary, accept, Extend(RunAll(boundary, accept, st), c)))
         == Settled(RunAll(boundary, accept, Extend(st, c)))
    ensures Lands(boundary, accept, Extend(RunAll(boundary, accept, st), c))
    decreases Rank(st), 0
  {
    hide Text.Find, FindString, StopsAt;
    DelimiterMark(boundary);
    var n := ScanMark(st.buf);
    if |st.buf| - n < |Delimiter(boundary)| {
      assert RunAll(boundary, accept, st) == st.Emit(n);
      ScanAppend(st.buf, c);
      EmitExtend(st, n, c);
      EmitEarly(boundary, accept, Extend(st, c), n);
    } else {
      BodyPass(Delimiter(boundary), st);
      NextOnward(boundary, accept, st, c);
      CutInTwo(boundary, accept, AfterBody(Delimiter(boundary), st), c);
    }
  }

  /** Any number of calls, when the delimiters of the whole input are landed on. */
  lemma {:induction false} FeedManyTimes(boundary: string, accept: Answers, st: State, chunks: seq<string>)
    requires chunks != [] && Lands(boundary, accept, Extend(st, Flatten(chunks)))
    ensures Settled(FeedAll(boundary, accept, st, chunks))
         == Settled(RunAll(boundary, accept, Extend(st, Flatten(chunks))))
    decreases |chunks|
  {
    hide Lands, Run, Settled;
    var s := Extend(st, chunks[0]);
    assert Extend(s, Flatten(chunks[1..])) == Extend(st, Flatten(chunks)) by {
      assert st.buf + chunks[0] + Flatten(chunks[1..]) == st.buf + Flatten(chunks);
    }
    if |chunks| > 1 {
      CutInTwo(boundary, accept, s, Flatten(chunks[1..]));
      FeedManyTimes(boundary, accept, RunAll(boundary, accept, s), chunks[1..]);
    } else {
      assert chunks[1..] == [];
      assert Extend(s, "") == s by { assert s.buf + "" == s.buf; }
      assert FeedAll(boundary, accept, st, chunks) == FeedAll(boundary, accept, RunAll(boundary, accept, s), []);
    }
  }
}
