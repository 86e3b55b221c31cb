/** The incremental multipart/form-data parser of include/httplib.h, stated first as a step function on
    parser states, then as the class whose `Parse` method runs it over one fragment of the body. */
module Multipart {
  import opened Text

  const DASHES: string := "--"
  /** What `find_string` scans the body for before the boundary itself is looked for. */
  const MARK: string := "\r\n--"

  datatype FileInfo = FileInfo(name: string, filename: string, contentType: string)

  /** What the callbacks have been given for one part: its headers, then its content, concatenated. */
  datatype Part = Part(info: FileInfo, content: string)

  const NO_INFO: FileInfo := FileInfo("", "", "")

  datatype Phase = InitialBoundary | NewEntry | Headers | Body | AfterBoundary | Done

  /** Parser fields, and what was delivered to the callbacks so far: finished parts and the current one. */
  datatype State = State(phase: Phase, buf: string, off: nat, valid: bool, file: FileInfo,
                         finished: seq<Part>, current: Option<Part>)
  {
    /** `n` bytes leave the front of the buffer. */
    function Consume(n: nat): State
      requires n <= |buf|
    {
      this.(buf := buf[n..], off := off + n)
    }

    /** The content callback is given `text` for the current part. */
    function Deliver(text: string): (s: State)
      ensures s.buf == buf
    {
      match current
      case None => this
      case Some(part) => this.(current := Some(part.(content := part.content + text)))
    }

    /** Content is delivered and leaves the buffer. */
    function Emit(n: nat): State
      requires n <= |buf|
    {
      Deliver(buf[..n]).Consume(n)
    }

    /** The header callback is given `file`: a new part begins. */
    function Announce(): State {
      this.(finished := Parts(), current := Some(Part(file, "")))
    }

    function Parts(): seq<Part> {
      match current
      case None => finished
      case Some(part) => finished + [part]
    }
  }

  function Initial(): State {
    State(InitialBoundary, "", 0, false, NO_INFO, [], None)
  }

  function Opening(boundary: string): string {
    DASHES + boundary + CRLF
  }

  function Delimiter(boundary: string): string {
    MARK + boundary
  }

  // ---- Header lines ------------------------------------------------------------------------------

  predicate StartsWithIgnoreCase(s: string, lit: string) {
    |lit| <= |s| && forall i | 0 <= i < |lit| :: Lower(s[i]) == Lower(lit[i])
  }

  /** What follows `lit`, read without regard to case, if `s` starts with it. */
  function After(s: string, lit: string): Option<string> {
    if StartsWithIgnoreCase(s, lit) then Some(s[|lit|..]) else None
  }

  /** Lazy `(.*?)"` followed by blanks up to the end of the line. */
  function LazyFilename(s: string, k: nat): Option<string>
    decreases |s| - k
  {
    if k >= |s| then None
    else if s[k] == '"' && SkipSpaces(s[k + 1..]) == "" then Some(s[..k])
    else if s[k] == CR || s[k] == LF then None
    else LazyFilename(s, k + 1)
  }

  function FilenameParameter(s: string): Option<string> {
    if s == "" || s[0] != ';' then None
    else match After(SkipSpaces(s[1..]), "filename=\"")
      case Some(r) => LazyFilename(r, 0)
      case None => None
  }

  /** What may follow the quoted name: an optional file name, then blanks. */
  function DispositionTail(s: string): Option<string> {
    if FilenameParameter(s).Some? then FilenameParameter(s)
    else if SkipSpaces(s) == "" then Some("")
    else None
  }

  /** Lazy `(.*?)"` whose end is moved on until the rest of the line matches. */
  function LazyName(s: string, k: nat): Option<(string, string)>
    decreases |s| - k
  {
    if k >= |s| then None
    else if s[k] == '"' && DispositionTail(s[k + 1..]).Some?
    then Some((s[..k], DispositionTail(s[k + 1..]).value))
    else if s[k] == CR || s[k] == LF then None
    else LazyName(s, k + 1)
  }

  function NameParameter(s: string): Option<(string, string)> {
    match After(SkipSpaces(s), "name=\"")
    case Some(r) => LazyName(r, 0)
    case None => None
  }

  function FormDataParameters(s: string): Option<(string, string)> {
    match After(SkipSpaces(s), "form-data;")
    case Some(r) => NameParameter(r)
    case None => None
  }

  /** The fixed pattern for Content-Disposition: name and file name, if the whole line matches. */
  function MatchDisposition(header: string): Option<(string, string)> {
    match After(header, "Content-Disposition:")
    case Some(r) => FormDataParameters(r)
    case None => None
  }

  function ReadHeader(file: FileInfo, header: string): FileInfo {
    if StartsWithIgnoreCase(header, "content-type:") then file.(contentType := Trim(header[13..]))
    else match MatchDisposition(header)
      case Some((name, filename)) => file.(name := name, filename := filename)
      case None => file
  }

  // ---- One step ----------------------------------------------------------------------------------

  /** `find_string` stops at `i`: the first byte of `pat` is there and the rest of the buffer either
      starts with `pat` or is too short to tell. */
  predicate StopsAt(s: string, pat: string, i: nat)
    requires pat != ""
  {
    i == |s| || (i < |s| && s[i] == pat[0] && (|s| - i < |pat| || OccursAt(s, pat, i)))
  }

  function FindString(s: string, pat: string, from: nat): (n: nat)
    requires pat != "" && from <= |s|
    ensures from <= n <= |s|
    decreases |s| - from
  {
    if StopsAt(s, pat, from) then from else FindString(s, pat, from + 1)
  }

  /** The scan stops at the first such place. */
  lemma {:induction false} FindStringFirst(s: string, pat: string, from: nat)
    requires pat != "" && from <= |s|
    ensures StopsAt(s, pat, FindString(s, pat, from))
    ensures forall i: nat | from <= i < FindString(s, pat, from) :: !StopsAt(s, pat, i)
    decreases |s| - from
  {
    if !StopsAt(s, pat, from) { FindStringFirst(s, pat, from + 1); }
  }

  /** How many bytes of a body buffer are certainly not part of a delimiter. */
  function ScanMark(s: string): (n: nat)
    ensures n <= |s|
  {
    FindString(s, MARK, 0)
  }

  datatype Outcome =
    | Next(st: State)
    | Halt(ret: bool, st: State)

  /** The answers of the two callbacks, as a function of everything delivered so far. */
  type Answers = seq<Part> -> bool

  /** One pass of the parser's loop (one header line at a time in the Headers phase). */
  function Step(boundary: string, accept: Answers, st: State): (o: Outcome)
    requires st.buf != ""
  {
    match st.phase
    case InitialBoundary => OpeningStep(boundary, st)
    case NewEntry => Next(st.(file := NO_INFO, phase := Headers))
    case Headers => HeaderStep(accept, st)
    case Body => BodyStep(Delimiter(boundary), accept, st)
    case AfterBoundary => BoundaryEndStep(st)
    case Done => Halt(false, st.(valid := false))
  }

  function OpeningStep(boundary: string, st: State): Outcome {
    var p := Opening(boundary);
    if |p| > |st.buf| then Halt(true, st)
    else if Find(st.buf, p, 0) != Some(0) then Halt(false, st)
    else Next(st.Consume(|p|).(phase := NewEntry))
  }

  function HeaderStep(accept: Answers, st: State): Outcome {
    match Find(st.buf, CRLF, 0)
    case None => Halt(true, st)
    case Some(pos) =>
      if pos == 0 then
        if !accept(st.Announce().Parts()) then Halt(false, st.Announce().(valid := false))
        else Next(st.Announce().Consume(2).(phase := Body))
      else Next(st.(file := ReadHeader(st.file, st.buf[..pos])).Consume(pos + 2))
  }

  function BodyStep(d: string, accept: Answers, st: State): Outcome {
    if |st.buf| < 4 then Halt(true, st)
    else
      var n := ScanMark(st.buf);
      if !accept(st.Deliver(st.buf[..n]).Parts()) then Halt(false, st.Deliver(st.buf[..n]).(valid := false))
      else BoundaryInBody(d, accept, st.Emit(n))
  }

  /** Second half of a pass through the body: look for the delimiter `d`. When it is not there, as many
      bytes as it is long are given to the content callback. */
  function BoundaryInBody(d: string, accept: Answers, st: State): Outcome {
    if |d| > |st.buf| then Halt(true, st)
    else
      var found := Find(st.buf, d, 0);
      var pos := if found.Some? then found.value else |d|;
      var s := st.Deliver(st.buf[..pos]);
      if !accept(s.Parts()) then Halt(false, s.(valid := false))
      else if found.Some? then Next(s.Consume(pos + |d|).(phase := AfterBoundary))
      else Next(s.Consume(pos))
  }

  function BoundaryEndStep(st: State): Outcome {
    if |st.buf| < 2 then Halt(true, st)
    else if st.buf[..2] == CRLF then Next(st.Consume(2).(phase := NewEntry))
    else if |st.buf| < 4 then Halt(true, st)
    else if st.buf[..4] == DASHES + CRLF then Next(st.Consume(4).(phase := Done, valid := true))
    else Halt(true, st)
  }

  function Rank(st: State): nat {
    2 * |st.buf| + if st.phase == NewEntry then 1 else 0
  }

  /** The loop: step until the buffer is empty or a step returns. */
  function Run(boundary: string, accept: Answers, st: State): (r: (State, bool))
    decreases Rank(st)
  {
    if st.buf == "" then (st, true)
    else match Step(boundary, accept, st)
      case Next(s) => Run(boundary, accept, s)
      case Halt(ret, s) => (s, ret)
  }

  /** Running is stepping. */
  lemma {:induction false} StepRun(boundary: string, accept: Answers, st: State)
    requires st.buf != ""
    ensures var o := Step(boundary, accept, st);
            Run(boundary, accept, st) == if o.Next? then Run(boundary, accept, o.st) else (o.st, o.ret)
  {
    hide Step;
  }

  lemma {:induction false} StepRank(boundary: string, accept: Answers, st: State)
    requires st.buf != "" && Step(boundary, accept, st).Next?
    ensures Rank(Step(boundary, accept, st).st) < Rank(st)
  {
    hide Text.Find, FindString, StopsAt, ReadHeader;
  }

  lemma {:induction false} EmptyRun(boundary: string, accept: Answers, st: State)
    requires st.buf == ""
    ensures Run(boundary, accept, st) == (st, true)
  {
  }

  /** One call of `parse`. */
  function Feed(boundary: string, accept: Answers, st: State, data: string): (State, bool) {
    Run(boundary, accept, st.(buf := st.buf + data))
  }
}
