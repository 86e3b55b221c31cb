/** Chunked transfer coding: the writer behind a content provider, and the reader. */
module Chunked {
  import opened Text
  import opened Streams
  import opened LineReader

  // ---- Numbers in base 16 ------------------------------------------------------------------------

  function Hex(n: nat): (r: string)
    ensures r != ""
  {
    if n < 16 then [HEX_SMALL[n]] else Hex(n / 16) + [HEX_SMALL[n % 16]]
  }

  /** The digits still to come. */
  function HexFront(m: nat): string {
    if m == 0 then "" else Hex(m)
  }

  lemma {:induction false} NoFront(ret: string)
    ensures HexFront(0) + ret == ret
  {
  }

  lemma {:induction false} HexFrontStep(m: nat, ret: string)
    requires m > 0
    ensures HexFront(m) + ret == HexFront(m / 16) + ([HEX_SMALL[m % 16]] + ret)
  {
    if m < 16 {
      assert HexFront(m / 16) == "" && HexFront(m) == [HEX_SMALL[m % 16]];
    } else {
      assert HexFront(m) == HexFront(m / 16) + [HEX_SMALL[m % 16]];
    }
  }

  /** `from_i_to_hex`; a number below 16 takes one round. */
  method FromIToHex(n: nat) returns (ret: string)
    ensures ret == Hex(n)
  {
    var m: nat := n / 16;
    ret := [HEX_SMALL[n % 16]];
    assert Hex(n) == HexFront(m) + ret;
    hide Hex, HexFront;
    while m > 0
      invariant Hex(n) == HexFront(m) + ret
    {
      HexFrontStep(m, ret);
      ret := [HEX_SMALL[m % 16]] + ret;
      m := m / 16;
    }
    NoFront(ret);
  }

  predicate IsHex(c: char) {
    HexDigit(c).Some?
  }

  function HexValue(c: char): nat
    requires IsHex(c)
  {
    HexDigit(c).value
  }

  /** The digits a text begins with. */
  function HexPrefix(s: string): (r: string)
    ensures forall i | 0 <= i < |r| :: IsHex(r[i])
  {
    if s != "" && IsHex(s[0]) then [s[0]] + HexPrefix(s[1..]) else ""
  }

  function HexNumber(s: string): nat
    requires forall i | 0 <= i < |s| :: IsHex(s[i])
  {
    if s == "" then 0 else 16 * HexNumber(s[..|s| - 1]) + HexValue(s[|s| - 1])
  }

  const ULONG_MAX: nat := 0xFFFF_FFFF_FFFF_FFFF

  /** `strtoul` in base 16: blanks, a sign, "0x"; `None` when there are no digits. A negative number wraps
      around, one that is too large becomes `ULONG_MAX`. */
  function Strtoul(s: string): Option<nat> {
    var t := SkipSpaces(s);
    var minus := t != "" && t[0] == '-';
    var u := if minus || (t != "" && t[0] == '+') then t[1..] else t;
    var v := if |u| > 2 && u[0] == '0' && (u[1] == 'x' || u[1] == 'X') && IsHex(u[2]) then u[2..] else u;
    var digits := HexPrefix(v);
    if digits == "" then None
    else
      var n := HexNumber(digits);
      if n > ULONG_MAX then Some(ULONG_MAX)
      else if minus && n > 0 then Some(ULONG_MAX + 1 - n)
      else Some(n)
  }

  lemma {:induction false} DigitRead(v: nat)
    requires v < 16
    ensures IsHex(HEX_SMALL[v]) && HexValue(HEX_SMALL[v]) == v && (v > 0 ==> HEX_SMALL[v] != '0')
  {
  }

  lemma {:induction false} NumberMore(s: string, c: char)
    requires IsHex(c) && forall i | 0 <= i < |s| :: IsHex(s[i])
    ensures HexNumber(s + [c]) == 16 * HexNumber(s) + HexValue(c)
  {
    assert (s + [c])[..|s|] == s;
  }

  lemma {:induction false} HexDigits(n: nat)
    ensures forall i | 0 <= i < |Hex(n)| :: IsHex(Hex(n)[i])
    ensures HexNumber(Hex(n)) == n
    ensures n > 0 ==> Hex(n)[0] != '0'
  {
    hide IsHex, HexValue, HexNumber;
    DigitRead(n % 16);
    if n >= 16 {
      HexDigits(n / 16);
      NumberMore(Hex(n / 16), HEX_SMALL[n % 16]);
    } else {
      NumberMore("", HEX_SMALL[n]);
      NoDigits();
      assert "" + [HEX_SMALL[n]] == Hex(n);
    }
  }

  lemma {:induction false} NoDigits()
    ensures HexNumber("") == 0
  {
  }

  lemma {:induction false} HexPrefixIs(s: string, t: string)
    requires forall i | 0 <= i < |s| :: IsHex(s[i])
    requires t == "" || !IsHex(t[0])
    ensures HexPrefix(s + t) == s
  {
    if s == "" {
      assert s + t == t;
    } else {
      assert (s + t)[1..] == s[1..] + t;
      HexPrefixIs(s[1..], t);
    }
  }

  /** Reading a printed number gives the number. */
  lemma {:induction false} HexParses(n: nat)
    requires n <= ULONG_MAX
    ensures Strtoul(Hex(n) + CRLF) == Some(n)
  {
    var s := Hex(n) + CRLF;
    HexDigits(n);
    HexPrefixIs(Hex(n), CRLF);
    assert s[0] == Hex(n)[0];
    assert IsHex(s[0]) && !IsSpace(s[0]);
    assert SkipSpaces(s) == s;
  }

  // ---- The reader --------------------------------------------------------------------------------

  /** What a reader makes of a stream: its verdict, the content it hands on, and the bytes it leaves. */
  datatype Reading = Reading(ok: bool, data: string, rest: string)

  function Prepend(data: string, r: Reading): Reading {
    r.(data := data + r.data)
  }

  /** With the line of a chunk size at hand. */
  function Chunks(line: string, s: string): Reading
    decreases |s|
  {
    match Strtoul(CString(line))
    case None => Reading(false, "", s)
    case Some(n) =>
      if n == ULONG_MAX then Reading(false, "", s)
      else if n == 0 then
        if s == "" then Reading(false, "", "") else Reading(CString(Line(s)) == CRLF, "", Rest(s))
      else if |s| < n then Reading(false, s, "")
      else Prepend(s[..n], AfterData(s[n..]))
  }

  /** Behind the data of a chunk. A line that is not blank ends the loop, but not as a failure. */
  function AfterData(s: string): Reading
    decreases |s|
  {
    if s == "" then Reading(false, "", "")
    else
      var t := Rest(s);
      if CString(Line(s)) != CRLF then Reading(true, "", t)
      else if t == "" then Reading(false, "", "")
      else Chunks(Line(t), Rest(t))
  }

  function Decode(s: string): Reading {
    if s == "" then Reading(false, "", "") else Chunks(Line(s), Rest(s))
  }

  /** How a reading that is over, after `got`, relates to what it should be. */
  ghost predicate Honest(d: Reading, reliable: bool, ok: bool, got: string, now: string, pending: string) {
    (reliable || ok ==> ok == d.ok && now == got + d.data && pending == d.rest) && got <= now <= got + d.data
  }

  lemma {:induction false} HonestLater(data: string, d: Reading, reliable: bool, ok: bool, got: string, now: string,
                                       pending: string)
    requires Honest(d, reliable, ok, got + data, now, pending)
    ensures Honest(Prepend(data, d), reliable, ok, got, now, pending)
  {
    assert got + data + d.data == got + (data + d.data);
    assert got <= got + data <= now;
  }

  /** The line behind the data, and the next chunk size. */
  method ReadAfterData(lineReader: StreamLineReader, ghost willing: bool, ghost got: string)
    returns (more: bool, ok: bool)
    requires lineReader.Valid()
    modifies lineReader`used, lineReader`growable, lineReader.fixedBuffer, lineReader.strm`pending
    ensures lineReader.Valid()
    ensures more ==> lineReader.Bytes() != "" && |lineReader.strm.pending| <= |old(lineReader.strm.pending)|
    ensures more ==> AfterData(old(lineReader.strm.pending)) == Chunks(lineReader.Bytes(), lineReader.strm.pending)
    ensures !more ==> Honest(AfterData(old(lineReader.strm.pending)), lineReader.strm.reliable && willing, ok,
                             got, got, lineReader.strm.pending)
  {
    hide Line, CString, Chunks;
    more := false;
    ok := lineReader.GetLine();
    if !ok { return; }
    var text := lineReader.Ptr();
    if text != CRLF { return; }
    ok := lineReader.GetLine();
    more := ok;
  }

  /** One round of the loop of `ReadContentChunked`; `data` is what it has handed on. */
  method ReadChunk(lineReader: StreamLineReader, out: Receiver) returns (more: bool, ok: bool, ghost data: string)
    requires lineReader.Valid() && lineReader.Bytes() != ""
    modifies lineReader`used, lineReader`growable, lineReader.fixedBuffer, lineReader.strm`pending, out`got
    ensures lineReader.Valid()
    ensures more ==> lineReader.Bytes() != "" && |lineReader.strm.pending| < |old(lineReader.strm.pending)|
    ensures more ==> out.got == old(out.got) + data
    ensures more ==> Chunks(old(lineReader.Bytes()), old(lineReader.strm.pending))
                     == Prepend(data, Chunks(lineReader.Bytes(), lineReader.strm.pending))
    ensures !more ==> Honest(Chunks(old(lineReader.Bytes()), old(lineReader.strm.pending)),
                             lineReader.strm.reliable && out.willing, ok, old(out.got), out.got,
                             lineReader.strm.pending)
  {
    hide Line, CString, Strtoul, AfterData, Honest;
    ghost var line, s, got := lineReader.Bytes(), lineReader.strm.pending, out.got;
    more, ok, data := false, false, "";
    var text := lineReader.Ptr();
    var chunkLen := Strtoul(text);
    if chunkLen.None? || chunkLen.value == ULONG_MAX {
      NothingRead(Chunks(line, s), lineReader.strm.reliable && out.willing, got);
    } else if chunkLen.value == 0 {
      ok := lineReader.GetLine();
      if ok {
        text := lineReader.Ptr();
        ok := text == CRLF;
      }
      LastRead(Chunks(line, s), lineReader.strm.reliable && out.willing, ok, got, lineReader.strm.pending);
    } else {
      ok := ReadContentWithLength(lineReader.strm, chunkLen.value, out);
      if !ok {
        BrokenOff(got, s, chunkLen.value, Chunks(line, s), lineReader.strm.reliable && out.willing, out.got,
                  lineReader.strm.pending);
      } else {
        data := s[..chunkLen.value];
        more, ok := ReadAfterData(lineReader, out.willing, out.got);
        if !more {
          HonestLater(data, AfterData(s[chunkLen.value..]), lineReader.strm.reliable && out.willing, ok, got, out.got,
                      lineReader.strm.pending);
        }
      }
    }
  }

  lemma {:induction false} NothingRead(d: Reading, reliable: bool, got: string)
    requires !d.ok && d.data == ""
    ensures Honest(d, reliable, false, got, got, d.rest)
  {
  }

  lemma {:induction false} LastRead(d: Reading, reliable: bool, ok: bool, got: string, pending: string)
    requires d.data == "" && (reliable || ok ==> ok == d.ok && pending == d.rest)
    ensures Honest(d, reliable, ok, got, got, pending)
  {
  }

  /** A read that failed has handed on no more than what there was. */
  lemma {:induction false} BrokenOff(got: string, s: string, n: nat, d: Reading, reliable: bool, now: string,
                                     pending: string)
    requires exists k | 0 <= k <= n && k <= |s| :: now == got + s[..k]
    requires if |s| < n then d == Reading(false, s, "") else s[..n] <= d.data
    requires reliable ==> |s| < n && now == got + s && pending == ""
    ensures Honest(d, reliable, false, got, now, pending)
  {
    var k :| 0 <= k <= n && k <= |s| && now == got + s[..k];
    assert s[..k] <= d.data;
    assert now == got + d.data[..k];
  }

  /** `read_content_chunked`. */
  method ReadContentChunked(strm: Input, out: Receiver) returns (ok: bool)
    modifies strm`pending, out`got
    ensures var d := Decode(old(strm.pending));
            && (ok || (strm.reliable && out.willing) ==>
                  ok == d.ok && out.got == old(out.got) + d.data && strm.pending == d.rest)
            && old(out.got) <= out.got <= old(out.got) + d.data
  {
    hide Line, Chunks, Prepend;
    var buf := new char[16];
    var lineReader := new StreamLineReader(strm, buf);
    ghost var d, reliable, got, data := Decode(strm.pending), strm.reliable && out.willing, out.got, "";
    ok := lineReader.GetLine();
    if !ok { return; }
    assert d == Prepend("", d) by { PrependNothing(d); }
    while true
      invariant lineReader.Valid() && lineReader.Bytes() != ""
      invariant lineReader.strm == strm && lineReader.fixedBuffer == buf && fresh(lineReader)
      invariant out.got == got + data && d == Prepend(data, Chunks(lineReader.Bytes(), strm.pending))
      decreases |strm.pending|
    {
      ghost var tail := Chunks(lineReader.Bytes(), strm.pending);
      var more: bool;
      ghost var piece: string;
      more, ok, piece := ReadChunk(lineReader, out);
      if !more {
        HonestLater(data, tail, reliable, ok, got, out.got, strm.pending);
        return;
      }
      PrependTwice(data, piece, Chunks(lineReader.Bytes(), strm.pending));
      data := data + piece;
    }
  }

  lemma {:induction false} PrependNothing(r: Reading)
    ensures Prepend("", r) == r
  {
    assert "" + r.data == r.data;
  }

  lemma {:induction false} PrependTwice(a: string, b: string, r: Reading)
    ensures Prepend(a, Prepend(b, r)) == Prepend(a + b, r)
  {
    assert a + (b + r.data) == (a + b) + r.data;
  }

  // ---- The writer --------------------------------------------------------------------------------

  /** What a content provider can do with its sink. */
  datatype Op = Write(data: string) | Done

  function Chunk(data: string): string {
    if data == "" then "" else Hex(|data|) + CRLF + data + CRLF
  }

  const LAST_CHUNK: string := "0\r\n\r\n"

  function Encoding(ops: seq<Op>): string {
    if ops == [] then ""
    else (match ops[0] case Write(d) => Chunk(d) case Done => LAST_CHUNK) + Encoding(ops[1..])
  }

  /** What the operations pass to the sink before the first `done`. */
  function Content(ops: seq<Op>): string {
    if ops == [] || ops[0].Done? then "" else ops[0].data + Content(ops[1..])
  }

  predicate Terminated(ops: seq<Op>) {
    ops != [] && (ops[0].Done? || Terminated(ops[1..]))
  }

  function AfterDone(ops: seq<Op>): string
    requires Terminated(ops)
  {
    if ops[0].Done? then Encoding(ops[1..]) else AfterDone(ops[1..])
  }

  /** The longest write is one byte short of `ULONG_MAX`. */
  predicate Printable(ops: seq<Op>) {
    forall i | 0 <= i < |ops| :: ops[i].Write? ==> |ops[i].data| < ULONG_MAX
  }

  lemma {:induction false} HexLine(n: nat, rest: string)
    ensures Line(Hex(n) + CRLF + rest) == Hex(n) + CRLF && Rest(Hex(n) + CRLF + rest) == rest
    ensures CString(Hex(n) + CRLF) == Hex(n) + CRLF
  {
    hide Hex, Line, CString;
    HexDigits(n);
    LineIs(Hex(n) + CRLF, rest);
    CStringWhole(Hex(n) + CRLF);
  }

  lemma {:induction false} BlankLine(rest: string)
    ensures Line(CRLF + rest) == CRLF && Rest(CRLF + rest) == rest && CString(CRLF) == CRLF
  {
    LineIs(CRLF, rest);
    CStringWhole(CRLF);
  }

  /** A chunk size is read back, and as many bytes are taken. */
  lemma {:induction false} SizeDecodes(data: string, rest: string)
    requires data != "" && |data| < ULONG_MAX
    ensures Decode(Hex(|data|) + CRLF + (data + rest)) == Prepend(data, AfterData(rest))
  {
    hide Hex, Line, CString, Strtoul, AfterData;
    HexLine(|data|, data + rest);
    HexParses(|data|);
    assert (data + rest)[..|data|] == data && (data + rest)[|data|..] == rest;
  }

  lemma {:induction false} ChunkDecodes(data: string, rest: string)
    requires data != "" && |data| < ULONG_MAX
    ensures Decode(Chunk(data) + rest) == Prepend(data, Decode(rest))
  {
    hide Hex, Line, CString, Decode;
    assert Chunk(data) + rest == Hex(|data|) + CRLF + (data + (CRLF + rest));
    SizeDecodes(data, CRLF + rest);
    BlankLine(rest);
    assert AfterData(CRLF + rest) == Decode(rest) by { BlankDecodes(rest); }
  }

  lemma {:induction false} BlankDecodes(rest: string)
    ensures AfterData(CRLF + rest) == Decode(rest)
  {
    hide Line, CString, Chunks;
    BlankLine(rest);
  }

  lemma {:induction false} LastChunkDecodes(rest: string)
    ensures Decode(LAST_CHUNK + rest) == Reading(true, "", rest)
  {
    hide Line, CString, Strtoul;
    assert Hex(0) == "0";
    assert LAST_CHUNK + rest == Hex(0) + CRLF + (CRLF + rest);
    HexLine(0, CRLF + rest);
    HexParses(0);
    BlankLine(rest);
  }

  /** The reader delivers exactly what was written before the first `done` and stops right behind its
      marker; without a `done` it delivers everything and fails. */
  lemma {:induction false} Transfer(ops: seq<Op>, following: string)
    requires Printable(ops)
    ensures Terminated(ops) ==>
      Decode(Encoding(ops) + following) == Reading(true, Content(ops), AfterDone(ops) + following)
    ensures !Terminated(ops) ==> Decode(Encoding(ops) + following) == Prepend(Content(ops), Decode(following))
  {
    hide Decode, Chunk;
    if ops == [] {
      assert Encoding(ops) + following == following;
      PrependNothing(Decode(following));
    } else if ops[0].Done? {
      assert Encoding(ops) + following == LAST_CHUNK + (Encoding(ops[1..]) + following);
      LastChunkDecodes(Encoding(ops[1..]) + following);
    } else {
      var d, rest := ops[0].data, Encoding(ops[1..]) + following;
      assert Encoding(ops) + following == Chunk(d) + rest;
      assert Printable(ops[1..]);
      Transfer(ops[1..], following);
      if d == "" {
        NoChunk(rest);
        PrependNothing(Decode(rest));
      } else {
        ChunkDecodes(d, rest);
      }
      PrependTwice(d, Content(ops[1..]), Decode(following));
    }
  }

  lemma {:induction false} NoChunk(rest: string)
    ensures Chunk("") + rest == rest
  {
  }

  /** The reader is content exactly when `done` was called. */
  lemma {:induction false} CompleteIff(ops: seq<Op>)
    requires Printable(ops)
    ensures Decode(Encoding(ops)).ok <==> Terminated(ops)
    ensures Decode(Encoding(ops)).data == Content(ops)
  {
    hide Decode, Encoding;
    Transfer(ops, "");
    assert Encoding(ops) + "" == Encoding(ops);
    NothingDecodes(Content(ops));
  }

  lemma {:induction false} NothingDecodes(data: string)
    ensures Prepend(data, Decode("")) == Reading(false, data, "")
  {
    assert data + "" == data;
  }

  /** What the line behind the data of a chunk decides: nothing there is a failure, CRLF goes on with what
      follows, and any other line, complete or not, makes the content so far pass for complete. */
  lemma {:induction false} BehindChunk(ops: seq<Op>, data: string, tail: string)
    requires Printable(ops) && !Terminated(ops) && data != "" && |data| < ULONG_MAX
    ensures Decode(Encoding(ops) + (Hex(|data|) + CRLF + (data + tail)))
            == Prepend(Content(ops) + data,
                       if tail == "" then Reading(false, "", "")
                       else if Line(tail) == CRLF then Decode(Rest(tail))
                       else Reading(true, "", Rest(tail)))
  {
    hide Decode, Encoding, Hex;
    Transfer(ops, Hex(|data|) + CRLF + (data + tail));
    SizeDecodes(data, tail);
    LineBehind(tail);
    PrependTwice(Content(ops), data, AfterData(tail));
  }

  lemma {:induction false} LineBehind(tail: string)
    ensures AfterData(tail) == if tail == "" then Reading(false, "", "")
                               else if Line(tail) == CRLF then Decode(Rest(tail))
                               else Reading(true, "", Rest(tail))
  {
    hide Line, CString, Chunks;
    if tail != "" { OnlyBlank(tail); }
  }

  /** A line that a C string function takes for CRLF is CRLF. */
  lemma {:induction false} OnlyBlank(s: string)
    ensures CString(Line(s)) == CRLF <==> Line(s) == CRLF
  {
    hide CString, Line;
    BlankLine("");
    if CString(Line(s)) == CRLF {
      var l := Line(s);
      assert l[..2] == CRLF && l[1] == LF;
      InnerFeeds(s);
      assert |l| == 2;
    }
  }

  /** Whatever the data of the chunk is, the reader succeeds exactly if a line other than CRLF follows it, or
      CRLF and something that is read with success. */
  lemma {:induction false} BrokenChunkAccepted(ops: seq<Op>, data: string, tail: string)
    requires Printable(ops) && !Terminated(ops) && data != "" && |data| < ULONG_MAX
    ensures Decode(Encoding(ops) + (Hex(|data|) + CRLF + (data + tail))).ok
            <==> tail != "" && (Line(tail) == CRLF ==> Decode(Rest(tail)).ok)
  {
    hide Decode, Encoding, Hex, Line, Rest;
    BehindChunk(ops, data, tail);
  }

  // ---- Streams that break off --------------------------------------------------------------------

  /** The cut is directly behind the CR that follows the data of chunk `i`, with no `done` before it. */
  predicate TornAt(ops: seq<Op>, n: nat, i: nat) {
    i < |ops| && !Terminated(ops[..i]) && ops[i].Write? && ops[i].data != ""
    && n == |Encoding(ops[..i + 1])| - 1
  }

  ghost predicate Torn(ops: seq<Op>, n: nat) {
    exists i: nat :: TornAt(ops, n, i)
  }

  /** A size line without its end, or with nothing behind it. */
  lemma {:induction false} LineOnly(p: string)
    requires p == "" || LF !in p[..|p| - 1]
    ensures !Decode(p).ok && Decode(p).data == ""
  {
    hide CString, Strtoul, Line;
    if p != "" { AllOneLine(p); }
  }

  lemma {:induction false} AllOneLine(p: string)
    requires p != "" && LF !in p[..|p| - 1]
    ensures Line(p) == p && Rest(p) == ""
  {
    assert p == p[..|p| - 1] + [p[|p| - 1]];
    if p[|p| - 1] == LF {
      assert forall i | 0 <= i < |p| - 1 :: p[i] == p[..|p| - 1][i];
      assert p + "" == p;
      LineIs(p, "");
    } else {
      LineUnended(p);
    }
  }

  /** Inside a chunk only the cut behind its last CR is accepted. */
  lemma {:induction false} ChunkCut(d: string, n: nat)
    requires d != "" && |d| < ULONG_MAX && n < |Chunk(d)|
    ensures Decode(Chunk(d)[..n]).ok <==> n == |Chunk(d)| - 1
    ensures Decode(Chunk(d)[..n]).data <= d
    ensures n == |Chunk(d)| - 1 ==> Decode(Chunk(d)[..n]) == Reading(true, d, "")
  {
    hide Hex, Line, CString, Strtoul, Decode, AfterData;
    var h := Hex(|d|) + CRLF;
    assert Chunk(d) == h + (d + CRLF);
    HexDigits(|d|);
    if n <= |h| {
      assert Chunk(d)[..n] == h[..n];
      assert forall i | 0 <= i < |h| - 1 :: h[i] != LF;
      LineOnly(h[..n]);
    } else {
      var t := (d + CRLF)[..n - |h|];
      assert Chunk(d)[..n] == h + t;
      if |t| < |d| {
        assert t == d[..|t|];
        DataCut(d, t);
      } else {
        var tail := t[|d|..];
        assert t == d + tail && (tail == "" || tail == [CR]);
        SizeDecodes(d, tail);
        TornTail();
        assert d + "" == d;
      }
    }
  }

  lemma {:induction false} DataCut(d: string, t: string)
    requires |t| < |d| < ULONG_MAX
    ensures Decode(Hex(|d|) + CRLF + t) == Reading(false, t, "")
  {
    hide Hex, Line, CString, Strtoul;
    HexLine(|d|, t);
    HexParses(|d|);
  }

  lemma {:induction false} TornTail()
    ensures AfterData("") == Reading(false, "", "") && AfterData([CR]) == Reading(true, "", "")
  {
    hide Line;
    AllOneLine([CR]);
    LineBehind([CR]);
  }

  /** Inside the marker of the last chunk no cut is accepted. */
  lemma {:induction false} MarkerCut(n: nat)
    requires n < |LAST_CHUNK|
    ensures !Decode(LAST_CHUNK[..n]).ok && Decode(LAST_CHUNK[..n]).data == ""
  {
    hide Line, CString, Strtoul, Hex, Decode;
    if n <= 3 {
      LineOnly(LAST_CHUNK[..n]);
    } else {
      TornMarker();
      assert LAST_CHUNK[..n] == "0" + CRLF + [CR];
    }
  }

  lemma {:induction false} TornMarker()
    ensures Decode("0" + CRLF + [CR]) == Reading(false, "", "")
  {
    hide Line, CString, Strtoul;
    assert Hex(0) == "0";
    HexLine(0, [CR]);
    HexParses(0);
    AllOneLine([CR]);
    OnlyBlank([CR]);
  }

  lemma {:induction false} TornHere(ops: seq<Op>, n: nat)
    requires ops != [] && ops[0].Write?
    ensures TornAt(ops, n, 0) <==> ops[0].data != "" && n == |Chunk(ops[0].data)| - 1
  {
    hide Chunk;
    assert ops[..1] == [ops[0]] && ops[..0] == [];
    OneOp(ops[0]);
  }

  lemma {:induction false} TornShift(ops: seq<Op>, n: nat, i: nat)
    requires ops != [] && ops[0].Write? && i > 0
    ensures TornAt(ops, n, i) <==> n >= |Chunk(ops[0].data)| && TornAt(ops[1..], n - |Chunk(ops[0].data)|, i - 1)
  {
    hide Chunk;
    if i < |ops| {
      var t := ops[1..];
      assert ops[..i][1..] == t[..i - 1] && ops[..i + 1][1..] == t[..i] && ops[i] == t[i - 1];
      if t[i - 1].Write? && t[i - 1].data != "" {
        assert t[..i] == t[..i - 1] + [t[i - 1]];
        EncodingAppend(t[..i - 1], [t[i - 1]]);
        OneOp(t[i - 1]);
        ChunkNotEmpty(t[i - 1].data);
      }
    }
  }

  lemma {:induction false} ChunkNotEmpty(d: string)
    requires d != ""
    ensures Chunk(d) != ""
  {
  }

  /** A stream of a writer that breaks off after `n` bytes is accepted exactly if the marker of the first
      `done` is complete, or the cut is directly behind the CR that follows the data of a chunk before it.
      What was read is the content up to there; in no case is it anything that was not written. */
  lemma {:induction false} TruncationIff(ops: seq<Op>, n: nat)
    requires Printable(ops) && n <= |Encoding(ops)|
    ensures Decode(Encoding(ops)[..n]).ok
            <==> Torn(ops, n) || (Terminated(ops) && n >= |Encoding(ops)| - |AfterDone(ops)|)
    ensures Decode(Encoding(ops)[..n]).data <= Content(ops)
    ensures forall i: nat | TornAt(ops, n, i) ::
      Decode(Encoding(ops)[..n]) == Reading(true, Content(ops[..i + 1]), "")
  {
    hide Decode, Chunk, TornAt;
    if ops == [] {
      LineOnly("");
      NotTorn(ops, n);
    } else if ops[0].Done? {
      NotTorn(ops, n);
      if n < |LAST_CHUNK| {
        assert Encoding(ops)[..n] == LAST_CHUNK[..n];
        MarkerCut(n);
      } else {
        var t := Encoding(ops[1..])[..n - |LAST_CHUNK|];
        assert Encoding(ops)[..n] == LAST_CHUNK + t;
        LastChunkDecodes(t);
      }
    } else {
      var d := ops[0].data;
      if n < |Chunk(d)| {
        assert Encoding(ops)[..n] == Chunk(d)[..n];
        CutInFirst(ops, n);
      } else {
        var t, m := ops[1..], n - |Chunk(d)|;
        CutLater(ops, n);
        TruncationIff(t, m);
        TornOn(ops, n);
        forall i: nat | TornAt(ops, n, i)
          ensures i < |ops| && Prepend(d, Decode(Encoding(t)[..m])) == Reading(true, Content(ops[..i + 1]), "")
        {
          TornInside(ops, n, i);
          TornShift(ops, n, i);
          ContentFirst(ops, i);
        }
      }
    }
  }

  /** Behind the first chunk, a torn chunk is a torn chunk of the rest. */
  lemma {:induction false} TornOn(ops: seq<Op>, n: nat)
    requires ops != [] && ops[0].Write? && n >= |Chunk(ops[0].data)|
    ensures !TornAt(ops, n, 0)
    ensures Torn(ops, n) <==> Torn(ops[1..], n - |Chunk(ops[0].data)|)
  {
    hide TornAt, Chunk;
    TornHere(ops, n);
    ChunkLength(ops[0].data);
    var m := n - |Chunk(ops[0].data)|;
    if Torn(ops, n) {
      var i: nat :| TornAt(ops, n, i);
      if i > 0 { TornShift(ops, n, i); }
    }
    if Torn(ops[1..], m) {
      var i: nat :| TornAt(ops[1..], m, i);
      TornShift(ops, n, i + 1);
      assert TornAt(ops, n, i + 1);
    }
  }

  lemma {:induction false} ChunkLength(d: string)
    ensures d == "" <==> Chunk(d) == ""
  {
  }

  lemma {:induction false} TornInside(ops: seq<Op>, n: nat, i: nat)
    requires TornAt(ops, n, i)
    ensures i < |ops|
  {
  }

  lemma {:induction false} NotTorn(ops: seq<Op>, n: nat)
    requires ops == [] || ops[0].Done?
    ensures forall i: nat :: !TornAt(ops, n, i)
  {
    forall i: nat ensures !TornAt(ops, n, i) {
      if 0 < i <= |ops| { assert ops[..i][0] == ops[0]; }
    }
  }

  lemma {:induction false} AfterDoneShorter(ops: seq<Op>)
    requires Terminated(ops)
    ensures |AfterDone(ops)| + |LAST_CHUNK| <= |Encoding(ops)|
  {
    hide Chunk;
    if !ops[0].Done? { AfterDoneShorter(ops[1..]); }
  }

  lemma {:induction false} CutInFirst(ops: seq<Op>, n: nat)
    requires Printable(ops) && ops != [] && ops[0].Write? && n < |Chunk(ops[0].data)|
    ensures var r := Decode(Chunk(ops[0].data)[..n]);
            && (r.ok <==> Torn(ops, n)
                          || (Terminated(ops) && n >= |Encoding(ops)| - |AfterDone(ops)|))
            && r.data <= Content(ops)
            && forall i: nat | TornAt(ops, n, i) :: r == Reading(true, Content(ops[..i + 1]), "")
  {
    hide Decode, TornAt, Hex;
    var d := ops[0].data;
    ChunkCut(d, n);
    TornHere(ops, n);
    if Terminated(ops) { AfterDoneShorter(ops[1..]); }
    assert ops[..1][1..] == [] && Content(ops[..1]) == d + "" == d;
    forall i: nat | TornAt(ops, n, i) ensures i == 0 {
      if i > 0 { TornShift(ops, n, i); }
    }
  }

  lemma {:induction false} CutLater(ops: seq<Op>, n: nat)
    requires Printable(ops) && ops != [] && ops[0].Write? && |Chunk(ops[0].data)| <= n <= |Encoding(ops)|
    ensures Decode(Encoding(ops)[..n])
            == Prepend(ops[0].data, Decode(Encoding(ops[1..])[..n - |Chunk(ops[0].data)|]))
  {
    hide Decode, Chunk;
    var d := ops[0].data;
    var t := Encoding(ops[1..])[..n - |Chunk(d)|];
    assert Encoding(ops)[..n] == Chunk(d) + t;
    if d == "" {
      NoChunk(t);
      PrependNothing(Decode(t));
    } else {
      ChunkDecodes(d, t);
    }
  }

  lemma {:induction false} ContentFirst(ops: seq<Op>, i: nat)
    requires 0 < i < |ops| && ops[0].Write?
    ensures Content(ops[..i + 1]) == ops[0].data + Content(ops[1..][..i])
  {
    assert ops[..i + 1][1..] == ops[1..][..i];
  }

  // ---- The content provider's loop ---------------------------------------------------------------

  /** One round of the loop: whether the server is shutting down, what the provider does with the sink, and
      what it returns. */
  datatype Call = Call(shutdown: bool, ops: seq<Op>, more: bool)

  /** `Pending` when the provider has more rounds to come. */
  datatype Outcome = Success | Canceled | WriteError | Pending

  /** `data_available` after some operations. */
  function Available(ops: seq<Op>, was: bool): bool {
    if ops == [] then was
    else
      match ops[|ops| - 1]
      case Write(d) => d != ""
      case Done => false
  }

  /** The operations that happen before the loop ends. */
  function Performed(calls: seq<Call>, available: bool): seq<Op> {
    if !available || calls == [] || calls[0].shutdown then []
    else if !calls[0].more then calls[0].ops
    else calls[0].ops + Performed(calls[1..], Available(calls[0].ops, true))
  }

  function Verdict(calls: seq<Call>, available: bool): Outcome {
    if !available then Success
    else if calls == [] then Pending
    else if calls[0].shutdown then Success
    else if !calls[0].more then Canceled
    else Verdict(calls[1..], Available(calls[0].ops, true))
  }

  function Length(ops: seq<Op>): nat {
    if ops == [] then 0 else (if ops[0].Write? then |ops[0].data| else 0) + Length(ops[1..])
  }

  lemma {:induction false} EncodingAppend(a: seq<Op>, b: seq<Op>)
    ensures Encoding(a + b) == Encoding(a) + Encoding(b) && Length(a + b) == Length(a) + Length(b)
  {
    hide Chunk;
    if a == [] {
      assert a + b == b && Encoding(a) == "";
    } else {
      assert (a + b)[1..] == a[1..] + b;
      EncodingAppend(a[1..], b);
    }
  }

  class ChunkedWriter {
    const strm: Output
    var offset: nat
    var dataAvailable: bool
    var ok: bool

    constructor (strm: Output)
      ensures this.strm == strm && offset == 0 && dataAvailable && ok
    {
      this.strm := strm;
      offset := 0;
      dataAvailable := true;
      ok := true;
    }

    /** `data_sink.write`. */
    method Write(d: string)
      modifies this, strm`sent
      ensures ok ==> old(ok) && strm.sent == old(strm.sent) + Chunk(d) && dataAvailable == (d != "")
      ensures offset == old(offset) + if old(ok) then |d| else 0
      ensures !old(ok) ==> strm.sent == old(strm.sent)
      ensures old(strm.sent) <= strm.sent <= old(strm.sent) + Chunk(d)
      ensures old(ok) && strm.reliable ==> ok
    {
      if !ok { return; }
      dataAvailable := d != "";
      offset := offset + |d|;
      if d != "" {
        var size := FromIToHex(|d|);
        ok := WriteData(strm, size + CRLF + d + CRLF);
      }
    }

    /** `data_sink.done`. */
    method Done()
      modifies this, strm`sent
      ensures ok ==> old(ok) && strm.sent == old(strm.sent) + LAST_CHUNK && !dataAvailable
      ensures offset == old(offset)
      ensures !old(ok) ==> strm.sent == old(strm.sent)
      ensures old(strm.sent) <= strm.sent <= old(strm.sent) + LAST_CHUNK
      ensures old(ok) && strm.reliable ==> ok
    {
      if !ok { return; }
      dataAvailable := false;
      ok := WriteData(strm, LAST_CHUNK);
    }

    /** The provider at work on the sink. */
    method Perform(ops: seq<Op>)
      requires ok
      modifies this, strm`sent
      ensures ok ==> strm.sent == old(strm.sent) + Encoding(ops) && dataAvailable == Available(ops, old(dataAvailable))
      ensures ok ==> offset == old(offset) + Length(ops)
      ensures old(strm.sent) <= strm.sent <= old(strm.sent) + Encoding(ops)
      ensures strm.reliable ==> ok
    {
      hide Chunk, Encoding, Length;
      ghost var was := strm.sent;
      var i := 0;
      assert ops[..0] == [];
      NoOps();
      while i < |ops|
        invariant 0 <= i <= |ops|
        invariant ok ==> strm.sent == was + Encoding(ops[..i])
        invariant ok ==> dataAvailable == Available(ops[..i], old(dataAvailable))
        invariant ok ==> offset == old(offset) + Length(ops[..i])
        invariant was <= strm.sent <= was + Encoding(ops[..i])
        invariant strm.reliable ==> ok
      {
        assert ops[..i + 1] == ops[..i] + [ops[i]];
        EncodingAppend(ops[..i], [ops[i]]);
        OneOp(ops[i]);
        if ops[i].Write? { Write(ops[i].data); } else { Done(); }
        i := i + 1;
      }
      assert ops[..i] == ops;
    }

    /** `write_content_chunked` without compression, for a provider that acts as `calls` say. */
    method WriteContentChunked(calls: seq<Call>) returns (r: Outcome)
      requires ok && dataAvailable && offset == 0
      modifies this, strm`sent
      ensures r == Success || strm.reliable ==>
        r == Verdict(calls, true) && strm.sent == old(strm.sent) + Encoding(Performed(calls, true))
        && offset == Length(Performed(calls, true))
      ensures old(strm.sent) <= strm.sent <= old(strm.sent) + Encoding(Performed(calls, true))
    {
      hide Chunk, Encoding, Length, Available, Performed, Verdict;
      ghost var was, all, done := strm.sent, Performed(calls, true), [];
      var i := 0;
      NoOps();
      assert calls[0..] == calls && [] + all == all;
      while dataAvailable
        invariant 0 <= i <= |calls| && ok
        invariant strm.sent == was + Encoding(done) && offset == Length(done)
        invariant all == done + Performed(calls[i..], dataAvailable)
        invariant Verdict(calls, true) == Verdict(calls[i..], dataAvailable)
        decreases |calls| - i
      {
        ghost var rest := calls[i..];
        if i == |calls| || calls[i].shutdown { break; }
        var c := calls[i];
        ghost var tail := calls[i + 1..];
        assert rest[0] == c && rest[1..] == tail;
        CallStep(rest);
        Perform(c.ops);
        ghost var later := if c.more then Performed(tail, Available(c.ops, true)) else [];
        EncodingJoins(done, c.ops, later);
        if !c.more {
          assert c.ops + later == c.ops;
          return Canceled;
        }
        if !ok { return WriteError; }
        done := done + c.ops;
        assert all == done + later;
        i := i + 1;
      }
      CallStops(calls[i..], dataAvailable);
      assert all == done + [] == done;
      return if dataAvailable && i == |calls| then Pending else Success;
    }
  }

  lemma {:induction false} CallStep(rest: seq<Call>)
    requires rest != [] && !rest[0].shutdown
    ensures var c := rest[0];
            Performed(rest, true) == c.ops + (if c.more then Performed(rest[1..], Available(c.ops, true)) else [])
            && Verdict(rest, true) == if c.more then Verdict(rest[1..], Available(c.ops, true)) else Canceled
  {
    hide Available;
  }

  lemma {:induction false} CallStops(rest: seq<Call>, available: bool)
    requires !available || rest == [] || rest[0].shutdown
    ensures Performed(rest, available) == []
    ensures Verdict(rest, available) == if available && rest == [] then Pending else Success
  {
    hide Available;
  }

  lemma {:induction false} EncodingJoins(done: seq<Op>, ops: seq<Op>, later: seq<Op>)
    ensures Encoding(done + ops) == Encoding(done) + Encoding(ops) && Length(done + ops) == Length(done) + Length(ops)
    ensures Encoding(done + (ops + later)) == Encoding(done) + Encoding(ops) + Encoding(later)
  {
    hide Encoding, Length;
    EncodingAppend(done, ops);
    EncodingAppend(ops, later);
    EncodingAppend(done, ops + later);
  }

  lemma {:induction false} NoOps()
    ensures Encoding([]) == "" && Length([]) == 0
  {
  }

  lemma {:induction false} OneOp(op: Op)
    ensures Encoding([op]) == match op case Write(d) => Chunk(d) case Done => LAST_CHUNK
    ensures Length([op]) == match op case Write(d) => |d| case Done => 0
  {
    hide Chunk;
    assert [op][1..] == [];
  }

  /** After these operations the sink has no more data: the last one was a `done` or an empty write. */
  predicate Over(ops: seq<Op>) {
    ops != [] && (ops[|ops| - 1].Done? || ops[|ops| - 1].data == "")
  }

  /** Rounds after which the loop goes on. */
  predicate Quiet(calls: seq<Call>) {
    forall i | 0 <= i < |calls| :: !calls[i].shutdown && calls[i].more && !Over(calls[i].ops)
  }

  function AllOps(calls: seq<Call>): seq<Op> {
    if calls == [] then [] else calls[0].ops + AllOps(calls[1..])
  }

  /** The loop goes on through rounds after which there is more data, and ends with the first other one: before it
      at a shutdown, as a success; after it as cancelled when the provider gives up, and else as a success. */
  lemma {:induction false} LoopEnds(quiet: seq<Call>, c: Call, tail: seq<Call>)
    requires Quiet(quiet)
    ensures Verdict(quiet, true) == Pending && Performed(quiet, true) == AllOps(quiet)
    ensures Verdict(quiet + ([c] + tail), true)
         == if c.shutdown then Success
            else if !c.more then Canceled
            else if Over(c.ops) then Success
            else Verdict(tail, true)
    ensures Performed(quiet + ([c] + tail), true)
         == AllOps(quiet) + if c.shutdown then []
                            else if !c.more || Over(c.ops) then c.ops
                            else c.ops + Performed(tail, true)
  {
    if quiet == [] {
      assert quiet + ([c] + tail) == [c] + tail && ([c] + tail)[1..] == tail;
      CallStops(tail, false);
      assert c.ops + [] == c.ops;
    } else {
      assert (quiet + ([c] + tail))[1..] == quiet[1..] + ([c] + tail);
      LoopEnds(quiet[1..], c, tail);
    }
  }

  /** Without a shutdown the loop ends well only after a `done` or an empty write. */
  lemma {:induction false} SuccessLast(calls: seq<Call>, available: bool)
    requires available && Verdict(calls, available) == Success && forall i | 0 <= i < |calls| :: !calls[i].shutdown
    ensures var ops := Performed(calls, available); ops != [] && !Available(ops, true)
  {
    var c := calls[0];
    var available' := Available(c.ops, true);
    if available' {
      SuccessLast(calls[1..], true);
      var tail := Performed(calls[1..], true);
      assert (c.ops + tail)[|c.ops + tail| - 1] == tail[|tail| - 1];
    } else {
      assert c.ops != [] && Performed(calls[1..], false) == [];
      assert c.ops + [] == c.ops;
    }
  }

  /** A provider that makes no empty write and ends by itself has its content delivered, up to `done`. */
  lemma {:induction false} SuccessDelivers(calls: seq<Call>)
    requires Verdict(calls, true) == Success && forall i | 0 <= i < |calls| :: !calls[i].shutdown
    requires var ops := Performed(calls, true);
             Printable(ops) && forall i | 0 <= i < |ops| :: ops[i] != Op.Write("")
    ensures var ops := Performed(calls, true);
            Terminated(ops) && Decode(Encoding(ops)) == Reading(true, Content(ops), AfterDone(ops))
  {
    hide Decode, Encoding, Content;
    var ops := Performed(calls, true);
    SuccessLast(calls, true);
    HasDone(ops, |ops| - 1);
    Transfer(ops, "");
    assert Encoding(ops) + "" == Encoding(ops) && AfterDone(ops) + "" == AfterDone(ops);
  }

  lemma {:induction false} HasDone(ops: seq<Op>, i: nat)
    requires i < |ops| && ops[i].Done?
    ensures Terminated(ops)
  {
    if i > 0 { HasDone(ops[1..], i - 1); }
  }

  lemma {:induction false} MoreCalls(calls: seq<Call>, c: Call, available: bool)
    requires Verdict(calls, available) == Pending && !c.shutdown
    ensures Performed(calls + [c], available) == Performed(calls, available) + c.ops
    ensures Verdict(calls + [c], available) == if !c.more then Canceled else Verdict([], Available(c.ops, true))
  {
    hide Available;
    if calls == [] {
      assert calls + [c] == [c] && [c][1..] == [];
    } else {
      assert (calls + [c])[1..] == calls[1..] + [c];
      MoreCalls(calls[1..], c, Available(calls[0].ops, true));
    }
  }

  /** An empty write ends the transfer as a success, and leaves the reader without the last chunk. */
  lemma {:induction false} EmptyWriteEnds(calls: seq<Call>)
    requires Verdict(calls, true) == Pending && !Terminated(Performed(calls, true)) && Printable(Performed(calls, true))
    ensures var calls' := calls + [Call(false, [Op.Write("")], true)];
            Verdict(calls', true) == Success && !Decode(Encoding(Performed(calls', true))).ok
  {
    hide Decode, Encoding, Performed;
    var e := Op.Write("");
    MoreCalls(calls, Call(false, [e], true), true);
    var ops := Performed(calls, true);
    StillOpen(ops, e);
    CompleteIff(ops + [e]);
  }

  lemma {:induction false} StillOpen(ops: seq<Op>, e: Op)
    requires !Terminated(ops) && e.Write?
    ensures !Terminated(ops + [e])
  {
    if ops == [] {
      assert ops + [e] == [e] && [e][1..] == [];
    } else {
      assert (ops + [e])[1..] == ops[1..] + [e];
      StillOpen(ops[1..], e);
    }
  }
}
