/** The line reader of the HTTP library: short lines live in a buffer of the caller, long ones in a string. */
module LineReader {
  import opened Text
  import opened Streams

  /** The bytes up to and including the next LF, or all of them. */
  function Line(s: string): (r: string)
    ensures |r| <= |s| && r == s[..|r|]
    ensures s != "" ==> r != ""
  {
    if s == "" then "" else if s[0] == LF then [LF] else [s[0]] + Line(s[1..])
  }

  function Rest(s: string): string {
    s[|Line(s)|..]
  }

  predicate Ended(line: string) {
    line != "" && line[|line| - 1] == LF && forall i | 0 <= i < |line| - 1 :: line[i] != LF
  }

  /** A line is what comes before the rest, whatever the rest is. */
  lemma {:induction false} LineIs(line: string, rest: string)
    requires Ended(line)
    ensures Line(line + rest) == line && Rest(line + rest) == rest
    decreases |line|
  {
    var s := line + rest;
    assert s[0] == line[0];
    if |line| > 1 {
      assert s[1..] == line[1..] + rest;
      assert Ended(line[1..]) by {
        forall i | 0 <= i < |line| - 2 ensures line[1..][i] != LF { assert line[1..][i] == line[i + 1]; }
      }
      LineIs(line[1..], rest);
      assert line == [line[0]] + line[1..];
    }
  }

  lemma {:induction false} LineUnended(s: string)
    requires LF !in s
    ensures Line(s) == s
  {
    if s != "" { LineUnended(s[1..]); }
  }

  lemma {:induction false} InnerFeeds(s: string)
    ensures forall i | 0 <= i < |Line(s)| - 1 :: Line(s)[i] != LF
  {
    if s != "" && s[0] != LF {
      InnerFeeds(s[1..]);
      var t := Line(s[1..]);
      forall i | 0 <= i < |t| ensures Line(s)[i] != LF {
        if i > 0 { assert Line(s)[i] == t[i - 1]; }
      }
    }
  }

  /** The text that a C string function sees behind a pointer. */
  function CString(s: string): (r: string)
    ensures |r| <= |s| && r == s[..|r|]
  {
    if s == "" || s[0] == NUL then "" else [s[0]] + CString(s[1..])
  }

  lemma {:induction false} CStringWhole(s: string)
    requires NUL !in s
    ensures CString(s) == s
  {
    if s != "" { CStringWhole(s[1..]); }
  }

  /** The part in front of the first NUL; what is behind it does not matter. */
  lemma {:induction false} CStringIs(s: string, t: string)
    ensures CString(s + [NUL] + t) == CString(s)
    decreases |s|
  {
    if s != "" {
      assert (s + [NUL] + t)[1..] == s[1..] + [NUL] + t;
      CStringIs(s[1..], t);
    }
  }

  /** Bytes taken so far, `seen`, when the line is not complete. */
  lemma {:induction false} LineMore(s: string, n: nat)
    requires n < |s| && forall i | 0 <= i < n :: s[i] != LF
    ensures |Line(s)| > n
    ensures s[n] == LF ==> Line(s) == s[..n + 1]
    ensures n + 1 == |s| ==> Line(s) == s
    decreases n
  {
    if n > 0 {
      forall i | 0 <= i < n - 1 ensures s[1..][i] != LF { assert s[1..][i] == s[i + 1]; }
      LineMore(s[1..], n - 1);
      assert s == [s[0]] + s[1..];
      assert s[..n + 1] == [s[0]] + s[1..][..n];
    } else if |s| == 1 {
      assert s[1..] == "" && s == [s[0]];
    }
  }

  class StreamLineReader {
    const strm: Input
    const fixedBuffer: array<char>
    var used: nat
    var growable: string

    /** The line that the two buffers stand for. */
    ghost function Bytes(): string
      reads this, fixedBuffer
      requires used <= fixedBuffer.Length
    {
      if growable == "" then fixedBuffer[..used] else growable
    }

    ghost predicate Valid()
      reads this, fixedBuffer
    {
      used < fixedBuffer.Length && fixedBuffer.Length >= 2
      && (used > 0 ==> fixedBuffer[used] == NUL)
      && (growable != "" ==> used == fixedBuffer.Length - 1 && |growable| > used)
    }

    constructor (strm: Input, fixedBuffer: array<char>)
      requires fixedBuffer.Length >= 2
      ensures Valid() && this.strm == strm && this.fixedBuffer == fixedBuffer && Bytes() == ""
    {
      this.strm := strm;
      this.fixedBuffer := fixedBuffer;
      used := 0;
      growable := "";
    }

    /** What `ptr` shows to a C string function, which looks for the NUL itself. */
    method Ptr() returns (s: string)
      requires Valid() && Bytes() != ""
      ensures s == CString(Bytes())
    {
      if growable == "" {
        s := CString(fixedBuffer[..]);
        assert fixedBuffer[..] == fixedBuffer[..used] + [NUL] + fixedBuffer[used + 1..];
        CStringIs(fixedBuffer[..used], fixedBuffer[used + 1..]);
      } else {
        s := CString(growable);
      }
    }

    /** The bytes from `ptr` on, `size` of them. */
    method Content() returns (s: string)
      requires Valid()
      ensures s == Bytes()
    {
      s := if growable == "" then fixedBuffer[..used] else growable;
    }

    /** `end_with_crlf`. */
    method EndsWithCrlf() returns (yes: bool)
      requires Valid()
      ensures yes <==> |Bytes()| >= 2 && Bytes()[|Bytes()| - 2..] == CRLF
    {
      var s := Content();
      yes := |s| >= 2 && s[|s| - 2] == CR && s[|s| - 1] == LF;
    }

    /** `append`; its assertion on the NUL never fails. */
    method Append(c: char)
      requires Valid()
      modifies this`used, this`growable, fixedBuffer
      ensures Valid() && Bytes() == old(Bytes()) + [c]
    {
      if used < fixedBuffer.Length - 1 {
        fixedBuffer[used] := c;
        used := used + 1;
        fixedBuffer[used] := NUL;
        assert fixedBuffer[..used] == old(fixedBuffer[..used]) + [c];
      } else {
        if growable == "" {
          assert fixedBuffer[used] == NUL;
          growable := fixedBuffer[..used];
        }
        growable := growable + [c];
      }
    }

    /** `getline`: exactly the next line, wherever it fits. */
    method GetLine() returns (ok: bool)
      requires Valid()
      modifies this`used, this`growable, fixedBuffer, strm`pending
      ensures Valid()
      ensures ok ==> old(strm.pending) != "" && Bytes() == Line(old(strm.pending))
      ensures ok ==> strm.pending == Rest(old(strm.pending))
      ensures strm.reliable ==> (ok <==> old(strm.pending) != "")
      ensures exists k: nat | k <= |Line(old(strm.pending))| :: strm.pending == old(strm.pending)[k..]
      ensures strm.reliable && !ok ==> strm.pending == ""
    {
      used := 0;
      growable := "";
      ghost var was := strm.pending;
      var i := 0;
      assert was[..0] == "" && was[0..] == was;
      hide Line;
      while true
        invariant Valid() && 0 <= i <= |Line(was)| && Bytes() == was[..i] && strm.pending == was[i..]
        invariant forall k | 0 <= k < i :: was[k] != LF
        decreases |was| - i
      {
        var n, data := strm.Read(1);
        if n < 0 { return false; }
        if n == 0 {
          if i == 0 { return false; }
          LineMore(was, i - 1);
          break;
        }
        var byte := data[0];
        assert byte == was[i] && was[..i + 1] == was[..i] + [byte];
        Append(byte);
        LineMore(was, i);
        i := i + 1;
        if byte == LF { break; }
      }
      return true;
    }
  }
}
