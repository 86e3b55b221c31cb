/** `Replace` of the BASIC runtime, a loop over `InStr`, `Left` and `Mid` with positions from 1. */
module Replace {
  import opened Text

  // ---- The string functions it rests on ----------------------------------------------------------

  /** A position from 1 of what `std::string::find` returned; 0 is "not found". */
  function Position(r: Option<nat>): nat {
    if r.Some? then r.value + 1 else 0
  }

  /** `InStr(text, s, "")`: without a third string, the first is searched for in the second. */
  function InStr(text: string, s: string): nat {
    Position(Find(s, text, 0))
  }

  /** `InStr(start, sub, s)` with a number in front. When `s` is empty the arguments move up: the digits of
      `start`, as `"%.16g"` prints them, are searched for in `sub`. */
  function InStrFrom(start: int, sub: string, s: string): nat
    requires start >= 1
  {
    if s == "" then InStr(Decimal(start), sub) else Position(Find(s, sub, start - 1))
  }

  function Left(s: string, count: nat): string {
    s[..if count > |s| then |s| else count]
  }

  /** A negative count means everything up to the end. */
  function Mid(s: string, start: int, count: int): string {
    if start < 1 || start > |s| then ""
    else if count < 0 || count > |s| - (start - 1) then s[start - 1..]
    else s[start - 1..start - 1 + count]
  }

  // ---- The loop as a function of the number of rounds --------------------------------------------

  /** `strSource` and `intStart`; the loop ends when the position is 0. */
  datatype Round = Round(source: string, at: nat)

  function Start(source: string, sub: string): Round {
    Round(source, InStrFrom(1, sub, source))
  }

  function Next(r: Round, sub: string, new': string): Round
    requires r.at > 0
  {
    var s := Left(r.source, r.at - 1) + new' + Mid(r.source, |sub| + r.at, -1);
    Round(s, InStrFrom(r.at + |new'|, sub, s))
  }

  /** After `n` rounds, or when the loop has ended before. */
  function After(r: Round, sub: string, new': string, n: nat): Round
    decreases n
  {
    if n == 0 || r.at == 0 then r else After(Next(r, sub, new'), sub, new', n - 1)
  }

  ghost predicate Ends(r: Round, sub: string, new': string) {
    exists n: nat :: After(r, sub, new', n).at == 0
  }

  // ---- What it should be -------------------------------------------------------------------------

  /** Every occurrence replaced, from the left, without overlap and without looking at inserted text. */
  function Substituted(s: string, sub: string, new': string): string
    requires sub != ""
    decreases |s|
  {
    match Find(s, sub, 0)
    case None => s
    case Some(k) => s[..k] + new' + Substituted(s[k + |sub|..], sub, new')
  }

  /** `s` is some number of copies of `sub`, possibly none. */
  predicate Copies(s: string, sub: string)
    requires sub != ""
    decreases |s|
  {
    s == "" || (|sub| <= |s| && s[..|sub|] == sub && Copies(s[|sub|..], sub))
  }

  lemma {:induction false} AfterMore(r: Round, sub: string, new': string, n: nat, m: nat)
    ensures After(r, sub, new', n + m) == After(After(r, sub, new', n), sub, new', m)
    decreases n
  {
    hide Next;
    if n > 0 && r.at > 0 { AfterMore(Next(r, sub, new'), sub, new', n - 1, m); }
  }

  // ---- The ordinary case -------------------------------------------------------------------------

  /** The source is never going to become empty. */
  predicate StaysNonEmpty(done: string, rest: string, sub: string, new': string)
    requires sub != ""
  {
    new' != "" || done != "" || !Copies(rest, sub)
  }

  /** The loop between two rounds: `done` is final, the search goes on in `rest`. */
  predicate Searching(r: Round, done: string, rest: string, sub: string) {
    r.source == done + rest && r.at == Position(Find(r.source, sub, |done|))
  }

  lemma {:induction false} SearchRest(done: string, rest: string, sub: string)
    ensures Find(rest, sub, 0).None? ==> Find(done + rest, sub, |done|).None?
    ensures Find(rest, sub, 0).Some? ==> Find(done + rest, sub, |done|) == Some(|done| + Find(rest, sub, 0).value)
  {
    assert (done + rest)[|done|..] == rest;
    FindDrop(done + rest, sub, |done|, 0);
  }

  /** The new source of a round, in two parts. */
  lemma {:induction false} NextSource(r: Round, done: string, rest: string, sub: string, new': string, k: nat)
    requires r.source == done + rest && r.at == |done| + k + 1 && k + |sub| <= |rest|
    ensures Next(r, sub, new').source == done + rest[..k] + new' + rest[k + |sub|..]
  {
    assert Left(r.source, r.at - 1) == done + rest[..k];
    assert Mid(r.source, |sub| + r.at, -1) == rest[k + |sub|..];
  }

  lemma {:induction false} NextSearching(r: Round, done: string, rest: string, sub: string, new': string)
    requires sub != "" && Searching(r, done, rest, sub) && r.at > 0
    requires StaysNonEmpty(done, rest, sub, new')
    ensures Find(rest, sub, 0).Some?
    ensures var k := Find(rest, sub, 0).value;
            Searching(Next(r, sub, new'), done + rest[..k] + new', rest[k + |sub|..], sub)
            && StaysNonEmpty(done + rest[..k] + new', rest[k + |sub|..], sub, new')
  {
    hide Copies, Text.Find, Left, Mid;
    SearchRest(done, rest, sub);
    var k := Find(rest, sub, 0).value;
    NextSource(r, done, rest, sub, new', k);
    if new' == "" && done + rest[..k] == "" {
      assert rest[..|sub|] == sub by { FindFirst(rest, sub, 0); }
      CopiesStep(rest, sub);
    }
    CopiesNone(sub);
  }

  lemma {:induction false} CopiesStep(s: string, sub: string)
    requires sub != "" && |sub| <= |s| && s[..|sub|] == sub
    ensures Copies(s, sub) == Copies(s[|sub|..], sub)
  {
  }

  lemma {:induction false} CopiesNone(sub: string)
    requires sub != ""
    ensures Copies("", sub)
  {
  }

  lemma {:induction false} AfterFirst(r: Round, sub: string, new': string, n: nat)
    requires r.at > 0
    ensures After(r, sub, new', n + 1) == After(Next(r, sub, new'), sub, new', n)
  {
    hide Next;
  }

  lemma {:induction false} OrdinaryRun(r: Round, done: string, rest: string, sub: string, new': string) returns (n: nat)
    requires sub != "" && Searching(r, done, rest, sub) && StaysNonEmpty(done, rest, sub, new')
    ensures After(r, sub, new', n) == Round(done + Substituted(rest, sub, new'), 0)
    decreases |rest|
  {
    hide Copies, Next, After, Text.Find, StaysNonEmpty;
    if r.at == 0 {
      SearchRest(done, rest, sub);
      n := 0;
      AfterNone(r, sub, new');
    } else {
      NextSearching(r, done, rest, sub, new');
      var k := Find(rest, sub, 0).value;
      var m := OrdinaryRun(Next(r, sub, new'), done + rest[..k] + new', rest[k + |sub|..], sub, new');
      n := m + 1;
      AfterFirst(r, sub, new', m);
      var tail := Substituted(rest[k + |sub|..], sub, new');
      assert done + rest[..k] + new' + tail == done + (rest[..k] + new' + tail);
    }
  }

  // ---- An empty search string --------------------------------------------------------------------

  /** Searching for nothing finds it at once, always behind the text just inserted. */
  lemma {:induction false} NothingForever(r: Round, new': string, n: nat)
    requires 0 < r.at <= |r.source|
    ensures After(r, "", new', n).at > 0
    decreases n
  {
    if n > 0 {
      var s := Next(r, "", new');
      assert s.source == r.source[..r.at - 1] + new' + r.source[r.at - 1..];
      assert OccursAt(s.source, "", r.at + |new'| - 1);
      FindIs(s.source, "", r.at + |new'| - 1, r.at + |new'| - 1);
      NothingForever(s, new', n - 1);
    }
  }

  // ---- An empty source ---------------------------------------------------------------------------

  /** With nothing to search in, the digits of the position are looked up in the search string. */
  function Digits(sub: string, p: nat, n: nat): nat
    decreases n
  {
    if n == 0 || p == 0 then p else Digits(sub, InStr(Decimal(p), sub), n - 1)
  }

  /** Looking up positions, starting from 1, comes to a number that is not there. */
  predicate DigitsEnd(sub: string) {
    Digits(sub, 1, |sub| + 1) == 0
  }

  lemma {:induction false} EmptyNext(r: Round, sub: string)
    requires r.source == "" && r.at > 0
    ensures Next(r, sub, "") == Round("", InStr(Decimal(r.at), sub))
  {
    hide InStr, Decimal;
  }

  lemma {:induction false} EmptySource(r: Round, sub: string, n: nat)
    requires r.source == ""
    ensures After(r, sub, "", n) == Round("", Digits(sub, r.at, n))
    decreases n
  {
    hide Next, InStr;
    if n > 0 && r.at > 0 {
      EmptyNext(r, sub);
      EmptySource(Next(r, sub, ""), sub, n - 1);
    }
  }

  lemma {:induction false} DigitsMore(sub: string, p: nat, n: nat, m: nat)
    ensures Digits(sub, p, n + m) == Digits(sub, Digits(sub, p, n), m)
    decreases n
  {
    hide InStr;
    if n > 0 && p > 0 { DigitsMore(sub, InStr(Decimal(p), sub), n - 1, m); }
  }

  lemma {:induction false} DigitsBound(sub: string, p: nat, n: nat)
    requires p <= |sub|
    ensures Digits(sub, p, n) <= |sub|
    decreases n
  {
    if n > 0 && p > 0 { DigitsBound(sub, InStr(Decimal(p), sub), n - 1); }
  }

  /** Among `m` + 1 numbers from 1 to `m` two are equal. */
  lemma {:induction false} Pigeonhole(s: seq<nat>, m: nat) returns (i: nat, j: nat)
    requires |s| == m + 1 && forall k | 0 <= k < |s| :: 1 <= s[k] <= m
    ensures i < j < |s| && s[i] == s[j]
    decreases m
  {
    var last := s[m];
    if k :| 0 <= k < m && s[k] == last {
      i, j := k, m;
    } else {
      // renumber so that the last value is not needed
      var t := seq(m, k requires 0 <= k < m => if s[k] < last then s[k] else s[k] - 1);
      i, j := Pigeonhole(t, m - 1);
    }
  }

  /** If the digits have not come to an end after as many steps as there are positions, they go in circles. */
  lemma {:induction false} DigitsForever(sub: string, n: nat)
    requires sub != "" && !DigitsEnd(sub)
    ensures Digits(sub, 1, n) != 0
  {
    var m := |sub|;
    forall k: nat | k <= m + 1 ensures 1 <= Digits(sub, 1, k) <= m {
      DigitsMore(sub, 1, k, m + 1 - k);
      DigitsBound(sub, 1, k);
    }
    var s := seq(m + 1, k requires 0 <= k < m + 1 => Digits(sub, 1, k));
    var i, j := Pigeonhole(s, m);
    DigitsCircle(sub, i, j, n);
  }

  lemma {:induction false} DigitsCircle(sub: string, i: nat, j: nat, n: nat)
    requires i < j && Digits(sub, 1, i) == Digits(sub, 1, j) != 0
    ensures Digits(sub, 1, n) != 0
    decreases n
  {
    if n <= j {
      DigitsMore(sub, 1, n, j - n);
    } else {
      DigitsMore(sub, 1, j, n - j);
      DigitsMore(sub, 1, i, n - j);
      DigitsCircle(sub, i, j, n - j + i);
    }
  }

  /** A source made of copies of the search string, replaced by nothing, becomes empty. */
  lemma {:induction false} CopiesVanish(s: string, sub: string) returns (n: nat)
    requires sub != "" && Copies(s, sub)
    ensures After(Start(s, sub), sub, "", n) == Start("", sub)
    decreases |s|
  {
    if s == "" {
      n := 0;
    } else {
      assert OccursAt(s, sub, 0);
      FindIs(s, sub, 0, 0);
      var r := Start(s, sub);
      assert Next(r, sub, "") == Start(s[|sub|..], sub) by {
        assert Left(s, 0) == "" && Mid(s, |sub| + 1, -1) == s[|sub|..];
      }
      n := CopiesVanish(s[|sub|..], sub);
      n := n + 1;
    }
  }

  lemma {:induction false} CopiesSubstituted(s: string, sub: string)
    requires sub != "" && Copies(s, sub)
    ensures Substituted(s, sub, "") == ""
    decreases |s|
  {
    if s != "" {
      assert OccursAt(s, sub, 0);
      FindIs(s, sub, 0, 0);
      CopiesSubstituted(s[|sub|..], sub);
    } else {
      FindFirst(s, sub, 0);
    }
  }

  // ---- The exact condition -----------------------------------------------------------------------

  /** The loop ends, and with the text it should. */
  ghost predicate Correct(source: string, sub: string, new': string) {
    exists n: nat :: After(Start(source, sub), sub, new', n)
                  == Round(if sub == "" then source else Substituted(source, sub, new'), 0)
  }

  /** What a caller can look at: the three ways an argument can be empty. */
  predicate Usable(source: string, sub: string, new': string) {
    if sub == "" then source == ""
    else if source == "" && new' != "" then !Contains(sub, "1")
    else if new' == "" && Copies(source, sub) then DigitsEnd(sub)
    else true
  }

  lemma {:induction false} RunsAgree(r: Round, sub: string, new': string, n: nat, m: nat)
    requires After(r, sub, new', n).at == 0 && After(r, sub, new', m).at == 0
    ensures After(r, sub, new', n) == After(r, sub, new', m)
  {
    hide Next;
    if n <= m { AfterMore(r, sub, new', n, m - n); } else { AfterMore(r, sub, new', m, n - m); }
  }

  lemma {:induction false} EmptyStart(sub: string)
    ensures Start("", sub) == Round("", InStr("1", sub))
  {
    assert Decimal(1) == "1";
  }

  /** Nothing to search in, but something to insert: it is inserted when the search string has a "1". */
  lemma {:induction false} InsertedIntoNothing(sub: string, new': string)
    requires sub != "" && new' != ""
    ensures !Contains(sub, "1") ==> After(Start("", sub), sub, new', 0) == Round("", 0)
    ensures Contains(sub, "1") ==> After(Start("", sub), sub, new', 1) == Round(new', 0)
  {
    EmptyStart(sub);
    var r := Start("", sub);
    if Contains(sub, "1") {
      var s := Next(r, sub, new');
      assert s.source == new';
      assert Find(new', sub, r.at + |new'| - 1) == None;
      assert After(r, sub, new', 1) == After(s, sub, new', 0);
    }
  }

  lemma {:induction false} ShrinksToNothing(source: string, sub: string)
    requires sub != "" && Copies(source, sub)
    ensures Correct(source, sub, "") <==> DigitsEnd(sub)
    ensures Ends(Start(source, sub), sub, "") <==> DigitsEnd(sub)
  {
    hide Copies, Text.Find, Decimal, Next, InStr;
    var n := CopiesVanish(source, sub);
    CopiesSubstituted(source, sub);
    EmptyStart(sub);
    var r, e := Start(source, sub), Start("", sub);
    assert Digits(sub, 1, |sub| + 1) == Digits(sub, e.at, |sub|) by { assert Decimal(1) == "1" by { OneDigit(); } }
    if DigitsEnd(sub) {
      EmptySource(e, sub, |sub|);
      AfterMore(r, sub, "", n, |sub|);
      assert After(r, sub, "", n + |sub|) == Round("", 0);
    } else {
      forall m: nat ensures After(r, sub, "", m).at != 0 {
        AfterMore(r, sub, "", m, n);
        AfterMore(r, sub, "", n, m);
        EmptySource(e, sub, m);
        DigitsForever(sub, m + 1);
        OneDigit();
      }
    }
  }

  lemma {:induction false} OneDigit()
    ensures Decimal(1) == "1"
  {
  }

  /** `Replace` does what its name says exactly for the usable arguments: always when none is empty. */
  lemma {:induction false} CorrectIff(source: string, sub: string, new': string)
    ensures Correct(source, sub, new') <==> Usable(source, sub, new')
  {
    hide Copies, Text.Find, Next, DigitsEnd;
    var r := Start(source, sub);
    if sub == "" {
      NothingToFind(source, new');
    } else if source == "" && new' != "" {
      InsertedIntoNothing(sub, new');
      CopiesNone(sub);
      assert Substituted("", sub, new') == "" by { SubstitutedEmpty(sub, new'); }
      if Contains(sub, "1") {
        forall n: nat ensures After(r, sub, new', n) != Round("", 0) {
          if After(r, sub, new', n).at == 0 { RunsAgree(r, sub, new', n, 1); }
        }
      }
    } else if new' == "" && Copies(source, sub) {
      ShrinksToNothing(source, sub);
    } else {
      assert source != "" by { CopiesNone(sub); }
      assert source == "" + source;
      var n := OrdinaryRun(r, "", source, sub, new');
      assert "" + Substituted(source, sub, new') == Substituted(source, sub, new');
    }
  }

  lemma {:induction false} SubstitutedEmpty(sub: string, new': string)
    requires sub != ""
    ensures Substituted("", sub, new') == ""
  {
  }

  lemma {:induction false} NothingToFind(source: string, new': string)
    ensures Correct(source, "", new') <==> source == ""
    ensures Ends(Start(source, ""), "", new') <==> source == ""
  {
    if source == "" {
      EmptyStart("");
      assert After(Start("", ""), "", new', 0) == Round("", 0);
    } else {
      assert OccursAt(source, "", 0);
      FindIs(source, "", 0, 0);
      forall n: nat ensures After(Start(source, ""), "", new', n).at != 0 {
        NothingForever(Start(source, ""), new', n);
      }
    }
  }

  /** The arguments for which the loop ends at all. */
  predicate Stops(source: string, sub: string, new': string) {
    if sub == "" then source == "" else new' != "" || !Copies(source, sub) || DigitsEnd(sub)
  }

  lemma {:induction false} EndsIff(source: string, sub: string, new': string)
    ensures Ends(Start(source, sub), sub, new') <==> Stops(source, sub, new')
  {
    hide Copies, Text.Find, Next, DigitsEnd, Start, After;
    if sub == "" {
      NothingToFind(source, new');
    } else if source == "" && new' != "" {
      InsertedIntoNothing(sub, new');
    } else if new' == "" && Copies(source, sub) {
      ShrinksToNothing(source, sub);
    } else {
      CorrectIff(source, sub, new');
    }
  }

  /** With no empty argument, `Replace` ends with every occurrence replaced, even when the new text
      contains the old one. */
  lemma {:induction false} NonEmptyCorrect(source: string, sub: string, new': string)
    requires source != "" && sub != "" && new' != ""
    ensures Correct(source, sub, new')
  {
    CorrectIff(source, sub, new');
  }

  lemma {:induction false} EndsCorrect(source: string, sub: string, new': string, n: nat)
    requires After(Start(source, sub), sub, new', n).at == 0
    ensures Usable(source, sub, new')
        ==> After(Start(source, sub), sub, new', n).source
            == if sub == "" then source else Substituted(source, sub, new')
  {
    hide *;
    if Usable(source, sub, new') {
      CorrectIff(source, sub, new');
      assert Correct(source, sub, new');
      CorrectRun(source, sub, new', n);
    }
  }

  lemma {:induction false} CorrectRun(source: string, sub: string, new': string, n: nat)
    requires After(Start(source, sub), sub, new', n).at == 0 && Correct(source, sub, new')
    ensures After(Start(source, sub), sub, new', n).source
         == if sub == "" then source else Substituted(source, sub, new')
  {
    hide After, Start, Substituted, Text.Find;
    var m: nat :| After(Start(source, sub), sub, new', m)
               == Round(if sub == "" then source else Substituted(source, sub, new'), 0);
    RunsAgree(Start(source, sub), sub, new', n, m);
  }

  method Replace(source: string, sub: string, new': string) returns (result: string)
    requires Stops(source, sub, new')
    ensures exists n: nat :: After(Start(source, sub), sub, new', n) == Round(result, 0)
    ensures Usable(source, sub, new') ==> result == if sub == "" then source else Substituted(source, sub, new')
  {
    hide InStrFrom, After, Usable, Stops, Substituted;
    ghost var r0 := Start(source, sub);
    EndsIff(source, sub, new');
    ghost var n: nat :| After(r0, sub, new', n).at == 0;
    ghost var i := 0;
    result := source;
    var start: nat := InStrFrom(1, sub, source);
    AfterNone(r0, sub, new');
    while start > 0
      invariant i <= n
      invariant After(r0, sub, new', i) == Round(result, start)
      decreases n - i
    {
      AfterOne(r0, sub, new', i);
      AfterLater(r0, sub, new', i, n);
      var left := Left(result, start - 1);
      var right := Mid(result, |sub| + start, -1);
      result := left + new' + right;
      start := InStrFrom(start + |new'|, sub, result);
      i := i + 1;
    }
    EndsCorrect(source, sub, new', i);
  }

  lemma {:induction false} AfterNone(r: Round, sub: string, new': string)
    ensures After(r, sub, new', 0) == r
  {
  }

  lemma {:induction false} AfterOne(r: Round, sub: string, new': string, i: nat)
    requires After(r, sub, new', i).at > 0
    ensures After(r, sub, new', i + 1) == Next(After(r, sub, new', i), sub, new')
  {
    hide Next;
    AfterMore(r, sub, new', i, 1);
    var s := After(r, sub, new', i);
    assert After(s, sub, new', 1) == After(Next(s, sub, new'), sub, new', 0);
  }

  lemma {:induction false} AfterLater(r: Round, sub: string, new': string, i: nat, n: nat)
    requires After(r, sub, new', i).at > 0 && After(r, sub, new', n).at == 0
    ensures i < n
  {
    hide Next;
    if n <= i { AfterMore(r, sub, new', n, i - n); }
  }
}
