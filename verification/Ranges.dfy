/** Byte ranges: the header of a request, and what a server cuts out of a body for it. */
module Ranges {
  import opened Text
  import Query

  /** First and last position; -1 is "absent". */
  datatype Range = Range(first: int, last: int)

  const SSIZE_MAX: int := 0x7FFF_FFFF_FFFF_FFFF

  predicate Representable(r: Range) {
    -SSIZE_MAX - 1 <= r.first <= SSIZE_MAX && -SSIZE_MAX - 1 <= r.last <= SSIZE_MAX
  }

  /** First position not behind the last, unless one of them is absent. */
  predicate Proper(r: Range) {
    -1 <= r.first && -1 <= r.last && (r.first == -1 || r.last == -1 || r.first <= r.last)
  }

  // ---- Printing ----------------------------------------------------------------------------------

  function ToString(n: int): string {
    if n < 0 then "-" + Decimal(-n) else Decimal(n)
  }

  function Item(r: Range): string {
    (if r.first != -1 then ToString(r.first) else "") + "-" + (if r.last != -1 then ToString(r.last) else "")
  }

  function MoreItems(rs: seq<Range>): string {
    if rs == [] then "" else ", " + Item(rs[0]) + MoreItems(rs[1..])
  }

  function Items(rs: seq<Range>): string {
    if rs == [] then "" else Item(rs[0]) + MoreItems(rs[1..])
  }

  /** What is still to come when `i` ranges are printed. */
  function Unprinted(rs: seq<Range>, i: nat): string
    requires i <= |rs|
  {
    if i == 0 then Items(rs) else MoreItems(rs[i..])
  }

  lemma {:induction false} UnprintedStep(rs: seq<Range>, i: nat)
    requires i < |rs|
    ensures Unprinted(rs, i) == (if i != 0 then ", " else "") + Item(rs[i]) + Unprinted(rs, i + 1)
  {
    hide Item;
    assert rs[i..][1..] == rs[i + 1..];
  }

  lemma {:induction false} AllPrinted(rs: seq<Range>)
    ensures Unprinted(rs, |rs|) == ""
  {
    assert rs[|rs|..] == [];
  }

  /** `make_range_header`: the value of the header. */
  method MakeRangeHeader(ranges: seq<Range>) returns (field: string)
    ensures field == "bytes=" + Items(ranges)
  {
    hide ToString, Items, Unprinted;
    field := "bytes=";
    assert Unprinted(ranges, 0) == Items(ranges) by { NonePrinted(ranges); }
    for i := 0 to |ranges|
      invariant field + Unprinted(ranges, i) == "bytes=" + Items(ranges)
    {
      UnprintedStep(ranges, i);
      var r := ranges[i];
      ghost var was := field;
      if i != 0 { field := field + ", "; }
      if r.first != -1 { field := field + ToString(r.first); }
      field := field + "-";
      if r.last != -1 { field := field + ToString(r.last); }
      assert field == was + ((if i != 0 then ", " else "") + Item(r));
    }
    AllPrinted(ranges);
  }

  lemma {:induction false} NonePrinted(rs: seq<Range>)
    ensures Unprinted(rs, 0) == Items(rs)
  {
  }

  // ---- Parsing -----------------------------------------------------------------------------------

  predicate Digits(s: string) {
    forall i | 0 <= i < |s| :: '0' <= s[i] <= '9'
  }

  function Number(s: string): nat
    requires Digits(s)
  {
    if s == "" then 0 else 10 * Number(s[..|s| - 1]) + (s[|s| - 1] as int - '0' as int)
  }

  /** `\d*-\d*` */
  predicate IsItem(s: string) {
    var a := Upto(s, '-');
    |a| < |s| && Digits(a) && Digits(s[|a| + 1..])
  }

  /** `\d*-\d*(?:,\s*\d*-\d*)*`, behind a first comma when `more`. */
  predicate AreItems(s: string, more: bool)
    decreases |s|
  {
    var p := Upto(s, ',');
    IsItem(if more then SkipSpaces(p) else p) && (|p| < |s| ==> AreItems(s[|p| + 1..], true))
  }

  /** `stoll` of a text of digits; `None` where it throws. */
  function Stoll(s: string): Option<int>
    requires Digits(s)
  {
    if s == "" then Some(-1) else if Number(s) <= SSIZE_MAX then Some(Number(s) as int) else None
  }

  function RangeOf(s: string): Option<Range>
    requires IsItem(s)
  {
    var a := Upto(s, '-');
    var first, last := Stoll(a), Stoll(s[|a| + 1..]);
    if first.None? || last.None? then None
    else if first.value != -1 && last.value != -1 && first.value > last.value then None
    else Some(Range(first.value, last.value))
  }

  /** All pieces between commas; one that is not an item would be passed over. */
  function RangesOf(tokens: seq<string>): Option<seq<Range>> {
    if tokens == [] then Some([])
    else if !IsItem(SkipSpaces(tokens[0])) then RangesOf(tokens[1..])
    else
      var r := RangeOf(SkipSpaces(tokens[0]));
      var rest := RangesOf(tokens[1..]);
      if r.None? || rest.None? then None else Some([r.value] + rest.value)
  }

  function Parse(s: string): Option<seq<Range>> {
    if !("bytes=" <= s && AreItems(s[6..], false)) then None else RangesOf(Query.Tokens(s[6..], ','))
  }

  /** `parse_range_header`; a number that does not fit makes it fail like any other error. */
  method ParseRangeHeader(s: string) returns (ok: bool, ranges: seq<Range>)
    ensures ok == Parse(s).Some?
    ensures ok ==> ranges == Parse(s).value
  {
    hide IsItem, RangeOf, Query.Tokens, AreItems;
    ok, ranges := false, [];
    if "bytes=" <= s && AreItems(s[6..], false) {
      var pieces := Query.Split(s[6..], ',');
      ghost var all := RangesOf(pieces);
      for i := 0 to |pieces|
        invariant all.Some? == RangesOf(pieces[i..]).Some?
        invariant all.Some? ==> all.value == ranges + RangesOf(pieces[i..]).value
      {
        assert pieces[i..][0] == pieces[i] && pieces[i..][1..] == pieces[i + 1..];
        var t := SkipSpaces(pieces[i]);
        if IsItem(t) {
          var r := RangeOf(t);
          if r.None? { return; }
          ranges := ranges + [r.value];
        }
      }
      ok := true;
    }
  }

  // ---- What is accepted --------------------------------------------------------------------------

  lemma {:induction false} ItemNotBlank(s: string)
    requires IsItem(s)
    ensures s != "" && !IsSpace(s[0]) && !IsBlank(s[|s| - 1]) && Trim(s) == s
  {
    var a := Upto(s, '-');
    assert s == a + "-" + s[|a| + 1..];
    assert s[0] == '-' || '0' <= s[0] <= '9';
    assert s[|s| - 1] == '-' || '0' <= s[|s| - 1] <= '9';
    Query.TrimmedTrim(s);
  }

  /** Taking blanks off first makes no difference to an item behind white space. */
  lemma {:induction false} TokenItem(p: string)
    requires IsItem(SkipSpaces(p))
    ensures Query.Token(p) != [] && SkipSpaces(Query.Token(p)[0]) == SkipSpaces(p) && |Query.Token(p)| == 1
  {
    hide IsItem;
    ItemNotBlank(SkipSpaces(p));
    SkipBoth(p);
  }

  lemma {:induction false} SkipBoth(p: string)
    requires SkipSpaces(p) != "" && !IsBlank(SkipSpaces(p)[|SkipSpaces(p)| - 1])
    ensures Trim(p) != "" && SkipSpaces(Trim(p)) == SkipSpaces(p)
  {
    if IsBlank(p[0]) {
      SkipBoth(p[1..]);
      assert Trim(p) == Trim(p[1..]);
    } else {
      SkipSuffix(p);
      assert SkipBlanks(p) == p && DropTrailingBlanks(p) == p;
    }
  }

  lemma {:induction false} SkipSuffix(p: string)
    requires SkipSpaces(p) != ""
    ensures p != "" && p[|p| - 1] == SkipSpaces(p)[|SkipSpaces(p)| - 1]
  {
    if IsSpace(p[0]) { SkipSuffix(p[1..]); }
  }

  lemma {:induction false} RangeProper(s: string)
    requires IsItem(s) && RangeOf(s).Some?
    ensures Proper(RangeOf(s).value) && Representable(RangeOf(s).value)
  {
  }

  lemma {:induction false} RangesProper(tokens: seq<string>)
    requires RangesOf(tokens).Some?
    ensures forall i | 0 <= i < |RangesOf(tokens).value| ::
              var r := RangesOf(tokens).value[i]; Proper(r) && Representable(r)
  {
    hide RangeOf, IsItem, Proper, Representable;
    if tokens != [] {
      RangesProper(tokens[1..]);
      if IsItem(SkipSpaces(tokens[0])) { RangeProper(SkipSpaces(tokens[0])); }
    }
  }

  function Commas(s: string): nat {
    if s == "" then 0 else (if s[0] == ',' then 1 else 0) + Commas(s[1..])
  }

  lemma {:induction false} CommasUpto(s: string)
    ensures var p := Upto(s, ',');
            Commas(s) == if |p| < |s| then 1 + Commas(s[|p| + 1..]) else 0
  {
    if s != "" && s[0] != ',' {
      CommasUpto(s[1..]);
      var p := Upto(s, ',');
      if |p| < |s| { assert s[1..][|p|..] == s[|p| + 1..]; }
    }
  }

  /** No piece of an accepted header is passed over. */
  lemma {:induction false} AllCounted(s: string, more: bool)
    requires AreItems(s, more)
    ensures var tokens := Query.Tokens(s, ',');
            |tokens| == Commas(s) + 1 && forall i | 0 <= i < |tokens| :: IsItem(SkipSpaces(tokens[i]))
    decreases |s|
  {
    hide IsItem, Query.Token, SkipSpaces, Upto;
    var p := Upto(s, ',');
    CommasUpto(s);
    if !more { NoSpaces(p); }
    TokenItem(p);
    if |p| < |s| { AllCounted(s[|p| + 1..], true); }
  }

  lemma {:induction false} NoSpaces(p: string)
    requires IsItem(p)
    ensures SkipSpaces(p) == p
  {
    ItemNotBlank(p);
  }

  lemma {:induction false} RangesCount(tokens: seq<string>)
    requires forall i | 0 <= i < |tokens| :: IsItem(SkipSpaces(tokens[i]))
    requires RangesOf(tokens).Some?
    ensures |RangesOf(tokens).value| == |tokens|
  {
    hide IsItem, RangeOf, SkipSpaces;
    if tokens != [] { RangesCount(tokens[1..]); }
  }

  /** An accepted header has one proper range for each piece between commas, so at least one. */
  lemma {:induction false} Accepted(s: string)
    requires Parse(s).Some?
    ensures |Parse(s).value| == Commas(s[6..]) + 1
    ensures forall i | 0 <= i < |Parse(s).value| :: Proper(Parse(s).value[i]) && Representable(Parse(s).value[i])
  {
    hide IsItem, RangeOf, SkipSpaces, Commas, Proper, Representable, RangesOf, Query.Tokens;
    var tokens := Query.Tokens(s[6..], ',');
    AllCounted(s[6..], false);
    RangesCount(tokens);
    RangesProper(tokens);
  }

  // ---- The list as others write it ---------------------------------------------------------------

  /** One range of a list: white space, digits or none, a dash, digits or none. */
  datatype Piece = Piece(white: string, first: string, last: string)

  predicate IsPiece(p: Piece) {
    White(p.white) && Digits(p.first) && Digits(p.last)
  }

  function PieceText(p: Piece): string {
    p.white + (p.first + "-" + p.last)
  }

  function ListText(ps: seq<Piece>): string
    requires ps != []
  {
    PieceText(ps[0]) + if |ps| == 1 then "" else "," + ListText(ps[1..])
  }

  /** What digits stand for: no position without any, and none either beyond what fits. */
  predicate Means(digits: string, n: int) {
    Digits(digits) && n == (if digits == "" then -1 else Number(digits)) && n <= SSIZE_MAX
  }

  /** The ranges that the pieces of a list mean. */
  predicate AllMean(ps: seq<Piece>, rs: seq<Range>) {
    |rs| == |ps|
    && forall i | 0 <= i < |ps| :: Means(ps[i].first, rs[i].first) && Means(ps[i].last, rs[i].last) && Proper(rs[i])
  }

  lemma {:induction false} PieceIs(p: Piece)
    requires IsPiece(p)
    ensures SkipSpaces(PieceText(p)) == p.first + "-" + p.last && IsItem(p.first + "-" + p.last)
    ensures ',' !in PieceText(p)
    ensures forall r: Range ::
              RangeOf(p.first + "-" + p.last) == Some(r)
              <==> Means(p.first, r.first) && Means(p.last, r.last) && Proper(r)
  {
    hide SkipSpaces, Upto, Number;
    var x := p.first + "-" + p.last;
    ItemParts(p.first, p.last);
    assert x[0] == '-' || '0' <= x[0] <= '9';
    SkipWhite(p.white, x);
  }

  /** A list is split into its pieces. */
  lemma {:induction false} ListAre(ps: seq<Piece>, more: bool)
    requires ps != [] && (forall i | 0 <= i < |ps| :: IsPiece(ps[i])) && (!more ==> ps[0].white == "")
    ensures AreItems(ListText(ps), more)
    decreases |ps|
  {
    hide SkipSpaces, Upto, IsItem, RangeOf, IsPiece;
    var x := PieceText(ps[0]);
    PieceIs(ps[0]);
    if !more { assert x == ps[0].first + "-" + ps[0].last; }
    if |ps| == 1 {
      UptoIs(x, ',', "");
      assert ListText(ps) == x;
    } else {
      var t := ListText(ps[1..]);
      UptoIs(x, ',', t);
      assert ListText(ps) == x + [','] + t && (x + [','] + t)[|x| + 1..] == t;
      ListAre(ps[1..], true);
    }
  }

  lemma {:induction false} ListTokens(ps: seq<Piece>)
    requires ps != [] && forall i | 0 <= i < |ps| :: IsPiece(ps[i])
    ensures var tokens := Query.Tokens(ListText(ps), ',');
            |tokens| == |ps| && forall i | 0 <= i < |ps| :: SkipSpaces(tokens[i]) == ps[i].first + "-" + ps[i].last
    decreases |ps|
  {
    hide SkipSpaces, Upto, IsItem, RangeOf, IsPiece, Query.Token, Query.Tokens;
    var x := PieceText(ps[0]);
    PieceIs(ps[0]);
    TokenItem(x);
    if |ps| == 1 {
      Query.TokensFirst(x, ',', "");
      assert ListText(ps) == x;
    } else {
      var t := ListText(ps[1..]);
      Query.TokensFirst(x, ',', t);
      assert ListText(ps) == x + [','] + t;
      ListTokens(ps[1..]);
      assert forall i | 0 < i < |ps| :: ps[i] == ps[1..][i - 1];
    }
  }

  lemma {:induction false} TokensMean(tokens: seq<string>, ps: seq<Piece>, rs: seq<Range>)
    requires |tokens| == |ps| && forall i | 0 <= i < |ps| :: IsPiece(ps[i])
    requires forall i | 0 <= i < |ps| :: SkipSpaces(tokens[i]) == ps[i].first + "-" + ps[i].last
    ensures RangesOf(tokens) == Some(rs) <==> AllMean(ps, rs)
    decreases |tokens|
  {
    hide SkipSpaces, IsItem, RangeOf, IsPiece, Means, Proper;
    if tokens != [] {
      PieceIs(ps[0]);
      var r := RangeOf(SkipSpaces(tokens[0]));
      assert forall i | 0 <= i < |ps| - 1 :: ps[1..][i] == ps[i + 1] && tokens[1..][i] == tokens[i + 1];
      if rs != [] {
        TokensMean(tokens[1..], ps[1..], rs[1..]);
        assert rs == [rs[0]] + rs[1..];
        assert AllMean(ps, rs) <==> RangeOf(SkipSpaces(tokens[0])) == Some(rs[0]) && AllMean(ps[1..], rs[1..]) by {
          MeanFirst(ps, rs);
        }
      }
    }
  }

  lemma {:induction false} MeanFirst(ps: seq<Piece>, rs: seq<Range>)
    requires ps != [] && rs != [] && forall i | 0 <= i < |ps| :: IsPiece(ps[i])
    ensures AllMean(ps, rs)
       <==> (Means(ps[0].first, rs[0].first) && Means(ps[0].last, rs[0].last) && Proper(rs[0])
             && AllMean(ps[1..], rs[1..]))
  {
    hide Means, Proper, IsPiece;
    if AllMean(ps, rs) { assert forall i | 0 <= i < |ps| - 1 :: ps[1..][i] == ps[i + 1] && rs[1..][i] == rs[i + 1]; }
    assert forall i | 0 < i < |ps| && i < |rs| :: ps[i] == ps[1..][i - 1] && rs[i] == rs[1..][i - 1];
  }

  /** A header of pieces with any white space behind the commas: the ranges are those that the digits mean; it is
      refused if a number does not fit or a first position is behind its last. */
  lemma {:induction false} ListRead(ps: seq<Piece>, rs: seq<Range>)
    requires ps != [] && (forall i | 0 <= i < |ps| :: IsPiece(ps[i])) && ps[0].white == ""
    ensures Parse("bytes=" + ListText(ps)) == Some(rs) <==> AllMean(ps, rs)
  {
    hide AreItems, RangesOf, Query.Tokens, IsPiece, AllMean, SkipSpaces;
    var s := "bytes=" + ListText(ps);
    assert s[6..] == ListText(ps);
    ListAre(ps, false);
    ListTokens(ps);
    TokensMean(Query.Tokens(ListText(ps), ','), ps, rs);
  }

  lemma {:induction false} ItemParted(t: string)
    requires IsItem(t)
    ensures var a := Upto(t, '-');
            |a| < |t| && t == a + "-" + t[|a| + 1..] && Digits(a) && Digits(t[|a| + 1..])
  {
    hide Upto, Digits;
  }

  lemma {:induction false} ItemPiece(x: string, more: bool) returns (p: Piece)
    requires IsItem(if more then SkipSpaces(x) else x)
    ensures IsPiece(p) && (!more ==> p.white == "") && PieceText(p) == x
  {
    hide SkipSpaces, Upto, Digits, White, IsItem;
    var t := if more then SkipSpaces(x) else x;
    var white := "";
    NoWhite();
    if more {
      SkippedWhite(x);
      white := x[..|x| - |t|];
    } else {
      assert "" + x == x;
    }
    ItemParted(t);
    p := Piece(white, Upto(t, '-'), t[|Upto(t, '-')| + 1..]);
  }

  lemma {:induction false} NoWhite()
    ensures White("")
  {
  }

  lemma {:induction false} ItemsAre(s: string, more: bool) returns (ps: seq<Piece>)
    requires AreItems(s, more)
    ensures ps != [] && (forall i | 0 <= i < |ps| :: IsPiece(ps[i])) && (!more ==> ps[0].white == "")
    ensures s == ListText(ps)
    decreases |s|
  {
    hide SkipSpaces, Upto, IsItem, IsPiece, PieceText;
    var x := Upto(s, ',');
    var p := ItemPiece(x, more);
    if |x| < |s| {
      var tail := ItemsAre(s[|x| + 1..], true);
      ps := [p] + tail;
      assert ps[1..] == tail;
      assert s == x + ("," + s[|x| + 1..]);
    } else {
      ps := [p];
      assert x + "" == x;
    }
  }

  /** No other header is accepted. */
  lemma {:induction false} OnlyLists(s: string) returns (ps: seq<Piece>)
    requires Parse(s).Some?
    ensures ps != [] && (forall i | 0 <= i < |ps| :: IsPiece(ps[i])) && ps[0].white == ""
    ensures s == "bytes=" + ListText(ps)
  {
    hide AreItems, RangesOf, Query.Tokens, IsPiece;
    ps := ItemsAre(s[6..], false);
    assert s == s[..6] + s[6..];
  }

  // ---- Round trip --------------------------------------------------------------------------------

  lemma {:induction false} DecimalNumber(n: nat)
    ensures Digits(Decimal(n)) && Number(Decimal(n)) == n
  {
    if n >= 10 {
      DecimalNumber(n / 10);
      assert Decimal(n)[..|Decimal(n)| - 1] == Decimal(n / 10);
    }
  }

  lemma {:induction false} ItemParts(a: string, b: string)
    requires Digits(a)
    ensures var s := a + "-" + b;
            Upto(s, '-') == a && s[|a| + 1..] == b && (IsItem(s) <==> Digits(b))
  {
    hide Upto;
    UptoIs(a, '-', b);
  }

  /** The digits of a part of an item. */
  function Part(n: int): string {
    if n != -1 then ToString(n) else ""
  }

  lemma {:induction false} PartDigits(n: int)
    requires n <= SSIZE_MAX
    ensures Digits(Part(n)) <==> n >= -1
    ensures n >= -1 ==> Stoll(Part(n)) == Some(n)
  {
    if n >= 0 { DecimalNumber(n); } else if n < -1 { assert Part(n)[0] == '-'; }
  }

  lemma {:induction false} ItemOf(r: Range)
    requires Representable(r)
    ensures IsItem(Item(r)) <==> r.first >= -1 && r.last >= -1
    ensures r.first >= -1 && r.last >= -1 ==> RangeOf(Item(r)) == if Proper(r) then Some(r) else None
  {
    hide ToString, Upto;
    var a, b := Part(r.first), Part(r.last);
    assert Item(r) == a + "-" + b;
    PartDigits(r.first);
    PartDigits(r.last);
    if r.first >= -1 {
      ItemParts(a, b);
    } else {
      NegativeFirst(r.first, b);
    }
  }

  /** A sign in front makes a second dash. */
  lemma {:induction false} NegativeFirst(n: int, b: string)
    requires n < -1
    ensures !IsItem(Part(n) + "-" + b)
  {
    hide Decimal;
    var d := Decimal(-n);
    var s := Part(n) + "-" + b;
    assert s == "" + "-" + (d + "-" + b);
    ItemParts("", d + "-" + b);
    assert (d + "-" + b)[|d|] == '-';
  }

  lemma {:induction false} ItemNoComma(r: Range)
    ensures ',' !in Item(r) && Item(r) != "" && !IsSpace(Item(r)[0])
  {
    NoComma(r.first);
    NoComma(r.last);
  }

  lemma {:induction false} NoComma(n: int)
    ensures ',' !in ToString(n) && ToString(n) != "" && !IsSpace(ToString(n)[0])
  {
    hide Decimal, Number;
    var d := Decimal(if n < 0 then -n else n);
    DecimalNumber(if n < 0 then -n else n);
    assert '0' <= d[0] <= '9';
    assert forall c | c in d :: '0' <= c <= '9';
    assert ToString(n) == if n < 0 then "-" + d else d;
  }

  /** An item without a comma, at the end of a list or not. */
  lemma {:induction false} ItemFirst(x: string, y: string)
    requires ',' !in x && x != "" && !IsSpace(x[0])
    ensures AreItems(x, false) <==> IsItem(x)
    ensures AreItems(" " + x, true) <==> IsItem(x)
    ensures AreItems(x + "," + y, false) <==> IsItem(x) && AreItems(y, true)
    ensures AreItems(" " + x + "," + y, true) <==> IsItem(x) && AreItems(y, true)
  {
    hide IsItem, Upto, SkipSpaces;
    SkipOne(x);
    UptoIs(x, ',', y);
    UptoIs(" " + x, ',', y);
    assert (x + "," + y)[|x| + 1..] == y && (" " + x + "," + y)[|" " + x| + 1..] == y;
  }

  /** A printed list is accepted if every item is. */
  lemma {:induction false} MoreItemsAre(rs: seq<Range>)
    requires rs != []
    ensures AreItems(" " + Items(rs), true) <==> forall i | 0 <= i < |rs| :: IsItem(Item(rs[i]))
    ensures AreItems(Items(rs), false) <==> forall i | 0 <= i < |rs| :: IsItem(Item(rs[i]))
  {
    hide Item, IsItem, AreItems, SkipSpaces, Items;
    var x := Item(rs[0]);
    ItemNoComma(rs[0]);
    if |rs| == 1 {
      OneItem(rs);
      ItemFirst(x, "");
    } else {
      var t := rs[1..];
      MoreItemsAre(t);
      ItemsMore(rs);
      ItemFirst(x, " " + Items(t));
      assert " " + (x + "," + (" " + Items(t))) == " " + x + "," + (" " + Items(t));
      assert rs == [rs[0]] + t;
    }
  }

  lemma {:induction false} OneItem(rs: seq<Range>)
    requires |rs| == 1
    ensures Items(rs) == Item(rs[0])
  {
    assert rs[1..] == [];
  }

  lemma {:induction false} SkipOne(x: string)
    requires x != "" && !IsSpace(x[0])
    ensures SkipSpaces(" " + x) == x
  {
    assert (" " + x)[1..] == x;
  }

  lemma {:induction false} ItemsMore(rs: seq<Range>)
    requires |rs| > 1
    ensures Items(rs) == Item(rs[0]) + "," + (" " + Items(rs[1..]))
  {
    hide Item;
    assert MoreItems(rs[1..]) == ", " + Item(rs[1]) + MoreItems(rs[1..][1..]);
  }

  /** The tokens of a printed list are its items. */
  lemma {:induction false} ItemTokens(rs: seq<Range>, blank: string)
    requires rs != [] && (blank == "" || blank == " ") && forall i | 0 <= i < |rs| :: IsItem(Item(rs[i]))
    ensures Query.Tokens(blank + Items(rs), ',') == seq(|rs|, i requires 0 <= i < |rs| => Item(rs[i]))
  {
    hide Item, IsItem, Query.Tokens, Query.Token;
    var x := Item(rs[0]);
    ItemNoComma(rs[0]);
    ItemToken(x, blank);
    if |rs| == 1 {
      assert Items(rs) == x;
      Query.TokensFirst(blank + x, ',', "");
    } else {
      ItemsMore(rs);
      ItemTokens(rs[1..], " ");
      assert blank + (x + "," + (" " + Items(rs[1..]))) == blank + x + "," + (" " + Items(rs[1..]));
      Query.TokensFirst(blank + x, ',', " " + Items(rs[1..]));
    }
  }

  lemma {:induction false} ItemToken(x: string, blank: string)
    requires IsItem(x) && (blank == "" || blank == " ")
    ensures Query.Token(blank + x) == [x]
  {
    hide IsItem;
    ItemNotBlank(x);
    if blank == " " { assert (" " + x)[1..] == x && SkipBlanks(" " + x) == SkipBlanks(x); } else { assert "" + x == x; }
  }

  lemma {:induction false} ItemRanges(rs: seq<Range>)
    requires forall i | 0 <= i < |rs| :: Representable(rs[i]) && IsItem(Item(rs[i]))
    ensures RangesOf(seq(|rs|, i requires 0 <= i < |rs| => Item(rs[i])))
            == if forall i | 0 <= i < |rs| :: Proper(rs[i]) then Some(rs) else None
  {
    hide Item, IsItem, Proper, RangeOf;
    var ts := seq(|rs|, i requires 0 <= i < |rs| => Item(rs[i]));
    if rs != [] {
      var t := rs[1..];
      ItemRanges(t);
      assert ts[1..] == seq(|t|, i requires 0 <= i < |t| => Item(t[i]));
      assert forall i | 0 <= i < |t| :: t[i] == rs[i + 1];
      ItemOfItem(rs[0]);
      NoSpaces(ts[0]);
      assert rs == [rs[0]] + t;
    }
  }

  lemma {:induction false} ItemOfItem(r: Range)
    requires Representable(r) && IsItem(Item(r))
    ensures RangeOf(Item(r)) == if Proper(r) then Some(r) else None
  {
    hide Item, IsItem, RangeOf;
    ItemOf(r);
  }

  /** Parsing a printed header gives the ranges back if there are any and all are proper, and fails if not. */
  lemma {:induction false} RangesRoundTrip(rs: seq<Range>)
    requires forall i | 0 <= i < |rs| :: Representable(rs[i])
    ensures Parse("bytes=" + Items(rs))
            == if rs != [] && forall i | 0 <= i < |rs| :: Proper(rs[i]) then Some(rs) else None
  {
    hide Item, IsItem, Query.Tokens, Upto, Items, RangesOf, AreItems;
    var s := "bytes=" + Items(rs);
    assert s[6..] == Items(rs) && s[..6] == "bytes=";
    forall i | 0 <= i < |rs| ensures Proper(rs[i]) ==> IsItem(Item(rs[i])) { ItemOf(rs[i]); }
    if rs == [] {
      NoItems();
    } else {
      MoreItemsAre(rs);
      if forall i | 0 <= i < |rs| :: IsItem(Item(rs[i])) {
        ItemTokens(rs, "");
        assert "" + Items(rs) == Items(rs);
        ItemRanges(rs);
      }
    }
  }

  lemma {:induction false} NoItems()
    ensures !AreItems(Items([]), false)
  {
  }

  // ---- Cutting a body ----------------------------------------------------------------------------

  /** The positions that a range means in a representation of `n` bytes (section 2.1 of RFC 7233); none when
      it cannot be satisfied. A range with both ends absent means everything. */
  predicate Selected(r: Range, n: nat, i: nat) {
    i < n
    && (r.first != -1 ==> r.first <= i && (r.last != -1 ==> i <= r.last))
    && (r.first == -1 && r.last != -1 ==> n - r.last <= i)
  }

  const SIZE: int := 0x1_0000_0000_0000_0000

  /** `get_range_offset_and_length`, with the conversion to an unsigned length. */
  method GetRangeOffsetAndLength(r0: Range, contentLength: nat) returns (offset: int, length: nat)
    requires Proper(r0) && Representable(r0) && contentLength <= SSIZE_MAX
    ensures offset >= 0
    ensures offset < contentLength ==>
      length > 0 && offset + length - 1 == if r0.first == -1 || r0.last == -1 then contentLength - 1 else r0.last
    ensures offset < contentLength ==> forall i: nat ::
      Selected(r0, contentLength, i) <==> i < contentLength && offset <= i < offset + length
    ensures offset >= contentLength ==> forall i: nat :: !Selected(r0, contentLength, i)
  {
    var r := r0;
    if r.first == -1 && r.last == -1 { return 0, contentLength; }
    if r.first == -1 {
      r := Range(if contentLength - r.last > 0 then contentLength - r.last else 0, contentLength - 1);
    }
    if r.last == -1 { r := r.(last := contentLength - 1); }
    offset := r.first;
    length := ((r.last - r.first) % SIZE + 1) % SIZE;
  }

  /** `apply_ranges`, for one range and a body that is not empty: the body and the status change, and the
      Content-Range names the positions `from` to `to`. */
  method ApplyRange(r: Range, body: string) returns (body': string, unsatisfiable: bool, from: int, to: int)
    requires Proper(r) && Representable(r) && body != "" && |body| <= SSIZE_MAX
    ensures unsatisfiable <==> forall i: nat :: !Selected(r, |body|, i)
    ensures unsatisfiable ==> body' == ""
    ensures !unsatisfiable ==>
      0 <= from && from + |body'| <= |body| && body' == body[from..from + |body'|]
      && forall i: nat :: Selected(r, |body|, i) <==> from <= i < from + |body'|
    ensures !unsatisfiable ==> to == if r.first == -1 || r.last == -1 then |body| - 1 else r.last
    ensures !unsatisfiable ==> (to == from + |body'| - 1 <==> r.first == -1 || r.last == -1 || r.last < |body|)
  {
    var offset, length := GetRangeOffsetAndLength(r, |body|);
    from, to := offset, offset + length - 1;
    unsatisfiable := false;
    if offset < |body| {
      var n := if length < |body| - offset then length else |body| - offset;
      body' := body[offset..offset + n];
      assert Selected(r, |body|, offset);
    } else {
      body', unsatisfiable := "", true;
    }
  }
}
