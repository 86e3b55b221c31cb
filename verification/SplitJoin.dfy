/** `Split`, `SplitAny` and `Join` of the BASIC runtime, over its arrays and its `InStr`, `Left` and `Mid`. */
module SplitJoin {
  import opened Text
  import BasicArray
  import Replace

  // ---- What the pieces are -----------------------------------------------------------------------

  function Pieces(s: string, sep: string): (r: seq<string>)
    requires sep != ""
    ensures |r| > 0
    decreases |s|
  {
    match Find(s, sep, 0)
    case None => [s]
    case Some(k) => [s[..k]] + Pieces(s[k + |sep|..], sep)
  }

  /** The separator in front of every element. */
  function Behind(v: seq<string>, sep: string): string {
    if v == [] then "" else sep + v[0] + Behind(v[1..], sep)
  }

  /** The separator between the elements. */
  function Intercalated(v: seq<string>, sep: string): string {
    if v == [] then "" else v[0] + Behind(v[1..], sep)
  }

  lemma {:induction false} IntercalatedMore(x: string, v: seq<string>, sep: string)
    requires v != []
    ensures Intercalated([x] + v, sep) == x + sep + Intercalated(v, sep)
  {
    assert ([x] + v)[1..] == v;
    assert x + (sep + v[0] + Behind(v[1..], sep)) == x + sep + (v[0] + Behind(v[1..], sep));
  }

  /** Joining the pieces gives the text back. */
  lemma {:induction false} JoinPieces(s: string, sep: string)
    requires sep != ""
    ensures Intercalated(Pieces(s, sep), sep) == s
    decreases |s|
  {
    match Find(s, sep, 0)
    case None =>
    case Some(k) =>
      var rest := s[k + |sep|..];
      JoinPieces(rest, sep);
      FindFirst(s, sep, 0);
      IntercalatedMore(s[..k], Pieces(rest, sep), sep);
      assert s == s[..k] + s[k..k + |sep|] + rest;
  }

  lemma {:induction false} NoPieceContains(s: string, sep: string)
    requires sep != ""
    ensures forall p | p in Pieces(s, sep) :: !Contains(p, sep)
    decreases |s|
  {
    if Find(s, sep, 0).Some? {
      var k := Find(s, sep, 0).value;
      NoPieceContains(s[k + |sep|..], sep);
      NotBefore(s, sep, k);
    }
  }

  lemma {:induction false} NotBefore(s: string, sep: string, k: nat)
    requires sep != "" && Find(s, sep, 0) == Some(k)
    ensures !Contains(s[..k], sep)
  {
    hide Text.Find;
    assert s[..k] + s[k..] == s;
    if Contains(s[..k], sep) { FindAppend(s[..k], s[k..], sep, 0); }
  }

  // ---- Splitting what was joined -----------------------------------------------------------------

  /** No element disturbs the search for the separator that follows it, and the last has none. */
  predicate Separable(v: seq<string>, sep: string) {
    |v| > 0
    && (forall i | 0 <= i < |v| - 1 :: Find(v[i] + sep, sep, 0) == Some(|v[i]|))
    && !Contains(v[|v| - 1], sep)
  }

  lemma {:induction false} FirstSeparator(x: string, sep: string, rest: string)
    ensures Find(x + sep + rest, sep, 0) == Find(x + sep, sep, 0)
  {
    assert (x + sep)[|x|..|x| + |sep|] == sep;
    assert OccursAt(x + sep, sep, |x|);
    FindFirst(x + sep, sep, 0);
    FindAppend(x + sep, rest, sep, 0);
  }

  /** `Split` undoes `Join` exactly for the separable arrays. */
  lemma {:induction false} SplitJoinIff(v: seq<string>, sep: string)
    requires sep != "" && v != []
    ensures Pieces(Intercalated(v, sep), sep) == v <==> Separable(v, sep)
  {
    hide Text.Find;
    if |v| == 1 {
      assert Intercalated(v, sep) == v[0] by { assert v[1..] == []; }
    } else {
      var t := v[1..];
      assert v == [v[0]] + t;
      var j := Intercalated(t, sep);
      IntercalatedMore(v[0], t, sep);
      FirstSeparator(v[0], sep, j);
      SplitJoinIff(t, sep);
      SeparableFirst(v, sep);
      var s := v[0] + sep + j;
      if Find(s, sep, 0) == Some(|v[0]|) {
        assert s[..|v[0]|] == v[0] && s[|v[0]| + |sep|..] == j;
      } else {
        DifferentFirst(s, sep, v);
      }
    }
  }

  lemma {:induction false} DifferentFirst(s: string, sep: string, v: seq<string>)
    requires sep != "" && |v| > 1 && Find(s, sep, 0) != Some(|v[0]|)
    ensures Pieces(s, sep) != v
  {
    if Find(s, sep, 0).Some? { assert |Pieces(s, sep)[0]| == Find(s, sep, 0).value; }
  }

  lemma {:induction false} SeparableFirst(v: seq<string>, sep: string)
    requires |v| > 1
    ensures Separable(v, sep) <==> Find(v[0] + sep, sep, 0) == Some(|v[0]|) && Separable(v[1..], sep)
  {
    hide Text.Find;
    var t := v[1..];
    if Find(v[0] + sep, sep, 0) == Some(|v[0]|) && Separable(t, sep) {
      forall i | 0 <= i < |v| - 1 ensures Find(v[i] + sep, sep, 0) == Some(|v[i]|) {
        if i > 0 { assert v[i] == t[i - 1]; }
      }
    }
    if Separable(v, sep) {
      forall i | 0 <= i < |t| - 1 ensures Find(t[i] + sep, sep, 0) == Some(|t[i]|) {
        assert t[i] == v[i + 1];
      }
    }
  }

  /** For a separator of one character: no element may have it. */
  lemma {:induction false} OneCharacter(v: seq<string>, c: char)
    requires v != []
    ensures Separable(v, [c]) <==> forall i | 0 <= i < |v| :: c !in v[i]
  {
    hide Text.Find;
    forall i | 0 <= i < |v|
      ensures Contains(v[i], [c]) <==> c in v[i]
      ensures Find(v[i] + [c], [c], 0) == Some(|v[i]|) <==> c !in v[i]
    {
      FindCharacter(v[i], c);
    }
  }

  lemma {:induction false} FindCharacter(x: string, c: char)
    ensures Contains(x, [c]) <==> c in x
    ensures Find(x + [c], [c], 0) == Some(|x|) <==> c !in x
  {
    hide Text.Find;
    FindFirst(x, [c], 0);
    FindFirst(x + [c], [c], 0);
    assert OccursAt(x + [c], [c], |x|);
    if c in x {
      var i :| 0 <= i < |x| && x[i] == c;
      assert OccursAt(x, [c], i) && OccursAt(x + [c], [c], i);
    }
    if Contains(x, [c]) { assert x[Find(x, [c], 0).value] == c; }
    var k := Find(x + [c], [c], 0).value;
    assert (x + [c])[k..k + 1] == [(x + [c])[k]];
  }

  /** Replacing is splitting at the old text and joining with the new. */
  lemma {:induction false} ReplaceIsSplitJoin(s: string, sub: string, new': string)
    requires sub != ""
    ensures Replace.Substituted(s, sub, new') == Intercalated(Pieces(s, sub), new')
    decreases |s|
  {
    if Find(s, sub, 0).Some? {
      var k := Find(s, sub, 0).value;
      ReplaceIsSplitJoin(s[k + |sub|..], sub, new');
      IntercalatedMore(s[..k], Pieces(s[k + |sub|..], sub), new');
    }
  }

  // ---- A set of separators -----------------------------------------------------------------------

  /** `std::string::find_first_of`. */
  function FindAny(s: string, chars: string): (r: Option<nat>)
    ensures r.Some? ==> r.value < |s| && s[r.value] in chars && forall i | 0 <= i < r.value :: s[i] !in chars
    ensures r.None? ==> forall i | 0 <= i < |s| :: s[i] !in chars
  {
    if s == "" then None
    else if s[0] in chars then Some(0)
    else
      match FindAny(s[1..], chars)
      case None => None
      case Some(k) => Some(k + 1)
  }

  function PiecesAny(s: string, chars: string): (r: seq<string>)
    ensures |r| > 0
    decreases |s|
  {
    match FindAny(s, chars)
    case None => [s]
    case Some(k) => [s[..k]] + PiecesAny(s[k + 1..], chars)
  }

  /** Pieces with one separator character between each two. */
  function Woven(v: seq<string>, cs: string): string
    requires |v| == |cs| + 1
    decreases |cs|
  {
    if cs == "" then v[0] else v[0] + [cs[0]] + Woven(v[1..], cs[1..])
  }

  predicate Free(x: string, chars: string) {
    forall i | 0 <= i < |x| :: x[i] !in chars
  }

  /** A way of cutting `s` at characters of the set, and at all of them. */
  predicate CutsAt(s: string, chars: string, v: seq<string>, cs: string) {
    |v| == |cs| + 1 && Woven(v, cs) == s
    && (forall i | 0 <= i < |cs| :: cs[i] in chars)
    && forall i | 0 <= i < |v| :: Free(v[i], chars)
  }

  /** The separators met in `s`. */
  function Met(s: string, chars: string): string {
    if s == "" then "" else (if s[0] in chars then [s[0]] else "") + Met(s[1..], chars)
  }

  lemma {:induction false} MetFirst(s: string, chars: string)
    ensures FindAny(s, chars).None? ==> Met(s, chars) == ""
    ensures FindAny(s, chars).Some? ==>
      Met(s, chars) == [s[FindAny(s, chars).value]] + Met(s[FindAny(s, chars).value + 1..], chars)
    decreases |s|
  {
    if s != "" && s[0] !in chars {
      MetFirst(s[1..], chars);
      if FindAny(s, chars).Some? {
        var k := FindAny(s, chars).value;
        assert s[k + 1..] == s[1..][k..];
      }
    }
  }

  /** `SplitAny` cuts at every character of the set and nowhere else, and loses nothing but those. */
  lemma {:induction false} PiecesAnyCut(s: string, chars: string)
    ensures CutsAt(s, chars, PiecesAny(s, chars), Met(s, chars))
    decreases |s|
  {
    MetFirst(s, chars);
    if FindAny(s, chars).Some? {
      var k := FindAny(s, chars).value;
      PiecesAnyCut(s[k + 1..], chars);
      assert s == s[..k] + [s[k]] + s[k + 1..];
      MoreCut(s[..k], s[k], s[k + 1..], chars, PiecesAny(s[k + 1..], chars), Met(s[k + 1..], chars));
    }
  }

  lemma {:induction false} MoreCut(x: string, c: char, s: string, chars: string, v: seq<string>, cs: string)
    requires CutsAt(s, chars, v, cs) && Free(x, chars) && c in chars
    ensures CutsAt(x + [c] + s, chars, [x] + v, [c] + cs)
  {
    hide Free;
    assert ([x] + v)[1..] == v && ([c] + cs)[1..] == cs;
  }

  lemma {:induction false} FirstCut(x: string, c: char, rest: string, chars: string)
    requires Free(x, chars) && c in chars
    ensures FindAny(x + [c] + rest, chars) == Some(|x|)
  {
    var s := x + [c] + rest;
    assert s[|x|] == c;
    forall i | 0 <= i < |x| ensures s[i] !in chars { assert s[i] == x[i]; }
  }

  /** There is only one such way. */
  lemma {:induction false} OnlyCut(s: string, chars: string, v: seq<string>, cs: string)
    requires CutsAt(s, chars, v, cs)
    ensures v == PiecesAny(s, chars) && cs == Met(s, chars)
    decreases |cs|
  {
    hide FindAny, Met, Free;
    MetFirst(s, chars);
    if cs == "" {
      assert Free(v[0], chars);
      NothingMet(s, chars);
    } else {
      var k, rest := |v[0]|, Woven(v[1..], cs[1..]);
      assert Free(v[0], chars);
      FirstCut(v[0], cs[0], rest, chars);
      assert s[k] == cs[0] && s[..k] == v[0] && s[k + 1..] == rest;
      TailCut(s, chars, v, cs);
      OnlyCut(rest, chars, v[1..], cs[1..]);
      assert v == [v[0]] + v[1..] && cs == [cs[0]] + cs[1..];
    }
  }

  lemma {:induction false} NothingMet(s: string, chars: string)
    requires Free(s, chars)
    ensures FindAny(s, chars).None?
  {
  }

  lemma {:induction false} TailCut(s: string, chars: string, v: seq<string>, cs: string)
    requires CutsAt(s, chars, v, cs) && cs != ""
    ensures CutsAt(Woven(v[1..], cs[1..]), chars, v[1..], cs[1..])
  {
    hide Woven, Free;
  }

  // ---- Join --------------------------------------------------------------------------------------

  /** What the loop of `Join` appends from index `i` on: a separator wherever the index is positive. */
  function JoinFrom(v: seq<string>, i: int, sep: string): string {
    if v == [] then "" else (if i > 0 then sep else "") + v[0] + JoinFrom(v[1..], i + 1, sep)
  }

  /** How many of `n` indices from `i` on are positive. */
  function Positive(n: nat, i: int): nat {
    if i > 0 then n else if i + n <= 1 then 0 else i + n - 1
  }

  lemma {:induction false} JoinLength(v: seq<string>, i: int, sep: string)
    ensures |JoinFrom(v, i, sep)| == TotalLength(v) + Positive(|v|, i) * |sep|
  {
    if v != [] {
      JoinLength(v[1..], i + 1, sep);
      if i > 0 { assert |v| * |sep| == (|v| - 1) * |sep| + |sep|; }
    }
  }

  lemma {:induction false} JoinBehind(v: seq<string>, i: int, sep: string)
    requires i > 0
    ensures JoinFrom(v, i, sep) == Behind(v, sep)
  {
    if v != [] { JoinBehind(v[1..], i + 1, sep); }
  }

  lemma {:induction false} JoinZeroBased(v: seq<string>, sep: string)
    ensures JoinFrom(v, 0, sep) == Intercalated(v, sep)
  {
    if v != [] { JoinBehind(v[1..], 1, sep); }
  }

  lemma {:induction false} JoinNoSeparator(v: seq<string>, i: int, j: int)
    ensures JoinFrom(v, i, "") == JoinFrom(v, j, "")
  {
    if v != [] { JoinNoSeparator(v[1..], i + 1, j + 1); }
  }

  /** The cells that `Join` reads get the separator between them exactly if they start at 0, or there is
      no separator, no cell, or a single one at a negative index. */
  lemma {:induction false} JoinIff(v: seq<string>, lo: int, sep: string)
    ensures JoinFrom(v, lo, sep) == Intercalated(v, sep)
       <==> (sep == "" || v == [] || lo == 0 || (lo < 0 && |v| == 1))
  {
    JoinZeroBased(v, sep);
    JoinLength(v, lo, sep);
    JoinLength(v, 0, sep);
    if sep == "" {
      JoinNoSeparator(v, lo, 0);
    } else if lo < 0 && |v| == 1 {
      assert v[1..] == [];
    } else if v != [] && lo != 0 {
      Multiples(Positive(|v|, lo), Positive(|v|, 0), |sep|);
    }
  }

  lemma {:induction false} Multiples(a: nat, b: nat, d: nat)
    requires a != b && d > 0
    ensures a * d != b * d
  {
    if a < b { assert b * d == a * d + (b - a) * d && (b - a) * d > 0; }
    else { assert a * d == b * d + (a - b) * d && (a - b) * d > 0; }
  }

  lemma {:induction false} JoinFirst(v: seq<string>, i: int, sep: string)
    requires v != []
    ensures JoinFrom(v, i, sep) == (if i > 0 then sep else "") + v[0] + JoinFrom(v[1..], i + 1, sep)
  {
  }

  lemma {:induction false} JoinOneMore(v: seq<string>, n: nat, i: int, sep: string)
    requires n < |v|
    ensures JoinFrom(v[..n + 1], i, sep) == JoinFrom(v[..n], i, sep) + (if i + n > 0 then sep else "") + v[n]
    decreases n
  {
    hide JoinFrom;
    JoinFirst(v[..n + 1], i, sep);
    if n > 0 {
      var t := v[1..];
      assert v[..n + 1][1..] == t[..n] && v[..n][1..] == t[..n - 1] && t[n - 1] == v[n];
      JoinFirst(v[..n], i, sep);
      JoinOneMore(t, n - 1, i + 1, sep);
    } else {
      assert v[..1][1..] == [] && v[..0] == [];
      JoinNone([], i, sep);
      JoinNone([], i + 1, sep);
    }
  }

  // ---- The functions of the runtime --------------------------------------------------------------

  /** Cells 0 to 1024, as the declaration `dest(1024,0)` makes them. */
  const CAPACITY: nat := 1025

  /** The result of `Join` for an array of any rank: only the first so many cells as the first dimension has
      are read. */
  function JoinArray(dim: seq<BasicArray.Dim>, vec: seq<string>, sep: string): string
    requires |dim| == 5 && 0 <= dim[1].d <= |vec|
  {
    JoinFrom(vec[..dim[1].d], dim[1].lo, sep)
  }

  /** An array whose first dimension is all there is, or which has at least twice as many cells. */
  lemma {:induction false} AllOrHalf(dim: seq<BasicArray.Dim>, rank: nat)
    requires BasicArray.HasRank(dim, rank)
    ensures 0 <= dim[1].d
    ensures dim[1].d == BasicArray.Size(dim) || (dim[1].d > 0 && 2 * dim[1].d <= BasicArray.Size(dim))
  {
    if rank > 1 {
      Multiple(dim[1].d, dim[2].d);
      if rank > 2 {
        Multiple(dim[1].d * dim[2].d, dim[3].d);
        if rank > 3 { Multiple(dim[1].d * dim[2].d * dim[3].d, dim[4].d); }
      }
    }
  }

  lemma {:induction false} Multiple(a: int, d: int)
    requires a > 0 && d > 0
    ensures a * d == a || a * d >= 2 * a
  {
    if d > 1 { assert a * d == 2 * a + a * (d - 2) && a * (d - 2) >= 0; }
  }

  lemma {:induction false} TotalParts(v: seq<string>, d: nat)
    requires d <= |v|
    ensures TotalLength(v) == TotalLength(v[..d]) + TotalLength(v[d..])
    ensures TotalLength(v[d..]) == 0 <==> forall i | d <= i < |v| :: v[i] == ""
    decreases d, |v|
  {
    if d > 0 {
      TotalParts(v[1..], d - 1);
      assert v[1..][..d - 1] == v[..d][1..] && v[1..][d - 1..] == v[d..];
      assert forall i | d <= i < |v| :: v[i] == v[1..][i - 1];
      assert forall i | d - 1 <= i < |v| - 1 :: v[1..][i] == v[i + 1];
    } else {
      assert v[..0] == [] && v[0..] == v;
      TotalNothing(v);
    }
  }

  lemma {:induction false} TotalNothing(v: seq<string>)
    ensures TotalLength(v) == 0 <==> forall i | 0 <= i < |v| :: v[i] == ""
  {
    if v != [] {
      TotalNothing(v[1..]);
      assert forall i | 0 < i < |v| :: v[i] == v[1..][i - 1];
      assert forall i | 0 <= i < |v| - 1 :: v[1..][i] == v[i + 1];
    }
  }

  /** Without a separator, what is not read must be empty. */
  lemma {:induction false} JoinNothingBetween(v: seq<string>, d: nat, lo: int)
    requires d <= |v|
    ensures JoinFrom(v[..d], lo, "") == Intercalated(v, "") <==> forall i | d <= i < |v| :: v[i] == ""
  {
    hide JoinFrom, Intercalated, TotalLength;
    JoinNoSeparator(v[..d], lo, 0);
    JoinZeroBased(v, "");
    JoinLength(v[..d], 0, "");
    JoinLength(v, 0, "");
    TotalParts(v, d);
    JoinNothing(v, d, 0);
  }

  lemma {:induction false} JoinNothing(v: seq<string>, d: nat, i: int)
    requires d <= |v|
    ensures (forall k | d <= k < |v| :: v[k] == "") ==> JoinFrom(v[..d], i, "") == JoinFrom(v, i, "")
    decreases |v|
  {
    if d < |v| {
      JoinNothing(v[..|v| - 1], d, i);
      assert v[..|v| - 1][..d] == v[..d] && v[..|v|] == v;
      JoinOneMore(v, |v| - 1, i, "");
    } else {
      assert v[..d] == v;
    }
  }

  /** With one, reading half of the elements or less is too little, unless there are two, both of them
      without a letter or the first made of separators. */
  lemma {:induction false} JoinHalf(v: seq<string>, d: nat, lo: int, sep: string)
    requires sep != "" && 0 < d && 2 * d <= |v|
    ensures JoinFrom(v[..d], lo, sep) == Intercalated(v, sep)
       <==> (|v| == 2 && lo > 0 && v[1] == "" && sep + v[0] == v[0] + sep)
  {
    hide TotalLength, JoinFrom, Intercalated;
    JoinZeroBased(v, sep);
    JoinLength(v[..d], lo, sep);
    JoinLength(v, 0, sep);
    TotalParts(v, d);
    if |v| == 2 && lo > 0 {
      JoinOneOfTwo(v, lo, sep);
      assert |v[0] + sep + v[1]| == |sep + v[0]| + |v[1]|;
      assert v[1] == "" ==> v[0] + sep + v[1] == v[0] + sep;
    } else {
      Fewer(Positive(d, lo), |v| - 1, |sep|);
    }
  }

  lemma {:induction false} JoinOneOfTwo(v: seq<string>, lo: int, sep: string)
    requires |v| == 2 && lo > 0
    ensures JoinFrom(v[..1], lo, sep) == sep + v[0] && Intercalated(v, sep) == v[0] + sep + v[1]
  {
    assert v[..1] == [v[0]] && [v[0]][1..] == [];
    assert v == [v[0]] + [v[1]];
    IntercalatedMore(v[0], [v[1]], sep);
    assert [v[1]][1..] == [];
    assert Intercalated([v[1]], sep) == v[1] + "";
  }

  lemma {:induction false} Fewer(a: nat, b: nat, d: nat)
    requires a < b && d > 0
    ensures a * d < b * d
  {
    assert b * d == a * d + (b - a) * d && (b - a) * d > 0;
  }

  /** When `Join` of an array, of any rank and with any bounds, is all its elements with the separator between
      them. */
  predicate Joins(dim: seq<BasicArray.Dim>, vec: seq<string>, sep: string)
    requires |dim| == 5 && 0 <= dim[1].d <= |vec|
  {
    var n, d, lo := |vec|, dim[1].d, dim[1].lo;
    if sep == "" then
      forall i | d <= i < n :: vec[i] == ""
    else if d == n then
      n == 0 || lo == 0 || (lo < 0 && n == 1)
    else
      n == 2 && lo > 0 && vec[1] == "" && sep + vec[0] == vec[0] + sep
  }

  /** `Join`, exactly, for every array and content. */
  lemma {:induction false} JoinArrayIff(dim: seq<BasicArray.Dim>, rank: nat, vec: seq<string>, sep: string)
    requires BasicArray.HasRank(dim, rank) && |vec| == BasicArray.Size(dim)
    ensures 0 <= dim[1].d <= |vec|
    ensures JoinArray(dim, vec, sep) == Intercalated(vec, sep) <==> Joins(dim, vec, sep)
  {
    hide BasicArray.Size, JoinFrom, Intercalated;
    AllOrHalf(dim, rank);
    var d, lo := dim[1].d, dim[1].lo;
    if sep == "" {
      JoinNothingBetween(vec, d, lo);
    } else if d == |vec| {
      assert vec[..d] == vec;
      JoinIff(vec, lo, sep);
    } else {
      JoinHalf(vec, d, lo, sep);
    }
  }

  /** Whatever the elements are, they are all joined exactly if the first dimension has all cells and starts at 0;
      it may start elsewhere without a separator or a cell, and below with a single one. */
  lemma {:induction false} JoinAlwaysIff(dim: seq<BasicArray.Dim>, rank: nat, sep: string)
    requires BasicArray.HasRank(dim, rank)
    ensures 0 <= dim[1].d <= BasicArray.Size(dim)
    ensures var n, lo := BasicArray.Size(dim), dim[1].lo;
            (forall vec: seq<string> | |vec| == n :: JoinArray(dim, vec, sep) == Intercalated(vec, sep))
            <==> dim[1].d == n && (sep == "" || n == 0 || lo == 0 || (lo < 0 && n == 1))
  {
    hide BasicArray.Size, JoinArray, Intercalated;
    AllOrHalf(dim, rank);
    var n, lo := BasicArray.Size(dim), dim[1].lo;
    if dim[1].d == n && (sep == "" || n == 0 || lo == 0 || (lo < 0 && n == 1)) {
      forall vec: seq<string> | |vec| == n ensures JoinArray(dim, vec, sep) == Intercalated(vec, sep) {
        JoinArrayIff(dim, rank, vec, sep);
      }
    } else {
      var vec: seq<string> := BasicArray.Copies(n, "x");
      JoinArrayIff(dim, rank, vec, sep);
      assert dim[1].d < n ==> vec[n - 1] == "x";
    }
  }

  /** What `Split` puts into its array, unless it throws. */
  function SplitResult(src: string, sep: string): Option<seq<string>> {
    if sep != "" && |Pieces(src, sep)| <= CAPACITY then Some(Pieces(src, sep)) else None
  }

  /** Splitting a joined array gives its elements exactly if there are 1 to 1025 of them, none disturbs the
      search for the separator, and the array has one dimension from 0; it may also have a single element at
      a negative index, or be one of a positive index with two empty elements of which one is not read. */
  lemma {:induction false} SplitOfJoinIff(dim: seq<BasicArray.Dim>, rank: nat, vec: seq<string>, sep: string)
    requires BasicArray.HasRank(dim, rank) && |vec| == BasicArray.Size(dim)
    ensures 0 <= dim[1].d <= |vec|
    ensures SplitResult(JoinArray(dim, vec, sep), sep) == Some(vec)
       <==> (sep != "" && |vec| <= 1025 && Separable(vec, sep)
             && if dim[1].d == |vec| then dim[1].lo == 0 || (dim[1].lo < 0 && |vec| == 1)
                else dim[1].lo > 0 && vec == ["", ""])
  {
    hide BasicArray.Size, JoinArray, Intercalated, Pieces, Text.Find;
    JoinArrayIff(dim, rank, vec, sep);
    if sep != "" {
      JoinPieces(JoinArray(dim, vec, sep), sep);
      if vec != [] { SplitJoinIff(vec, sep); }
      if |vec| == 2 && Separable(vec, sep) { SeparableAround(vec, sep); }
    }
  }

  lemma {:induction false} SeparableAround(vec: seq<string>, sep: string)
    requires |vec| == 2 && sep != "" && Separable(vec, sep)
    ensures sep + vec[0] == vec[0] + sep <==> vec[0] == ""
  {
    var x := vec[0];
    if sep + x == x + sep {
      assert (sep + x)[..|sep|] == sep;
      assert OccursAt(x + sep, sep, 0);
      FindIs(x + sep, sep, 0, 0);
      assert Find(vec[0] + sep, sep, 0) == Some(|vec[0]|);
    }
  }

  /** The array that `Split` made is joined to the text that was split. */
  lemma {:induction false} JoinOfSplit(src: string, sep: string, dim: seq<BasicArray.Dim>)
    requires SplitResult(src, sep).Some? && BasicArray.HasRank(dim, 1) && dim[1].lo == 0
    requires BasicArray.Size(dim) == |SplitResult(src, sep).value|
    ensures dim[1].d == BasicArray.Size(dim) && JoinArray(dim, SplitResult(src, sep).value, sep) == src
  {
    var v := SplitResult(src, sep).value;
    JoinArrayIff(dim, 1, v, sep);
    JoinPieces(src, sep);
  }

  /** `Join`. */
  method Join(dest: BasicArray.Array<string>, sep: string) returns (result: string)
    requires exists rank: nat :: dest.Valid(rank)
    ensures 0 <= dest.dim[1].d <= |dest.vec|
    ensures result == JoinArray(dest.dim, dest.vec, sep)
  {
    ghost var rank: nat :| dest.Valid(rank);
    AllOrHalf(dest.dim, rank);
    hide JoinFrom, BasicArray.Size;
    ghost var lo := dest.dim[1].lo;
    var idx := dest.Lbound(1);
    var last := dest.Ubound(1);
    result := "";
    assert JoinFrom(dest.vec[..0], lo, sep) == "" by { JoinNone(dest.vec[..0], lo, sep); }
    while idx <= last
      invariant lo <= idx <= last + 1 && result == JoinFrom(dest.vec[..idx - lo], lo, sep)
    {
      JoinOneMore(dest.vec, idx - lo, lo, sep);
      if idx > 0 { result := result + sep; }
      var x := dest.Get([idx]);
      result := result + x.value;
      idx := idx + 1;
    }
  }

  lemma {:induction false} JoinNone(v: seq<string>, i: int, sep: string)
    requires v == []
    ensures JoinFrom(v, i, sep) == ""
  {
  }

  lemma {:induction false} EmptyFound(s: string)
    ensures Find(s, "", 0) == Some(0)
  {
    assert OccursAt(s, "", 0);
    FindIs(s, "", 0, 0);
  }

  /** One round: the piece in front of the separator, and what is behind it. */
  lemma {:induction false} OneRound(item: string, sep: string, iPos: nat)
    requires sep != "" && iPos == Replace.InStr(sep, item)
    ensures iPos > 0 ==>
      Pieces(item, sep) == [Replace.Left(item, iPos - 1)] + Pieces(Replace.Mid(item, iPos + |sep|, |item|), sep)
    ensures iPos == 0 ==> Pieces(item, sep) == [item]
  {
    if iPos > 0 { assert Replace.Mid(item, iPos + |sep|, |item|) == item[iPos - 1 + |sep|..]; }
  }

  lemma {:induction false} OneRoundAny(item: string, chars: string, iPos: nat)
    requires iPos == Replace.Position(FindAny(item, chars))
    ensures iPos > 0 ==>
      PiecesAny(item, chars) == [Replace.Left(item, iPos - 1)] + PiecesAny(Replace.Mid(item, iPos + 1, |item|), chars)
    ensures iPos == 0 ==> PiecesAny(item, chars) == [item]
  {
    if iPos > 0 { assert Replace.Mid(item, iPos + 1, |item|) == item[iPos..]; }
  }

  /** The loops of `Split` and `SplitAny` between two rounds: the first cells of `dest` are filled. */
  ghost predicate Filling(dest: BasicArray.Array<string>, idx: int)
    reads dest
  {
    -1 <= idx < CAPACITY && dest.Valid(1) && !dest.preserve
    && |dest.vec| == CAPACITY && dest.dim[1] == BasicArray.Dim(0, CAPACITY - 1, CAPACITY)
  }

  /** One more cell, if there is one. */
  method Fill(dest: BasicArray.Array<string>, idx: int, x: string) returns (ok: bool)
    requires Filling(dest, idx - 1)
    modifies dest`vec
    ensures ok <==> idx < CAPACITY
    ensures ok ==> Filling(dest, idx) && |dest.vec| == CAPACITY && dest.vec[..idx + 1] == old(dest.vec)[..idx] + [x]
  {
    hide BasicArray.Size;
    ok := dest.Set([idx], x);
  }

  /** The last piece, and the array cut to the number of pieces. */
  method Finish(dest: BasicArray.Array<string>, idx: int, x: string) returns (ok: bool)
    requires Filling(dest, idx - 1)
    modifies dest
    ensures ok <==> idx < CAPACITY
    ensures ok ==> dest.Valid(1) && dest.vec == old(dest.vec)[..idx] + [x] && dest.dim[1].lo == 0
  {
    hide BasicArray.Size;
    ok := Fill(dest, idx, x);
    if ok {
      dest.preserve := true;
      dest.Redim([(idx, 0)]);
      BasicArray.OneDimension(dest.dim);
    }
  }

  method NewPieces() returns (dest: BasicArray.Array<string>)
    ensures fresh(dest) && Filling(dest, -1)
  {
    dest := new BasicArray.Array([(CAPACITY - 1, 0)], "");
    BasicArray.OneDimension(dest.dim);
  }

  /** `ok` is false where the runtime throws: without a separator, and with more pieces than cells. */
  method Split(src: string, sep: string) returns (ok: bool, dest: BasicArray.Array<string>)
    ensures SplitResult(src, sep) == if ok then Some(dest.vec) else None
    ensures ok ==> dest.Valid(1) && dest.dim[1].lo == 0
    ensures fresh(dest)
  {
    hide Filling, Pieces, Text.Find, Replace.Mid;
    EmptyFound(src);
    var item := src;
    var idx := -1;
    var iPos := Replace.InStr(sep, item);
    dest := NewPieces();
    while iPos > 0
      invariant -1 <= idx < CAPACITY && fresh(dest) && Filling(dest, idx)
      invariant iPos == Replace.InStr(sep, item) && (sep == "" ==> iPos > 0)
      invariant |dest.vec| == CAPACITY
      invariant sep != "" ==> Pieces(src, sep) == dest.vec[..idx + 1] + Pieces(item, sep)
      decreases CAPACITY - idx
    {
      idx := idx + 1;
      if sep != "" { OneRound(item, sep, iPos); }
      ok := Fill(dest, idx, if iPos == 1 then "" else Replace.Left(item, iPos - 1));
      if !ok { return; }
      item := Replace.Mid(item, iPos + |sep|, |item|);
      EmptyFound(item);
      iPos := Replace.InStr(sep, item);
    }
    OneRound(item, sep, iPos);
    idx := idx + 1;
    ok := Finish(dest, idx, item);
  }

  /** `ok` is false where the runtime throws: with more pieces than cells. */
  method SplitAny(src: string, chars: string) returns (ok: bool, dest: BasicArray.Array<string>)
    ensures ok <==> |PiecesAny(src, chars)| <= CAPACITY
    ensures ok ==> dest.Valid(1) && dest.vec == PiecesAny(src, chars) && dest.dim[1].lo == 0
    ensures fresh(dest)
  {
    hide Filling, PiecesAny, FindAny, Replace.Mid;
    var item := src;
    var idx := -1;
    var iPos := Replace.Position(FindAny(item, chars));
    dest := NewPieces();
    while iPos > 0
      invariant -1 <= idx < CAPACITY && fresh(dest) && Filling(dest, idx)
      invariant iPos == Replace.Position(FindAny(item, chars))
      invariant |dest.vec| == CAPACITY
      invariant PiecesAny(src, chars) == dest.vec[..idx + 1] + PiecesAny(item, chars)
      decreases CAPACITY - idx
    {
      idx := idx + 1;
      OneRoundAny(item, chars, iPos);
      ok := Fill(dest, idx, if iPos == 1 then "" else Replace.Left(item, iPos - 1));
      if !ok { return; }
      item := Replace.Mid(item, iPos + 1, |item|);
      iPos := Replace.Position(FindAny(item, chars));
    }
    OneRoundAny(item, chars, iPos);
    idx := idx + 1;
    ok := Finish(dest, idx, item);
  }
}
