/** `std::multimap` with string keys, as the sequence of its entries in iteration order. */
module Multimap {
  import opened Text

  datatype Entry = Entry(key: string, value: string)

  /** The form in which keys are compared; header names are compared without regard to case. */
  function Folded(s: string, ci: bool): (r: string)
    ensures |r| == |s|
  {
    if ci then seq(|s|, i requires 0 <= i < |s| => Lower(s[i])) else s
  }

  /** `std::lexicographical_compare`. */
  predicate Less(a: string, b: string) {
    b != "" && (a == "" || a[0] < b[0] || (a[0] == b[0] && Less(a[1..], b[1..])))
  }

  predicate Before(x: Entry, y: Entry, ci: bool) {
    Less(Folded(x.key, ci), Folded(y.key, ci))
  }

  predicate Sorted(m: seq<Entry>, ci: bool) {
    forall i, j | 0 <= i < j < |m| :: !Before(m[j], m[i], ci)
  }

  /** `emplace`: in front of the first entry with a greater key, so behind all with an equal one. */
  function Emplace(m: seq<Entry>, x: Entry, ci: bool): seq<Entry> {
    if m == [] || Before(x, m[0], ci) then [x] + m else [m[0]] + Emplace(m[1..], x, ci)
  }

  function EmplaceAll(m: seq<Entry>, xs: seq<Entry>, ci: bool): seq<Entry>
    decreases |xs|
  {
    if xs == [] then m else EmplaceAll(Emplace(m, xs[0], ci), xs[1..], ci)
  }

  lemma {:induction false} LessAsymmetric(a: string, b: string)
    ensures !(Less(a, b) && Less(b, a))
  {
    if a != "" && b != "" { LessAsymmetric(a[1..], b[1..]); }
  }

  lemma {:induction false} LessTransitive(a: string, b: string, c: string)
    requires Less(a, b) && Less(b, c)
    ensures Less(a, c)
  {
    if a != "" && a[0] == b[0] == c[0] { LessTransitive(a[1..], b[1..], c[1..]); }
  }

  /** The order in which keys stand: by the first character in which they differ, and a part of a key before it. */
  lemma {:induction false} LessIs(p: string, a: string, b: string)
    requires a == "" || b == "" || a[0] != b[0]
    ensures Less(p + a, p + b) <==> b != "" && (a == "" || a[0] < b[0])
  {
    if p == "" {
      assert p + a == a && p + b == b;
    } else {
      assert (p + a)[1..] == p[1..] + a && (p + b)[1..] == p[1..] + b;
      LessIs(p[1..], a, b);
    }
  }

  /** Two keys stand for the same header exactly if they are the same word in any letter case. */
  lemma {:induction false} SameKey(x: Entry, y: Entry)
    ensures !Before(x, y, true) && !Before(y, x, true) <==> SameWord(x.key, y.key)
    ensures !Before(x, y, false) && !Before(y, x, false) <==> x.key == y.key
  {
    hide Lower, SameLetter, Less;
    LessTotal(x.key, y.key);
    LessTotal(Folded(x.key, true), Folded(y.key, true));
    LessAsymmetric(x.key, x.key);
    LessAsymmetric(Folded(x.key, true), Folded(x.key, true));
    FoldedSame(x.key, y.key);
  }

  lemma {:induction false} LessTotal(a: string, b: string)
    ensures Less(a, b) || Less(b, a) || a == b
  {
    if a != "" && b != "" && a[0] == b[0] {
      LessTotal(a[1..], b[1..]);
      assert a == [a[0]] + a[1..] && b == [b[0]] + b[1..];
    }
  }

  lemma {:induction false} FoldedSame(a: string, b: string)
    ensures Folded(a, true) == Folded(b, true) <==> SameWord(a, b)
  {
    hide Lower, SameLetter;
    if |a| == |b| {
      forall i | 0 <= i < |a| ensures Folded(a, true)[i] == Folded(b, true)[i] <==> SameLetter(a[i], b[i]) {
        LowerSame(a[i], b[i]);
      }
      if SameWord(a, b) { assert forall i | 0 <= i < |a| :: Folded(a, true)[i] == Folded(b, true)[i]; }
    }
  }

  lemma {:induction false} EmplaceElements(m: seq<Entry>, x: Entry, ci: bool)
    ensures multiset(Emplace(m, x, ci)) == multiset(m) + multiset{x}
  {
    if m != [] && !Before(x, m[0], ci) {
      EmplaceElements(m[1..], x, ci);
      assert m == [m[0]] + m[1..];
    }
  }

  lemma {:induction false} EmplaceAllElements(m: seq<Entry>, xs: seq<Entry>, ci: bool)
    ensures multiset(EmplaceAll(m, xs, ci)) == multiset(m) + multiset(xs)
    decreases |xs|
  {
    hide Emplace;
    if xs != [] {
      EmplaceAllElements(Emplace(m, xs[0], ci), xs[1..], ci);
      EmplaceElements(m, xs[0], ci);
      assert xs == [xs[0]] + xs[1..];
    }
  }

  /** The order of the keys is kept. */
  lemma {:induction false} EmplaceSorted(m: seq<Entry>, x: Entry, ci: bool)
    requires Sorted(m, ci)
    ensures Sorted(Emplace(m, x, ci), ci)
  {
    hide Less, Folded;
    if m != [] {
      var e := Emplace(m, x, ci);
      if Before(x, m[0], ci) {
        forall j | 0 <= j < |m| ensures !Before(m[j], x, ci) {
          if Before(m[j], x, ci) {
            LessTransitive(Folded(m[j].key, ci), Folded(x.key, ci), Folded(m[0].key, ci));
            if j == 0 { LessAsymmetric(Folded(m[0].key, ci), Folded(m[0].key, ci)); }
          }
        }
      } else {
        EmplaceSorted(m[1..], x, ci);
        EmplaceElements(m[1..], x, ci);
        var t := Emplace(m[1..], x, ci);
        forall j | 0 <= j < |t| ensures !Before(t[j], m[0], ci) {
          assert t[j] in multiset(t);
          if t[j] != x {
            assert t[j] in m[1..];
            var i :| 0 <= i < |m[1..]| && m[1..][i] == t[j];
            assert m[i + 1] == t[j];
          }
        }
      }
    }
  }

  lemma {:induction false} EmplaceLast(m: seq<Entry>, x: Entry, ci: bool)
    requires forall i | 0 <= i < |m| :: !Before(x, m[i], ci)
    ensures Emplace(m, x, ci) == m + [x]
  {
    hide Before;
    if m != [] {
      EmplaceLast(m[1..], x, ci);
      assert m == [m[0]] + m[1..];
    }
  }

  /** Entries that are already in order are taken over in that order, equal keys included. */
  lemma {:induction false} EmplaceInOrder(m: seq<Entry>, xs: seq<Entry>, ci: bool)
    requires Sorted(m + xs, ci)
    ensures EmplaceAll(m, xs, ci) == m + xs
    decreases |xs|
  {
    hide Before, Emplace;
    if xs == [] {
      assert m + xs == m;
    } else {
      forall i | 0 <= i < |m| ensures !Before(xs[0], m[i], ci) {
        assert (m + xs)[|m|] == xs[0] && (m + xs)[i] == m[i];
      }
      EmplaceLast(m, xs[0], ci);
      assert m + [xs[0]] + xs[1..] == m + xs;
      EmplaceInOrder(m + [xs[0]], xs[1..], ci);
    }
  }

  /** Two lists that make the same map have the same entries. */
  lemma {:induction false} SameEntries(xs: seq<Entry>, m: seq<Entry>, ci: bool)
    requires EmplaceAll([], xs, ci) == m
    ensures multiset(xs) == multiset(m)
  {
    EmplaceAllElements([], xs, ci);
  }

  lemma {:induction false} EmplaceNone(m: seq<Entry>, ci: bool)
    ensures EmplaceAll(m, [], ci) == m
  {
  }

  lemma {:induction false} EmplaceOne(m: seq<Entry>, x: Entry, ci: bool)
    ensures EmplaceAll(m, [x], ci) == Emplace(m, x, ci)
  {
    hide Emplace;
    assert [x][1..] == [];
  }

  lemma {:induction false} EmplaceAppend(m: seq<Entry>, xs: seq<Entry>, ys: seq<Entry>, ci: bool)
    ensures EmplaceAll(m, xs + ys, ci) == EmplaceAll(EmplaceAll(m, xs, ci), ys, ci)
    decreases |xs|
  {
    hide Emplace;
    if xs == [] {
      assert xs + ys == ys;
    } else {
      assert (xs + ys)[1..] == xs[1..] + ys;
      EmplaceAppend(Emplace(m, xs[0], ci), xs[1..], ys, ci);
    }
  }
}
