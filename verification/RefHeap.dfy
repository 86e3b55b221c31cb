/** The handle operations as they update counts in place, proved against the functions of `RefCount`. */
module RefHeap {
  import opened Text
  import opened RefCount

  /** Releasing two lists one after the other is releasing their concatenation. */
  lemma {:induction false} DrainAppend(h: Heap, a: seq<Handle>, b: seq<Handle>)
    ensures Drain(h, a + b) == Drain(Drain(h, a), b)
    decreases |a| + |Held(h.cells)|
  {
    if a == [] {
      assert a + b == b;
    } else if !h.fault {
      assert (a + b)[1..] == a[1..] + b;
      match a[0] {
        case None => DrainAppend(h, a[1..], b);
        case Some(o) =>
          if h.Live(o) {
            if h.cells[o].refcnt != 1 {
              HeldSame(h.cells, o, h.cells[o].(refcnt := h.cells[o].refcnt - 1));
              DrainAppend(h.WithCount(o, h.cells[o].refcnt - 1), a[1..], b);
            } else {
              HeldDelete(h.cells, o);
              var fields := Reverse(h.cells[o].fields);
              assert fields + (a[1..] + b) == (fields + a[1..]) + b;
              DrainAppend(h.Delete(o), fields + a[1..], b);
            }
          }
      }
    }
  }

  /** Releasing never adds handles. */
  lemma {:induction false} DrainHolds(h: Heap, pending: seq<Handle>)
    ensures |Held(Drain(h, pending).cells)| <= |Held(h.cells)|
    decreases |pending| + |Held(h.cells)|
  {
    if pending != [] && !h.fault {
      match pending[0] {
        case None => DrainHolds(h, pending[1..]);
        case Some(o) =>
          if h.Live(o) {
            if h.cells[o].refcnt != 1 {
              HeldSame(h.cells, o, h.cells[o].(refcnt := h.cells[o].refcnt - 1));
              DrainHolds(h.WithCount(o, h.cells[o].refcnt - 1), pending[1..]);
            } else {
              HeldDelete(h.cells, o);
              DrainHolds(h.Delete(o), Reverse(h.cells[o].fields) + pending[1..]);
            }
          }
      }
    }
  }

  lemma {:induction false} ReverseLast(s: seq<Handle>)
    requires s != []
    ensures Reverse(s) == [s[|s| - 1]] + Reverse(s[..|s| - 1])
  {
    if |s| > 1 {
      ReverseLast(s[1..]);
      assert s[1..][..|s| - 2] == s[..|s| - 1][1..];
    } else {
      assert s[1..] == [] && s[..0] == [];
    }
  }

  lemma {:induction false} NothingLeft(s: seq<Handle>, h: Heap)
    ensures Drain(h, Reverse(s[..0])) == h
  {
    assert s[..0] == [];
  }

  class ObjectHeap {
    var cells: seq<Cell>
    var freed: seq<Id>
    var fault: bool
    var roots: seq<Handle>

    ghost function View(): World
      reads this
    {
      World(Heap(cells, freed, fault), roots)
    }

    constructor ()
      ensures View() == Start()
    {
      cells, freed, fault, roots := [], [], false, [];
    }

    method AddRef(x: Handle)
      modifies this
      ensures View() == old(View()).(heap := old(View()).heap.AddRef(x))
    {
      if x.None? { return; }
      if x.value < |cells| && cells[x.value].live {
        cells := cells[x.value := cells[x.value].(refcnt := cells[x.value].refcnt + 1)];
      } else {
        fault := true;
      }
    }

    /** `release`, with the destructors of the fields of a deleted object, the last field first. */
    method Release(x: Handle)
      modifies this
      ensures View() == World(Drain(old(View()).heap, [x]), old(roots))
      decreases |Held(cells)|
    {
      hide Held, Reverse;
      ghost var start := View().heap;
      if fault { return; }
      if x.None? {
        assert Drain(start, [x]) == Drain(start, []) by { assert [x][1..] == []; }
        return;
      }
      var o := x.value;
      if o >= |cells| || !cells[o].live {
        fault := true;
        return;
      }
      var n := cells[o].refcnt - 1;
      if n != 0 {
        cells := cells[o := cells[o].(refcnt := n)];
        assert Drain(start, [x]) == Drain(View().heap, []) by { assert [x][1..] == []; }
        return;
      }
      var fields := cells[o].fields;
      HeldDelete(cells, o);
      cells := cells[o := Cell(false, 0, [])];
      freed := freed + [o];
      assert Drain(start, [x]) == Drain(View().heap, Reverse(fields)) by {
        assert Reverse(fields) + [x][1..] == Reverse(fields);
      }
      var i := |fields|;
      assert fields[..i] == fields;
      while i > 0
        invariant 0 <= i <= |fields| && roots == old(roots)
        invariant Drain(start, [x]) == Drain(View().heap, Reverse(fields[..i]))
        invariant |Held(cells)| + |fields| <= |Held(start.cells)|
      {
        i := i - 1;
        ReverseLast(fields[..i + 1]);
        assert fields[..i + 1][..i] == fields[..i];
        DrainAppend(View().heap, [fields[i]], Reverse(fields[..i]));
        DrainHolds(View().heap, [fields[i]]);
        Release(fields[i]);
      }
      NothingLeft(fields, View().heap);
    }

    /** A handle at a location is overwritten, without any counting. */
    method Put(dest: Loc, x: Handle)
      requires Valid(View(), dest)
      modifies this
      ensures View() == Write(old(View()), dest, x)
    {
      match dest {
        case Root(i) => roots := roots[i := x];
        case Field(o, f) =>
          var c := cells[o];
          cells := cells[o := c.(fields := c.fields[f := x])];
      }
    }

    /** `operator=`, called with a counted copy `x` of the right-hand side. */
    method AssignCopy(dest: Loc, x: Handle)
      requires Valid(View(), dest)
      modifies this
      ensures View() == AssignHandle(old(View()), dest, x)
    {
      hide Drain, Write;
      AddRef(x);
      assert Valid(View(), dest) by { AddRefKeeps(old(View()).heap, x); }
      var was := match dest case Root(i) => roots[i] case Field(o, f) => cells[o].fields[f];
      Put(dest, None);
      Release(was);
      if !(match dest case Root(i) => i < |roots|
                      case Field(o, f) => o < |cells| && cells[o].live && f < |cells[o].fields|) {
        fault := true;
        return;
      }
      Put(dest, x);
      AddRef(x);
      Release(x);
    }

    method Assign(dest: Loc, src: Loc)
      requires Valid(View(), dest) && Valid(View(), src)
      modifies this
      ensures View() == Step(old(View()), Op.Assign(dest, src))
    {
      hide AssignHandle;
      AssignCopy(dest, match src case Root(i) => roots[i] case Field(o, f) => cells[o].fields[f]);
    }

    method Create(dest: Loc, n: nat)
      requires Valid(View(), dest)
      modifies this
      ensures View() == Step(old(View()), Op.Create(dest, n))
    {
      hide AssignHandle;
      cells := cells + [Cell(true, 0, Nulls(n))];
      AssignCopy(dest, Some(|cells| - 1));
    }

    method Declare()
      modifies this
      ensures View() == Step(old(View()), Op.Declare)
    {
      roots := roots + [None];
    }

    method Copy(src: Loc)
      requires Valid(View(), src)
      modifies this
      ensures View() == Step(old(View()), Op.Copy(src))
    {
      var x := match src case Root(i) => roots[i] case Field(o, f) => cells[o].fields[f];
      roots := roots + [x];
      AddRef(x);
    }

    /** The destructor of a variable. */
    method Destroy(i: nat)
      requires i < |roots|
      modifies this
      ensures View() == Step(old(View()), Op.Destroy(i))
    {
      hide Drain;
      var x := roots[i];
      roots := roots[..i] + roots[i + 1..];
      Release(x);
    }
  }
}
