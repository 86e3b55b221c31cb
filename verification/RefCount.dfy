/** Intrusive reference counting of the BASIC object model: `ref<T>` handles, objects whose fields are
    handles, and the cascade of destructors when a count reaches zero. */
module RefCount {
  import opened Text

  type Id = nat

  /** `ptr` of a counted handle; `None` is the null pointer. */
  type Handle = Option<Id>

  datatype Cell = Cell(live: bool, refcnt: int, fields: seq<Handle>)

  /** All objects ever created, the ones deleted so far in order, and whether a deleted object was used. */
  datatype Heap = Heap(cells: seq<Cell>, freed: seq<Id>, fault: bool) {
    predicate Live(o: Id) {
      o < |cells| && cells[o].live
    }

    function WithCount(o: Id, n: int): Heap
      requires o < |cells|
    {
      this.(cells := cells[o := cells[o].(refcnt := n)])
    }

    /** `addref`. */
    function AddRef(x: Handle): Heap {
      match x
      case None => this
      case Some(o) => if Live(o) then WithCount(o, cells[o].refcnt + 1) else this.(fault := true)
    }

    /** The memory of `o` is given back; its handles are left to be released. */
    function Delete(o: Id): Heap
      requires o < |cells|
    {
      this.(cells := cells[o := Cell(false, 0, [])], freed := freed + [o])
    }
  }

  /** The handles held by the fields of live objects. */
  function Held(cells: seq<Cell>): (m: multiset<Handle>) {
    if cells == [] then multiset{}
    else
      var last := cells[|cells| - 1];
      Held(cells[..|cells| - 1]) + Share(last)
  }

  function Share(c: Cell): multiset<Handle> {
    if c.live then multiset(c.fields) else multiset{}
  }

  function Reverse(s: seq<Handle>): (r: seq<Handle>)
    ensures |r| == |s|
  {
    if s == [] then [] else Reverse(s[1..]) + [s[0]]
  }

  /** Handles are released one after the other, depth first: when a count reaches zero the object is
      deleted and the handles in its fields, the last one first, come before the others. */
  function Drain(h: Heap, pending: seq<Handle>): Heap
    decreases |pending| + |Held(h.cells)|
  {
    if pending == [] || h.fault then h
    else match pending[0]
      case None => Drain(h, pending[1..])
      case Some(o) =>
        if !h.Live(o) then h.(fault := true)
        else if h.cells[o].refcnt != 1 then
          HeldSame(h.cells, o, h.cells[o].(refcnt := h.cells[o].refcnt - 1));
          Drain(h.WithCount(o, h.cells[o].refcnt - 1), pending[1..])
        else
          HeldDelete(h.cells, o);
          ReverseSame(h.cells[o].fields);
          Drain(h.Delete(o), Reverse(h.cells[o].fields) + pending[1..])
  }

  lemma {:induction false} ReverseSame(s: seq<Handle>)
    ensures multiset(Reverse(s)) == multiset(s)
  {
    if s != [] {
      ReverseSame(s[1..]);
      assert s == [s[0]] + s[1..];
    }
  }

  /** Changing one cell changes what is held by that cell's share. */
  lemma {:induction false} HeldUpdate(cells: seq<Cell>, o: Id, c: Cell)
    requires o < |cells|
    ensures Held(cells[o := c]) + Share(cells[o]) == Held(cells) + Share(c)
    decreases |cells|
  {
    hide Share;
    var n := |cells| - 1;
    var below, last := cells[..n], Share(cells[n]);
    if o == n {
      assert cells[o := c][..n] == below;
    } else {
      assert cells[o := c][..n] == below[o := c];
      HeldUpdate(below, o, c);
      assert Held(cells[o := c]) + Share(cells[o]) == Held(below[o := c]) + Share(below[o]) + last;
      assert Held(cells) + Share(c) == Held(below) + Share(c) + last;
    }
  }

  lemma {:induction false} HeldSame(cells: seq<Cell>, o: Id, c: Cell)
    requires o < |cells| && Share(c) == Share(cells[o])
    ensures Held(cells[o := c]) == Held(cells)
  {
    HeldUpdate(cells, o, c);
    Cancel(Held(cells[o := c]), Held(cells), Share(c));
  }

  lemma {:induction false} Cancel<T>(a: multiset<T>, b: multiset<T>, c: multiset<T>)
    requires a + c == b + c
    ensures a == b
  {
    forall x: T ensures a[x] == b[x] { assert (a + c)[x] == (b + c)[x]; }
  }

  lemma {:induction false} HeldDelete(cells: seq<Cell>, o: Id)
    requires o < |cells| && cells[o].live
    ensures Held(cells[o := Cell(false, 0, [])]) + multiset(cells[o].fields) == Held(cells)
    ensures |Held(cells[o := Cell(false, 0, [])])| + |cells[o].fields| == |Held(cells)|
  {
    HeldUpdate(cells, o, Cell(false, 0, []));
  }

  // ---- The invariant -----------------------------------------------------------------------------

  /** All counted handles: those in `others` (roots, temporaries, handles about to be released) and those
      in the fields of live objects. */
  function Handles(h: Heap, others: seq<Handle>): multiset<Handle> {
    multiset(others) + Held(h.cells)
  }

  /** Every live object counts the handles to it, of which there is at least one; no handle points to a
      deleted object; and the deleted objects are those on the list, each there once. */
  ghost predicate Inv(h: Heap, others: seq<Handle>) {
    && !h.fault
    && (forall o: Id :: Handles(h, others)[Some(o)] == if h.Live(o) then h.cells[o].refcnt else 0)
    && (forall o: Id | h.Live(o) :: h.cells[o].refcnt >= 1)
    && (forall o: Id :: o in h.freed <==> o < |h.cells| && !h.cells[o].live)
    && (forall i, j | 0 <= i < j < |h.freed| :: h.freed[i] != h.freed[j])
  }

  /** The invariant speaks of the handles as a collection, not of their order. */
  lemma {:induction false} InvSame(h: Heap, others: seq<Handle>, others': seq<Handle>)
    requires Inv(h, others) && multiset(others') == multiset(others)
    ensures Inv(h, others')
  {
  }

  lemma {:induction false} SameButNulls(h: Heap, others: seq<Handle>, others': seq<Handle>)
    requires Inv(h, others) && forall o: Id :: multiset(others')[Some(o)] == multiset(others)[Some(o)]
    ensures Inv(h, others')
  {
    forall o: Id ensures Handles(h, others')[Some(o)] == Handles(h, others)[Some(o)] {}
  }

  /** Releasing one handle to `o` leaves one handle fewer, to `o`. */
  predicate OneFewer(m: multiset<Handle>, m': multiset<Handle>, o: Id) {
    m == m' + multiset{Some(o)}
  }

  lemma {:induction false} DropHandles(h: Heap, o: Id, rest: seq<Handle>, n: int)
    requires h.Live(o)
    ensures OneFewer(Handles(h, [Some(o)] + rest), Handles(h.WithCount(o, n), rest), o)
  {
    HeldSame(h.cells, o, h.cells[o].(refcnt := n));
  }

  lemma {:induction false} DeleteHandles(h: Heap, o: Id, rest: seq<Handle>)
    requires h.Live(o)
    ensures OneFewer(Handles(h, [Some(o)] + rest), Handles(h.Delete(o), Reverse(h.cells[o].fields) + rest), o)
  {
    HeldDelete(h.cells, o);
    ReverseSame(h.cells[o].fields);
    assert multiset(Reverse(h.cells[o].fields) + rest) == multiset(h.cells[o].fields) + multiset(rest);
  }

  /** A handle about to be released, not the last one to its object. */
  lemma {:induction false} DropInv(h: Heap, o: Id, rest: seq<Handle>)
    requires Inv(h, [Some(o)] + rest) && h.Live(o) && h.cells[o].refcnt != 1
    ensures Inv(h.WithCount(o, h.cells[o].refcnt - 1), rest)
  {
    hide Held, Handles;
    var h' := h.WithCount(o, h.cells[o].refcnt - 1);
    DropHandles(h, o, rest, h.cells[o].refcnt - 1);
    forall p: Id ensures Handles(h', rest)[Some(p)] == if h'.Live(p) then h'.cells[p].refcnt else 0 {
      assert Handles(h, [Some(o)] + rest)[Some(p)] == if h.Live(p) then h.cells[p].refcnt else 0;
    }
  }

  /** The last handle to an object: its fields' handles are next. */
  lemma {:induction false} DeleteInv(h: Heap, o: Id, rest: seq<Handle>)
    requires Inv(h, [Some(o)] + rest) && h.Live(o) && h.cells[o].refcnt == 1
    ensures Inv(h.Delete(o), Reverse(h.cells[o].fields) + rest)
  {
    hide Held, Handles, Reverse;
    var h' := h.Delete(o);
    DeleteHandles(h, o, rest);
    forall p: Id
      ensures Handles(h', Reverse(h.cells[o].fields) + rest)[Some(p)] == if h'.Live(p) then h'.cells[p].refcnt else 0
    {
      assert Handles(h, [Some(o)] + rest)[Some(p)] == if h.Live(p) then h.cells[p].refcnt else 0;
    }
  }

  /** A pending handle points to a live object. */
  lemma {:induction false} PendingLive(h: Heap, o: Id, others: seq<Handle>)
    requires Inv(h, others) && Some(o) in others
    ensures h.Live(o)
  {
    assert Handles(h, others)[Some(o)] >= 1;
  }

  /** No object is created or revived, live ones keep their fields, and deleted ones are added to the list. */
  predicate Survivors(h: Heap, h': Heap) {
    && |h'.cells| == |h.cells|
    && (forall o | 0 <= o < |h.cells| && h'.cells[o].live :: h.cells[o].live && h'.cells[o].fields == h.cells[o].fields)
    && h.freed <= h'.freed
  }

  lemma {:induction false} SurvivorsOn(h1: Heap, h2: Heap, h3: Heap)
    requires Survivors(h1, h2) && Survivors(h2, h3)
    ensures Survivors(h1, h3)
  {
  }

  /** The cascade ends with all pending handles released and nothing else changed: what stays alive keeps
      its fields. */
  lemma {:induction false} DrainInv(h: Heap, pending: seq<Handle>, roots: seq<Handle>)
    requires Inv(h, pending + roots)
    ensures Inv(Drain(h, pending), roots)
    ensures Survivors(h, Drain(h, pending))
    decreases |pending| + |Held(h.cells)|, 1
  {
    hide Inv, Held, Handles;
    if pending == [] {
      assert pending + roots == roots;
    } else {
      var rest := pending[1..];
      assert pending + roots == [pending[0]] + (rest + roots);
      match pending[0] {
        case None =>
          NullInv(h, rest + roots);
          DrainInv(h, rest, roots);
        case Some(o) =>
          PendingLive(h, o, pending + roots);
          DrainObject(h, o, rest, roots);
      }
    }
  }

  lemma {:induction false} NoFault(h: Heap, others: seq<Handle>)
    requires Inv(h, others)
    ensures !h.fault
  {
  }

  lemma {:induction false} NullInv(h: Heap, others: seq<Handle>)
    requires Inv(h, [None] + others)
    ensures Inv(h, others)
  {
    hide Held;
    SameButNulls(h, [None] + others, others);
  }

  lemma {:induction false} DrainObject(h: Heap, o: Id, rest: seq<Handle>, roots: seq<Handle>)
    requires Inv(h, [Some(o)] + (rest + roots)) && h.Live(o)
    ensures Inv(Drain(h, [Some(o)] + rest), roots)
    ensures Survivors(h, Drain(h, [Some(o)] + rest))
    decreases 1 + |rest| + |Held(h.cells)|, 0
  {
    hide Inv, Held, Handles, Reverse;
    NoFault(h, [Some(o)] + (rest + roots));
    assert ([Some(o)] + rest)[1..] == rest;
    if h.cells[o].refcnt != 1 {
      var h' := h.WithCount(o, h.cells[o].refcnt - 1);
      DropInv(h, o, rest + roots);
      HeldSame(h.cells, o, h'.cells[o]);
      DrainInv(h', rest, roots);
      SurvivorsOn(h, h', Drain(h', rest));
    } else {
      DeleteInv(h, o, rest + roots);
      HeldDelete(h.cells, o);
      var fields := Reverse(h.cells[o].fields);
      assert fields + (rest + roots) == (fields + rest) + roots;
      DrainInv(h.Delete(o), fields + rest, roots);
      SurvivorsOn(h, h.Delete(o), Drain(h.Delete(o), fields + rest));
    }
  }

  // ---- Operations on handles ---------------------------------------------------------------------

  /** The handle variables of the program, and the heap. */
  datatype World = World(heap: Heap, roots: seq<Handle>)

  datatype Loc = Root(i: nat) | Field(o: Id, f: nat)

  predicate Valid(w: World, loc: Loc) {
    match loc
    case Root(i) => i < |w.roots|
    case Field(o, f) => w.heap.Live(o) && f < |w.heap.cells[o].fields|
  }

  function Read(w: World, loc: Loc): Handle
    requires Valid(w, loc)
  {
    match loc
    case Root(i) => w.roots[i]
    case Field(o, f) => w.heap.cells[o].fields[f]
  }

  function Write(w: World, loc: Loc, x: Handle): World
    requires Valid(w, loc)
  {
    match loc
    case Root(i) => w.(roots := w.roots[i := x])
    case Field(o, f) =>
      var c := w.heap.cells[o];
      w.(heap := w.heap.(cells := w.heap.cells[o := c.(fields := c.fields[f := x])]))
  }

  /** `operator=`: its argument is a copy `x`; the old object is released, the new one counted, and the
      copy is destroyed. Writing into a deleted object is a fault. */
  function AssignHandle(w: World, dest: Loc, x: Handle): World
    requires Valid(w, dest)
  {
    var w1 := w.(heap := w.heap.AddRef(x));
    var w2 := ReleaseOld(w1, dest);
    if !Valid(w2, dest) then w2.(heap := w2.heap.(fault := true))
    else
      var w3 := Write(w2, dest, x);
      w3.(heap := Drain(w3.heap.AddRef(x), [x]))
  }

  lemma {:induction false} AddRefKeeps(h: Heap, x: Handle)
    ensures |h.AddRef(x).cells| == |h.cells| && h.AddRef(x).freed == h.freed
    ensures forall o | 0 <= o < |h.cells| :: h.AddRef(x).cells[o].live == h.cells[o].live
                                          && h.AddRef(x).cells[o].fields == h.cells[o].fields
  {
  }

  function ReleaseOld(w: World, dest: Loc): World
    requires Valid(w, dest)
  {
    var w' := Write(w, dest, None);
    w'.(heap := Drain(w'.heap, [Read(w, dest)]))
  }

  function Nulls(n: nat): (s: seq<Handle>)
    ensures |s| == n
  {
    seq(n, _ => None)
  }

  datatype Op =
    | Declare                       // a null handle variable
    | Copy(src: Loc)                // a variable initialised from another handle
    | Destroy(i: nat)               // a variable leaves its scope
    | Create(dest: Loc, n: nat)     // dest = new object with n handle fields
    | Assign(dest: Loc, src: Loc)

  predicate Possible(w: World, op: Op) {
    match op
    case Declare => true
    case Copy(src) => Valid(w, src)
    case Destroy(i) => i < |w.roots|
    case Create(dest, _) => Valid(w, dest)
    case Assign(dest, src) => Valid(w, dest) && Valid(w, src)
  }

  function Step(w: World, op: Op): World
    requires Possible(w, op)
  {
    match op
    case Declare => w.(roots := w.roots + [None])
    case Copy(src) => World(w.heap.AddRef(Read(w, src)), w.roots + [Read(w, src)])
    case Destroy(i) => World(Drain(w.heap, [w.roots[i]]), w.roots[..i] + w.roots[i + 1..])
    case Create(dest, n) =>
      var cells := w.heap.cells + [Cell(true, 0, Nulls(n))];
      AssignHandle(w.(heap := w.heap.(cells := cells)), dest, Some(|w.heap.cells|))
    case Assign(dest, src) => AssignHandle(w, dest, Read(w, src))
  }

  // ---- Reachability ------------------------------------------------------------------------------

  ghost predicate IsPath(w: World, path: seq<Id>) {
    path != [] && Some(path[0]) in w.roots &&
    forall i | 0 <= i < |path| - 1 ::
      w.heap.Live(path[i]) && Some(path[i + 1]) in w.heap.cells[path[i]].fields
  }

  ghost predicate Reachable(w: World, o: Id) {
    exists path :: IsPath(w, path) && path[|path| - 1] == o
  }

  /** A field is only written while its object is reachable from a variable. */
  ghost predicate Allowed(w: World, op: Op) {
    Possible(w, op) &&
    match op
    case Create(dest, _) => dest.Field? ==> Reachable(w, dest.o)
    case Assign(dest, _) => dest.Field? ==> Reachable(w, dest.o)
    case _ => true
  }

  lemma {:induction false} HeldIn(cells: seq<Cell>, o: Id, x: Handle)
    requires o < |cells| && cells[o].live && x in cells[o].fields
    ensures x in Held(cells)
    decreases |cells|
  {
    if o < |cells| - 1 { HeldIn(cells[..|cells| - 1], o, x); }
  }

  lemma {:induction false} InHeld(cells: seq<Cell>, x: Handle) returns (o: Id)
    requires x in Held(cells)
    ensures o < |cells| && cells[o].live && x in cells[o].fields
    decreases |cells|
  {
    o := |cells| - 1;
    if !(cells[o].live && x in cells[o].fields) { o := InHeld(cells[..o], x); }
  }

  /** The object at the end of a chain of live handles is live. */
  lemma {:induction false} TargetLive(h: Heap, others: seq<Handle>, p: Id, o: Id)
    requires Inv(h, others) && h.Live(p) && Some(o) in h.cells[p].fields
    ensures h.Live(o)
  {
    HeldIn(h.cells, p, Some(o));
    assert Handles(h, others)[Some(o)] >= 1;
  }

  /** Everything on a path survives a cascade that leaves the path's handles alone. */
  lemma {:induction false} PathSurvives(h: Heap, h': Heap, others: seq<Handle>, path: seq<Id>, n: nat)
    requires Inv(h', others) && Survivors(h, h') && n < |path|
    requires Some(path[0]) in others
    requires forall i | 0 <= i < |path| - 1 :: path[i] < |h.cells| && Some(path[i + 1]) in h.cells[path[i]].fields
    ensures h'.Live(path[n])
  {
    hide Inv;
    if n == 0 {
      PendingLive(h', path[0], others);
    } else {
      PathSurvives(h, h', others, path, n - 1);
      TargetLive(h', others, path[n - 1], path[n]);
    }
  }

  /** A path can be cut so that it meets its end only there. */
  lemma {:induction false} ShortPath(w: World, path: seq<Id>, o: Id) returns (short: seq<Id>)
    requires IsPath(w, path) && path[|path| - 1] == o
    ensures IsPath(w, short) && short[|short| - 1] == o
    ensures forall i | 0 <= i < |short| - 1 :: short[i] != o
    decreases |path|
  {
    if i :| 0 <= i < |path| - 1 && path[i] == o {
      short := ShortPath(w, path[..i + 1], o);
    } else {
      short := path;
    }
  }

  // ---- Every allowed operation keeps the invariant -----------------------------------------------

  lemma {:induction false} AddHandles(h: Heap, others: seq<Handle>, o: Id)
    requires h.Live(o)
    ensures Handles(h.AddRef(Some(o)), others + [Some(o)]) == Handles(h, others) + multiset{Some(o)}
  {
    HeldSame(h.cells, o, h.AddRef(Some(o)).cells[o]);
  }

  lemma {:induction false} AddRefInv(h: Heap, others: seq<Handle>, x: Handle)
    requires Inv(h, others) && (x.Some? ==> h.Live(x.value))
    ensures Inv(h.AddRef(x), others + [x])
  {
    hide Handles, Held;
    if x.Some? {
      var h' := h.AddRef(x);
      AddHandles(h, others, x.value);
      forall p: Id ensures Handles(h', others + [x])[Some(p)] == if h'.Live(p) then h'.cells[p].refcnt else 0 {
        assert Handles(h, others)[Some(p)] == if h.Live(p) then h.cells[p].refcnt else 0;
      }
    } else {
      SameButNulls(h, others, others + [x]);
    }
  }

  /** Taking the handle out of a location leaves it pending. */
  lemma {:induction false} TakeInv(w: World, dest: Loc, temps: seq<Handle>)
    requires Inv(w.heap, w.roots + temps) && Valid(w, dest)
    ensures var w' := Write(w, dest, None); Inv(w'.heap, [Read(w, dest)] + (w'.roots + temps))
  {
    var was, w' := Read(w, dest), Write(w, dest, None);
    match dest
    case Root(i) =>
      SeqUpdate(w.roots, i, None);
      forall p: Id ensures multiset([was] + (w'.roots + temps))[Some(p)] == multiset(w.roots + temps)[Some(p)] {
        assert multiset(w'.roots + temps) == multiset(w'.roots) + multiset(temps);
      }
      SameButNulls(w.heap, w.roots + temps, [was] + (w'.roots + temps));
    case Field(o, f) => FieldTaken(w.heap, o, f, w.roots + temps);
  }

  lemma {:induction false} SeqUpdate<T>(s: seq<T>, i: nat, x: T)
    requires i < |s|
    ensures multiset(s[i := x]) + multiset{s[i]} == multiset(s) + multiset{x}
  {
    assert s == s[..i] + [s[i]] + s[i + 1..];
    assert s[i := x] == s[..i] + [x] + s[i + 1..];
  }

  lemma {:induction false} FieldTaken(h: Heap, o: Id, f: nat, others: seq<Handle>)
    requires Inv(h, others) && h.Live(o) && f < |h.cells[o].fields|
    ensures var c := h.cells[o];
            Inv(h.(cells := h.cells[o := c.(fields := c.fields[f := None])]), [c.fields[f]] + others)
  {
    var c := h.cells[o];
    var c' := c.(fields := c.fields[f := None]);
    var h' := h.(cells := h.cells[o := c']);
    HeldUpdate(h.cells, o, c');
    SeqUpdate(c.fields, f, None);
    FieldCounts(h, h', others, c.fields, f);
  }

  lemma {:induction false} FieldCounts(h: Heap, h': Heap, others: seq<Handle>, fields: seq<Handle>, f: nat)
    requires Inv(h, others) && f < |fields|
    requires Held(h'.cells) + multiset(fields) == Held(h.cells) + multiset(fields[f := None])
    requires multiset(fields[f := None]) + multiset{fields[f]} == multiset(fields) + multiset{None}
    requires |h'.cells| == |h.cells| && h'.freed == h.freed && h'.fault == h.fault
    requires forall p | 0 <= p < |h.cells| ::
      h'.cells[p].live == h.cells[p].live && h'.cells[p].refcnt == h.cells[p].refcnt
    ensures Inv(h', [fields[f]] + others)
  {
    hide Held;
    forall p: Id ensures Handles(h', [fields[f]] + others)[Some(p)] == Handles(h, others)[Some(p)] {
      var x: Handle := Some(p);
      assert (Held(h'.cells) + multiset(fields))[x] == (Held(h.cells) + multiset(fields[f := None]))[x];
      assert (multiset(fields[f := None]) + multiset{fields[f]})[x] == (multiset(fields) + multiset{None})[x];
    }
    forall p: Id ensures h'.Live(p) == h.Live(p) {}
  }

  /** Putting a counted handle into an empty location. */
  lemma {:induction false} PutInv(w: World, dest: Loc, x: Handle, temps: seq<Handle>)
    requires Valid(w, dest) && Read(w, dest) == None && Inv(w.heap, [x] + (w.roots + temps))
    ensures Inv(Write(w, dest, x).heap, Write(w, dest, x).roots + temps)
  {
    var w' := Write(w, dest, x);
    match dest
    case Root(i) =>
      SeqUpdate(w.roots, i, x);
      forall p: Id ensures multiset(w'.roots + temps)[Some(p)] == multiset([x] + (w.roots + temps))[Some(p)] {
        assert multiset(w'.roots + temps) == multiset(w'.roots) + multiset(temps);
      }
      SameButNulls(w.heap, [x] + (w.roots + temps), w'.roots + temps);
    case Field(o, f) => FieldPut(w.heap, o, f, x, w.roots + temps);
  }

  lemma {:induction false} FieldPut(h: Heap, o: Id, f: nat, x: Handle, others: seq<Handle>)
    requires h.Live(o) && f < |h.cells[o].fields| && h.cells[o].fields[f] == None && Inv(h, [x] + others)
    ensures var c := h.cells[o]; Inv(h.(cells := h.cells[o := c.(fields := c.fields[f := x])]), others)
  {
    var c := h.cells[o];
    var c' := c.(fields := c.fields[f := x]);
    var h' := h.(cells := h.cells[o := c']);
    HeldUpdate(h.cells, o, c');
    SeqUpdate(c.fields, f, x);
    PutCounts(h, h', others, c.fields, f, x);
  }

  lemma {:induction false} PutCounts(h: Heap, h': Heap, others: seq<Handle>, fields: seq<Handle>, f: nat, x: Handle)
    requires Inv(h, [x] + others) && f < |fields| && fields[f] == None
    requires Held(h'.cells) + multiset(fields) == Held(h.cells) + multiset(fields[f := x])
    requires multiset(fields[f := x]) + multiset{fields[f]} == multiset(fields) + multiset{x}
    requires |h'.cells| == |h.cells| && h'.freed == h.freed && h'.fault == h.fault
    requires forall p | 0 <= p < |h.cells| ::
      h'.cells[p].live == h.cells[p].live && h'.cells[p].refcnt == h.cells[p].refcnt
    ensures Inv(h', others)
  {
    hide Held;
    forall p: Id ensures Handles(h', others)[Some(p)] == Handles(h, [x] + others)[Some(p)] {
      var y: Handle := Some(p);
      assert (Held(h'.cells) + multiset(fields))[y] == (Held(h.cells) + multiset(fields[f := x]))[y];
      assert (multiset(fields[f := x]) + multiset{fields[f]})[y] == (multiset(fields) + multiset{x})[y];
    }
    forall p: Id ensures h'.Live(p) == h.Live(p) {}
  }

  /** Every object in `s` is live and held by a handle variable or by a field of an object in `s`. */
  ghost predicate Supported(w: World, s: set<Id>) {
    forall p | p in s :: w.heap.Live(p) && (Some(p) in w.roots || HeldFrom(w.heap, s, p))
  }

  ghost predicate HeldFrom(h: Heap, s: set<Id>, p: Id) {
    exists q :: q in s && h.Live(q) && Some(p) in h.cells[q].fields
  }

  /** The object that a location belongs to is held even without the handle in that location: it is in a
      set that holds itself together. `x` is the copy on the right-hand side. */
  ghost predicate OwnerHeld(w: World, dest: Loc, x: Handle)
    requires Valid(w, dest)
  {
    dest.Field? ==> exists s: set<Id> :: dest.o in s && Supported(Without(w, dest, x), s)
  }

  function Without(w: World, dest: Loc, x: Handle): World
    requires Valid(w, dest)
  {
    var w' := Write(w, dest, None);
    w'.(roots := w'.roots + [x])
  }

  /** What a supported set needs is not deleted for want of the pending handles. */
  lemma {:induction false} SupportedCount(h: Heap, pending: seq<Handle>, roots: seq<Handle>, s: set<Id>, o: Id)
    requires Inv(h, [Some(o)] + pending + roots) && Supported(World(h, roots), s) && o in s
    ensures h.cells[o].refcnt > 1
  {
    hide Held;
    var x := Some(o);
    var others := [x] + pending + roots;
    if x in roots {
      assert multiset(roots)[x] >= 1;
      assert multiset(others)[x] == multiset([x])[x] + multiset(pending)[x] + multiset(roots)[x];
    } else {
      var q :| q in s && h.Live(q) && x in h.cells[q].fields;
      HeldIn(h.cells, q, x);
      assert multiset(others)[x] >= 1;
    }
    assert Handles(h, others)[x] >= 2;
  }

  lemma {:induction false} SupportedLater(h: Heap, h': Heap, roots: seq<Handle>, s: set<Id>)
    requires Supported(World(h, roots), s) && |h'.cells| == |h.cells|
    requires forall p | p in s && p < |h.cells| ::
               h'.cells[p].live == h.cells[p].live && h'.cells[p].fields == h.cells[p].fields
    ensures Supported(World(h', roots), s)
  {
    forall p | p in s ensures h'.Live(p) && (Some(p) in roots || HeldFrom(h', s, p)) {
      if Some(p) !in roots {
        var q :| q in s && h.Live(q) && Some(p) in h.cells[q].fields;
        assert h'.Live(q) && Some(p) in h'.cells[q].fields;
      }
    }
  }

  /** A supported set survives every cascade. */
  lemma {:induction false} SupportedSurvives(h: Heap, pending: seq<Handle>, roots: seq<Handle>, s: set<Id>)
    requires Inv(h, pending + roots) && Supported(World(h, roots), s)
    ensures forall p | p in s :: Drain(h, pending).Live(p)
    decreases |pending| + |Held(h.cells)|
  {
    hide Inv, Held, Handles, Supported, Reverse;
    if pending == [] {
      AllLive(h, roots, s);
    } else {
      var rest := pending[1..];
      assert pending + roots == [pending[0]] + (rest + roots) == [pending[0]] + rest + roots;
      NoFault(h, pending + roots);
      match pending[0] {
        case None =>
          NullInv(h, rest + roots);
          SupportedSurvives(h, rest, roots, s);
        case Some(o) =>
          PendingLive(h, o, pending + roots);
          if h.cells[o].refcnt != 1 {
            var h' := h.WithCount(o, h.cells[o].refcnt - 1);
            DropInv(h, o, rest + roots);
            HeldSame(h.cells, o, h'.cells[o]);
            SupportedLater(h, h', roots, s);
            SupportedSurvives(h', rest, roots, s);
          } else {
            if o in s { SupportedCount(h, rest, roots, s, o); }
            DeleteInv(h, o, rest + roots);
            HeldDelete(h.cells, o);
            ReverseSame(h.cells[o].fields);
            var fields := Reverse(h.cells[o].fields);
            assert fields + (rest + roots) == (fields + rest) + roots;
            SupportedLater(h, h.Delete(o), roots, s);
            SupportedSurvives(h.Delete(o), fields + rest, roots, s);
          }
      }
    }
  }

  lemma {:induction false} AllLive(h: Heap, roots: seq<Handle>, s: set<Id>)
    requires Supported(World(h, roots), s)
    ensures forall p | p in s :: h.Live(p)
  {
  }

  /** And what is left is a supported set, in the heap before as well. */
  lemma {:induction false} SurvivorsSupported(h: Heap, h': Heap, roots: seq<Handle>) returns (s: set<Id>)
    requires Inv(h', roots) && Survivors(h, h')
    ensures Supported(World(h, roots), s) && forall p: Id :: p in s <==> h'.Live(p)
  {
    hide Inv;
    s := set p: Id | p < |h'.cells| && h'.cells[p].live;
    forall p | p in s ensures h.Live(p) && (Some(p) in roots || HeldFrom(h, s, p)) {
      if Some(p) !in roots {
        var q := Holder(h', roots, p);
        assert q in s && h.Live(q) && Some(p) in h.cells[q].fields;
      }
    }
  }

  /** A live object is held by a variable or by a field of a live object. */
  lemma {:induction false} Holder(h: Heap, roots: seq<Handle>, o: Id) returns (p: Id)
    requires Inv(h, roots) && h.Live(o) && Some(o) !in roots
    ensures h.Live(p) && Some(o) in h.cells[p].fields
  {
    assert Handles(h, roots)[Some(o)] >= 1;
    p := InHeld(h.cells, Some(o));
  }

  /** Releasing what a location held: the location is still there exactly if its owner is held otherwise. */
  lemma {:induction false} ReleaseOldInv(w: World, dest: Loc, x: Handle)
    requires Inv(w.heap, w.roots + [x]) && Valid(w, dest)
    ensures var w2 := ReleaseOld(w, dest);
            && Inv(w2.heap, w2.roots + [x]) && Survivors(Write(w, dest, None).heap, w2.heap)
            && (Valid(w2, dest) <==> OwnerHeld(w, dest, x))
            && (Valid(w2, dest) ==> Read(w2, dest) == None)
  {
    hide Inv, Drain, Supported;
    TakeInv(w, dest, [x]);
    var w' := Write(w, dest, None);
    var old', h2 := [Read(w, dest)], Drain(w'.heap, [Read(w, dest)]);
    DrainInv(w'.heap, old', w'.roots + [x]);
    if dest.Field? {
      if OwnerHeld(w, dest, x) {
        var s: set<Id> :| dest.o in s && Supported(Without(w, dest, x), s);
        SupportedSurvives(w'.heap, old', w'.roots + [x], s);
      }
      var t := SurvivorsSupported(w'.heap, h2, w'.roots + [x]);
      assert h2.Live(dest.o) ==> dest.o in t;
    }
  }

  /** An assignment writes into a deleted object exactly if the owner of the field is held by nothing but the
      old contents of that field; otherwise it keeps all counts. */
  lemma {:induction false} AssignFaultIff(w: World, dest: Loc, x: Handle)
    requires Inv(w.heap.AddRef(x), w.roots + [x]) && Valid(w, dest)
    ensures AssignHandle(w, dest, x).heap.fault <==> !OwnerHeld(w, dest, x)
    ensures OwnerHeld(w, dest, x) ==> Inv(AssignHandle(w, dest, x).heap, AssignHandle(w, dest, x).roots)
  {
    hide Inv, Drain, Write, Read, ReleaseOld, OwnerHeld;
    var w1 := w.(heap := w.heap.AddRef(x));
    AddRefKeeps(w.heap, x);
    SameOwner(w, w1, dest, x);
    ReleaseOldInv(w1, dest, x);
    if OwnerHeld(w, dest, x) {
      StoreInv(ReleaseOld(w1, dest), dest, x);
      NoFault(AssignHandle(w, dest, x).heap, AssignHandle(w, dest, x).roots);
    }
  }

  lemma {:induction false} SameOwner(w: World, w1: World, dest: Loc, x: Handle)
    requires w1.roots == w.roots && |w1.heap.cells| == |w.heap.cells| && Valid(w, dest)
    requires forall p | 0 <= p < |w.heap.cells| ::
      w1.heap.cells[p].live == w.heap.cells[p].live && w1.heap.cells[p].fields == w.heap.cells[p].fields
    ensures Valid(w1, dest) && (OwnerHeld(w1, dest, x) <==> OwnerHeld(w, dest, x))
  {
    hide Supported;
    if dest.Field? {
      var a, b := Without(w, dest, x), Without(w1, dest, x);
      assert a.roots == b.roots;
      forall s: set<Id> ensures Supported(a, s) <==> Supported(b, s) {
        if Supported(a, s) { SupportedLater(a.heap, b.heap, a.roots, s); }
        if Supported(b, s) { SupportedLater(b.heap, a.heap, a.roots, s); }
      }
    }
  }

  ghost predicate NoDangling(w: World) {
    (forall p: Id | Some(p) in w.roots :: w.heap.Live(p))
    && forall p: Id, q: Id | w.heap.Live(p) && Some(q) in w.heap.cells[p].fields :: w.heap.Live(q)
  }

  /** A reachable owner is held otherwise: by the objects on a path that does not use the field. */
  lemma {:induction false} ReachableHeld(w: World, dest: Loc, x: Handle)
    requires Valid(w, dest) && (dest.Field? ==> Reachable(w, dest.o))
    requires NoDangling(w)
    ensures OwnerHeld(w, dest, x)
  {
    if dest.Field? {
      var o := dest.o;
      var path :| IsPath(w, path) && path[|path| - 1] == o;
      var short := ShortPath(w, path, o);
      var s := set i | 0 <= i < |short| :: short[i];
      PathLive(w, short, |short| - 1);
      var w' := Without(w, dest, x);
      forall p | p in s ensures w'.heap.Live(p) && (Some(p) in w'.roots || HeldFrom(w'.heap, s, p)) {
        var i :| 0 <= i < |short| && short[i] == p;
        if i > 0 {
          var q := short[i - 1];
          assert q in s && q != o && w'.heap.cells[q] == w.heap.cells[q];
        }
      }
      assert short[|short| - 1] in s;
      assert Supported(w', s);
    }
  }

  lemma {:induction false} PathLive(w: World, path: seq<Id>, n: nat)
    requires IsPath(w, path) && n < |path|
    requires NoDangling(w)
    ensures forall i | 0 <= i <= n :: w.heap.Live(path[i])
  {
    if n > 0 {
      PathLive(w, path, n - 1);
      assert w.heap.Live(path[n - 1]) && Some(path[n - 1 + 1]) in w.heap.cells[path[n - 1]].fields;
    }
  }

  /** The second half of an assignment: the handle is stored and counted, and the copy destroyed. */
  lemma {:induction false} StoreInv(w: World, dest: Loc, x: Handle)
    requires Inv(w.heap, w.roots + [x]) && Valid(w, dest) && Read(w, dest) == None
    ensures var w' := Write(w, dest, x); Inv(Drain(w'.heap.AddRef(x), [x]), w'.roots)
  {
    hide Inv, Drain;
    if x.Some? { PendingLive(w.heap, x.value, w.roots + [x]); }
    AddRefInv(w.heap, w.roots + [x], x);
    var counted := w.(heap := w.heap.AddRef(x));
    AddRefKeeps(w.heap, x);
    InvSame(counted.heap, w.roots + [x] + [x], [x] + (counted.roots + [x]));
    PutInv(counted, dest, x, [x]);
    var w' := Write(counted, dest, x);
    WriteCount(w, dest, x);
    InvSame(w'.heap, w'.roots + [x], [x] + w'.roots);
    DrainInv(w'.heap, [x], w'.roots);
  }

  /** Counting first or writing first comes to the same. */
  lemma {:induction false} WriteCount(w: World, dest: Loc, x: Handle)
    requires Valid(w, dest) && Valid(w.(heap := w.heap.AddRef(x)), dest)
    ensures Write(w.(heap := w.heap.AddRef(x)), dest, x)
         == var w' := Write(w, dest, x); w'.(heap := w'.heap.AddRef(x))
  {
    if x.Some? && dest.Field? && w.heap.Live(x.value) {
      var a := Write(w.(heap := w.heap.AddRef(x)), dest, x).heap.cells;
      var w' := Write(w, dest, x);
      assert a == w'.heap.AddRef(x).cells;
    }
  }

  lemma {:induction false} NewHandles(h: Heap, others: seq<Handle>, n: nat)
    ensures var h' := h.(cells := h.cells + [Cell(true, 1, Nulls(n))]);
            forall p: Id :: Handles(h', others + [Some(|h.cells|)])[Some(p)]
                         == Handles(h, others)[Some(p)] + if p == |h.cells| then 1 else 0
  {
    assert (h.cells + [Cell(true, 1, Nulls(n))])[..|h.cells|] == h.cells;
    NullsHold(n);
  }

  lemma {:induction false} NewCellInv(h: Heap, others: seq<Handle>, n: nat)
    requires Inv(h, others)
    ensures var h' := h.(cells := h.cells + [Cell(true, 0, Nulls(n))]);
            Inv(h'.AddRef(Some(|h.cells|)), others + [Some(|h.cells|)])
  {
    hide Handles, Held, Nulls;
    NewHandles(h, others, n);
    var h' := h.(cells := h.cells + [Cell(true, 0, Nulls(n))]).AddRef(Some(|h.cells|));
    assert h'.cells == h.cells + [Cell(true, 1, Nulls(n))];
    forall p: Id
      ensures Handles(h', others + [Some(|h.cells|)])[Some(p)] == if h'.Live(p) then h'.cells[p].refcnt else 0
    {
      assert Handles(h, others)[Some(p)] == if h.Live(p) then h.cells[p].refcnt else 0;
    }
  }

  lemma {:induction false} NullsHold(n: nat)
    ensures forall p: Id :: multiset(Nulls(n))[Some(p)] == 0
  {
    forall p: Id ensures Some(p) !in multiset(Nulls(n)) {}
  }

  lemma {:induction false} SourceLive(w: World, src: Loc)
    requires Inv(w.heap, w.roots) && Valid(w, src) && Read(w, src).Some?
    ensures w.heap.Live(Read(w, src).value)
  {
    hide Inv;
    match src
    case Root(i) => PendingLive(w.heap, Read(w, src).value, w.roots);
    case Field(o, f) => TargetLive(w.heap, w.roots, o, Read(w, src).value);
  }

  /** The world in which the right-hand side of an operation is stored. */
  function Before(w: World, op: Op): World {
    if op.Create? then w.(heap := w.heap.(cells := w.heap.cells + [Cell(true, 0, Nulls(op.n))])) else w
  }

  /** The exact condition under which an operation does not touch deleted memory. */
  ghost predicate Safe(w: World, op: Op)
    requires Possible(w, op)
  {
    match op
    case Create(dest, _) => OwnerHeld(Before(w, op), dest, Some(|w.heap.cells|))
    case Assign(dest, src) => OwnerHeld(w, dest, Read(w, src))
    case _ => true
  }

  /** An operation goes wrong exactly if it is not safe; otherwise counts, liveness and the list of deleted
      objects stay right. */
  lemma {:induction false} StepFaultIff(w: World, op: Op)
    requires Inv(w.heap, w.roots) && Possible(w, op)
    ensures Step(w, op).heap.fault <==> !Safe(w, op)
    ensures Safe(w, op) ==> Inv(Step(w, op).heap, Step(w, op).roots)
  {
    hide Inv, Drain, AssignHandle, OwnerHeld;
    match op
    case Declare =>
      DeclareInv(w.heap, w.roots);
      NoFault(w.heap, w.roots);
    case Copy(src) =>
      if Read(w, src).Some? { SourceLive(w, src); }
      AddRefInv(w.heap, w.roots, Read(w, src));
      NoFault(Step(w, op).heap, Step(w, op).roots);
    case Destroy(i) =>
      var rest := w.roots[..i] + w.roots[i + 1..];
      assert w.roots == w.roots[..i] + [w.roots[i]] + w.roots[i + 1..];
      InvSame(w.heap, w.roots, [w.roots[i]] + rest);
      DrainInv(w.heap, [w.roots[i]], rest);
      NoFault(Step(w, op).heap, Step(w, op).roots);
    case Create(dest, n) =>
      NewCellInv(w.heap, w.roots, n);
      AssignFaultIff(Before(w, op), dest, Some(|w.heap.cells|));
    case Assign(dest, src) =>
      if Read(w, src).Some? { SourceLive(w, src); }
      AddRefInv(w.heap, w.roots, Read(w, src));
      AssignFaultIff(w, dest, Read(w, src));
  }

  /** Writing only fields of reachable objects is enough. */
  lemma {:induction false} AllowedSafe(w: World, op: Op)
    requires Inv(w.heap, w.roots) && Allowed(w, op)
    ensures Safe(w, op)
  {
    hide Inv, OwnerHeld, Reachable;
    var w' := Before(w, op);
    forall p: Id, q: Id | w'.heap.Live(p) && Some(q) in w'.heap.cells[p].fields ensures w'.heap.Live(q) {
      if p < |w.heap.cells| { TargetLive(w.heap, w.roots, p, q); } else { NullsHold(op.n); }
    }
    forall p: Id | Some(p) in w'.roots ensures w'.heap.Live(p) { PendingLive(w.heap, p, w.roots); }
    match op
    case Create(dest, n) =>
      if dest.Field? { MorePaths(w, n, dest.o); }
      ReachableHeld(w', dest, Some(|w.heap.cells|));
    case Assign(dest, src) => ReachableHeld(w, dest, Read(w, src));
    case _ =>
  }

  /** Counts, liveness and the list of deleted objects stay right under every allowed operation. */
  lemma {:induction false} StepInv(w: World, op: Op)
    requires Inv(w.heap, w.roots) && Allowed(w, op)
    ensures Inv(Step(w, op).heap, Step(w, op).roots)
  {
    hide Inv, Step, Safe;
    AllowedSafe(w, op);
    StepFaultIff(w, op);
  }

  lemma {:induction false} DeclareInv(h: Heap, roots: seq<Handle>)
    requires Inv(h, roots)
    ensures Inv(h, roots + [None])
  {
    SameButNulls(h, roots, roots + [None]);
  }

  lemma {:induction false} MorePaths(w: World, n: nat, o: Id)
    requires Reachable(w, o)
    ensures Reachable(w.(heap := w.heap.(cells := w.heap.cells + [Cell(true, 0, Nulls(n))])), o)
  {
    var path :| IsPath(w, path) && path[|path| - 1] == o;
    assert IsPath(w.(heap := w.heap.(cells := w.heap.cells + [Cell(true, 0, Nulls(n))])), path);
  }

  // ---- What each operation does ------------------------------------------------------------------

  lemma {:induction false} DrainNull(h: Heap)
    ensures Drain(h, [None]) == h
  {
    var none: seq<Handle> := [None];
    assert none[1..] == [] && Drain(h, []) == h;
  }

  lemma {:induction false} DrainShared(h: Heap, o: Id)
    requires !h.fault && h.Live(o) && h.cells[o].refcnt != 1
    ensures Drain(h, [Some(o)]) == h.WithCount(o, h.cells[o].refcnt - 1)
  {
    assert [Some(o)][1..] == [];
    assert Drain(h.WithCount(o, h.cells[o].refcnt - 1), []) == h.WithCount(o, h.cells[o].refcnt - 1);
  }

  /** An assignment that goes well is the release of the old contents and the writing of the new ones. */
  lemma {:induction false} AssignIs(w: World, dest: Loc, x: Handle)
    requires Inv(w.heap.AddRef(x), w.roots + [x]) && Valid(w, dest) && OwnerHeld(w, dest, x)
    ensures var w1 := w.(heap := w.heap.AddRef(x));
            && Valid(w1, dest)
            && var w2 := ReleaseOld(w1, dest);
            && Valid(w2, dest) && AssignHandle(w, dest, x) == Write(w2, dest, x)
            && Survivors(Write(w1, dest, None).heap, w2.heap)
  {
    hide Inv, Drain, OwnerHeld, ReleaseOld, Survivors;
    var w1 := w.(heap := w.heap.AddRef(x));
    AddRefKeeps(w.heap, x);
    SameOwner(w, w1, dest, x);
    ReleaseOldInv(w1, dest, x);
    var w2 := ReleaseOld(w1, dest);
    NoFault(w2.heap, w2.roots + [x]);
    var w3 := Write(w2, dest, x);
    if x.Some? {
      PendingCounted(w2.heap, x.value, w2.roots + [x]);
      var counted := w3.heap.AddRef(x);
      DrainShared(counted, x.value);
      assert counted.WithCount(x.value, counted.cells[x.value].refcnt - 1).cells == w3.heap.cells;
    } else {
      DrainNull(w3.heap);
    }
  }

  lemma {:induction false} PendingCounted(h: Heap, o: Id, others: seq<Handle>)
    requires Inv(h, others) && Some(o) in others
    ensures h.Live(o) && h.cells[o].refcnt >= 1
  {
    hide Handles, Held;
    PendingLive(h, o, others);
  }

  /** The variables of `w` but `dest`, and the fields but `dest` of the objects of `w` that are still alive, hold what
      they held. */
  ghost predicate OnlyAt(w: World, w': World, dest: Option<Loc>) {
    && (forall i | 0 <= i < |w.roots| :: dest != Some(Root(i)) ==> i < |w'.roots| && w'.roots[i] == w.roots[i])
    && (forall o | 0 <= o < |w.heap.cells| && w'.heap.Live(o) ::
          && w.heap.Live(o) && |w'.heap.cells[o].fields| == |w.heap.cells[o].fields|
          && forall f | 0 <= f < |w.heap.cells[o].fields| ::
               dest != Some(Field(o, f)) ==> w'.heap.cells[o].fields[f] == w.heap.cells[o].fields[f])
  }

  lemma {:induction false} AssignHandleDoes(w: World, dest: Loc, x: Handle)
    requires Inv(w.heap.AddRef(x), w.roots + [x]) && Valid(w, dest) && OwnerHeld(w, dest, x)
    ensures var w' := AssignHandle(w, dest, x);
            && |w'.roots| == |w.roots| && |w'.heap.cells| == |w.heap.cells|
            && Valid(w', dest) && Read(w', dest) == x && OnlyAt(w, w', Some(dest))
  {
    hide Inv, Drain, OwnerHeld, AssignHandle;
    AssignIs(w, dest, x);
    AddRefKeeps(w.heap, x);
  }

  /** `operator=`: the destination holds what the source held before, whatever it held itself, and nothing else
      changes but that objects may be deleted. */
  lemma {:induction false} AssignDoes(w: World, dest: Loc, src: Loc)
    requires Inv(w.heap, w.roots) && Possible(w, Assign(dest, src)) && Safe(w, Assign(dest, src))
    ensures var w' := Step(w, Assign(dest, src));
            && |w'.roots| == |w.roots| && |w'.heap.cells| == |w.heap.cells|
            && Valid(w', dest) && Read(w', dest) == Read(w, src) && OnlyAt(w, w', Some(dest))
  {
    hide Inv, AssignHandle, OwnerHeld, OnlyAt;
    if Read(w, src).Some? { SourceLive(w, src); }
    AddRefInv(w.heap, w.roots, Read(w, src));
    AssignHandleDoes(w, dest, Read(w, src));
  }

  /** The destination holds a new object with so many null fields. */
  lemma {:induction false} CreateDoes(w: World, dest: Loc, n: nat)
    requires Inv(w.heap, w.roots) && Possible(w, Create(dest, n)) && Safe(w, Create(dest, n))
    ensures var w', o := Step(w, Create(dest, n)), |w.heap.cells|;
            && |w'.roots| == |w.roots| && |w'.heap.cells| == o + 1
            && Valid(w', dest) && Read(w', dest) == Some(o)
            && w'.heap.Live(o) && |w'.heap.cells[o].fields| == n
            && (forall f | 0 <= f < n :: w'.heap.cells[o].fields[f] == None)
            && OnlyAt(w, w', Some(dest))
  {
    hide Inv, AssignHandle, OwnerHeld;
    var b, x := Before(w, Create(dest, n)), Some(|w.heap.cells|);
    NewCellInv(w.heap, w.roots, n);
    AssignHandleDoes(b, dest, x);
    var w' := Step(w, Create(dest, n));
    StepFaultIff(w, Create(dest, n));
    if dest.Root? { PendingLive(w'.heap, x.value, w'.roots); } else { TargetLive(w'.heap, w'.roots, dest.o, x.value); }
    assert dest.Field? ==> dest.o < |w.heap.cells|;
  }

  /** A copied handle is one more variable that holds what the source holds; no object is touched. */
  lemma {:induction false} CopyDoes(w: World, src: Loc)
    requires Inv(w.heap, w.roots) && Possible(w, Copy(src))
    ensures var w' := Step(w, Copy(src));
            && |w'.roots| == |w.roots| + 1 && w'.roots[|w.roots|] == Read(w, src)
            && |w'.heap.cells| == |w.heap.cells| && w'.heap.freed == w.heap.freed && OnlyAt(w, w', None)
  {
    hide Inv;
    AddRefKeeps(w.heap, Read(w, src));
  }

  /** A declared handle is null; a destroyed one is gone, and the others move up. */
  lemma {:induction false} DeclareDestroyDo(w: World, i: nat)
    requires Inv(w.heap, w.roots)
    ensures Step(w, Declare) == World(w.heap, w.roots + [None])
    ensures i < |w.roots| ==>
      var w' := Step(w, Destroy(i));
      && |w'.roots| == |w.roots| - 1
      && (forall k | 0 <= k < |w'.roots| :: w'.roots[k] == w.roots[if k < i then k else k + 1])
      && |w'.heap.cells| == |w.heap.cells|
      && forall o | 0 <= o < |w.heap.cells| && w'.heap.Live(o) ::
           w.heap.Live(o) && w'.heap.cells[o].fields == w.heap.cells[o].fields
  {
    hide Inv, Drain;
    if i < |w.roots| {
      var rest := w.roots[..i] + w.roots[i + 1..];
      assert w.roots == w.roots[..i] + [w.roots[i]] + w.roots[i + 1..];
      InvSame(w.heap, w.roots, [w.roots[i]] + rest);
      DrainInv(w.heap, [w.roots[i]], rest);
    }
  }

  /** Objects without fields, each with one handle. */
  predicate Leaves(h: Heap, ids: seq<Id>) {
    && (forall i | 0 <= i < |ids| :: h.Live(ids[i]) && h.cells[ids[i]].refcnt == 1 && h.cells[ids[i]].fields == [])
    && forall i, j | 0 <= i < j < |ids| :: ids[i] != ids[j]
  }

  function To(ids: seq<Id>): seq<Handle> {
    seq(|ids|, i requires 0 <= i < |ids| => Some(ids[i]))
  }

  lemma {:induction false} LeavesDeleted(h: Heap, ids: seq<Id>)
    requires !h.fault && Leaves(h, ids)
    ensures Drain(h, To(ids)).freed == h.freed + ids
    decreases |ids|
  {
    if ids == [] {
      assert To(ids) == [];
    } else {
      assert To(ids)[1..] == To(ids[1..]) && To(ids)[0] == Some(ids[0]);
      var h' := h.Delete(ids[0]);
      LeavesDeleted(h', ids[1..]);
      assert Reverse([]) + To(ids[1..]) == To(ids[1..]);
      assert h.freed + [ids[0]] + ids[1..] == h.freed + ids;
    }
  }

  function Backwards(ids: seq<Id>): seq<Id> {
    seq(|ids|, i requires 0 <= i < |ids| => ids[|ids| - 1 - i])
  }

  lemma {:induction false} ReverseTo(ids: seq<Id>)
    ensures Reverse(To(ids)) == To(Backwards(ids))
  {
    if ids == [] {
      assert To(ids) == [];
    } else {
      ReverseTo(ids[1..]);
      assert To(ids)[1..] == To(ids[1..]);
      assert Backwards(ids) == Backwards(ids[1..]) + [ids[0]];
    }
  }

  /** When the last handle to an object goes, the object is deleted before those in its fields, and of these the
      one in the last field first. */
  lemma {:induction false} DeletionOrder(h: Heap, o: Id, ids: seq<Id>)
    requires !h.fault && h.Live(o) && h.cells[o].refcnt == 1 && h.cells[o].fields == To(ids)
    requires Leaves(h, ids) && o !in ids
    ensures Drain(h, [Some(o)]).freed == h.freed + [o] + Backwards(ids)
  {
    ReverseTo(ids);
    assert [Some(o)][1..] == [] && To(Backwards(ids)) + [] == To(Backwards(ids));
    forall i, j | 0 <= i < j < |ids| ensures Backwards(ids)[i] != Backwards(ids)[j] {}
    LeavesDeleted(h.Delete(o), Backwards(ids));
  }

  // ---- Every run ---------------------------------------------------------------------------------

  function Start(): World {
    World(Heap([], [], false), [])
  }

  ghost predicate Runs(w: World, ops: seq<Op>, w': World)
    decreases |ops|
  {
    if ops == [] then w' == w
    else Allowed(w, ops[0]) && Runs(Step(w, ops[0]), ops[1..], w')
  }

  lemma {:induction false} RunInv(w: World, ops: seq<Op>, w': World)
    requires Inv(w.heap, w.roots) && Runs(w, ops, w')
    ensures Inv(w'.heap, w'.roots)
    decreases |ops|
  {
    hide Inv, Step;
    if ops != [] {
      StepInv(w, ops[0]);
      RunInv(Step(w, ops[0]), ops[1..], w');
    }
  }

  /** Over every run from the empty program: counts are the numbers of live handles, no handle points to
      a deleted object, and objects are deleted once, exactly when no handle to them is left. */
  lemma {:induction false} RunSafe(ops: seq<Op>, w: World)
    requires Runs(Start(), ops, w)
    ensures Inv(w.heap, w.roots)
  {
    StartInv();
    RunInv(Start(), ops, w);
  }

  /** A run of any operations that the program text permits. */
  predicate CanRun(w: World, ops: seq<Op>)
    decreases |ops|
  {
    ops == [] || (Possible(w, ops[0]) && CanRun(Step(w, ops[0]), ops[1..]))
  }

  function Final(w: World, ops: seq<Op>): World
    requires CanRun(w, ops)
    decreases |ops|
  {
    if ops == [] then w else Final(Step(w, ops[0]), ops[1..])
  }

  ghost predicate AllSafe(w: World, ops: seq<Op>)
    requires CanRun(w, ops)
    decreases |ops|
  {
    ops == [] || (Safe(w, ops[0]) && AllSafe(Step(w, ops[0]), ops[1..]))
  }

  lemma {:induction false} DrainFault(h: Heap, pending: seq<Handle>)
    requires h.fault
    ensures Drain(h, pending).fault
  {
  }

  lemma {:induction false} StepFault(w: World, op: Op)
    requires Possible(w, op) && w.heap.fault
    ensures Step(w, op).heap.fault
  {
    hide Drain;
    match op
    case Destroy(i) => DrainFault(w.heap, [w.roots[i]]);
    case Create(dest, n) => AssignFault(Before(w, op), dest, Some(|w.heap.cells|));
    case Assign(dest, src) => AssignFault(w, dest, Read(w, src));
    case _ =>
  }

  lemma {:induction false} AssignFault(w: World, dest: Loc, x: Handle)
    requires Valid(w, dest) && w.heap.fault
    ensures AssignHandle(w, dest, x).heap.fault
  {
    hide Drain;
    var w1 := w.(heap := w.heap.AddRef(x));
    DrainFault(Write(w1, dest, None).heap, [Read(w1, dest)]);
    var w2 := ReleaseOld(w1, dest);
    if Valid(w2, dest) { DrainFault(Write(w2, dest, x).heap.AddRef(x), [x]); }
  }

  lemma {:induction false} FinalFault(w: World, ops: seq<Op>)
    requires CanRun(w, ops) && w.heap.fault
    ensures Final(w, ops).heap.fault
    decreases |ops|
  {
    hide Step;
    if ops != [] {
      StepFault(w, ops[0]);
      FinalFault(Step(w, ops[0]), ops[1..]);
    }
  }

  lemma {:induction false} FinalFaultIff(w: World, ops: seq<Op>)
    requires Inv(w.heap, w.roots) && CanRun(w, ops)
    ensures !Final(w, ops).heap.fault <==> AllSafe(w, ops)
    ensures AllSafe(w, ops) ==> Inv(Final(w, ops).heap, Final(w, ops).roots)
    decreases |ops|
  {
    hide Inv, Step, Safe;
    if ops == [] {
      NoFault(w.heap, w.roots);
    } else {
      StepFaultIff(w, ops[0]);
      if Safe(w, ops[0]) { FinalFaultIff(Step(w, ops[0]), ops[1..]); } else { FinalFault(Step(w, ops[0]), ops[1..]); }
    }
  }

  /** Over every run from the empty program: it never touches deleted memory if and only if every operation
      in it is safe, and then the invariant holds at its end. */
  lemma {:induction false} RunFaultIff(ops: seq<Op>)
    requires CanRun(Start(), ops)
    ensures !Final(Start(), ops).heap.fault <==> AllSafe(Start(), ops)
    ensures AllSafe(Start(), ops) ==> Inv(Final(Start(), ops).heap, Final(Start(), ops).roots)
  {
    hide Inv;
    StartInv();
    FinalFaultIff(Start(), ops);
  }

  lemma {:induction false} StartInv()
    ensures Inv(Start().heap, Start().roots)
  {
    forall o: Id ensures Handles(Start().heap, Start().roots)[Some(o)] == 0 {}
  }

  // ---- Leaks are cycles --------------------------------------------------------------------------

  /** Objects hold handles only to objects of a higher rank: there is no cycle. */
  ghost predicate Acyclic(h: Heap, rank: Id -> nat) {
    forall p: Id, o: Id :: h.Live(p) && Some(o) in h.cells[p].fields ==> rank(p) < rank(o)
  }

  lemma {:induction false} ReachableLive(w: World, o: Id)
    requires Inv(w.heap, w.roots) && Reachable(w, o)
    ensures w.heap.Live(o)
  {
    hide Inv;
    var path :| IsPath(w, path) && path[|path| - 1] == o;
    SurvivorsSelf(w.heap);
    PathSurvives(w.heap, w.heap, w.roots, path, |path| - 1);
  }

  /** Without cycles nothing leaks: the live objects are exactly the reachable ones. */
  lemma {:induction false} LiveIsReachable(w: World, rank: Id -> nat, o: Id)
    requires Inv(w.heap, w.roots) && Acyclic(w.heap, rank)
    ensures w.heap.Live(o) <==> Reachable(w, o)
    decreases rank(o)
  {
    hide Inv;
    if Reachable(w, o) { ReachableLive(w, o); }
    if w.heap.Live(o) {
      if Some(o) in w.roots {
        assert IsPath(w, [o]);
      } else {
        var p := Holder(w.heap, w.roots, o);
        LiveIsReachable(w, rank, p);
        var path :| IsPath(w, path) && path[|path| - 1] == p;
        assert IsPath(w, path + [o]);
      }
    }
  }

  lemma {:induction false} SurvivorsSelf(h: Heap)
    ensures Survivors(h, h)
  {
  }

  /** Two objects that hold each other, and a null variable. */
  function Knot(): World {
    World(Heap([Cell(true, 1, [Some(1)]), Cell(true, 1, [Some(0)])], [], false), [None])
  }

  // ---- A run that goes wrong ---------------------------------------------------------------------

  /** Storing a handle in an empty location. */
  lemma {:induction false} StoreEmpty(w: World, dest: Loc, o: Id)
    requires !w.heap.fault && Valid(w, dest) && Read(w, dest) == None && w.heap.Live(o) && w.heap.cells[o].refcnt >= 0
    ensures var w' := Write(w, dest, Some(o));
            o < |w'.heap.cells| && AssignHandle(w, dest, Some(o))
            == w'.(heap := w'.heap.WithCount(o, w.heap.cells[o].refcnt + 1))
  {
    hide Drain;
    var n := w.heap.cells[o].refcnt;
    var w1 := w.(heap := w.heap.AddRef(Some(o)));
    assert Write(w1, dest, None) == w1 by { WriteSame(w1, dest); }
    DrainNull(w1.heap);
    var w3 := Write(w1, dest, Some(o));
    var counted := w3.heap.AddRef(Some(o));
    DrainShared(counted, o);
    var w' := Write(w, dest, Some(o));
    assert counted.WithCount(o, n + 1).cells == w'.heap.WithCount(o, n + 1).cells;
  }

  lemma {:induction false} WriteSame(w: World, dest: Loc)
    requires Valid(w, dest)
    ensures Write(w, dest, Read(w, dest)) == w
  {
    match dest
    case Root(i) => assert w.roots[i := w.roots[i]] == w.roots;
    case Field(o, f) =>
      var c := w.heap.cells[o];
      assert c.fields[f := c.fields[f]] == c.fields;
      assert w.heap.cells[o := c] == w.heap.cells;
  }

  /** Steps that make the knot: two objects are created, one in a variable and one in the field of the other;
      the second is made to hold the first; and the variable is cleared. */
  function KnotSteps(): seq<Op> {
    [Declare, Create(Root(0), 1), Create(Field(0, 0), 1), Assign(Field(1, 0), Root(0)),
     Declare, Assign(Root(0), Root(1)), Destroy(1)]
  }

  /** The worlds on the way. */
  function KnotWorld(k: nat): World
    requires 1 <= k <= 7
  {
    var none: seq<Handle> := [None];
    if k == 1 then World(Heap([], [], false), none)
    else if k == 2 then World(Heap([Cell(true, 1, none)], [], false), [Some(0)])
    else if k == 3 then World(Heap([Cell(true, 1, [Some(1)]), Cell(true, 1, none)], [], false), [Some(0)])
    else if k == 4 then World(Heap([Cell(true, 2, [Some(1)]), Cell(true, 1, [Some(0)])], [], false), [Some(0)])
    else if k == 5 then World(Heap([Cell(true, 2, [Some(1)]), Cell(true, 1, [Some(0)])], [], false), [Some(0), None])
    else if k == 6 then World(Heap([Cell(true, 1, [Some(1)]), Cell(true, 1, [Some(0)])], [], false), [None, None])
    else Knot()
  }

  lemma {:induction false} KnotCreates()
    ensures Step(Start(), Declare) == KnotWorld(1)
    ensures Allowed(KnotWorld(1), Create(Root(0), 1)) && Step(KnotWorld(1), Create(Root(0), 1)) == KnotWorld(2)
    ensures Allowed(KnotWorld(2), Create(Field(0, 0), 1)) && Step(KnotWorld(2), Create(Field(0, 0), 1)) == KnotWorld(3)
  {
    hide AssignHandle;
    assert Nulls(1) == [None];
    StoreEmpty(Before(KnotWorld(1), Create(Root(0), 1)), Root(0), 0);
    assert [None][0 := Some(0)] == [Some(0)];
    assert Step(KnotWorld(1), Create(Root(0), 1)).heap.cells == KnotWorld(2).heap.cells;
    assert IsPath(KnotWorld(2), [0]);
    assert [0][|[0]| - 1] == 0;
    var b := Before(KnotWorld(2), Create(Field(0, 0), 1));
    StoreEmpty(b, Field(0, 0), 1);
    var none: seq<Handle> := [None];
    assert none[0 := Some(1)] == [Some(1)];
    assert Step(KnotWorld(2), Create(Field(0, 0), 1)).heap.cells == KnotWorld(3).heap.cells;
  }

  lemma {:induction false} KnotTies()
    ensures Allowed(KnotWorld(3), Assign(Field(1, 0), Root(0)))
    ensures Step(KnotWorld(3), Assign(Field(1, 0), Root(0))) == KnotWorld(4)
    ensures Step(KnotWorld(4), Declare) == KnotWorld(5)
  {
    hide AssignHandle;
    var w := KnotWorld(3);
    assert IsPath(w, [0, 1]);
    assert [0, 1][|[0, 1]| - 1] == 1;
    StoreEmpty(w, Field(1, 0), 0);
    var none: seq<Handle> := [None];
    assert none[0 := Some(0)] == [Some(0)];
    assert Step(w, Assign(Field(1, 0), Root(0))).heap.cells == KnotWorld(4).heap.cells;
  }

  lemma {:induction false} KnotLetsGo()
    ensures Step(KnotWorld(5), Assign(Root(0), Root(1))) == KnotWorld(6)
    ensures Step(KnotWorld(6), Destroy(1)) == Knot()
  {
    hide Drain;
    var w := KnotWorld(5);
    DrainShared(w.heap, 0);
    var h := w.heap.WithCount(0, 1);
    DrainNull(h);
    assert h.cells == KnotWorld(6).heap.cells;
    assert w.roots[0 := None] == [None, None] && w.roots[0 := None][0 := None] == [None, None];
    DrainNull(KnotWorld(6).heap);
    assert KnotWorld(6).roots[..1] + KnotWorld(6).roots[2..] == [None];
  }

  lemma {:induction false} KnotRuns()
    ensures Runs(Start(), KnotSteps(), Knot())
  {
    hide Step, Allowed, Knot, KnotWorld;
    KnotCreates();
    KnotTies();
    KnotLetsGo();
    AlwaysAllowed();
    var ops := KnotSteps();
    assert Runs(Knot(), ops[7..], Knot());
    assert ops[6..][0] == Destroy(1) && ops[6..][1..] == ops[7..];
    assert Runs(KnotWorld(6), ops[6..], Knot());
    assert ops[5..][0] == Assign(Root(0), Root(1)) && ops[5..][1..] == ops[6..];
    assert Runs(KnotWorld(5), ops[5..], Knot());
    assert ops[4..][0] == Declare && ops[4..][1..] == ops[5..];
    assert Runs(KnotWorld(4), ops[4..], Knot());
    assert ops[3..][0] == Assign(Field(1, 0), Root(0)) && ops[3..][1..] == ops[4..];
    assert Runs(KnotWorld(3), ops[3..], Knot());
    assert ops[2..][0] == Create(Field(0, 0), 1) && ops[2..][1..] == ops[3..];
    assert Runs(KnotWorld(2), ops[2..], Knot());
    assert ops[1..][0] == Create(Root(0), 1) && ops[1..][1..] == ops[2..];
    assert Runs(KnotWorld(1), ops[1..], Knot());
  }

  lemma {:induction false} AlwaysAllowed()
    ensures Allowed(Start(), Declare) && Allowed(KnotWorld(4), Declare)
    ensures Allowed(KnotWorld(5), Assign(Root(0), Root(1))) && Allowed(KnotWorld(6), Destroy(1))
  {
  }

  /** A run of allowed operations after which assigning to a field writes into a deleted object: two objects
      hold each other, no variable reaches them, and the field is all that keeps its owner alive. */
  lemma {:induction false} WriteAfterDelete()
    ensures Runs(Start(), KnotSteps(), Knot()) && Possible(Knot(), Assign(Field(0, 0), Root(0)))
    ensures Step(Knot(), Assign(Field(0, 0), Root(0))).heap.fault
  {
    hide Inv, AssignHandle, Runs, OwnerHeld;
    KnotRuns();
    RunSafe(KnotSteps(), Knot());
    KnotUnheld();
    StepFaultIff(Knot(), Assign(Field(0, 0), Root(0)));
  }

  lemma {:induction false} KnotUnheld()
    ensures !OwnerHeld(Knot(), Field(0, 0), None)
  {
    forall s: set<Id> ensures !(0 in s && Supported(Without(Knot(), Field(0, 0), None), s)) {
      var w := Without(Knot(), Field(0, 0), None);
      assert w.heap.cells[0].fields == [None] && w.heap.cells[1].fields == [Some(0)];
      assert 0 in s && Supported(w, s) ==> HeldFrom(w.heap, s, 0);
      assert HeldFrom(w.heap, s, 0) ==> 1 in s;
      assert !HeldFrom(w.heap, s, 1);
    }
  }
}
