/** The client's socket bookkeeping (`ClientImpl::send`, `stop` and the socket helpers) as a transition
    system over any number of threads. Each critical section under `socket_mutex_` is one step. */
module ClientSocket {
  import opened Text

  type Thread = nat

  datatype Sock = Invalid | Open(id: nat, down: bool)

  /** Where a `send` is: it holds the request mutex, it is processing its request, or it is about to return. */
  datatype Frame =
    | Entered
    | InFlight(closeConnection: bool)
    | Leaving

  datatype State = State(
    owner: Option<Thread>,               // request_mutex_, a recursive mutex
    depth: nat,
    sends: map<Thread, seq<Frame>>,      // the active sends of each thread, outermost first
    inFlight: nat,                       // socket_requests_in_flight_
    from: Option<Thread>,                // socket_requests_are_from_thread_
    closeWhenDone: bool,                 // socket_should_be_closed_when_request_is_done_
    sock: Sock,
    created: nat,                         // sockets made so far
    broken: bool)                        // an assert of the source has failed
  {
    function Sends(t: Thread): seq<Frame> {
      if t in sends then sends[t] else []
    }

    predicate Top(t: Thread) {
      Sends(t) != []
    }

    function Last(t: Thread): Frame
      requires Top(t)
    {
      Sends(t)[|Sends(t)| - 1]
    }

    function WithLast(t: Thread, f: Frame): State
      requires Top(t)
    {
      this.(sends := sends[t := Sends(t)[..|Sends(t)| - 1] + [f]])
    }

    /** The assert of `shutdown_ssl` and `close_socket`. */
    predicate MayClose(t: Thread) {
      inFlight == 0 || from == Some(t)
    }

    /** `shutdown_ssl`, `shutdown_socket`, `close_socket`, in this order. */
    function Close(t: Thread): State {
      this.(sock := Invalid, broken := broken || !MayClose(t))
    }
  }

  datatype Action =
    | Lock(t: Thread)                                                   // enter send
    | Begin(t: Thread, alive: bool, connected: bool, keepAlive: bool)   // first section of send
    | CloseByPeer(t: Thread)                                            // "Connection: close" in the response
    | Finish(t: Thread, ret: bool)                                      // last section of send
    | Unlock(t: Thread)                                                 // leave send
    | Stop(t: Thread)

  function Initial(): State {
    State(None, 0, map[], 0, None, false, Invalid, 0, false)
  }

  predicate Enabled(s: State, a: Action) {
    match a
    case Lock(t) =>
      (s.owner == None || s.owner == Some(t)) && (s.Top(t) ==> s.Last(t).InFlight?)
    case Begin(t, _, _, _) => s.Top(t) && s.Last(t).Entered?
    case CloseByPeer(t) => s.Top(t) && s.Last(t).InFlight?
    case Finish(t, _) => s.Top(t) && s.Last(t).InFlight?
    case Unlock(t) => s.Top(t) && s.Last(t).Leaving?
    case Stop(_) => true
  }

  function Step(s: State, a: Action): State
    requires Enabled(s, a)
  {
    match a
    case Lock(t) => s.(owner := Some(t), depth := s.depth + 1, sends := s.sends[t := s.Sends(t) + [Entered]])
    case Begin(t, alive, connected, keepAlive) => BeginSection(s, t, alive, connected, keepAlive)
    case CloseByPeer(t) => s.Close(t)
    case Finish(t, ret) => FinishSection(s, t, ret)
    case Unlock(t) =>
      s.(owner := if s.depth <= 1 then None else s.owner,
         depth := if s.depth == 0 then 0 else s.depth - 1,
         sends := s.sends[t := s.Sends(t)[..|s.Sends(t)| - 1]])
    case Stop(t) =>
      if s.inFlight > 0
      then s.(sock := if s.sock.Open? then s.sock.(down := true) else s.sock, closeWhenDone := true)
      else s.Close(t)
  }

  /** `alive` is what `select_write` says about an open socket. */
  function BeginSection(s: State, t: Thread, alive: bool, connected: bool, keepAlive: bool): State
    requires s.Top(t)
  {
    var usable := s.sock.Open? && alive;
    var s1 := s.(closeWhenDone := false);
    var s2 := if s1.sock.Open? && !alive then s1.Close(t) else s1;
    if !usable && !connected then s2.WithLast(t, Leaving)
    else
      var s3 := if usable then s2 else s2.(sock := Open(s2.created, false), created := s2.created + 1);
      var s4 := s3.(broken := s3.broken || (s3.inFlight > 1 && s3.from != Some(t)));
      s4.(inFlight := s4.inFlight + 1, from := Some(t)).WithLast(t, InFlight(!keepAlive))
  }

  function FinishSection(s: State, t: Thread, ret: bool): State
    requires s.Top(t) && s.Last(t).InFlight?
  {
    var n := if s.inFlight == 0 then 0 else s.inFlight - 1;
    var s1 := s.(inFlight := n, broken := s.broken || s.inFlight == 0, from := if n == 0 then None else s.from);
    var s2 := if s1.closeWhenDone || s.Last(t).closeConnection || !ret then s1.Close(t) else s1;
    s2.WithLast(t, Leaving)
  }

  // ---- The invariant -----------------------------------------------------------------------------

  function Flying(frames: seq<Frame>): nat {
    if frames == [] then 0
    else Flying(frames[..|frames| - 1]) + if frames[|frames| - 1].InFlight? then 1 else 0
  }

  /** The asserts hold; one thread at a time is sending, the owner of the request mutex; the counter is
      the number of its sends that are processing a request; those are all but possibly the innermost;
      and while there is one, the owner is the recorded thread. */
  ghost predicate Inv(s: State) {
    && !s.broken
    && (forall t: Thread :: s.Top(t) ==> s.owner == Some(t))
    && (s.owner == None ==> s.depth == 0 && s.inFlight == 0)
    && (s.owner.Some? ==>
          var frames := s.Sends(s.owner.value);
          && s.depth == |frames| > 0
          && s.inFlight == Flying(frames)
          && (forall i | 0 <= i < |frames| - 1 :: frames[i].InFlight?))
    && (s.inFlight > 0 ==> s.from == s.owner && s.owner.Some?)
    && (s.inFlight == 0 ==> s.from == None)
  }

  lemma {:induction false} FlyingPush(frames: seq<Frame>, f: Frame)
    ensures Flying(frames + [f]) == Flying(frames) + if f.InFlight? then 1 else 0
  {
    assert (frames + [f])[..|frames|] == frames;
  }

  lemma {:induction false} InitialInv()
    ensures Inv(Initial())
  {
  }

  /** What the invariant says about the thread that is sending: its innermost send on top of others that
      are all processing a request. */
  lemma {:induction false} OwnerFrames(s: State, t: Thread)
    requires Inv(s) && s.Top(t)
    ensures s.owner == Some(t) && s.depth == |s.Sends(t)|
    ensures Flying(s.Sends(t)[..|s.Sends(t)| - 1]) == |s.Sends(t)| - 1
    ensures s.inFlight == |s.Sends(t)| - if s.Last(t).InFlight? then 0 else 1
  {
    AllFlying(s.Sends(t)[..|s.Sends(t)| - 1]);
  }

  lemma {:induction false} AllFlying(frames: seq<Frame>)
    requires forall i | 0 <= i < |frames| :: frames[i].InFlight?
    ensures Flying(frames) == |frames|
  {
    if frames != [] { AllFlying(frames[..|frames| - 1]); }
  }

  /** Replacing the innermost frame, with the counter adjusted, keeps the invariant. */
  lemma {:induction false} ReplaceInv(s: State, t: Thread, f: Frame, s': State)
    requires Inv(s) && s.Top(t) && !s'.broken
    requires s'.owner == s.owner && s'.depth == s.depth && s'.sends == s.WithLast(t, f).sends
    requires s'.inFlight == |s.Sends(t)| - if f.InFlight? then 0 else 1
    requires s'.from == if s'.inFlight > 0 then Some(t) else None
    ensures Inv(s')
  {
    hide Flying;
    OwnerFrames(s, t);
    var below := s.Sends(t)[..|s.Sends(t)| - 1];
    FlyingPush(below, f);
    assert s'.Sends(t) == below + [f];
  }

  lemma {:induction false} LockInv(s: State, t: Thread)
    requires Inv(s) && Enabled(s, Lock(t))
    ensures Inv(Step(s, Lock(t)))
  {
    FlyingPush(s.Sends(t), Entered);
    if s.Top(t) { OwnerFrames(s, t); }
  }

  lemma {:induction false} UnlockInv(s: State, t: Thread)
    requires Inv(s) && Enabled(s, Unlock(t))
    ensures Inv(Step(s, Unlock(t)))
  {
    hide Flying;
    OwnerFrames(s, t);
    EmptyFlying();
  }

  lemma {:induction false} EmptyFlying()
    ensures Flying([]) == 0
  {
  }

  lemma {:induction false} BeginInv(s: State, t: Thread, alive: bool, connected: bool, keepAlive: bool)
    requires Inv(s) && s.Top(t) && s.Last(t).Entered?
    ensures Inv(BeginSection(s, t, alive, connected, keepAlive))
  {
    hide Inv, Flying;
    OwnerFrames(s, t);
    InvFrom(s);
    var s' := BeginSection(s, t, alive, connected, keepAlive);
    ReplaceInv(s, t, s'.Last(t), s');
  }

  lemma {:induction false} FinishInv(s: State, t: Thread, ret: bool)
    requires Inv(s) && s.Top(t) && s.Last(t).InFlight?
    ensures Inv(FinishSection(s, t, ret))
  {
    hide Inv, Flying;
    OwnerFrames(s, t);
    InvFrom(s);
    ReplaceInv(s, t, Leaving, FinishSection(s, t, ret));
  }

  lemma {:induction false} CloseInv(s: State, t: Thread)
    requires Inv(s) && s.MayClose(t)
    ensures Inv(s.Close(t))
  {
  }

  /** The asserts of the source, on states that no run reaches too: a socket may only be closed when no request is in
      flight or by the thread whose requests they are, only that thread may begin another beside two or more, and only
      a request that is counted may finish. */
  lemma {:induction false} AssertsFail(s: State, a: Action)
    requires Enabled(s, a)
    ensures a.CloseByPeer? || (a.Begin? && s.sock.Open? && !a.alive) ==>
      s.inFlight > 0 && s.from != Some(a.t) ==> Step(s, a).broken
    ensures a.Begin? && a.connected && s.inFlight > 1 && s.from != Some(a.t) ==> Step(s, a).broken
    ensures a.Finish? ==>
      s.inFlight == 0 || (s.inFlight > 1 && s.from != Some(a.t) && s.closeWhenDone) ==> Step(s, a).broken
    ensures s.broken ==> Step(s, a).broken
  {
  }

  /** Every step of every thread keeps the invariant, so none of the asserts ever fails. */
  lemma {:induction false} StepInv(s: State, a: Action)
    requires Inv(s) && Enabled(s, a)
    ensures Inv(Step(s, a))
  {
    match a
    case Lock(t) => LockInv(s, t);
    case Unlock(t) => UnlockInv(s, t);
    case Begin(t, alive, connected, keepAlive) => BeginInv(s, t, alive, connected, keepAlive);
    case Finish(t, ret) => FinishInv(s, t, ret);
    case CloseByPeer(t) =>
      OwnerFrames(s, t);
      CloseInv(s, t);
    case Stop(t) =>
      if s.inFlight == 0 { CloseInv(s, t); }
  }

  lemma {:induction false} InvFrom(s: State)
    requires Inv(s)
    ensures !s.broken && s.from == if s.inFlight > 0 then s.owner else None
  {
  }

  // ---- Runs --------------------------------------------------------------------------------------

  /** The state after a run from the start, or `None` if some step was not possible. */
  function Exec(run: seq<Action>): Option<State> {
    if run == [] then Some(Initial())
    else
      var before := Exec(run[..|run| - 1]);
      var a := run[|run| - 1];
      if before.Some? && Enabled(before.value, a) then Some(Step(before.value, a)) else None
  }

  lemma {:induction false} ExecPush(run: seq<Action>, a: Action)
    ensures Exec(run + [a])
         == if Exec(run).Some? && Enabled(Exec(run).value, a) then Some(Step(Exec(run).value, a)) else None
  {
    hide Step, Enabled;
    assert (run + [a])[..|run|] == run;
  }

  /** Safety over every run: the invariant, and with it all asserts. */
  lemma {:induction false} RunSafe(run: seq<Action>)
    requires Exec(run).Some?
    ensures Inv(Exec(run).value)
    decreases |run|
  {
    hide Inv, Step, Enabled;
    if run == [] {
      InitialInv();
    } else {
      RunSafe(run[..|run| - 1]);
      StepInv(Exec(run[..|run| - 1]).value, run[|run| - 1]);
    }
  }

  function Actor(a: Action): Thread {
    a.t
  }

  // ---- What the actions of a run say -------------------------------------------------------------

  function SockAfter(run: seq<Action>): Sock {
    match Exec(run)
    case None => Invalid
    case Some(s) => s.sock
  }

  /** What an action of `t` makes of its sends in flight; `open` says that there was a socket. */
  function Moved(was: seq<bool>, a: Action, t: Thread, open: bool): seq<bool> {
    match a
    case Begin(u, alive, connected, keepAlive) =>
      if u == t && (connected || (alive && open)) then was + [keepAlive] else was
    case Finish(u, _) => if u == t && was != [] then was[..|was| - 1] else was
    case _ => was
  }

  /** The sends of `t` that have begun with a socket and not finished, outermost first: whether the connection is
      to be kept. */
  function Flights(run: seq<Action>, t: Thread): seq<bool> {
    if run == [] then []
    else
      var before := run[..|run| - 1];
      Moved(Flights(before, t), run[|run| - 1], t, SockAfter(before).Open?)
  }

  /** How many sends of `t` have been entered and not left. */
  function Active(run: seq<Action>, t: Thread): int {
    if run == [] then 0
    else
      var a := run[|run| - 1];
      Active(run[..|run| - 1], t) + if a == Lock(t) then 1 else if a == Unlock(t) then -1 else 0
  }

  /** No request is in flight. */
  ghost predicate Idle(run: seq<Action>) {
    forall t: Thread :: Flights(run, t) == []
  }

  /** The same, as the frames record it. */
  function Flags(frames: seq<Frame>): seq<bool> {
    if frames == [] then []
    else
      var last := frames[|frames| - 1];
      Flags(frames[..|frames| - 1]) + if last.InFlight? then [!last.closeConnection] else []
  }

  lemma {:induction false} FlagsPush(frames: seq<Frame>, f: Frame)
    ensures Flags(frames + [f]) == Flags(frames) + if f.InFlight? then [!f.closeConnection] else []
  {
    assert (frames + [f])[..|frames|] == frames;
  }

  lemma {:induction false} FlagsFlying(frames: seq<Frame>)
    ensures |Flags(frames)| == Flying(frames)
  {
    if frames != [] { FlagsFlying(frames[..|frames| - 1]); }
  }

  /** The innermost frame of `t` is replaced. */
  lemma {:induction false} FlagsReplaced(s: State, t: Thread, f: Frame, s': State)
    requires s.Top(t) && s'.sends == s.WithLast(t, f).sends
    ensures var below := Flags(s.Sends(t)[..|s.Sends(t)| - 1]);
            && Flags(s'.Sends(t)) == below + (if f.InFlight? then [!f.closeConnection] else [])
            && Flags(s.Sends(t)) == below + (if s.Last(t).InFlight? then [!s.Last(t).closeConnection] else [])
            && |s'.Sends(t)| == |s.Sends(t)|
  {
    var below := s.Sends(t)[..|s.Sends(t)| - 1];
    FlagsPush(below, f);
    FlagsPush(below, s.Last(t));
    assert s.Sends(t) == below + [s.Last(t)] && s'.Sends(t) == below + [f];
  }

  lemma {:induction false} OtherSends(s: State, a: Action, t: Thread)
    requires Enabled(s, a) && a.t != t
    ensures Step(s, a).Sends(t) == s.Sends(t)
  {
  }

  lemma {:induction false} BeginFlights(s: State, t: Thread, alive: bool, connected: bool, keepAlive: bool)
    requires s.Top(t) && s.Last(t).Entered?
    ensures var s' := BeginSection(s, t, alive, connected, keepAlive);
            Flags(s'.Sends(t)) == Moved(Flags(s.Sends(t)), Begin(t, alive, connected, keepAlive), t, s.sock.Open?)
            && |s'.Sends(t)| == |s.Sends(t)|
  {
    hide Flags;
    var s' := BeginSection(s, t, alive, connected, keepAlive);
    FlagsReplaced(s, t, s'.Last(t), s');
  }

  lemma {:induction false} FinishFlights(s: State, t: Thread, ret: bool)
    requires s.Top(t) && s.Last(t).InFlight?
    ensures var s' := FinishSection(s, t, ret);
            Flags(s'.Sends(t)) == Moved(Flags(s.Sends(t)), Finish(t, ret), t, s.sock.Open?)
            && |s'.Sends(t)| == |s.Sends(t)|
  {
    hide Flags;
    FlagsReplaced(s, t, Leaving, FinishSection(s, t, ret));
  }

  lemma {:induction false} LeaveFlights(s: State, t: Thread)
    requires s.Top(t) && s.Last(t).Leaving?
    ensures var s' := Step(s, Unlock(t)); Flags(s'.Sends(t)) == Flags(s.Sends(t)) && |s'.Sends(t)| == |s.Sends(t)| - 1
  {
    hide Flags;
    var below := s.Sends(t)[..|s.Sends(t)| - 1];
    FlagsPush(below, s.Last(t));
    assert s.Sends(t) == below + [s.Last(t)];
  }

  /** What one step does to the sends of a thread. */
  lemma {:induction false} StepFlights(s: State, a: Action, t: Thread)
    requires Enabled(s, a)
    ensures Flags(Step(s, a).Sends(t)) == Moved(Flags(s.Sends(t)), a, t, s.sock.Open?)
    ensures |Step(s, a).Sends(t)| == |s.Sends(t)| + if a == Lock(t) then 1 else if a == Unlock(t) then -1 else 0
  {
    hide Flags, BeginSection, FinishSection;
    if a.t != t {
      OtherSends(s, a, t);
    } else {
      match a
      case Lock(_) => FlagsPush(s.Sends(t), Entered);
      case Unlock(_) => LeaveFlights(s, t);
      case Begin(_, alive, connected, keepAlive) => BeginFlights(s, t, alive, connected, keepAlive);
      case Finish(_, ret) => FinishFlights(s, t, ret);
      case CloseByPeer(_) =>
      case Stop(_) =>
    }
  }

  lemma {:induction false} FlightsAre(run: seq<Action>, t: Thread)
    requires Exec(run).Some?
    ensures Flights(run, t) == Flags(Exec(run).value.Sends(t))
    ensures Active(run, t) == |Exec(run).value.Sends(t)|
    decreases |run|
  {
    hide Flags, Step, Enabled;
    if run == [] {
      NoFlags();
    } else {
      FlightsAre(run[..|run| - 1], t);
      StepFlights(Exec(run[..|run| - 1]).value, run[|run| - 1], t);
    }
  }

  lemma {:induction false} NoFlags()
    ensures Flags([]) == [] && Initial().sends == map[]
  {
  }

  /** The counter and the recorded thread of the source: requests in flight are those of one thread. */
  lemma {:induction false} CounterIs(run: seq<Action>, t: Thread)
    requires Exec(run).Some?
    ensures var s := Exec(run).value;
            Flights(run, t) != [] ==> s.inFlight == |Flights(run, t)| && s.from == s.owner == Some(t)
    ensures Idle(run) <==> Exec(run).value.inFlight == 0
    ensures forall u: Thread | Flights(run, t) != [] && Flights(run, u) != [] :: u == t
  {
    hide Exec, Flags, Flying;
    RunSafe(run);
    var s := Exec(run).value;
    forall u: Thread ensures |Flights(run, u)| == (if s.owner == Some(u) then s.inFlight else 0) {
      FlightsAre(run, u);
      FlagsFlying(s.Sends(u));
      EmptyFlying();
    }
  }

  /** While one thread has a request in flight no other has. */
  lemma {:induction false} OneSender(run: seq<Action>, t: Thread, u: Thread)
    requires Exec(run).Some? && Flights(run, t) != [] && Flights(run, u) != []
    ensures t == u
  {
    CounterIs(run, t);
  }

  ghost predicate OthersOut(s: State, t: Thread) {
    forall u: Thread | u != t :: s.Sends(u) == []
  }

  lemma {:induction false} EnterState(s: State, t: Thread)
    requires Inv(s)
    ensures Enabled(s, Lock(t)) <==> OthersOut(s, t) && |s.Sends(t)| == Flying(s.Sends(t))
  {
    hide Flying;
    forall u: Thread ensures s.Sends(u) == [] || s.owner == Some(u) { assert s.Top(u) <==> s.Sends(u) != []; }
    if s.Top(t) {
      OwnerFrames(s, t);
    } else {
      EmptyFlying();
      if s.owner.Some? { assert s.Top(s.owner.value); }
    }
  }

  /** No thread other than `t` is in a `send`. */
  ghost predicate Alone(run: seq<Action>, t: Thread) {
    forall u: Thread | u != t :: Active(run, u) == 0
  }

  lemma {:induction false} AloneIff(run: seq<Action>, t: Thread)
    requires Exec(run).Some?
    ensures Alone(run, t) <==> OthersOut(Exec(run).value, t)
  {
    hide Exec, Flags, Flights;
    var s := Exec(run).value;
    forall u: Thread ensures Active(run, u) == 0 <==> s.Sends(u) == [] { FlightsAre(run, u); }
    if OthersOut(s, t) {
      forall u: Thread | u != t ensures Active(run, u) == 0 { assert s.Sends(u) == []; }
    }
  }

  /** A `send` can be entered exactly if no other thread is in one, and all those of this thread, in which it is
      nested, have their requests in flight. */
  lemma {:induction false} EnterIff(run: seq<Action>, t: Thread)
    requires Exec(run).Some?
    ensures Exec(run + [Lock(t)]).Some? <==> Alone(run, t) && Active(run, t) == |Flights(run, t)|
  {
    hide Exec, Step, Flags, Flying, Inv, Enabled, Alone, OthersOut;
    var s := Exec(run).value;
    ExecPush(run, Lock(t));
    RunSafe(run);
    EnterState(s, t);
    AloneIff(run, t);
    FlightsAre(run, t);
    FlagsFlying(s.Sends(t));
  }

  /** A thread whose innermost `send` has its request in flight can be told to close by the peer, and finish; one
      with a `send` beyond those can either begin it or leave it. */
  lemma {:induction false} MovesIff(run: seq<Action>, t: Thread, begin: Action, ret: bool)
    requires Exec(run).Some? && begin.Begin? && begin.t == t
    ensures var flying := Active(run, t) == |Flights(run, t)| > 0;
            && (Exec(run + [CloseByPeer(t)]).Some? <==> flying)
            && (Exec(run + [Finish(t, ret)]).Some? <==> flying)
    ensures Active(run, t) == |Flights(run, t)| + 1
       <==> Exec(run + [begin]).Some? || Exec(run + [Unlock(t)]).Some?
    ensures !(Exec(run + [begin]).Some? && Exec(run + [Unlock(t)]).Some?)
  {
    hide Exec, Flags, Flying;
    var s := Exec(run).value;
    ExecPush(run, CloseByPeer(t));
    ExecPush(run, Finish(t, ret));
    ExecPush(run, begin);
    ExecPush(run, Unlock(t));
    RunSafe(run);
    FlightsAre(run, t);
    FlagsFlying(s.Sends(t));
    if s.Top(t) { OwnerFrames(s, t); } else { EmptyFlying(); }
  }

  // ---- The socket that each action leaves --------------------------------------------------------

  /** `stop` closes the socket of an idle client; that of a request in flight it only shuts down. */
  lemma {:induction false} StopLeaves(run: seq<Action>, t: Thread)
    requires Exec(run).Some?
    ensures Exec(run + [Stop(t)]).Some?
    ensures var was := SockAfter(run);
            SockAfter(run + [Stop(t)]) == if Idle(run) || was.Invalid? then Invalid else Open(was.id, true)
  {
    hide Exec;
    ExecPush(run, Stop(t));
    CounterIs(run, t);
  }

  /** No socket of the run had this number. */
  ghost predicate Unused(run: seq<Action>, id: nat) {
    forall k: nat | k <= |run| && SockAfter(run[..k]).Open? :: SockAfter(run[..k]).id != id
  }

  lemma {:induction false} StepNumbers(s: State, a: Action)
    requires Enabled(s, a) && (s.sock.Open? ==> s.sock.id < s.created)
    ensures var s' := Step(s, a); s'.created >= s.created && (s'.sock.Open? ==> s'.sock.id < s'.created)
  {
  }

  lemma {:induction false} SocketsNumbered(run: seq<Action>)
    requires Exec(run).Some?
    ensures SockAfter(run).Open? ==> SockAfter(run).id < Exec(run).value.created
    ensures forall k: nat | k <= |run| && SockAfter(run[..k]).Open? :: SockAfter(run[..k]).id < Exec(run).value.created
    decreases |run|
  {
    hide Enabled, Step;
    assert run[..|run|] == run;
    if run != [] {
      var before := run[..|run| - 1];
      SocketsNumbered(before);
      StepNumbers(Exec(before).value, run[|run| - 1]);
      forall k: nat | k <= |run| && SockAfter(run[..k]).Open?
        ensures SockAfter(run[..k]).id < Exec(run).value.created
      {
        if k < |run| { assert before[..k] == run[..k]; }
      }
    }
  }

  /** A `send` begins on the kept socket if that is open and alive, on a new one if a connection is made, and
      else without one. */
  lemma {:induction false} BeginLeaves(run: seq<Action>, begin: Action)
    requires begin.Begin? && Exec(run + [begin]).Some?
    ensures var was, now := SockAfter(run), SockAfter(run + [begin]);
            if was.Open? && begin.alive then now == was
            else if begin.connected then now.Open? && !now.down && Unused(run, now.id)
            else now.Invalid?
  {
    hide Exec;
    ExecPush(run, begin);
    SocketsNumbered(run);
  }

  /** The other actions: the peer's wish closes the socket, entering and leaving do not touch it. */
  lemma {:induction false} OthersLeave(run: seq<Action>, a: Action)
    requires Exec(run + [a]).Some?
    ensures a.CloseByPeer? ==> SockAfter(run + [a]).Invalid?
    ensures a.Lock? || a.Unlock? ==> SockAfter(run + [a]) == SockAfter(run)
  {
    hide Exec;
    ExecPush(run, a);
  }

  /** While a request is in flight, only the thread that is sending it replaces, closes or opens the socket; every
      other thread can at most shut it down. */
  lemma {:induction false} OnlySenderCloses(run: seq<Action>, a: Action, t: Thread)
    requires Exec(run + [a]).Some? && Flights(run, t) != [] && Actor(a) != t
    ensures var was, now := SockAfter(run), SockAfter(run + [a]);
            now == was || (a.Stop? && was.Open? && now == Open(was.id, true))
  {
    hide Exec;
    ExecPush(run, a);
    RunSafe(run);
    CounterIs(run, t);
    var s := Exec(run).value;
    if s.Top(Actor(a)) { OwnerFrames(s, Actor(a)); }
  }

  /** A `stop` came after the last time a `send` entered its first section. */
  predicate StopPending(run: seq<Action>) {
    run != [] &&
    var a := run[|run| - 1];
    (a.Stop? || (!a.Begin? && StopPending(run[..|run| - 1])))
  }

  /** The close request is remembered exactly until the next `send`, nested ones included, begins. */
  lemma {:induction false} StopRemembered(run: seq<Action>)
    requires Exec(run).Some? && Exec(run).value.inFlight > 0
    ensures Exec(run).value.closeWhenDone <==> StopPending(run)
    decreases |run|
  {
    if run != [] {
      var before, a := run[..|run| - 1], run[|run| - 1];
      RunSafe(run);
      RunSafe(before);
      var s := Exec(before).value;
      if a.Begin? {
        OwnerFrames(s, a.t);
      } else if s.inFlight > 0 {
        StopRemembered(before);
      } else {
        FinishNeedsFlight(s, a);
      }
    }
  }

  lemma {:induction false} FinishNeedsFlight(s: State, a: Action)
    requires Inv(s) && Enabled(s, a) && s.inFlight == 0 && !a.Begin?
    ensures Step(s, a).inFlight == 0
  {
    if a.Finish? { OwnerFrames(s, a.t); }
  }

  /** The end of a `send`: the socket is closed if a `stop` is pending, or the connection was not to be kept, or the
      request failed; and else it is left as it was. */
  lemma {:induction false} FinishLeaves(run: seq<Action>, t: Thread, ret: bool)
    requires Exec(run + [Finish(t, ret)]).Some?
    ensures Flights(run, t) != []
    ensures var keepAlive := Flights(run, t)[|Flights(run, t)| - 1];
            SockAfter(run + [Finish(t, ret)])
            == if StopPending(run) || !keepAlive || !ret then Invalid else SockAfter(run)
  {
    hide Exec, StopPending, Flags;
    ExecPush(run, Finish(t, ret));
    RunSafe(run);
    var s := Exec(run).value;
    OwnerFrames(s, t);
    StopRemembered(run);
    LastFlight(run, t);
  }

  lemma {:induction false} LastFlight(run: seq<Action>, t: Thread)
    requires Exec(run).Some? && Exec(run).value.Top(t) && Exec(run).value.Last(t).InFlight?
    ensures Flights(run, t) != []
    ensures Flights(run, t)[|Flights(run, t)| - 1] == !Exec(run).value.Last(t).closeConnection
  {
    hide Exec, Flags;
    var s := Exec(run).value;
    FlightsAre(run, t);
    var below := s.Sends(t)[..|s.Sends(t)| - 1];
    FlagsPush(below, s.Last(t));
    assert s.Sends(t) == below + [s.Last(t)];
  }

  /** So a `send` ends with a closed socket exactly for these reasons, or when the socket was closed before. */
  lemma {:induction false} ClosedAtFinish(run: seq<Action>, t: Thread, ret: bool)
    requires Exec(run + [Finish(t, ret)]).Some?
    ensures Flights(run, t) != []
    ensures SockAfter(run + [Finish(t, ret)]).Invalid?
       <==> StopPending(run) || !Flights(run, t)[|Flights(run, t)| - 1] || !ret || SockAfter(run).Invalid?
  {
    hide SockAfter, StopPending, Exec;
    FinishLeaves(run, t, ret);
  }

  // ---- One send and the stops during it ----------------------------------------------------------

  predicate NoSection(actions: seq<Action>) {
    forall i | 0 <= i < |actions| :: !actions[i].Begin? && !actions[i].Finish?
  }

  predicate AnyStop(actions: seq<Action>) {
    exists i | 0 <= i < |actions| :: actions[i].Stop?
  }

  predicate AnyCloseByPeer(actions: seq<Action>) {
    exists i | 0 <= i < |actions| :: actions[i].CloseByPeer?
  }

  /** A `send` of thread `t` is being processed as frame number `k`; at most a nested one has entered. */
  predicate Processing(s: State, t: Thread, k: nat, closeConnection: bool) {
    k < |s.Sends(t)| <= k + 2 && s.Sends(t)[k] == InFlight(closeConnection)
    && (|s.Sends(t)| == k + 2 ==> s.Sends(t)[k + 1] == Entered)
  }

  lemma {:induction false} ProcessingStep(s: State, a: Action, t: Thread, k: nat, closeConnection: bool)
    requires Inv(s) && Enabled(s, a) && Processing(s, t, k, closeConnection)
    requires !a.Begin? && !a.Finish?
    ensures Processing(Step(s, a), t, k, closeConnection)
    ensures s.inFlight > 0
    ensures Step(s, a).sock.Invalid? <==> s.sock.Invalid? || a.CloseByPeer?
  {
    OwnerFrames(s, t);
    AllFlying(s.Sends(t)[..|s.Sends(t)| - 1]);
  }

  lemma {:induction false} DuringSend(run: seq<Action>, middle: seq<Action>, t: Thread, k: nat, closeConnection: bool)
    requires Exec(run + middle).Some? && NoSection(middle)
    requires Exec(run).Some? && Processing(Exec(run).value, t, k, closeConnection) && Exec(run).value.sock.Open?
    ensures Processing(Exec(run + middle).value, t, k, closeConnection)
    ensures Exec(run + middle).value.sock.Invalid? <==> AnyCloseByPeer(middle)
    ensures StopPending(run + middle) <==> StopPending(run) || AnyStop(middle)
    decreases |middle|
  {
    hide Inv, Step, Enabled, Processing;
    if middle == [] {
      assert run + middle == run;
    } else {
      var n := |middle| - 1;
      var a := middle[n];
      assert (run + middle)[..|run + middle| - 1] == run + middle[..n];
      assert middle == middle[..n] + [a];
      DuringSend(run, middle[..n], t, k, closeConnection);
      RunSafe(run + middle[..n]);
      ProcessingStep(Exec(run + middle[..n]).value, a, t, k, closeConnection);
      assert AnyStop(middle) <==> AnyStop(middle[..n]) || a.Stop?;
      assert AnyCloseByPeer(middle) <==> AnyCloseByPeer(middle[..n]) || a.CloseByPeer?;
    }
  }

  /** A `send` that got its socket: it is now processed, on an open socket, with no stop pending. */
  lemma {:induction false} SendStarts(run: seq<Action>, begin: Action)
    requires begin.Begin? && Exec(run + [begin]).Some?
    requires begin.connected || (begin.alive && SockAfter(run).Open?)
    ensures var s := Exec(run + [begin]).value;
            s.Top(begin.t) && Processing(s, begin.t, |s.Sends(begin.t)| - 1, !begin.keepAlive) && s.sock.Open?
            && !StopPending(run + [begin])
  {
    hide Inv;
    ExecPush(run, begin);
  }

  /** A `send` that has a socket and in which no other begins: at its end the socket is closed exactly if some thread
      called `stop` while it was processed, or it was not to be kept, or failed, or the peer asked to close it. */
  lemma {:induction false} StopDuringSend(run: seq<Action>, begin: Action, middle: seq<Action>, ret: bool)
    requires begin.Begin? && NoSection(middle)
    requires Exec(run + [begin]).Some? && (begin.connected || (begin.alive && SockAfter(run).Open?))
    requires Exec(run + [begin] + middle + [Finish(begin.t, ret)]).Some?
    ensures SockAfter(run + [begin] + middle + [Finish(begin.t, ret)]).Invalid?
            <==> AnyStop(middle) || AnyCloseByPeer(middle) || !begin.keepAlive || !ret
  {
    hide Inv, Step, Exec, StopPending, AnyStop, AnyCloseByPeer, Flights;
    var t, start := begin.t, run + [begin];
    SendStarts(run, begin);
    ExecPush(start + middle, Finish(t, ret));
    DuringSend(start, middle, t, |Exec(start).value.Sends(t)| - 1, !begin.keepAlive);
    ClosedAtFinish(start + middle, t, ret);
    LastFlight(start + middle, t);
  }

  /** A request in flight, a `stop` by another thread, and a nested `send` about to begin. */
  lemma {:induction false} NestedRun()
    ensures var run := [Lock(0), Begin(0, false, true, true), Stop(1), Lock(0)];
            Exec(run).Some? && Exec(run).value.Sends(0) == [InFlight(false), Entered] && Exec(run).value.inFlight == 1
  {
    hide Exec;
    var r1 := [Lock(0)];
    var r2 := r1 + [Begin(0, false, true, true)];
    var r3 := r2 + [Stop(1)];
    ExecEmpty();
    ExecPush([], Lock(0));
    assert [] + [Lock(0)] == r1;
    ExecPush(r1, Begin(0, false, true, true));
    assert Exec(r2).value.Sends(0) == [InFlight(false)];
    ExecPush(r2, Stop(1));
    ExecPush(r3, Lock(0));
    assert r3 + [Lock(0)] == [Lock(0), Begin(0, false, true, true), Stop(1), Lock(0)];
  }

  /** A nested `send` forgets the `stop`: the outer one ends with an open socket. */
  lemma {:induction false} StopForgotten()
    ensures var run := [Lock(0), Begin(0, false, true, true), Stop(1), Lock(0), Begin(0, false, true, true),
                        Finish(0, true), Unlock(0), Finish(0, true)];
            Exec(run).Some? && SockAfter(run).Open?
  {
    hide Exec;
    NestedRun();
    var r4 := [Lock(0), Begin(0, false, true, true), Stop(1), Lock(0)];
    var r5 := r4 + [Begin(0, false, true, true)];
    var r6 := r5 + [Finish(0, true)];
    var r7 := r6 + [Unlock(0)];
    ExecPush(r4, Begin(0, false, true, true));
    assert Exec(r5).value.Sends(0) == [InFlight(false), InFlight(false)];
    ExecPush(r5, Finish(0, true));
    assert Exec(r6).value.Sends(0) == [InFlight(false), Leaving];
    ExecPush(r6, Unlock(0));
    assert Exec(r7).value.Sends(0) == [InFlight(false)];
    ExecPush(r7, Finish(0, true));
    assert r7 + [Finish(0, true)]
        == [Lock(0), Begin(0, false, true, true), Stop(1), Lock(0), Begin(0, false, true, true),
            Finish(0, true), Unlock(0), Finish(0, true)];
  }

  lemma {:induction false} ExecEmpty()
    ensures Exec([]) == Some(Initial())
  {
  }
}
