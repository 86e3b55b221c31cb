/** The recursion of the HTTP client through redirects and digest retries, for any answers of the servers. */
module Redirect {

  /** What comes of one attempt to get a response: no connection, a connection that breaks off, or a reply.
      `location` says that the reply has a Location that the client follows, `challenge` that it has a
      usable authentication challenge. */
  datatype Answer =
    | Unreachable
    | Broken
    | Reply(status: int, location: bool, challenge: bool)

  /** `follow` is the option to follow redirects; the others say that credentials are set. The retry is only
      compiled with `CPPHTTPLIB_OPENSSL_SUPPORT`; a build without it behaves as if no credentials were set. */
  datatype Settings = Settings(follow: bool, digest: bool, proxyDigest: bool)

  const REDIRECT_MAX_COUNT: nat := 20
  const AUTHORIZATION_MAX_COUNT: nat := 5

  /** `redirect_count_` and `authorization_count_` of a request. */
  datatype Counts = Counts(redirects: nat, authorizations: nat)

  const FRESH: Counts := Counts(REDIRECT_MAX_COUNT, 0)

  /** How many digest retries a request has left. */
  function Retries(c: Counts): nat {
    if c.authorizations < AUTHORIZATION_MAX_COUNT then AUTHORIZATION_MAX_COUNT - c.authorizations else 0
  }

  predicate Redirected(cfg: Settings, res: Answer) {
    res.Reply? && 300 < res.status < 400 && cfg.follow
  }

  predicate Challenged(cfg: Settings, res: Answer) {
    res.Reply? && res.challenge
    && ((res.status == 401 && cfg.digest) || (res.status == 407 && cfg.proxyDigest))
  }

  // ---- The recursion -----------------------------------------------------------------------------

  class Client {
    const cfg: Settings
    /** What the servers are going to answer, and what has been asked of them. */
    var answers: seq<Answer>
    var requests: nat
    /** The number of `send` calls on the stack, and the highest it has been. */
    var depth: nat
    var deepest: nat

    constructor (cfg: Settings, answers: seq<Answer>)
      ensures this.cfg == cfg && this.answers == answers && requests == depth == deepest == 0
    {
      this.cfg := cfg;
      this.answers := answers;
      requests, depth, deepest := 0, 0, 0;
    }

    /** One request on the wire; when the answers run out nothing can be reached. */
    method ProcessRequest() returns (res: Answer)
      modifies this`answers, this`requests
      ensures res == Next(old(answers)) && answers == Later(old(answers))
      ensures requests == old(requests) + Cost(res)
    {
      res := if answers == [] then Unreachable else answers[0];
      if answers != [] { answers := answers[1..]; }
      if res != Unreachable { requests := requests + 1; }
    }

    /** `send`; without a reply the response stays as it was. */
    method Send(c: Counts, res0: Answer) returns (ok: bool, res: Answer)
      modifies this`answers, this`requests, this`depth, this`deepest
      decreases c.redirects + Retries(c), 2
      ensures depth == old(depth)
      ensures var run := Run(cfg, c, old(answers));
              ok == run.ok && res == (if Next(old(answers)).Reply? then run.res else res0) && answers == run.rest
              && requests == old(requests) + run.requests
              && deepest == Max(old(deepest), old(depth) + run.depth)
    {
      depth := depth + 1;
      deepest := Max(deepest, depth);
      ok, res := HandleRequest(c, res0);
      depth := depth - 1;
    }

    /** `handle_request`: a redirect first, and then a retry of this request if the response asks for it. */
    method HandleRequest(c: Counts, res0: Answer) returns (ok: bool, res: Answer)
      requires depth > 0 && deepest >= depth
      modifies this`answers, this`requests, this`depth, this`deepest
      decreases c.redirects + Retries(c), 1
      ensures depth == old(depth)
      ensures var run := Run(cfg, c, old(answers));
              ok == run.ok && res == (if Next(old(answers)).Reply? then run.res else res0) && answers == run.rest
              && requests == old(requests) + run.requests
              && deepest == Max(old(deepest), old(depth) - 1 + run.depth)
    {
      hide Run;
      RunIs(cfg, c, answers);
      res := ProcessRequest();
      if !res.Reply? { return false, res0; }
      ok := true;
      if Redirected(cfg, res) {
        ok, res := FollowLocation(c, res);
      }
      if Challenged(cfg, res) && c.authorizations < AUTHORIZATION_MAX_COUNT {
        var res': Answer;
        OkReplied(cfg, c.(authorizations := c.authorizations + 1), answers);
        ok, res' := Send(c.(authorizations := c.authorizations + 1), res);
        if ok { res := res'; }
      }
    }

    /** `redirect`. */
    method FollowLocation(c: Counts, res0: Answer) returns (ok: bool, res: Answer)
      requires Redirected(cfg, res0)
      modifies this`answers, this`requests, this`depth, this`deepest
      decreases c.redirects + Retries(c), 0
      ensures depth == old(depth)
      ensures c.redirects == 0 || !res0.location ==>
        !ok && res == res0 && answers == old(answers) && requests == old(requests) && deepest == old(deepest)
      ensures c.redirects > 0 && res0.location ==>
        var run := Run(cfg, c.(redirects := c.redirects - 1), old(answers));
        ok == run.ok && res == (if ok then run.res else res0) && answers == run.rest
        && requests == old(requests) + run.requests
        && deepest == Max(old(deepest), old(depth) + run.depth)
    {
      if c.redirects == 0 || !res0.location { return false, res0; }
      ok, res := Send(c.(redirects := c.redirects - 1), res0);
      if !ok { res := res0; }
    }
  }

  // ---- As a function of the answers --------------------------------------------------------------

  function Max(a: nat, b: nat): nat {
    if a < b then b else a
  }

  function Next(answers: seq<Answer>): Answer {
    if answers == [] then Unreachable else answers[0]
  }

  function Later(answers: seq<Answer>): seq<Answer> {
    if answers == [] then [] else answers[1..]
  }

  function Cost(res: Answer): nat {
    if res == Unreachable then 0 else 1
  }

  /** One `send` with all that it causes. */
  datatype Sent = Sent(ok: bool, res: Answer, requests: nat, depth: nat, rest: seq<Answer>)

  function Run(cfg: Settings, c: Counts, answers: seq<Answer>): Sent
    decreases c.redirects + Retries(c)
  {
    var res := Next(answers);
    var first := Sent(res.Reply?, res, Cost(res), 1, Later(answers));
    var second := if Redirected(cfg, res) then AfterRedirect(cfg, c, first) else first;
    if Challenged(cfg, second.res) && c.authorizations < AUTHORIZATION_MAX_COUNT then
      Nested(second, Run(cfg, c.(authorizations := c.authorizations + 1), second.rest))
    else second
  }

  function AfterRedirect(cfg: Settings, c: Counts, first: Sent): Sent
    requires Redirected(cfg, first.res)
    decreases c.redirects + Retries(c), 0
  {
    if c.redirects == 0 || !first.res.location then first.(ok := false)
    else Nested(first, Run(cfg, c.(redirects := c.redirects - 1), first.rest))
  }

  function Nested(outer: Sent, inner: Sent): Sent {
    Sent(inner.ok, if inner.ok then inner.res else outer.res, outer.requests + inner.requests,
         Max(outer.depth, 1 + inner.depth), inner.rest)
  }

  lemma {:induction false} OkReplied(cfg: Settings, c: Counts, answers: seq<Answer>)
    ensures Run(cfg, c, answers).ok ==> Next(answers).Reply?
  {
    hide Run;
    RunIs(cfg, c, answers);
  }

  // ---- What comes of it --------------------------------------------------------------------------

  /** A reply after which another request is made: a redirect that is followed, or a demand for credentials. */
  predicate GoesOn(cfg: Settings, a: Answer) {
    a.Reply?
    && ((300 < a.status < 400 && cfg.follow && a.location)
        || (a.status == 401 && cfg.digest && a.challenge) || (a.status == 407 && cfg.proxyDigest && a.challenge))
  }

  predicate AllGoOn(cfg: Settings, used: seq<Answer>) {
    forall i | 0 <= i < |used| :: GoesOn(cfg, used[i])
  }

  /** How many requests reached somebody. */
  function Reached(used: seq<Answer>): nat {
    if used == [] then 0 else (if used[0] == Unreachable then 0 else 1) + Reached(used[1..])
  }

  /** A reply that cannot be the last of a success: one that redirects. */
  predicate Redirects300(cfg: Settings, a: Answer) {
    a.Reply? && 300 < a.status < 400 && cfg.follow
  }

  /** What the answers used make of a send. It succeeds with the last of them, when that is a reply that does not
      redirect; it fails when the last is none or redirects nowhere, when there are no more, or when all redirects
      are used up. Every other answer makes it go on; a demand for credentials is final only when all retries are
      used up. */
  predicate Outcome(cfg: Settings, c: Counts, used: seq<Answer>, run: Sent) {
    && run.requests == Reached(used)
    && (used != [] ==> AllGoOn(cfg, used[..|used| - 1]))
    && if run.ok then
         && used != [] && run.res == used[|used| - 1] && run.res.Reply? && !Redirects300(cfg, run.res)
         && (GoesOn(cfg, run.res) ==> run.requests > Retries(c))
       else if used != [] && !GoesOn(cfg, used[|used| - 1]) then
         used[|used| - 1].Reply? ==> Redirects300(cfg, used[|used| - 1])
       else
         run.rest == [] || run.requests > c.redirects
  }

  lemma {:induction false} ReachedAppend(a: seq<Answer>, b: seq<Answer>)
    ensures Reached(a + b) == Reached(a) + Reached(b)
  {
    if a == [] {
      assert a + b == b;
    } else {
      assert (a + b)[1..] == a[1..] + b;
      ReachedAppend(a[1..], b);
    }
  }

  /** Answers that make it go on, and then a send with at most one redirect or retry less. */
  lemma {:induction false} Prefixed(cfg: Settings, c: Counts, before: seq<Answer>, c': Counts, used: seq<Answer>,
                                    inner: Sent, run: Sent)
    requires before != [] && AllGoOn(cfg, before) && Outcome(cfg, c', used, inner)
    requires Retries(c') + 1 >= Retries(c) && c'.redirects + 1 >= c.redirects
    requires run.ok == inner.ok && (run.ok ==> run.res == inner.res) && run.rest == inner.rest
    requires run.requests == Reached(before) + inner.requests
    ensures Outcome(cfg, c, before + used, run)
  {
    hide GoesOn;
    ReachedAppend(before, used);
    assert Reached(before) > 0 by { SomeReached(cfg, before); }
    var all := before + used;
    if used == [] {
      assert all == before;
    } else {
      var n := |used| - 1;
      assert all == before + used[..n] + [used[n]];
      assert all[..|all| - 1] == before + used[..n];
    }
  }

  lemma {:induction false} SomeReached(cfg: Settings, used: seq<Answer>)
    requires used != [] && AllGoOn(cfg, used)
    ensures Reached(used) > 0
  {
    assert GoesOn(cfg, used[0]);
  }

  /** The first response, and the redirect that may follow it. */
  lemma {:induction false} FirstOutcome(cfg: Settings, c: Counts, answers: seq<Answer>, redirected: seq<Answer>)
    returns (used: seq<Answer>)
    requires var res, rest := Next(answers), Later(answers);
             Redirected(cfg, res) && res.location && c.redirects > 0 ==>
               var inner := Run(cfg, c.(redirects := c.redirects - 1), rest);
               rest == redirected + inner.rest && Outcome(cfg, c.(redirects := c.redirects - 1), redirected, inner)
    ensures var res := Next(answers);
            var first := Sent(res.Reply?, res, Cost(res), 1, Later(answers));
            var second := if Redirected(cfg, res) then AfterRedirect(cfg, c, first) else first;
            && answers == used + second.rest
            && Reached(used) == second.requests
            && (Challenged(cfg, second.res) ==> second.ok && used != [] && AllGoOn(cfg, used))
            && (!Challenged(cfg, second.res) || Retries(c) == 0 ==> Outcome(cfg, c, used, second))
  {
    hide Run;
    if answers == [] {
      used := [];
    } else {
      var res := answers[0];
      used := [res];
      assert answers == [res] + answers[1..] && [res][1..] == [] && [res][..0] == [];
      assert Reached([res]) == Cost(res);
      if Redirected(cfg, res) && res.location && c.redirects > 0 {
        var c' := c.(redirects := c.redirects - 1);
        var inner := Run(cfg, c', answers[1..]);
        var second := AfterRedirect(cfg, c, Sent(true, res, 1, 1, answers[1..]));
        used := [res] + redirected;
        Prefixed(cfg, c, [res], c', redirected, inner, second);
        assert answers == used + inner.rest;
        if Challenged(cfg, second.res) { LastGoesOn(cfg, used); }
      }
    }
  }

  lemma {:induction false} LastGoesOn(cfg: Settings, used: seq<Answer>)
    requires used != [] && AllGoOn(cfg, used[..|used| - 1]) && GoesOn(cfg, used[|used| - 1])
    ensures AllGoOn(cfg, used)
  {
    hide GoesOn;
    forall i | 0 <= i < |used| ensures GoesOn(cfg, used[i]) {
      if i < |used| - 1 { assert used[..|used| - 1][i] == used[i]; }
    }
  }

  /** Whatever the servers answer: the first so many answers are used, and they decide the outcome. */
  lemma {:induction false} RunOutcome(cfg: Settings, c: Counts, answers: seq<Answer>) returns (used: seq<Answer>)
    ensures answers == used + Run(cfg, c, answers).rest
    ensures Outcome(cfg, c, used, Run(cfg, c, answers))
    decreases c.redirects + Retries(c)
  {
    hide Run, Outcome;
    var res := Next(answers);
    var first := Sent(res.Reply?, res, Cost(res), 1, Later(answers));
    var redirected := [];
    if Redirected(cfg, res) && res.location && c.redirects > 0 {
      redirected := RunOutcome(cfg, c.(redirects := c.redirects - 1), first.rest);
    }
    used := FirstOutcome(cfg, c, answers, redirected);
    var second := if Redirected(cfg, res) then AfterRedirect(cfg, c, first) else first;
    RunIs(cfg, c, answers);
    if Challenged(cfg, second.res) && c.authorizations < AUTHORIZATION_MAX_COUNT {
      var c' := c.(authorizations := c.authorizations + 1);
      var retried := RunOutcome(cfg, c', second.rest);
      Prefixed(cfg, c, used, c', retried, Run(cfg, c', second.rest), Run(cfg, c, answers));
      assert answers == used + (retried + Run(cfg, c, answers).rest);
      used := used + retried;
    }
  }

  // ---- How much one request can cause ------------------------------------------------------------

  /** The most requests with so many redirects and digest retries left: both can follow one response. */
  function Bound(redirects: nat, retries: nat): nat
    decreases redirects + retries
  {
    1 + (if redirects > 0 then Bound(redirects - 1, retries) else 0)
      + (if retries > 0 then Bound(redirects, retries - 1) else 0)
  }

  /** Credentials of either kind. */
  predicate Authorized(cfg: Settings) {
    cfg.digest || cfg.proxyDigest
  }

  /** The redirects and the retries that the settings permit. */
  function Redirects(cfg: Settings, c: Counts): nat {
    if cfg.follow then c.redirects else 0
  }

  function Tries(cfg: Settings, c: Counts): nat {
    if Authorized(cfg) then Retries(c) else 0
  }

  /** Whatever the servers answer. */
  lemma {:induction false} Bounded(cfg: Settings, c: Counts, answers: seq<Answer>)
    ensures var run := Run(cfg, c, answers);
            run.requests <= Bound(Redirects(cfg, c), Tries(cfg, c))
            && run.depth <= 1 + Redirects(cfg, c) + Tries(cfg, c)
    decreases c.redirects + Retries(c)
  {
    hide Bound, Run;
    BoundIs(Redirects(cfg, c), Tries(cfg, c));
    var res := Next(answers);
    var first := Sent(res.Reply?, res, Cost(res), 1, Later(answers));
    if Redirected(cfg, res) && c.redirects > 0 {
      Bounded(cfg, c.(redirects := c.redirects - 1), first.rest);
    }
    var second := if Redirected(cfg, res) then AfterRedirect(cfg, c, first) else first;
    if Authorized(cfg) && c.authorizations < AUTHORIZATION_MAX_COUNT {
      Bounded(cfg, c.(authorizations := c.authorizations + 1), second.rest);
    }
    RunIs(cfg, c, answers);
  }

  lemma {:induction false} BoundIs(redirects: nat, retries: nat)
    ensures Bound(redirects, retries) == 1 + (if redirects > 0 then Bound(redirects - 1, retries) else 0)
                                           + (if retries > 0 then Bound(redirects, retries - 1) else 0)
  {
  }

  lemma {:induction false} RunIs(cfg: Settings, c: Counts, answers: seq<Answer>)
    ensures var res := Next(answers);
            var first := Sent(res.Reply?, res, Cost(res), 1, Later(answers));
            var second := if Redirected(cfg, res) then AfterRedirect(cfg, c, first) else first;
            Run(cfg, c, answers)
            == if Challenged(cfg, second.res) && c.authorizations < AUTHORIZATION_MAX_COUNT
               then Nested(second, Run(cfg, c.(authorizations := c.authorizations + 1), second.rest)) else second
  {
  }

  const MOVED: Answer := Reply(302, true, false)

  /** A reply that asks for credentials, of the kind that are set. */
  function Denied(cfg: Settings): Answer {
    Reply(if cfg.digest then 401 else 407, true, true)
  }

  /** Answers that cause as many requests as possible: every redirect ends with a refusal. */
  function Worst(redirects: nat, retries: nat, denied: Answer): seq<Answer>
    decreases redirects + retries
  {
    [if redirects > 0 then MOVED else denied]
    + (if redirects > 0 then Worst(redirects - 1, retries, denied) else [])
    + (if retries > 0 then Worst(redirects, retries - 1, denied) else [])
  }

  /** The bounds are met, for all settings and counts. */
  lemma {:induction false} Attained(cfg: Settings, c: Counts, tail: seq<Answer>)
    ensures var r, b := Redirects(cfg, c), Tries(cfg, c);
            Run(cfg, c, Worst(r, b, Denied(cfg)) + tail) == Sent(true, Denied(cfg), Bound(r, b), 1 + r + b, tail)
    decreases c.redirects + Retries(c)
  {
    hide Bound, Run, Worst;
    var r, b, denied := Redirects(cfg, c), Tries(cfg, c), Denied(cfg);
    BoundIs(r, b);
    WorstIs(r, b, denied);
    var redirected := if r > 0 then Worst(r - 1, b, denied) else [];
    var retried := if b > 0 then Worst(r, b - 1, denied) else [];
    var answers := Worst(r, b, denied) + tail;
    assert answers == [if r > 0 then MOVED else denied] + (redirected + (retried + tail));
    assert answers[1..] == redirected + (retried + tail);
    assert r == 0 ==> redirected + (retried + tail) == retried + tail;
    assert b == 0 ==> retried + tail == tail;
    if r > 0 {
      Attained(cfg, c.(redirects := r - 1), retried + tail);
    }
    if b > 0 {
      Attained(cfg, c.(authorizations := c.authorizations + 1), tail);
    }
    RunIs(cfg, c, answers);
  }

  lemma {:induction false} WorstIs(redirects: nat, retries: nat, denied: Answer)
    ensures Worst(redirects, retries, denied) == [if redirects > 0 then MOVED else denied]
      + (if redirects > 0 then Worst(redirects - 1, retries, denied) else [])
      + (if retries > 0 then Worst(redirects, retries - 1, denied) else [])
  {
  }

  // ---- The number --------------------------------------------------------------------------------

  function Factorial(n: nat): nat {
    if n == 0 then 1 else n * Factorial(n - 1)
  }

  /** (r + 2) (r + 3) ... (r + b + 2) */
  function Rising(r: nat, b: nat): nat {
    if b == 0 then r + 2 else Rising(r, b - 1) * (r + b + 2)
  }

  lemma {:induction false} RisingShift(r: nat, b: nat)
    requires r > 0 && b > 0
    ensures Rising(r - 1, b) == (r + 1) * Rising(r, b - 1)
  {
    if b == 1 {
      assert Rising(r - 1, 1) == Rising(r - 1, 0) * (r + 2);
    } else {
      RisingShift(r, b - 1);
      assert Rising(r - 1, b) == (r + 1) * Rising(r, b - 2) * (r + b + 1);
      assert Rising(r, b - 1) == Rising(r, b - 2) * (r + b + 1);
      Associate(r + 1, Rising(r, b - 2), r + b + 1);
    }
  }

  lemma {:induction false} Associate(a: nat, b: nat, c: nat)
    ensures a * b * c == a * (b * c)
  {
  }

  /** One more than the bound is a binomial coefficient. */
  lemma {:induction false} BoundClosed(r: nat, b: nat)
    ensures Factorial(b + 1) * (Bound(r, b) + 1) == Rising(r, b)
    decreases r + b
  {
    hide Bound, Factorial, Rising;
    BoundIs(r, b);
    if b == 0 {
      if r > 0 { BoundClosed(r - 1, 0); }
      FactorialOne();
      RisingZero(r);
      if r > 0 { RisingZero(r - 1); }
    } else {
      BoundClosed(r, b - 1);
      RisingStep(r, b);
      FactorialStep(b + 1);
      var f, x, g := Factorial(b), Bound(r, b - 1) + 1, Rising(r, b - 1);
      if r > 0 {
        BoundClosed(r - 1, b);
        RisingShift(r, b);
        var y := Bound(r - 1, b) + 1;
        assert Bound(r, b) + 1 == x + y;
        Combine(f, b + 1, x, y, g, r);
      } else {
        assert Bound(0, b) + 1 == x + 1;
        ZeroRedirects(b);
      }
    }
  }

  lemma {:induction false} FactorialOne()
    ensures Factorial(1) == 1
  {
    assert Factorial(0) == 1;
  }

  lemma {:induction false} RisingZero(r: nat)
    ensures Rising(r, 0) == r + 2
  {
  }

  lemma {:induction false} RisingStep(r: nat, b: nat)
    requires b > 0
    ensures Rising(r, b) == Rising(r, b - 1) * (r + b + 2)
  {
  }

  lemma {:induction false} FactorialStep(n: nat)
    requires n > 0
    ensures Factorial(n) == n * Factorial(n - 1)
  {
  }

  lemma {:induction false} Combine(f: nat, n: nat, x: nat, y: nat, g: nat, r: nat)
    requires f * x == g && (n * f) * y == (r + 1) * g
    ensures (n * f) * (x + y) == g * (r + n + 1)
  {
    assert (n * f) * (x + y) == (n * f) * x + (n * f) * y;
    Associate(n, f, x);
    assert g * (r + n + 1) == g * (r + 1) + g * n;
  }

  /** Without redirects every retry is one more request. */
  lemma {:induction false} ZeroRedirects(b: nat)
    ensures Bound(0, b) == b + 1 && Factorial(b + 1) * (b + 2) == Rising(0, b)
  {
    hide Factorial, Rising, Bound;
    BoundIs(0, b);
    if b > 0 {
      ZeroRedirects(b - 1);
      FactorialStep(b + 1);
      RisingStep(0, b);
      Associate(b + 1, Factorial(b), b + 2);
      Associate(b + 2, b + 1, Factorial(b));
    } else {
      FactorialOne();
      RisingZero(0);
    }
  }

  /** The most requests and nested calls that a fresh request can cause, by settings. */
  function MostRequests(cfg: Settings): nat {
    if cfg.follow && Authorized(cfg) then 296009 else if cfg.follow then 21 else if Authorized(cfg) then 6 else 1
  }

  function MostDepth(cfg: Settings): nat {
    1 + (if cfg.follow then REDIRECT_MAX_COUNT else 0) + (if Authorized(cfg) then AUTHORIZATION_MAX_COUNT else 0)
  }

  lemma {:induction false} FreshBound(cfg: Settings)
    ensures Bound(Redirects(cfg, FRESH), Tries(cfg, FRESH)) == MostRequests(cfg)
  {
    hide Bound;
    BoundClosed(Redirects(cfg, FRESH), Tries(cfg, FRESH));
    assert Factorial(6) == 720 && Factorial(1) == 1;
    assert Rising(20, 5) == 22 * 23 * 24 * 25 * 26 * 27 && Rising(0, 5) == 2 * 3 * 4 * 5 * 6 * 7;
    assert Rising(20, 0) == 22 && Rising(0, 0) == 2;
  }

  /** A fresh request, for all settings and all answers. */
  lemma {:induction false} FreshRequest(cfg: Settings, answers: seq<Answer>)
    ensures Run(cfg, FRESH, answers).requests <= MostRequests(cfg)
    ensures Run(cfg, FRESH, answers).depth <= MostDepth(cfg)
  {
    hide Run, Bound, MostRequests;
    Bounded(cfg, FRESH, answers);
    FreshBound(cfg);
  }

  /** Both maxima are reached, for all settings. */
  lemma {:induction false} FreshWorst(cfg: Settings)
    ensures exists answers: seq<Answer> ::
      Run(cfg, FRESH, answers).requests == MostRequests(cfg) && Run(cfg, FRESH, answers).depth == MostDepth(cfg)
  {
    hide Run, Bound, Worst, MostRequests;
    Attained(cfg, FRESH, []);
    FreshBound(cfg);
    var answers := Worst(Redirects(cfg, FRESH), Tries(cfg, FRESH), Denied(cfg)) + [];
    assert Run(cfg, FRESH, answers).requests == MostRequests(cfg);
  }

  /** Twenty redirects and five retries make at most 26 requests, unless redirects are followed and
      credentials are set: then retries multiply. */
  lemma {:induction false} MultiplyIff(cfg: Settings)
    ensures (forall answers: seq<Answer> :: Run(cfg, FRESH, answers).requests <= 26)
       <==> !(cfg.follow && Authorized(cfg))
  {
    hide Run;
    FreshWorst(cfg);
    forall answers: seq<Answer> ensures Run(cfg, FRESH, answers).requests <= MostRequests(cfg) {
      FreshRequest(cfg, answers);
    }
  }
}
