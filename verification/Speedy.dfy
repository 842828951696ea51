/** The adaptive requeue counter (internal/speedyhandler/handler.go, `Timeout` in
    internal/controllers/vpc/reconciler.go, and the device watcher). Each handler method holds the mutex
    for its whole body, so a method is one atomic step; `Timeout` takes the mutex twice. */
module Speedy {

  type Counters = map<string, int>

  // Waits in seconds.
  const RECONCILE_TIMEOUT := 60
  const SHORT_WAIT := 5
  const VERY_SHORT_WAIT := 1

  function AfterInit(s: Counters, cr: string): Counters {
    if cr in s then s else s[cr := 0]
  }

  function AfterDelete(s: Counters, cr: string): Counters {
    s - {cr}
  }

  function AfterReset(s: Counters, cr: string): Counters {
    if cr in s then s[cr := 0] else s
  }

  function AfterIncrement(s: Counters, cr: string): Counters {
    if cr in s then s[cr := s[cr] + 1] else s
  }

  function Speed(s: Counters, cr: string): int {
    if cr in s then s[cr] else 9999
  }

  /** The wait `Timeout` returns once it has read the counter. */
  function WaitFor(speedy: int): nat {
    if speedy == 0 then VERY_SHORT_WAIT
    else if speedy == 1 || speedy == 2 then SHORT_WAIT
    else RECONCILE_TIMEOUT
  }

  class Handler {
    var speedy: map<string, int>

    constructor ()
      ensures speedy == map[]
    {
      speedy := map[];
    }

    method Init(crName: string)
      modifies this
      ensures speedy == AfterInit(old(speedy), crName)
      ensures speedy.Keys == old(speedy).Keys + {crName}
      ensures crName !in old(speedy) ==> speedy[crName] == 0
      ensures forall cr :: cr in old(speedy) ==> speedy[cr] == old(speedy)[cr]
    {
      if crName !in speedy {
        speedy := speedy[crName := 0];
      }
    }

    method Delete(crName: string)
      modifies this
      ensures speedy == AfterDelete(old(speedy), crName)
      ensures speedy.Keys == old(speedy).Keys - {crName}
      ensures forall cr :: cr in speedy ==> speedy[cr] == old(speedy)[cr]
    {
      speedy := speedy - {crName};
    }

    method ResetSpeedy(crName: string)
      modifies this
      ensures speedy == AfterReset(old(speedy), crName)
      ensures speedy.Keys == old(speedy).Keys
      ensures forall cr :: cr in speedy ==> speedy[cr] == if cr == crName then 0 else old(speedy)[cr]
    {
      if crName in speedy {
        speedy := speedy[crName := 0];
      }
    }

    method GetSpeedy(crName: string) returns (n: int)
      ensures n == Speed(speedy, crName)
      ensures n == if crName in speedy then speedy[crName] else 9999
    {
      if crName in speedy {
        return speedy[crName];
      }
      return 9999;
    }

    method IncrementSpeedy(crName: string)
      modifies this
      ensures speedy == AfterIncrement(old(speedy), crName)
      ensures speedy.Keys == old(speedy).Keys
      ensures forall cr :: cr in speedy ==> speedy[cr] == old(speedy)[cr] + if cr == crName then 1 else 0
    {
      if crName in speedy {
        speedy := speedy[crName := speedy[crName] + 1];
      }
    }

    /** `Timeout` when nothing else runs between its two critical sections. */
    method Timeout(crName: string) returns (wait: nat)
      modifies this
      ensures wait == WaitFor(Speed(old(speedy), crName))
      ensures speedy == AfterTimeout(old(speedy), crName)
      ensures speedy.Keys == old(speedy).Keys
      ensures crName !in speedy ==> wait == 60
      ensures crName in speedy && 0 <= old(speedy)[crName] ==>
        && wait == (if old(speedy)[crName] == 0 then 1 else if old(speedy)[crName] <= 2 then 5 else 60)
        && speedy[crName] == if old(speedy)[crName] <= 2 then old(speedy)[crName] + 1 else old(speedy)[crName]
      ensures forall cr :: cr in speedy && cr != crName ==> speedy[cr] == old(speedy)[cr]
    {
      var n := GetSpeedy(crName);
      if n <= 2 {
        IncrementSpeedy(crName);
        if n == 0 {
          return VERY_SHORT_WAIT;
        } else if n == 1 || n == 2 {
          return SHORT_WAIT;
        }
      }
      return RECONCILE_TIMEOUT;
    }
  }

  function AfterTimeout(s: Counters, cr: string): Counters {
    if Speed(s, cr) <= 2 then AfterIncrement(s, cr) else s
  }

  // ---------- undisturbed runs ----------

  /** The waits of n consecutive `Timeout` calls on one resource. */
  function Waits(s: Counters, cr: string, n: nat): (w: seq<nat>)
    ensures |w| == n
  {
    if n == 0 then [] else [WaitFor(Speed(s, cr))] + Waits(AfterTimeout(s, cr), cr, n - 1)
  }

  lemma {:induction false} WaitsFrom(s: Counters, cr: string, n: nat, i: nat)
    requires cr in s && 0 <= s[cr] <= 3 && i < n
    ensures Waits(s, cr, n)[i] == WaitFor(s[cr] + i)
    decreases n
  {
    if i > 0 {
      if s[cr] <= 2 {
        WaitsFrom(AfterTimeout(s, cr), cr, n - 1, i - 1);
      } else {
        WaitsFrom(s, cr, n - 1, i - 1);
      }
    }
  }

  /** After a reset of a tracked resource: one second, five, five, and then a minute for ever. */
  lemma WaitsAfterReset(s: Counters, cr: string, n: nat, i: nat)
    requires cr in s && i < n
    ensures Waits(AfterReset(s, cr), cr, n)[i] == if i == 0 then 1 else if i <= 2 then 5 else 60
  {
    WaitsFrom(AfterReset(s, cr), cr, n, i);
  }

  // ---------- interleaved runs ----------

  /** `pending` holds, per resource, the `Timeout` calls that have read a counter of at most 2 and
      have not yet incremented it. `shortWaits` counts the waits below the reconcile timeout handed out
      so far, and `restarts` the resets that found the resource tracked and the inits that found it
      untracked. */
  datatype State = State(
    speedy: Counters, pending: multiset<string>, shortWaits: multiset<string>, restarts: multiset<string>)

  const START := State(map[], multiset{}, multiset{}, multiset{})

  /** The atomic steps: one critical section each. `Read` and `Increment` are the two of `Timeout`. */
  datatype Event =
    | Init(cr: string)
    | Delete(cr: string)
    | Reset(cr: string)
    | Read(cr: string)
    | Increment(cr: string)

  function Step(s: State, e: Event): State {
    match e
    case Init(cr) =>
      s.(speedy := AfterInit(s.speedy, cr),
         restarts := if cr in s.speedy then s.restarts else s.restarts + multiset{cr})
    case Delete(cr) => s.(speedy := AfterDelete(s.speedy, cr))
    case Reset(cr) =>
      s.(speedy := AfterReset(s.speedy, cr),
         restarts := if cr in s.speedy then s.restarts + multiset{cr} else s.restarts)
    case Read(cr) =>
      var n := Speed(s.speedy, cr);
      s.(pending := if n <= 2 then s.pending + multiset{cr} else s.pending,
         shortWaits := if WaitFor(n) < RECONCILE_TIMEOUT then s.shortWaits + multiset{cr} else s.shortWaits)
    case Increment(cr) =>
      s.(speedy := AfterIncrement(s.speedy, cr), pending := s.pending - multiset{cr})
  }

  /** At most `w` calls of `Timeout` are in flight on one resource; only they increment. */
  predicate Enabled(w: nat, s: State, e: Event) {
    match e
    case Read(cr) => s.pending[cr] < w
    case Increment(cr) => s.pending[cr] > 0
    case _ => true
  }

  function Run(s: State, events: seq<Event>): State
    decreases |events|
  {
    if |events| == 0 then s else Run(Step(s, events[0]), events[1..])
  }

  predicate Legal(w: nat, s: State, events: seq<Event>)
    decreases |events|
  {
    |events| > 0 ==> Enabled(w, s, events[0]) && Legal(w, Step(s, events[0]), events[1..])
  }

  /** What every step keeps. A counter plus the increments still to come is at most 2 + w, and the
      short waits handed out since the last restart are no more than that sum. */
  ghost predicate Inv(w: nat, s: State, cr: string) {
    && s.pending[cr] <= w
    && (cr in s.speedy ==>
      && s.restarts[cr] >= 1
      && 0 <= s.speedy[cr]
      && s.speedy[cr] + s.pending[cr] <= 2 + w
      && s.shortWaits[cr] <= (w + 2) * (s.restarts[cr] - 1) + s.speedy[cr] + s.pending[cr])
    && (cr !in s.speedy ==> s.shortWaits[cr] <= (w + 2) * s.restarts[cr])
  }

  /** One more restart pays for w + 2 short waits. */
  lemma StepKeepsInv(w: nat, s: State, e: Event, cr: string)
    requires Inv(w, s, cr) && Enabled(w, s, e)
    ensures Inv(w, Step(s, e), cr)
  {
    var r: int := s.restarts[cr];
    assert (w + 2) * r == (w + 2) * (r - 1) + (w + 2);
    assert (w + 2) * (r + 1) == (w + 2) * r + (w + 2);
  }

  lemma {:induction false} RunKeepsInv(w: nat, s: State, events: seq<Event>, cr: string)
    requires Inv(w, s, cr) && Legal(w, s, events)
    ensures Inv(w, Run(s, events), cr)
    decreases |events|
  {
    if |events| > 0 {
      StepKeepsInv(w, s, events[0], cr);
      RunKeepsInv(w, Step(s, events[0]), events[1..], cr);
    }
  }

  /** In every reachable state the counter, with its pending increments, is at most 2 + w; with one
      reconcile at a time it never exceeds 3. */
  lemma CounterBound(w: nat, events: seq<Event>, cr: string)
    requires Legal(w, START, events)
    ensures var s := Run(START, events);
      cr in s.speedy ==> 0 <= s.speedy[cr] && s.speedy[cr] + s.pending[cr] <= 2 + w && (w == 1 ==> s.speedy[cr] <= 3)
  {
    RunKeepsInv(w, START, events, cr);
  }

  /** Over a whole run, short waits are paid for by restarts: at most 2 + w for each, three when
      reconciles of a resource do not overlap. */
  lemma ShortWaitBudget(w: nat, events: seq<Event>, cr: string)
    requires Legal(w, START, events)
    ensures var s := Run(START, events); s.shortWaits[cr] <= (w + 2) * s.restarts[cr]
  {
    RunKeepsInv(w, START, events, cr);
    var r: int := Run(START, events).restarts[cr];
    assert (w + 2) * r == (w + 2) * (r - 1) + (w + 2);
  }

  /** The two critical sections of one call, with nothing between them, are `Timeout`. */
  lemma TimeoutIsTwoSteps(s: State, cr: string)
    ensures var r := Step(s, Read(cr));
      && (Speed(s.speedy, cr) <= 2 ==> Step(r, Increment(cr)).speedy == AfterTimeout(s.speedy, cr))
      && (Speed(s.speedy, cr) > 2 ==> r.speedy == AfterTimeout(s.speedy, cr) && r.pending == s.pending)
  {
  }

  // ---------- deletion ----------

  /** After a deletion every wait is the long one for as long as the resource is not initialised again,
      whatever else happens, increments that were still to come included. */
  lemma {:induction false} DeletedWaitsLong(s: State, events: seq<Event>, cr: string)
    requires Init(cr) !in events
    ensures var t := Run(Step(s, Delete(cr)), events);
      && cr !in t.speedy && WaitFor(Speed(t.speedy, cr)) == 60
      && t.shortWaits[cr] == s.shortWaits[cr]
  {
    UntrackedWaitsLong(Step(s, Delete(cr)), events, cr);
  }

  lemma {:induction false} UntrackedWaitsLong(s: State, events: seq<Event>, cr: string)
    requires cr !in s.speedy && Init(cr) !in events
    ensures cr !in Run(s, events).speedy && Run(s, events).shortWaits[cr] == s.shortWaits[cr]
    decreases |events|
  {
    if |events| > 0 {
      assert events[0] in events;
      assert forall e :: e in events[1..] ==> e in events;
      UntrackedWaitsLong(Step(s, events[0]), events[1..], cr);
    }
  }

  /** Once it is, the waits start again from the first, whatever the counter was at the deletion. */
  lemma InitAfterDeleteStartsOver(s: State, events: seq<Event>, cr: string, n: nat, i: nat)
    requires Init(cr) !in events && i < n
    ensures var t := Step(Run(Step(s, Delete(cr)), events), Init(cr));
      && cr in t.speedy && t.speedy[cr] == 0
      && Waits(t.speedy, cr, n)[i] == if i == 0 then 1 else if i <= 2 then 5 else 60
  {
    DeletedWaitsLong(s, events, cr);
    WaitsFrom(Step(Run(Step(s, Delete(cr)), events), Init(cr)).speedy, cr, n, i);
  }

  // ---------- the bounds are reached ----------

  lemma RunCons(w: nat, s: State, e: Event, rest: seq<Event>)
    ensures Run(s, [e] + rest) == Run(Step(s, e), rest)
    ensures Legal(w, s, [e] + rest) <==> Enabled(w, s, e) && Legal(w, Step(s, e), rest)
  {
    assert ([e] + rest)[1..] == rest;
  }

  /** From a state that hands out short waits, n more overlapping reads do, and then n increments. */
  lemma {:induction false} OverlappingReads(w: nat, s: State, cr: string, n: nat) returns (events: seq<Event>)
    requires cr in s.speedy && s.speedy[cr] == 2 && s.pending[cr] + n <= w
    ensures Legal(w, s, events)
    ensures Run(s, events) == s.(pending := s.pending[cr := s.pending[cr] + n],
                                 shortWaits := s.shortWaits[cr := s.shortWaits[cr] + n])
    decreases n
  {
    events := [];
    if n > 0 {
      var rest := OverlappingReads(w, Step(s, Read(cr)), cr, n - 1);
      events := [Read(cr)] + rest;
      RunCons(w, s, Read(cr), rest);
    }
  }

  lemma {:induction false} PendingIncrements(w: nat, s: State, cr: string) returns (events: seq<Event>)
    requires cr in s.speedy
    ensures Legal(w, s, events)
    ensures var t := Run(s, events);
      && cr in t.speedy && t.speedy[cr] == s.speedy[cr] + s.pending[cr]
      && t.shortWaits == s.shortWaits && t.restarts == s.restarts
    decreases s.pending[cr]
  {
    events := [];
    if s.pending[cr] > 0 {
      var rest := PendingIncrements(w, Step(s, Increment(cr)), cr);
      RunCons(w, s, Increment(cr), rest);
      events := [Increment(cr)] + rest;
    }
  }

  lemma {:induction false} RunConcat(w: nat, s: State, a: seq<Event>, b: seq<Event>)
    ensures Run(s, a + b) == Run(Run(s, a), b)
    ensures Legal(w, s, a + b) <==> Legal(w, s, a) && Legal(w, Run(s, a), b)
    decreases |a|
  {
    if |a| == 0 {
      assert a + b == b;
    } else {
      assert (a + b)[1..] == a[1..] + b;
      RunConcat(w, Step(s, a[0]), a[1..], b);
    }
  }

  /** One call of `Timeout`, uninterrupted. */
  lemma OneTimeout(w: nat, s: State, cr: string)
    requires w >= 1 && cr in s.speedy && 0 <= s.speedy[cr] <= 2 && s.pending == multiset{}
    ensures Legal(w, s, [Read(cr), Increment(cr)])
    ensures Run(s, [Read(cr), Increment(cr)])
      == s.(speedy := s.speedy[cr := s.speedy[cr] + 1], shortWaits := s.shortWaits + multiset{cr})
  {
    var t := Step(s, Read(cr));
    RunCons(w, t, Increment(cr), []);
    RunCons(w, s, Read(cr), [Increment(cr)]);
    assert [Increment(cr)] + [] == [Increment(cr)];
    assert [Read(cr)] + [Increment(cr)] == [Read(cr), Increment(cr)];
    assert t.pending - multiset{cr} == s.pending;
  }

  /** Init, and two calls of `Timeout`, one after the other. */
  lemma TwoTimeouts(w: nat, cr: string) returns (events: seq<Event>)
    requires w >= 1
    ensures Legal(w, START, events)
    ensures Run(START, events) == State(map[cr := 2], multiset{}, multiset{cr, cr}, multiset{cr})
  {
    var call := [Read(cr), Increment(cr)];
    var tracked := Step(START, Init(cr));
    OneTimeout(w, tracked, cr);
    OneTimeout(w, Run(tracked, call), cr);
    RunConcat(w, tracked, call, call);
    RunCons(w, START, Init(cr), call + call);
    events := [Init(cr)] + (call + call);
  }

  /** Both bounds are exact: for every w some run with a single restart hands out 2 + w short waits and
      drives the counter to 2 + w. */
  lemma BoundsReached(w: nat, cr: string) returns (events: seq<Event>)
    requires w >= 1
    ensures Legal(w, START, events)
    ensures var s := Run(START, events);
      cr in s.speedy && s.speedy[cr] == 2 + w && s.restarts[cr] == 1 && s.shortWaits[cr] == 2 + w
  {
    var a := TwoTimeouts(w, cr);
    var b := OverlappingReads(w, Run(START, a), cr, w);
    var c := PendingIncrements(w, Run(Run(START, a), b), cr);
    RunConcat(w, START, a, b);
    RunConcat(w, START, a + b, c);
    events := a + b + c;
  }
}
