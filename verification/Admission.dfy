/**
 Admission to the event stream: at most six streams for each client address, by one atomic counter per
 address that is raised before the test and lowered again by those turned away.

 A state machine over the atomic steps of any number of requests. Requests of one address share its
 counter; those of different addresses do not meet.
 */
module Admission {
  type Address = string

  const MAX_PER_IP := 6

  /** Arrived but not yet counted; counted and turned away; counted and streaming; gone. */
  datatype Phase = Arrived | Tentative | Admitted | Refused | Finished

  datatype Request = Request(ip: Address, phase: Phase)

  datatype State = State(counters: map<Address, int>, requests: seq<Request>)

  datatype Step = Arrive(ip: Address) | Enter(i: nat) | TurnAway(i: nat) | Leave(i: nat)

  const INITIAL := State(map[], [])

  /** Adding to a 32-bit counter. */
  function Wrap(n: int): int {
    (n + 0x8000_0000) % 0x1_0000_0000 - 0x8000_0000
  }

  function Counter(st: State, ip: Address): int {
    if ip in st.counters then st.counters[ip] else 0
  }

  predicate Enabled(st: State, step: Step) {
    match step
    case Arrive(ip) => true
    case Enter(i) => i < |st.requests| && st.requests[i].phase == Arrived
    case TurnAway(i) => i < |st.requests| && st.requests[i].phase == Tentative
    case Leave(i) => i < |st.requests| && st.requests[i].phase == Admitted
  }

  function Moved(st: State, i: nat, change: int, phase: Phase): State
    requires i < |st.requests|
  {
    var ip := st.requests[i].ip;
    State(st.counters[ip := Wrap(Counter(st, ip) + change)], st.requests[i := Request(ip, phase)])
  }

  function Apply(st: State, step: Step): State
    requires Enabled(st, step)
  {
    match step
    case Arrive(ip) => st.(requests := st.requests + [Request(ip, Arrived)])
    case Enter(i) =>
      var raised := Wrap(Counter(st, st.requests[i].ip) + 1);
      Moved(st, i, 1, if raised > MAX_PER_IP then Tentative else Admitted)
    case TurnAway(i) => Moved(st, i, -1, Refused)
    case Leave(i) => Moved(st, i, -1, Finished)
  }

  // ----- counting requests -----

  function One(b: bool): nat {
    if b then 1 else 0
  }

  /** How many requests from an address are in a phase. */
  function Count(requests: seq<Request>, ip: Address, phase: Phase): nat {
    if requests == [] then 0
    else One(requests[0] == Request(ip, phase)) + Count(requests[1..], ip, phase)
  }

  lemma {:induction false} CountUpdate(requests: seq<Request>, i: nat, r: Request, ip: Address, phase: Phase)
    requires i < |requests|
    ensures Count(requests[i := r], ip, phase)
            == Count(requests, ip, phase) - One(requests[i] == Request(ip, phase)) + One(r == Request(ip, phase))
  {
    if i > 0 {
      assert requests[i := r][1..] == requests[1..][i - 1 := r];
      CountUpdate(requests[1..], i - 1, r, ip, phase);
    } else {
      assert requests[0 := r][1..] == requests[1..];
    }
  }

  lemma {:induction false} CountSnoc(requests: seq<Request>, r: Request, ip: Address, phase: Phase)
    ensures Count(requests + [r], ip, phase) == Count(requests, ip, phase) + One(r == Request(ip, phase))
  {
    if requests == [] {
      assert requests + [r] == [r] && [r][1..] == [];
    } else {
      assert (requests + [r])[1..] == requests[1..] + [r];
      CountSnoc(requests[1..], r, ip, phase);
    }
  }

  // ----- safety -----

  /** The counter is the requests streaming and those yet to step back, and no more than six stream. */
  ghost predicate Balanced(st: State, ip: Address) {
    && Counter(st, ip) == Count(st.requests, ip, Admitted) + Count(st.requests, ip, Tentative)
    && Count(st.requests, ip, Admitted) <= MAX_PER_IP
  }

  /** Fewer than two thousand million requests of one address are being turned away at the same time. */
  ghost predicate Calm(st: State) {
    forall ip :: Count(st.requests, ip, Tentative) < 2_000_000_000
  }

  lemma NoWrap(n: int)
    requires -0x8000_0000 <= n < 0x8000_0000
    ensures Wrap(n) == n
  {
  }

  lemma MovedBalanced(st: State, i: nat, change: int, phase: Phase, ip: Address)
    requires i < |st.requests| && -1 <= change <= 1
    requires Calm(st) && forall a :: Balanced(st, a)
    ensures var b := Moved(st, i, change, phase);
      && (forall p :: Count(b.requests, ip, p) == Count(st.requests, ip, p) - One(st.requests[i] == Request(ip, p))
                                                 + One(Request(st.requests[i].ip, phase) == Request(ip, p)))
      && Counter(b, ip) == Counter(st, ip) + (if st.requests[i].ip == ip then change else 0)
  {
    hide Count;
    MovedCounts(st, i, change, phase, ip);
    assert Balanced(st, st.requests[i].ip);
    NoWrap(Counter(st, st.requests[i].ip) + change);
  }

  lemma MovedCounts(st: State, i: nat, change: int, phase: Phase, ip: Address)
    requires i < |st.requests|
    ensures forall p :: Count(Moved(st, i, change, phase).requests, ip, p)
                        == Count(st.requests, ip, p) - One(st.requests[i] == Request(ip, p))
                           + One(Request(st.requests[i].ip, phase) == Request(ip, p))
  {
    hide Count;
    var r := Request(st.requests[i].ip, phase);
    forall p ensures Count(st.requests[i := r], ip, p)
        == Count(st.requests, ip, p) - One(st.requests[i] == Request(ip, p)) + One(r == Request(ip, p)) {
      CountUpdate(st.requests, i, r, ip, p);
    }
  }

  lemma StepBalanced(st: State, step: Step, ip: Address)
    requires Enabled(st, step) && Calm(st)
    requires forall a :: Balanced(st, a)
    ensures Balanced(Apply(st, step), ip)
  {
    hide Count, Moved, Counter;
    assert Balanced(st, ip);
    match step
    case Arrive(a) =>
      ArriveCounts(st, a, ip);
    case Enter(i) =>
      var mine := st.requests[i].ip;
      assert Balanced(st, mine);
      NoWrap(Counter(st, mine) + 1);
      MovedBalanced(st, i, 1, if Counter(st, mine) + 1 > MAX_PER_IP then Tentative else Admitted, ip);
    case TurnAway(i) =>
      MovedBalanced(st, i, -1, Refused, ip);
    case Leave(i) =>
      MovedBalanced(st, i, -1, Finished, ip);
  }

  lemma ArriveCounts(st: State, a: Address, ip: Address)
    ensures var b := Apply(st, Arrive(a));
      && Counter(b, ip) == Counter(st, ip)
      && forall p :: p == Admitted || p == Tentative ==> Count(b.requests, ip, p) == Count(st.requests, ip, p)
  {
    CountSnoc(st.requests, Request(a, Arrived), ip, Admitted);
    CountSnoc(st.requests, Request(a, Arrived), ip, Tentative);
  }

  /** An interleaving of the requests' steps that can happen from st on. */
  predicate Possible(st: State, steps: seq<Step>)
    decreases |steps|
  {
    steps == [] || (Enabled(st, steps[0]) && Possible(Apply(st, steps[0]), steps[1..]))
  }

  function After(st: State, steps: seq<Step>): State
    requires Possible(st, steps)
    decreases |steps|
  {
    if steps == [] then st else After(Apply(st, steps[0]), steps[1..])
  }

  ghost predicate CalmRun(st: State, steps: seq<Step>)
    requires Possible(st, steps)
    decreases |steps|
  {
    Calm(st) && (steps != [] ==> CalmRun(Apply(st, steps[0]), steps[1..]))
  }

  lemma {:induction false} BalancedOn(st: State, steps: seq<Step>)
    requires Possible(st, steps) && CalmRun(st, steps)
    requires forall a :: Balanced(st, a)
    ensures Calm(After(st, steps)) && forall a :: Balanced(After(st, steps), a)
    decreases |steps|
  {
    hide Balanced, Calm;
    if steps != [] {
      forall a ensures Balanced(Apply(st, steps[0]), a) {
        StepBalanced(st, steps[0], a);
      }
      BalancedOn(Apply(st, steps[0]), steps[1..]);
    }
  }

  /** In every interleaving, for every address: the counter is exact, and at most six streams are admitted. */
  lemma AlwaysBalanced(steps: seq<Step>, ip: Address)
    requires Possible(INITIAL, steps) && CalmRun(INITIAL, steps)
    ensures Calm(After(INITIAL, steps)) && Balanced(After(INITIAL, steps), ip)
  {
    BalancedOn(INITIAL, steps);
  }

  /** Once every request has been refused or has finished, every counter is back at zero. */
  lemma ReturnsToZero(steps: seq<Step>, ip: Address)
    requires Possible(INITIAL, steps) && CalmRun(INITIAL, steps)
    requires AllOver(After(INITIAL, steps).requests)
    ensures Counter(After(INITIAL, steps), ip) == 0
  {
    AlwaysBalanced(steps, ip);
    NoneActive(After(INITIAL, steps).requests, ip);
  }

  predicate AllOver(requests: seq<Request>) {
    forall i :: 0 <= i < |requests| ==> requests[i].phase == Refused || requests[i].phase == Finished
  }

  lemma {:induction false} NoneActive(requests: seq<Request>, ip: Address)
    requires AllOver(requests)
    ensures Count(requests, ip, Admitted) == 0 && Count(requests, ip, Tentative) == 0
  {
    if requests != [] {
      assert requests[0].phase == Refused || requests[0].phase == Finished;
      NoneActive(requests[1..], ip);
    }
  }

  /**
   A request is turned away exactly if the streams of its address, and the requests of its address that
   are themselves about to be turned away, number six or more: only in the absence of the latter does
   that mean six streams.
   */
  lemma TurnedAwayExactly(steps: seq<Step>, i: nat)
    requires Possible(INITIAL, steps) && CalmRun(INITIAL, steps) && Enabled(After(INITIAL, steps), Enter(i))
    ensures var st := After(INITIAL, steps);
      var active := Count(st.requests, st.requests[i].ip, Admitted) + Count(st.requests, st.requests[i].ip, Tentative);
      Apply(st, Enter(i)).requests[i].phase == Tentative <==> active >= MAX_PER_IP
  {
    var st := After(INITIAL, steps);
    AlwaysBalanced(steps, st.requests[i].ip);
    NoWrap(Counter(st, st.requests[i].ip) + 1);
  }

  /**
   What a step does in any reachable state: it moves its own request on and the counter of its address by one,
   and no other request and no other counter.
   */
  lemma StepExact(steps: seq<Step>, step: Step)
    requires Possible(INITIAL, steps) && CalmRun(INITIAL, steps) && Enabled(After(INITIAL, steps), step)
    ensures var st := After(INITIAL, steps);
      var b := Apply(st, step);
      match step
      case Arrive(ip) => b.requests == st.requests + [Request(ip, Arrived)] && b.counters == st.counters
      case Enter(i) =>
        var ip := st.requests[i].ip;
        && b.requests == st.requests[i := Request(ip, if Counter(st, ip) < 6 then Admitted else Tentative)]
        && OnlyCounter(st, b, ip, 1)
      case TurnAway(i) =>
        var ip := st.requests[i].ip;
        b.requests == st.requests[i := Request(ip, Refused)] && OnlyCounter(st, b, ip, -1)
      case Leave(i) =>
        var ip := st.requests[i].ip;
        b.requests == st.requests[i := Request(ip, Finished)] && OnlyCounter(st, b, ip, -1)
  {
    hide Count, Possible, CalmRun, After;
    var st := After(INITIAL, steps);
    if !step.Arrive? {
      var ip := st.requests[step.i].ip;
      AlwaysBalanced(steps, ip);
      NoWrap(Counter(st, ip) + 1);
      NoWrap(Counter(st, ip) - 1);
    }
  }

  /** The counter of one address changed by so much, and no other. */
  ghost predicate OnlyCounter(a: State, b: State, ip: Address, change: int) {
    forall other :: Counter(b, other) == Counter(a, other) + if other == ip then change else 0
  }

  // ----- every request can be over -----

  /** How many steps a request still has before it at most. */
  function Ahead(phase: Phase): nat {
    match phase
    case Arrived => 2
    case Tentative => 1
    case Admitted => 1
    case Refused => 0
    case Finished => 0
  }

  function AllAhead(requests: seq<Request>): nat {
    if requests == [] then 0 else Ahead(requests[0].phase) + AllAhead(requests[1..])
  }

  lemma {:induction false} AheadUpdate(requests: seq<Request>, i: nat, r: Request)
    requires i < |requests|
    ensures AllAhead(requests[i := r]) == AllAhead(requests) - Ahead(requests[i].phase) + Ahead(r.phase)
  {
    if i > 0 {
      assert requests[i := r][1..] == requests[1..][i - 1 := r];
      AheadUpdate(requests[1..], i - 1, r);
    } else {
      assert requests[0 := r][1..] == requests[1..];
    }
  }

  /** From any state, without another request, all requests can come to their end. */
  lemma {:induction false} CanEnd(st: State) returns (more: seq<Step>)
    ensures Possible(st, more) && AllOver(After(st, more).requests) && |After(st, more).requests| == |st.requests|
    decreases AllAhead(st.requests)
  {
    hide Moved;
    if AllOver(st.requests) {
      more := [];
    } else {
      var i :| 0 <= i < |st.requests| && st.requests[i].phase != Refused && st.requests[i].phase != Finished;
      var step := if st.requests[i].phase == Arrived then Enter(i)
                  else if st.requests[i].phase == Tentative then TurnAway(i) else Leave(i);
      var next := Apply(st, step);
      Advances(st, step);
      var rest := CanEnd(next);
      more := [step] + rest;
      assert more[0] == step && more[1..] == rest;
    }
  }

  lemma Advances(st: State, step: Step)
    requires Enabled(st, step) && !step.Arrive?
    ensures var next := Apply(st, step);
      AllAhead(next.requests) < AllAhead(st.requests) && |next.requests| == |st.requests|
  {
    hide AllAhead;
    AheadUpdate(st.requests, step.i, Apply(st, step).requests[step.i]);
  }

  /** So from wherever the requests are, all of them can be over. */
  lemma AllCanEnd(steps: seq<Step>)
    requires Possible(INITIAL, steps)
    ensures exists more :: Possible(After(INITIAL, steps), more) && AllOver(After(After(INITIAL, steps), more).requests)
  {
    var more := CanEnd(After(INITIAL, steps));
  }

  /** The counters at work; each method body is one atomic step of a request. */
  class EventStreams {
    var counters: map<Address, int>
    ghost var requests: seq<Request>

    ghost function View(): State
      reads this
    {
      State(counters, requests)
    }

    constructor ()
      ensures View() == INITIAL
    {
      counters, requests := map[], [];
    }

    method Add(ip: Address, change: int) returns (now: int)
      modifies this`counters
      ensures now == Wrap(Counter(old(View()), ip) + change) && counters == old(counters)[ip := now]
    {
      now := Wrap((if ip in counters then counters[ip] else 0) + change);
      counters := counters[ip := now];
    }

    method EnterRequest(ip: Address, ghost i: nat) returns (admitted: bool)
      requires Enabled(View(), Enter(i)) && requests[i].ip == ip
      modifies this
      ensures View() == Apply(old(View()), Enter(i))
      ensures admitted <==> requests[i].phase == Admitted
    {
      var raised := Add(ip, 1);
      admitted := raised <= MAX_PER_IP;
      requests := requests[i := Request(ip, if admitted then Admitted else Tentative)];
    }

    method TurnRequestAway(ip: Address, ghost i: nat)
      requires Enabled(View(), TurnAway(i)) && requests[i].ip == ip
      modifies this
      ensures View() == Apply(old(View()), TurnAway(i))
    {
      var _ := Add(ip, -1);
      requests := requests[i := Request(ip, Refused)];
    }

    method LeaveRequest(ip: Address, ghost i: nat)
      requires Enabled(View(), Leave(i)) && requests[i].ip == ip
      modifies this
      ensures View() == Apply(old(View()), Leave(i))
    {
      var _ := Add(ip, -1);
      requests := requests[i := Request(ip, Finished)];
    }
  }
}
