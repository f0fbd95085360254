/**
 * The passenger lifecycle the tick protocol maintains. Each passenger is,
 * at any time, in exactly one of four situations: not yet arrived, queued
 * in one lobby queue, riding one car, or done (boarded, then later
 * disembarked). Timestamps follow the situation, and no car ever holds more
 * riders than the simulator's capacity allows.
 */
module Invariants {
  import opened Wrappers
  import opened Seqs
  import opened Passengers
  import opened Elevators
  import opened Policies
  import opened Simulator
  import opened Statistics

  /** How many times passenger `i` sits among the riders of the first `n` cars. */
  function RidingIn(fleet: seq<Car>, n: nat, i: nat): nat
    requires n <= |fleet|
  {
    if n == 0 then 0 else RidingIn(fleet, n - 1, i) + multiset(fleet[n - 1].riders)[i]
  }

  /** How many times passenger `i` sits in the lobby queues of the first `n` cars. */
  function WaitingIn(fleet: seq<Car>, n: nat, i: nat): nat
    requires n <= |fleet|
  {
    if n == 0 then 0 else WaitingIn(fleet, n - 1, i) + multiset(fleet[n - 1].queue)[i]
  }

  function Riding(fleet: seq<Car>, i: nat): nat
  {
    RidingIn(fleet, |fleet|, i)
  }

  function Waiting(fleet: seq<Car>, i: nat): nat
  {
    WaitingIn(fleet, |fleet|, i)
  }

  /** Fleets whose cars hold the same riders and queues have the same counts. */
  lemma {:induction false} SameHoldings(f: seq<Car>, g: seq<Car>, n: nat, i: nat)
    requires n <= |f| == |g|
    requires forall j :: 0 <= j < |f| ==> f[j].riders == g[j].riders && f[j].queue == g[j].queue
    ensures RidingIn(g, n, i) == RidingIn(f, n, i) && WaitingIn(g, n, i) == WaitingIn(f, n, i)
    decreases n
  {
    if n > 0 {
      SameHoldings(f, g, n - 1, i);
    }
  }

  // ------------------------------------------------------------ disembarking

  /** Car `c` lets passenger `i` off this tick if they ride it. */
  predicate Exits(c: Car, ps: seq<Passenger>, i: nat)
    requires i < |ps|
  {
    IsStopped(c.status) && ps[i].floor == c.floor
  }

  /** How many times passenger `i` is let off by the first `n` cars this tick. */
  function LeavingIn(fleet: seq<Car>, ps: seq<Passenger>, n: nat, i: nat): nat
    requires n <= |fleet| && i < |ps|
  {
    if n == 0 then 0
    else LeavingIn(fleet, ps, n - 1, i) + (if Exits(fleet[n - 1], ps, i) then multiset(fleet[n - 1].riders)[i] else 0)
  }

  /** At one car, a passenger who exits is gone from the riders; anyone else stays as often as before. */
  lemma AlightCount(c: Car, ps: seq<Passenger>, i: nat)
    requires CarRefs(c, |ps|) && i < |ps|
    ensures multiset(Alight(c, ps).0.riders)[i] == if Exits(c, ps, i) then 0 else multiset(c.riders)[i]
  {
    var (staying, leaving) := (Alight(c, ps).0.riders, Alight(c, ps).1);
    assert multiset(staying)[i] + multiset(leaving)[i] == multiset(c.riders)[i];
    if Exits(c, ps, i) {
      assert forall x :: x in staying ==> ps[x].floor != c.floor;
      assert multiset(staying)[i] == 0;
    } else if IsStopped(c.status) {
      assert forall x :: x in leaving ==> ps[x].floor == c.floor;
      assert multiset(leaving)[i] == 0;
    }
  }

  /**
   * Summed over the fleet: when every car loses exactly its exiting
   * occurrences and keeps its queue, the counts drop by the leavers.
   */
  lemma {:induction false} AlightCounts(fleet: seq<Car>, after: seq<Car>, ps: seq<Passenger>, n: nat, i: nat)
    requires i < |ps| && n <= |after| == |fleet|
    requires forall k :: 0 <= k < |fleet| ==>
      && multiset(after[k].riders)[i] == (if Exits(fleet[k], ps, i) then 0 else multiset(fleet[k].riders)[i])
      && after[k].queue == fleet[k].queue
    ensures RidingIn(after, n, i) + LeavingIn(fleet, ps, n, i) == RidingIn(fleet, n, i)
    ensures WaitingIn(after, n, i) == WaitingIn(fleet, n, i)
    decreases n
  {
    if n > 0 {
      AlightCounts(fleet, after, ps, n - 1, i);
    }
  }

  /** Some occurrence exits iff the passenger rides one of the cars that lets them off. */
  lemma {:induction false} LeavingExactly(fleet: seq<Car>, ps: seq<Passenger>, n: nat, i: nat)
    requires n <= |fleet| && i < |ps|
    ensures LeavingIn(fleet, ps, n, i) > 0 <==> exists k :: 0 <= k < n && Exits(fleet[k], ps, i) && i in fleet[k].riders
    decreases n
  {
    if n > 0 {
      LeavingExactly(fleet, ps, n - 1, i);
      if Exits(fleet[n - 1], ps, i) && i in fleet[n - 1].riders {
        assert multiset(fleet[n - 1].riders)[i] > 0;
      }
    }
  }

  // ------------------------------------------------------------ dispatching

  /** How many entries of `arrivals` equal `i` and are picked for one of the first `n` cars. */
  function Hits(arrivals: seq<nat>, picks: seq<nat>, n: nat, i: nat): nat
    requires |picks| == |arrivals|
    decreases |arrivals|
  {
    if |arrivals| == 0 then 0
    else (if picks[0] < n && arrivals[0] == i then 1 else 0) + Hits(arrivals[1..], picks[1..], n, i)
  }
  lemma HitsNone(arrivals: seq<nat>, picks: seq<nat>, i: nat)
    requires |picks| == |arrivals|
    ensures Hits(arrivals, picks, 0, i) == 0
  {
  }
  /** Counting one more car adds the arrivals assigned to it. */
  lemma {:induction false} HitsStep(arrivals: seq<nat>, picks: seq<nat>, k: nat, i: nat)
    requires |picks| == |arrivals|
    ensures Hits(arrivals, picks, k + 1, i) == Hits(arrivals, picks, k, i) + multiset(Assigned(arrivals, picks, k))[i]
    decreases |arrivals|
  {
    if |arrivals| > 0 {
      HitsStep(arrivals[1..], picks[1..], k, i);
      var extra: seq<nat> := if picks[0] == k then [arrivals[0]] else [];
      assert multiset(Assigned(arrivals, picks, k)) == multiset(extra) + multiset(Assigned(arrivals[1..], picks[1..], k));
    }
  }
  /** When every pick names one of the first `n` cars, those cars receive every arrival exactly once. */
  lemma {:induction false} HitsAll(arrivals: seq<nat>, picks: seq<nat>, n: nat, i: nat)
    requires |picks| == |arrivals|
    requires forall j :: 0 <= j < |picks| ==> picks[j] < n
    ensures Hits(arrivals, picks, n, i) == multiset(arrivals)[i]
    decreases |arrivals|
  {
    if |arrivals| > 0 {
      assert forall j :: 0 <= j < |picks[1..]| ==> picks[1..][j] == picks[j + 1];
      HitsAll(arrivals[1..], picks[1..], n, i);
      assert multiset(arrivals) == multiset([arrivals[0]]) + multiset(arrivals[1..]) by {
        assert arrivals == [arrivals[0]] + arrivals[1..];
      }
    }
  }

  /**
   * Summed over the fleet: when every car keeps its riders and gains in
   * its queue the arrivals assigned to it, the waiting count grows by the
   * arrivals assigned to any of the cars.
   */
  lemma {:induction false} QueuedCounts(fleet: seq<Car>, after: seq<Car>, arrivals: seq<nat>, picks: seq<nat>, n: nat, i: nat)
    requires n <= |fleet| == |after| && |picks| == |arrivals|
    requires forall k :: 0 <= k < |fleet| ==>
      && after[k].riders == fleet[k].riders
      && multiset(after[k].queue)[i] + Hits(arrivals, picks, k, i) == multiset(fleet[k].queue)[i] + Hits(arrivals, picks, k + 1, i)
    ensures RidingIn(after, n, i) == RidingIn(fleet, n, i)
    ensures WaitingIn(after, n, i) == WaitingIn(fleet, n, i) + Hits(arrivals, picks, n, i)
    decreases n
  {
    if n == 0 {
      HitsNone(arrivals, picks, i);
    } else {
      QueuedCounts(fleet, after, arrivals, picks, n - 1, i);
    }
  }

  /** Dispatching adds each arrival once to the queues and touches no rider. */
  lemma DispatchCounts(policy: Policy, fleet: seq<Car>, ps: seq<Passenger>, arrivals: seq<nat>, t: int, i: nat)
    requires FleetRefs(fleet, |ps|) && Refs(arrivals, |ps|)
    requires Dispatch(policy, fleet, ps, arrivals, t).Ok?
    ensures var after := Dispatch(policy, fleet, ps, arrivals, t).value.1;
      Riding(after, i) == Riding(fleet, i) && Waiting(after, i) == Waiting(fleet, i) + multiset(arrivals)[i]
  {
    var (_, after, picks) := Dispatch(policy, fleet, ps, arrivals, t).value;
    DispatchQueues(policy, fleet, ps, arrivals, t);
    forall k | 0 <= k < |fleet|
      ensures after[k].riders == fleet[k].riders
      ensures multiset(after[k].queue)[i] + Hits(arrivals, picks, k, i) == multiset(fleet[k].queue)[i] + Hits(arrivals, picks, k + 1, i)
    {
      HitsStep(arrivals, picks, k, i);
      var extra: seq<nat> := Assigned(arrivals, picks, k);
      assert multiset(after[k].queue) == multiset(fleet[k].queue) + multiset(extra);
    }
    QueuedCounts(fleet, after, arrivals, picks, |fleet|, i);
    HitsAll(arrivals, picks, |fleet|, i);
  }

  /** A strictly increasing list holds each value at most once. */
  lemma {:induction false} IncreasingCount(s: seq<nat>, x: nat)
    requires forall a, b :: 0 <= a < b < |s| ==> s[a] < s[b]
    ensures multiset(s)[x] == if x in s then 1 else 0
    decreases |s|
  {
    if |s| > 0 {
      var rest := s[1..];
      assert s == [s[0]] + rest;
      IncreasingCount(rest, x);
      assert forall j :: 0 <= j < |rest| ==> s[0] < rest[j] by {
        forall j | 0 <= j < |rest|
          ensures s[0] < rest[j]
        {
          assert rest[j] == s[j + 1];
        }
      }
      assert multiset(s) == multiset([s[0]]) + multiset(rest);
    }
  }

  // --------------------------------------------------------------- boarding

  /** How many times passenger `i` boards the car `c`, if it is idle at the base. */
  function Takes(c: Car, cap: int, i: nat): nat
  {
    if c.status == IdleAtBase then multiset(c.queue[..Room(c.riders, c.queue, cap)])[i] else 0
  }

  /** How many times passenger `i` boards the first `n` cars this tick. */
  function BoardingIn(fleet: seq<Car>, cap: int, n: nat, i: nat): nat
    requires n <= |fleet|
  {
    if n == 0 then 0 else BoardingIn(fleet, cap, n - 1, i) + Takes(fleet[n - 1], cap, i)
  }

  /** At one car, boarding moves the taken occurrences from the queue to the riders. */
  lemma BoardCount(c: Car, cap: int, i: nat)
    ensures multiset(BoardCar(c, cap).0.riders)[i] == multiset(c.riders)[i] + Takes(c, cap, i)
    ensures multiset(BoardCar(c, cap).0.queue)[i] + Takes(c, cap, i) == multiset(c.queue)[i]
  {
    var r := BoardCar(c, cap);
    if c.status == IdleAtBase {
      BoardTakesPrefix(c.riders, c.queue, cap);
    }
    assert r.1 == if c.status == IdleAtBase then c.queue[..Room(c.riders, c.queue, cap)] else [];
    assert multiset(r.0.riders) == multiset(c.riders) + multiset(r.1);
    assert multiset(c.queue) == multiset(r.1) + multiset(r.0.queue);
  }

  /** Summed over the fleet: when every car moves its taken occurrences aboard, so do the counts. */
  lemma {:induction false} BoardCounts(fleet: seq<Car>, after: seq<Car>, cap: int, n: nat, i: nat)
    requires n <= |after| == |fleet|
    requires forall k :: 0 <= k < |fleet| ==>
      && multiset(after[k].riders)[i] == multiset(fleet[k].riders)[i] + Takes(fleet[k], cap, i)
      && multiset(after[k].queue)[i] + Takes(fleet[k], cap, i) == multiset(fleet[k].queue)[i]
    ensures RidingIn(after, n, i) == RidingIn(fleet, n, i) + BoardingIn(fleet, cap, n, i)
    ensures WaitingIn(after, n, i) + BoardingIn(fleet, cap, n, i) == WaitingIn(fleet, n, i)
    decreases n
  {
    if n > 0 {
      BoardCounts(fleet, after, cap, n - 1, i);
    }
  }

  /** Some occurrence is taken iff the passenger is within the room of one idle car's queue. */
  lemma {:induction false} BoardingExactly(fleet: seq<Car>, cap: int, n: nat, i: nat)
    requires n <= |fleet|
    ensures BoardingIn(fleet, cap, n, i) > 0 <==>
      exists k :: 0 <= k < n && fleet[k].status == IdleAtBase
                  && i in fleet[k].queue[..Room(fleet[k].riders, fleet[k].queue, cap)]
    decreases n
  {
    if n > 0 {
      BoardingExactly(fleet, cap, n - 1, i);
      var c := fleet[n - 1];
      if c.status == IdleAtBase && i in c.queue[..Room(c.riders, c.queue, cap)] {
        assert Takes(c, cap, i) > 0;
      }
    }
  }

  // -------------------------------------------------------------- lifecycle

  /** Not arrived by `now`: no instant recorded yet. */
  predicate Pending(p: Passenger, now: int)
  {
    now < p.arrival && p.boarding.None? && p.disembark.None?
  }

  /** Done by `now`: boarded no earlier than arrival, and later let off. */
  predicate Delivered(p: Passenger, now: int)
  {
    && p.boarding.Some? && p.disembark.Some?
    && p.arrival <= p.boarding.value < p.disembark.value <= now
  }

  /**
   * The situation of one passenger at `now`, given how often the fleet
   * holds them among riders and in queues: at most once in all; queued
   * after arriving, without instants; riding after boarding no earlier
   * than arrival; otherwise not yet arrived or delivered.
   */
  predicate Lifecycle(p: Passenger, riding: nat, waiting: nat, now: int)
  {
    && riding + waiting <= 1
    && (waiting == 1 ==> p.arrival <= now && p.boarding.None? && p.disembark.None?)
    && (riding == 1 ==> p.boarding.Some? && p.arrival <= p.boarding.value <= now && p.disembark.None?)
    && (riding + waiting == 0 ==> Pending(p, now) || Delivered(p, now))
  }

  function Headroom(cap: int): nat
  {
    if cap < 0 then 0 else cap
  }

  /**
   * The run after processing instant `now`: every passenger in their
   * lifecycle and no car over the simulator's capacity.
   */
  predicate Consistent(s: Sim, now: int)
  {
    && Linked(s)
    && (forall i :: 0 <= i < |s.people| ==> Lifecycle(s.people[i], Riding(s.fleet, i), Waiting(s.fleet, i), now))
    && (forall k :: 0 <= k < |s.fleet| ==> |s.fleet[k].riders| <= Headroom(s.config.capacity))
  }

  /**
   * One passenger through one tick at `t`: `left` occurrences get off
   * (stamping the disembark instant), `arrived` is one iff they arrive at
   * `t`, and `took` occurrences board (stamping the boarding instant).
   */
  lemma PassengerTick(p: Passenger, riding: nat, waiting: nat, t: int, left: nat, arrived: nat, took: nat)
    requires Lifecycle(p, riding, waiting, t - 1)
    requires left <= riding && took <= waiting + arrived
    requires arrived == if p.arrival == t then 1 else 0
    ensures var p1 := if left > 0 then p.(disembark := Some(t)) else p;
      var p2 := if took > 0 then p1.(boarding := Some(t)) else p1;
      Lifecycle(p2, riding - left + took, waiting + arrived - took, t)
  {
  }

  /** The same tick sets an instant only where none was recorded. */
  lemma PassengerStamps(p: Passenger, riding: nat, waiting: nat, t: int, left: nat, arrived: nat, took: nat)
    requires Lifecycle(p, riding, waiting, t - 1)
    requires left <= riding && took <= waiting + arrived
    requires arrived == if p.arrival == t then 1 else 0
    ensures var p1 := if left > 0 then p.(disembark := Some(t)) else p;
      var p2 := if took > 0 then p1.(boarding := Some(t)) else p1;
      && (p2.boarding == p.boarding || (p.boarding.None? && p2.boarding == Some(t)))
      && (p2.disembark == p.disembark || (p.disembark.None? && p2.disembark == Some(t)))
  {
  }

  /**
   * The first half of a tick never adds a rider or touches a queue, and
   * stamps the disembark instant of exactly the passengers it lets off.
   */
  lemma SettleCounts(fleet: seq<Car>, ps: seq<Passenger>, t: int, i: nat)
    requires FleetRefs(fleet, |ps|) && i < |ps|
    requires Settle(fleet, ps, t).Ok?
    ensures var (landed, ps1) := Settle(fleet, ps, t).value;
      && Riding(landed, i) <= Riding(fleet, i)
      && Waiting(landed, i) == Waiting(fleet, i)
      && ps1[i] == if Riding(landed, i) < Riding(fleet, i) then ps[i].(disembark := Some(t)) else ps[i]
  {
    var moved := StepAll(fleet, ps, t).value;
    assert FleetRefs(moved, |ps|) by {
      forall k | 0 <= k < |moved|
        ensures CarRefs(moved[k], |ps|)
      {
        assert SameCargo(fleet[k], moved[k]);
      }
    }
    var (landed, ps1) := DisembarkAll(moved, ps, t);
    assert Settle(fleet, ps, t).value == (landed, ps1);
    SameHoldings(fleet, moved, |fleet|, i);
    forall k | 0 <= k < |moved|
      ensures multiset(landed[k].riders)[i] == (if Exits(moved[k], ps, i) then 0 else multiset(moved[k].riders)[i])
      ensures landed[k].queue == moved[k].queue
    {
      AlightCount(moved[k], ps, i);
    }
    AlightCounts(moved, landed, ps, |moved|, i);
    LeavingExactly(moved, ps, |moved|, i);
  }

  /** The first half of a tick never makes a car fuller. */
  lemma SettleShrinks(fleet: seq<Car>, ps: seq<Passenger>, t: int, k: nat)
    requires FleetRefs(fleet, |ps|) && k < |fleet|
    requires Settle(fleet, ps, t).Ok?
    ensures |Settle(fleet, ps, t).value.0[k].riders| <= |fleet[k].riders|
  {
    var moved := StepAll(fleet, ps, t).value;
    assert SameCargo(fleet[k], moved[k]);
    assert FleetRefs(moved, |ps|) by {
      forall j | 0 <= j < |moved|
        ensures CarRefs(moved[j], |ps|)
      {
        assert SameCargo(fleet[j], moved[j]);
      }
    }
    var (landed, ps1) := DisembarkAll(moved, ps, t);
    assert Settle(fleet, ps, t).value == (landed, ps1);
    assert |multiset(landed[k].riders)| <= |multiset(moved[k].riders)|;
  }

  /**
   * The second half of a tick adds each passenger arriving at `t` once to
   * the fleet, never lets a rider go, and stamps the boarding instant of
   * exactly the passengers who board.
   */
  lemma AdmitCounts(policy: Policy, fleet: seq<Car>, ps: seq<Passenger>, cap: int, t: int, i: nat)
    requires FleetRefs(fleet, |ps|) && i < |ps|
    requires Admit(policy, fleet, ps, cap, t).Ok?
    ensures var (_, boarded, ps2) := Admit(policy, fleet, ps, cap, t).value;
      && Riding(fleet, i) <= Riding(boarded, i)
      && Riding(boarded, i) + Waiting(boarded, i)
         == Riding(fleet, i) + Waiting(fleet, i) + (if ps[i].arrival == t then 1 else 0)
      && ps2[i] == if Riding(fleet, i) < Riding(boarded, i) then ps[i].(boarding := Some(t)) else ps[i]
  {
    var arrivals: seq<nat> := Arrivals(ps, t);
    var (next, queued, picks) := Dispatch(policy, fleet, ps, arrivals, t).value;
    DispatchQueues(policy, fleet, ps, arrivals, t);
    var (boarded, ps2) := BoardAll(queued, ps, cap, t);
    assert Admit(policy, fleet, ps, cap, t).value == (next, boarded, ps2);
    DispatchCounts(policy, fleet, ps, arrivals, t, i);
    IncreasingCount(arrivals, i);
    forall k | 0 <= k < |queued|
      ensures multiset(boarded[k].riders)[i] == multiset(queued[k].riders)[i] + Takes(queued[k], cap, i)
      ensures multiset(boarded[k].queue)[i] + Takes(queued[k], cap, i) == multiset(queued[k].queue)[i]
    {
      BoardCount(queued[k], cap, i);
    }
    BoardCounts(queued, boarded, cap, |queued|, i);
    BoardingExactly(queued, cap, |queued|, i);
  }

  /** The second half of a tick fills a car only up to the capacity. */
  lemma AdmitWithin(policy: Policy, fleet: seq<Car>, ps: seq<Passenger>, cap: int, t: int, k: nat)
    requires FleetRefs(fleet, |ps|) && k < |fleet| && |fleet[k].riders| <= Headroom(cap)
    requires Admit(policy, fleet, ps, cap, t).Ok?
    ensures |Admit(policy, fleet, ps, cap, t).value.1[k].riders| <= Headroom(cap)
  {
    var arrivals: seq<nat> := Arrivals(ps, t);
    var (next, queued, picks) := Dispatch(policy, fleet, ps, arrivals, t).value;
    DispatchQueues(policy, fleet, ps, arrivals, t);
    var (boarded, ps2) := BoardAll(queued, ps, cap, t);
    assert Admit(policy, fleet, ps, cap, t).value == (next, boarded, ps2);
    assert queued[k].riders == fleet[k].riders;
  }

  /** A processed tick is `Settle` followed by `Admit` with the simulator's capacity. */
  lemma TickPhases(s: Sim)
    requires Linked(s) && s.current.Some? && ProcessTick(s).Ok?
    ensures Settle(s.fleet, s.people, s.current.value).Ok?
    ensures var (landed, ps1) := Settle(s.fleet, s.people, s.current.value).value;
      && FleetRefs(landed, |ps1|)
      && Admit(s.policy, landed, ps1, s.config.capacity, s.current.value).Ok?
      && ProcessTick(s).value.0.fleet == Admit(s.policy, landed, ps1, s.config.capacity, s.current.value).value.1
      && ProcessTick(s).value.0.people == Admit(s.policy, landed, ps1, s.config.capacity, s.current.value).value.2
  {
  }

  /** One passenger moves from their situation after `t - 1` to one after `t`. */
  lemma TickPassenger(s: Sim, i: nat)
    requires s.current.Some? && Consistent(s, s.current.value - 1)
    requires ProcessTick(s).Ok? && i < |s.people|
    ensures var s' := ProcessTick(s).value.0;
      Lifecycle(s'.people[i], Riding(s'.fleet, i), Waiting(s'.fleet, i), s.current.value)
  {
    var t := s.current.value;
    var cap := s.config.capacity;
    TickPhases(s);
    var (landed, ps1) := Settle(s.fleet, s.people, t).value;
    var (_, boarded, ps2) := Admit(s.policy, landed, ps1, cap, t).value;
    SettleCounts(s.fleet, s.people, t, i);
    AdmitCounts(s.policy, landed, ps1, cap, t, i);
    var (r0, r1, r2) := (Riding(s.fleet, i), Riding(landed, i), Riding(boarded, i));
    PassengerTick(s.people[i], r0, Waiting(s.fleet, i), t,
                  r0 - r1, if s.people[i].arrival == t then 1 else 0, r2 - r1);
  }

  /** No car ends a tick over the capacity. */
  lemma TickWithin(s: Sim, k: nat)
    requires s.current.Some? && Consistent(s, s.current.value - 1)
    requires ProcessTick(s).Ok? && k < |s.fleet|
    ensures |ProcessTick(s).value.0.fleet[k].riders| <= Headroom(s.config.capacity)
  {
    var t := s.current.value;
    TickPhases(s);
    var (landed, ps1) := Settle(s.fleet, s.people, t).value;
    SettleShrinks(s.fleet, s.people, t, k);
    AdmitWithin(s.policy, landed, ps1, s.config.capacity, t, k);
  }

  /**
   * `processarInstante` at `t` keeps the run consistent: from the situation
   * after `t - 1`, every passenger ends up in the situation after `t`, and
   * no car exceeds the capacity.
   */
  lemma TickKeepsConsistent(s: Sim)
    requires s.current.Some? && Consistent(s, s.current.value - 1)
    requires ProcessTick(s).Ok?
    ensures Consistent(ProcessTick(s).value.0, s.current.value)
  {
    var s' := ProcessTick(s).value.0;
    forall i: nat | i < |s'.people|
      ensures Lifecycle(s'.people[i], Riding(s'.fleet, i), Waiting(s'.fleet, i), s.current.value)
    {
      TickPassenger(s, i);
    }
    forall k: nat | k < |s'.fleet|
      ensures |s'.fleet[k].riders| <= Headroom(s'.config.capacity)
    {
      TickWithin(s, k);
    }
  }

  /**
   * Across a tick a recorded instant never changes, and a missing one is
   * either still missing or set to the tick's instant: each instant is set
   * once and only moves forward.
   */
  lemma {:induction false} TickStampsOnce(s: Sim, i: nat)
    requires s.current.Some? && Consistent(s, s.current.value - 1)
    requires ProcessTick(s).Ok? && i < |s.people|
    ensures var (p, p') := (s.people[i], ProcessTick(s).value.0.people[i]);
      && (p'.boarding == p.boarding || (p.boarding.None? && p'.boarding == s.current))
      && (p'.disembark == p.disembark || (p.disembark.None? && p'.disembark == s.current))
  {
    var t := s.current.value;
    var cap := s.config.capacity;
    TickPhases(s);
    var (landed, ps1) := Settle(s.fleet, s.people, t).value;
    var (_, boarded, ps2) := Admit(s.policy, landed, ps1, cap, t).value;
    SettleCounts(s.fleet, s.people, t, i);
    AdmitCounts(s.policy, landed, ps1, cap, t, i);
    var (r0, r1, r2) := (Riding(s.fleet, i), Riding(landed, i), Riding(boarded, i));
    PassengerStamps(s.people[i], r0, Waiting(s.fleet, i), t,
                  r0 - r1, if s.people[i].arrival == t then 1 else 0, r2 - r1);
  }

  // ------------------------------------------------------------------ runs

  /** Nobody has an instant recorded, as after loading. */
  predicate Fresh(people: seq<Passenger>)
  {
    forall i :: 0 <= i < |people| ==> people[i].boarding.None? && people[i].disembark.None?
  }

  lemma {:induction false} EmptyCounts(fleet: seq<Car>, n: nat, i: nat)
    requires n <= |fleet|
    requires forall k :: 0 <= k < |fleet| ==> fleet[k].riders == [] && fleet[k].queue == []
    ensures RidingIn(fleet, n, i) == 0 && WaitingIn(fleet, n, i) == 0
    decreases n
  {
    if n > 0 {
      EmptyCounts(fleet, n - 1, i);
    }
  }

  /**
   * `inicializar` on freshly loaded passengers yields a consistent run just
   * before its first instant: everybody is still to arrive.
   */
  lemma InitializeConsistent(s: Sim, people: seq<Passenger>)
    requires Initialize(s, people).Ok? && Fresh(people)
    ensures Consistent(Initialize(s, people).value, Initialize(s, people).value.initial.value - 1)
  {
    var s' := Initialize(s, people).value;
    forall i: nat | i < |people|
      ensures Lifecycle(people[i], Riding(s'.fleet, i), Waiting(s'.fleet, i), s'.initial.value - 1)
    {
      EmptyCounts(s'.fleet, |s'.fleet|, i);
    }
  }

  /**
   * A consistent run in which everybody has a disembark instant has
   * delivered every passenger, holds nobody in any car, and has all three
   * durations for every passenger.
   */
  lemma FinishedDelivered(s: Sim, now: int)
    requires Consistent(s, now) && AllDisembarked(s.people)
    ensures forall i :: 0 <= i < |s.people| ==> Delivered(s.people[i], now)
    ensures forall i: nat :: i < |s.people| ==> Riding(s.fleet, i) == 0 && Waiting(s.fleet, i) == 0
    ensures Missing(s.people, Wait) == 0 && Missing(s.people, Ride) == 0 && Missing(s.people, Total) == 0
    ensures forall i :: 0 <= i < |s.people| ==> s.people[i].boarding.Some? && s.people[i].disembark.Some?
  {
    forall i | 0 <= i < |s.people|
      ensures Delivered(s.people[i], now)
      ensures Riding(s.fleet, i) == 0 && Waiting(s.fleet, i) == 0
    {
      assert Lifecycle(s.people[i], Riding(s.fleet, i), Waiting(s.fleet, i), now);
    }
    NoneMissing(s.people, Wait);
    NoneMissing(s.people, Ride);
    NoneMissing(s.people, Total);
  }

  /**
   * The tick reports the run finished iff every passenger has both a
   * boarding and a disembark instant.
   */
  lemma FinishedIffServed(s: Sim)
    requires s.current.Some? && Consistent(s, s.current.value - 1)
    requires ProcessTick(s).Ok?
    ensures var (s', progress) := ProcessTick(s).value;
      progress == Finished <==>
        forall i :: 0 <= i < |s'.people| ==> s'.people[i].boarding.Some? && s'.people[i].disembark.Some?
  {
    var s' := ProcessTick(s).value.0;
    if AllDisembarked(s'.people) {
      var now := s.current.value;
      assert forall i :: 0 <= i < |s'.people| ==> s'.people[i].boarding.Some? && s'.people[i].disembark.Some? by {
        TickKeepsConsistent(s);
        FinishedDelivered(s', now);
      }
    }
  }

  /**
   * One round of the external driving loop: process the current instant
   * and, while the run is not finished, advance the clock.
   */
  function Round(s: Sim): (r: Result<(Sim, Progress)>)
    requires Linked(s)
    ensures r.Ok? ==> Linked(r.value.0) && s.current.Some? && r.value.0.current.Some?
    ensures r.Ok? && r.value.1 == Finished ==> r.value.0.current.value == s.current.value
    ensures r.Ok? && r.value.1 == Running ==> r.value.0.current.value == s.current.value + 1
  {
    var tick := ProcessTick(s);
    if tick.Fail? || tick.value.1 == Finished then tick
    else
      Ok((Increment(tick.value.0).value, Running))
  }

  /** A round keeps the run consistent with the instant it is about to process. */
  lemma RoundKeepsConsistent(s: Sim)
    requires s.current.Some? && Consistent(s, s.current.value - 1)
    requires Round(s).Ok?
    ensures var (s', progress) := Round(s).value;
      && (progress == Running ==> Consistent(s', s'.current.value - 1))
      && (progress == Finished ==> Consistent(s', s'.current.value) && AllDisembarked(s'.people))
  {
    TickKeepsConsistent(s);
  }

  /** `s'` is the state a round that did not finish leads to from `s`. */
  predicate Advances(s: Sim, s': Sim)
  {
    Linked(s) && Round(s) == Ok((s', Running))
  }

  /** A round that does not finish moves the clock one second on and keeps the run consistent. */
  lemma AdvanceKeepsConsistent(s: Sim, s': Sim)
    requires s.current.Some? && Consistent(s, s.current.value - 1)
    requires Advances(s, s')
    ensures s'.current.Some? && s'.current.value == s.current.value + 1
    ensures Consistent(s', s'.current.value - 1)
  {
    RoundKeepsConsistent(s);
    assert Round(s).value == (s', Running);
  }

  /** The `j`-th state of a run leads to the next by a round that did not finish. */
  predicate StepAt(trace: seq<Sim>, j: nat)
  {
    j + 1 < |trace| && Advances(trace[j], trace[j + 1])
  }

  /** A run of the driving loop: each state is reached from the previous one by a round that did not finish. */
  predicate Trace(trace: seq<Sim>)
  {
    forall j: nat :: j + 1 < |trace| ==> StepAt(trace, j)
  }

  lemma TracePrefix(trace: seq<Sim>, n: nat)
    requires Trace(trace) && 0 < n <= |trace|
    ensures Trace(trace[..n])
  {
    var front := trace[..n];
    forall j: nat | j + 1 < |front|
      ensures StepAt(front, j)
    {
      assert StepAt(trace, j);
      assert front[j] == trace[j] && front[j + 1] == trace[j + 1];
    }
  }

  /** One step along a run keeps it consistent and moves the clock on. */
  lemma TraceStep(trace: seq<Sim>, n: nat)
    requires Trace(trace) && 0 < n < |trace|
    requires trace[n - 1].current.Some? && Consistent(trace[n - 1], trace[n - 1].current.value - 1)
    ensures trace[n].current.Some? && trace[n].current.value == trace[n - 1].current.value + 1
    ensures Consistent(trace[n], trace[n].current.value - 1)
  {
    assert StepAt(trace, n - 1);
    AdvanceKeepsConsistent(trace[n - 1], trace[n]);
  }

  /**
   * Along a run that starts consistent, the clock advances one second per
   * round and every state is consistent with the instant it is about to
   * process.
   */
  lemma {:induction false} TraceKeepsConsistent(trace: seq<Sim>)
    requires |trace| > 0 && trace[0].current.Some? && Consistent(trace[0], trace[0].current.value - 1)
    requires Trace(trace)
    ensures var last := trace[|trace| - 1];
      && last.current.Some? && last.current.value == trace[0].current.value + |trace| - 1
      && Consistent(last, last.current.value - 1)
    decreases |trace|
  {
    if |trace| > 1 {
      var n := |trace| - 1;
      TracePrefix(trace, n);
      TraceKeepsConsistent(trace[..n]);
      assert trace[..n][n - 1] == trace[n - 1] && trace[..n][0] == trace[0];
      TraceStep(trace, n);
    }
  }

  /** A round that finishes a consistent run ends it with everybody delivered. */
  lemma RoundFinishes(s: Sim)
    requires s.current.Some? && Consistent(s, s.current.value - 1)
    requires Round(s).Ok? && Round(s).value.1 == Finished
    ensures var s' := Round(s).value.0;
      forall i :: 0 <= i < |s'.people| ==> Delivered(s'.people[i], s'.current.value)
  {
    RoundKeepsConsistent(s);
    var s1 := Round(s).value.0;
    FinishedDelivered(s1, s1.current.value);
  }
}
