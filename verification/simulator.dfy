/**
 * The simulation driver (`Simulador`): creating the fleet from the
 * passenger list, advancing the clock, and the one-second tick that moves
 * the cars, lets riders off, dispatches new arrivals and boards the lobby
 * queues.
 */
module Simulator {
  import opened Wrappers
  import opened Seqs
  import opened Passengers
  import opened Elevators
  import opened Policies

  /** The simulator's parameters. Durations are whole seconds. */
  datatype Config = Config(
    cars: int,           // `quantidadeElevadores`
    dwellPeriod: int,    // `periodoParadaElevador`
    travelPeriod: int,   // `periodoEntreAndaresElevador`
    capacity: int,       // `lotacaoMaximaElevador`
    minFloor: int,       // `andarMinimoElevador`
    maxFloor: int,       // `andarMaximoElevador`
    startFloor: int)     // `andarInicialElevador`

  /** The constructor's defaults: 4 cars, 20 s stops, 2 s per floor, 8 riders, floors 1 to 25, start at 1. */
  const Defaults := Config(4, 20, 2, 8, 1, 25, 1)

  /** `SimulacaoStatus`. */
  datatype Progress = Running | Finished   // PROCESSANDO | FINALIZADA

  datatype Sim = Sim(
    config: Config,
    policy: Policy,               // `elevadorControle`
    people: seq<Passenger>,       // `listaPessoas`
    fleet: seq<Car>,              // `listaElevadores`
    initial: Option<int>,         // `instanteInicial`
    current: Option<int>,         // `instanteAtual`
    final: Option<int>)           // `instanteFinal`

  /** Every passenger reference held by a car names a passenger of the run. */
  predicate Linked(s: Sim)
  {
    FleetRefs(s.fleet, |s.people|)
  }

  /** `new Simulador(controle)`: default parameters, no passenger, no car, no instant yet. */
  function NewSim(policy: Policy): (s: Sim)
    ensures s.config == Defaults && s.policy == policy
    ensures s.current.None? && s.final.None? && s.initial.None?
    ensures Linked(s)
  {
    Sim(Defaults, policy, [], [], None, None, None)
  }

  function ArrivalTimes(people: seq<Passenger>): (r: seq<int>)
    ensures |r| == |people|
    ensures forall i :: 0 <= i < |people| ==> r[i] == people[i].arrival
  {
    seq(|people|, i requires 0 <= i < |people| => people[i].arrival)
  }

  /** A freshly built car: position `k` in the fleet gets id `k + 1`, empty, idle at the start floor. */
  function NewCar(cfg: Config, k: nat, start: int): Car
  {
    Car(k + 1, cfg.startFloor, cfg.minFloor, cfg.maxFloor, cfg.capacity, [], [], IdleAtBase,
        start, cfg.travelPeriod, cfg.dwellPeriod)
  }

  /**
   * `inicializar`: the run starts at the earliest arrival; the fleet is
   * rebuilt and the policy reset. It fails on an empty passenger list, on a
   * negative number of cars, and (with at least one car) on a negative
   * capacity, since both sizes are used as list capacities. The final
   * instant of an earlier run is kept.
   */
  function Initialize(s: Sim, people: seq<Passenger>): (r: Result<Sim>)
    ensures r.Fail? <==> |people| == 0 || s.config.cars < 0 || (s.config.cars > 0 && s.config.capacity < 0)
    ensures |people| == 0 ==> r == Fail(EmptyPassengerList)
    ensures |people| > 0 && s.config.cars < 0 ==> r == Fail(NegativeFleetSize)
    ensures |people| > 0 && s.config.cars > 0 && s.config.capacity < 0 ==> r == Fail(NegativeCapacity)
    ensures r.Ok? ==>
      && r.value.initial.Some? && r.value.current == r.value.initial
      && (exists i :: 0 <= i < |people| && people[i].arrival == r.value.initial.value)
      && (forall i :: 0 <= i < |people| ==> r.value.initial.value <= people[i].arrival)
    ensures r.Ok? ==>
      && r.value.people == people && r.value.config == s.config && r.value.final == s.final
      && r.value.policy == Reset(s.policy)
      && |r.value.fleet| == s.config.cars
    ensures r.Ok? ==> forall k :: 0 <= k < |r.value.fleet| ==>
      var c := r.value.fleet[k];
      && c.id == k + 1 && c.status == IdleAtBase && c.floor == s.config.startFloor
      && c.riders == [] && c.queue == [] && c.mark == r.value.initial.value
      && c.minFloor == s.config.minFloor && c.maxFloor == s.config.maxFloor
      && c.capacity == s.config.capacity
      && c.travelPeriod == s.config.travelPeriod && c.dwellPeriod == s.config.dwellPeriod
    ensures r.Ok? ==> Linked(r.value)
  {
    if |people| == 0 then Fail(EmptyPassengerList)
    else
      var times := ArrivalTimes(people);
      var start := Min(times);
      if s.config.cars < 0 then Fail(NegativeFleetSize)
      else if s.config.cars > 0 && s.config.capacity < 0 then Fail(NegativeCapacity)
      else
        var fleet := seq(s.config.cars, k requires 0 <= k => NewCar(s.config, k, start));
        Ok(s.(people := people, fleet := fleet, initial := Some(start), current := Some(start),
              policy := Reset(s.policy)))
  }

  /** Cars built by `inicializar` are pairwise different under `Elevador.equals`. */
  lemma InitialCarsDistinct(s: Sim, people: seq<Passenger>, a: nat, b: nat)
    requires Initialize(s, people).Ok?
    requires a < |Initialize(s, people).value.fleet| && b < |Initialize(s, people).value.fleet|
    ensures SameCar(Initialize(s, people).value.fleet[a], Initialize(s, people).value.fleet[b]) <==> a == b
  {
  }

  /** `incrementarInstanteAtual`: one second later; before `inicializar` there is no instant to advance. */
  function Increment(s: Sim): (r: Result<Sim>)
    ensures r.Fail? <==> s.current.None?
    ensures r.Fail? ==> r.fault == NoCurrentInstant
    ensures r.Ok? ==> r.value == s.(current := Some(s.current.value + 1))
  {
    match s.current
    case None => Fail(NoCurrentInstant)
    case Some(t) => Ok(s.(current := Some(t + 1)))
  }

  // ---------------------------------------------------------------- moving

  /** `forEach(e -> e.atualizar(t))`: every car steps; the first car that fails aborts the tick. */
  function StepAll(fleet: seq<Car>, ps: seq<Passenger>, t: int): (r: Result<seq<Car>>)
    requires FleetRefs(fleet, |ps|)
    ensures r.Fail? <==> exists k :: 0 <= k < |fleet| && Step(fleet[k], ps, t).Fail?
    ensures r.Fail? ==> exists k :: 0 <= k < |fleet| && Step(fleet[k], ps, t) == Fail(r.fault)
    ensures r.Ok? ==> |r.value| == |fleet|
    ensures r.Ok? ==> forall k :: 0 <= k < |fleet| ==> r.value[k] == Step(fleet[k], ps, t).value
  {
    if |fleet| == 0 then Ok([])
    else
      var head :- Step(fleet[0], ps, t);
      var rest :- StepAll(fleet[1..], ps, t);
      assert forall k :: 1 <= k < |fleet| ==> fleet[1..][k - 1] == fleet[k];
      Ok([head] + rest)
  }

  // ---------------------------------------------------------- timestamps

  datatype Event = Boarded | Disembarked

  /** The passenger with the instant of `ev` set to `t` (`setInstanteEmbarque` / `setInstanteDesembarque`). */
  function Stamp(p: Passenger, ev: Event, t: int): Passenger
  {
    match ev
    case Boarded => p.(boarding := Some(t))
    case Disembarked => p.(disembark := Some(t))
  }

  /**
   * Stamping the passengers `ids` one after another: each listed passenger
   * ends up stamped once, everybody else is untouched.
   */
  function StampAll(ps: seq<Passenger>, ids: seq<nat>, ev: Event, t: int): (r: seq<Passenger>)
    requires Refs(ids, |ps|)
    ensures |r| == |ps|
    ensures forall i :: 0 <= i < |ps| ==> r[i] == if i in ids then Stamp(ps[i], ev, t) else ps[i]
    decreases |ids|
  {
    if |ids| == 0 then ps
    else
      var last := ids[|ids| - 1];
      var front := StampAll(ps, ids[..|ids| - 1], ev, t);
      assert forall i :: i in ids <==> i in ids[..|ids| - 1] || i == last by {
        assert ids == ids[..|ids| - 1] + [last];
      }
      front[last := Stamp(ps[last], ev, t)]
  }

  // ---------------------------------------------------------- disembarking

  /**
   * Splits `ids` into the passengers headed for floor `f` (`filter(p ->
   * p.getAndar() == f)`) and the others, both in order.
   */
  function SplitByFloor(ids: seq<nat>, ps: seq<Passenger>, f: int): (r: (seq<nat>, seq<nat>))
    requires Refs(ids, |ps|)
    ensures Refs(r.0, |ps|) && Refs(r.1, |ps|)
    ensures forall j :: 0 <= j < |r.0| ==> ps[r.0[j]].floor == f
    ensures forall j :: 0 <= j < |r.1| ==> ps[r.1[j]].floor != f
    decreases |ids|
  {
    if |ids| == 0 then ([], [])
    else
      var x := ids[0];
      RefsAppend([x], ids[1..], |ps|);
      assert ids == [x] + ids[1..];
      var (here, there) := SplitByFloor(ids[1..], ps, f);
      if ps[x].floor == f then
        RefsAppend([x], here, |ps|);
        ([x] + here, there)
      else
        RefsAppend([x], there, |ps|);
        (here, [x] + there)
  }

  /** The two parts together hold exactly the given references. */
  lemma {:induction false} SplitByFloorKeepsAll(ids: seq<nat>, ps: seq<Passenger>, f: int)
    requires Refs(ids, |ps|)
    ensures var (here, there) := SplitByFloor(ids, ps, f); multiset(here) + multiset(there) == multiset(ids)
    decreases |ids|
  {
    if |ids| > 0 {
      var x := ids[0];
      RefsAppend([x], ids[1..], |ps|);
      SplitByFloorKeepsAll(ids[1..], ps, f);
      assert multiset(ids) == multiset([x]) + multiset(ids[1..]) by {
        assert ids == [x] + ids[1..];
      }
    }
  }

  /**
   * Disembarking at one car: a stopped car lets off exactly the riders
   * headed for its floor (`removeAll` of the filtered riders, which under
   * value equality drops precisely those); any other car lets nobody off.
   * Returns the car and who left it.
   */
  function Alight(c: Car, ps: seq<Passenger>): (r: (Car, seq<nat>))
    requires CarRefs(c, |ps|)
    ensures r.0 == c.(riders := r.0.riders)
    ensures CarRefs(r.0, |ps|) && Refs(r.1, |ps|)
    ensures multiset(r.0.riders) + multiset(r.1) == multiset(c.riders)
    ensures forall j :: 0 <= j < |r.1| ==> ps[r.1[j]].floor == c.floor
    ensures IsStopped(c.status) ==> forall j :: 0 <= j < |r.0.riders| ==> ps[r.0.riders[j]].floor != c.floor
    ensures !IsStopped(c.status) ==> r.0 == c && r.1 == []
  {
    if IsStopped(c.status) then
      SplitByFloorKeepsAll(c.riders, ps, c.floor);
      var (leaving, staying) := SplitByFloor(c.riders, ps, c.floor);
      (c.(riders := staying), leaving)
    else (c, [])
  }

  /**
   * A passenger leaves at this tick iff they ride a stopped car whose floor
   * is their destination.
   */
  predicate Leaves(fleet: seq<Car>, ps: seq<Passenger>, i: nat)
    requires i < |ps|
  {
    exists k :: 0 <= k < |fleet| && IsStopped(fleet[k].status) && i in fleet[k].riders
                && ps[i].floor == fleet[k].floor
  }

  /** The leavers of all cars, in fleet order. */
  function Leavers(fleet: seq<Car>, ps: seq<Passenger>): seq<nat>
    requires FleetRefs(fleet, |ps|)
  {
    Flatten(seq(|fleet|, k requires 0 <= k < |fleet| => Alight(fleet[k], ps).1))
  }

  /** At one car, the leavers are exactly the riders at their floor, when the car is stopped. */
  lemma AlightExactly(c: Car, ps: seq<Passenger>, i: nat)
    requires CarRefs(c, |ps|) && i < |ps|
    ensures i in Alight(c, ps).1 <==> IsStopped(c.status) && i in c.riders && ps[i].floor == c.floor
  {
    var (staying, leaving) := (Alight(c, ps).0.riders, Alight(c, ps).1);
    assert multiset(staying)[i] + multiset(leaving)[i] == multiset(c.riders)[i];
    if i in leaving {
      assert multiset(leaving)[i] > 0;
      var j :| 0 <= j < |leaving| && leaving[j] == i;
    }
    if IsStopped(c.status) && i in c.riders && ps[i].floor == c.floor {
      assert forall x :: x in staying ==> ps[x].floor != c.floor;
      assert multiset(staying)[i] == 0;
    }
  }

  /** Concatenating lists of passenger references keeps them references. */
  lemma FlattenRefs(lists: seq<seq<nat>>, n: nat)
    requires forall k :: 0 <= k < |lists| ==> Refs(lists[k], n)
    ensures Refs(Flatten(lists), n)
  {
    var all := Flatten(lists);
    forall j | 0 <= j < |all|
      ensures all[j] < n
    {
      var x: nat := all[j];
      InFlatten<nat>(lists, x);
      assert x in all;
      var k :| 0 <= k < |lists| && x in lists[k];
      var m :| 0 <= m < |lists[k]| && lists[k][m] == x;
    }
  }

  lemma LeaversLinked(fleet: seq<Car>, ps: seq<Passenger>)
    requires FleetRefs(fleet, |ps|)
    ensures Refs(Leavers(fleet, ps), |ps|)
  {
    var lists := seq(|fleet|, k requires 0 <= k < |fleet| => Alight(fleet[k], ps).1);
    assert Leavers(fleet, ps) == Flatten(lists);
    FlattenRefs(lists, |ps|);
  }

  /** Exactly the passengers that `Leaves` describes are collected. */
  lemma LeaversExactly(fleet: seq<Car>, ps: seq<Passenger>, i: nat)
    requires FleetRefs(fleet, |ps|) && i < |ps|
    ensures i in Leavers(fleet, ps) <==> Leaves(fleet, ps, i)
  {
    var lists := seq(|fleet|, k requires 0 <= k < |fleet| => Alight(fleet[k], ps).1);
    InFlatten(lists, i);
    forall k | 0 <= k < |fleet|
      ensures i in lists[k] <==> IsStopped(fleet[k].status) && i in fleet[k].riders && ps[i].floor == fleet[k].floor
    {
      AlightExactly(fleet[k], ps, i);
    }
  }

  /**
   * The disembark loop over the fleet. Each car's leavers only depend on
   * destination floors, which stamping never changes, so all leavers are
   * collected first and then stamped with the current instant.
   */
  function DisembarkAll(fleet: seq<Car>, ps: seq<Passenger>, t: int): (r: (seq<Car>, seq<Passenger>))
    requires FleetRefs(fleet, |ps|)
    ensures |r.0| == |fleet| && |r.1| == |ps|
    ensures forall k :: 0 <= k < |fleet| ==> r.0[k] == Alight(fleet[k], ps).0
    ensures FleetRefs(r.0, |ps|)
    ensures forall i :: 0 <= i < |ps| ==>
      r.1[i] == if Leaves(fleet, ps, i) then ps[i].(disembark := Some(t)) else ps[i]
  {
    LeaversLinked(fleet, ps);
    forall i: nat | i < |ps|
      ensures i in Leavers(fleet, ps) <==> Leaves(fleet, ps, i)
    {
      LeaversExactly(fleet, ps, i);
    }
    (seq(|fleet|, k requires 0 <= k < |fleet| => Alight(fleet[k], ps).0),
     StampAll(ps, Leavers(fleet, ps), Disembarked, t))
  }

  // ------------------------------------------------------------ dispatching

  /** The passengers among the first `n` arriving exactly at `t`, in list order. */
  function ArrivingAmong(ps: seq<Passenger>, t: int, n: nat): (r: seq<nat>)
    requires n <= |ps|
    ensures forall j :: 0 <= j < |r| ==> r[j] < n
    ensures forall i :: 0 <= i < n ==> (i in r <==> ps[i].arrival == t)
    ensures forall a, b :: 0 <= a < b < |r| ==> r[a] < r[b]
    decreases n
  {
    if n == 0 then []
    else
      var front := ArrivingAmong(ps, t, n - 1);
      if ps[n - 1].arrival == t then front + [n - 1] else front
  }

  /**
   * The passengers whose arrival instant is exactly `t` (equality, not
   * "at or before"), in list order, each once.
   */
  function Arrivals(ps: seq<Passenger>, t: int): (r: seq<nat>)
    ensures Refs(r, |ps|)
    ensures forall i :: 0 <= i < |ps| ==> (i in r <==> ps[i].arrival == t)
    ensures forall a, b :: 0 <= a < b < |r| ==> r[a] < r[b]
  {
    ArrivingAmong(ps, t, |ps|)
  }

  /** The entries of `arrivals` whose pick is car `k`, in order. */
  function Assigned(arrivals: seq<nat>, picks: seq<nat>, k: nat): seq<nat>
    requires |picks| == |arrivals|
    decreases |arrivals|
  {
    if |arrivals| == 0 then []
    else (if picks[0] == k then [arrivals[0]] else []) + Assigned(arrivals[1..], picks[1..], k)
  }

  /** Every assigned entry is one of the arrivals. */
  lemma {:induction false} AssignedFrom(arrivals: seq<nat>, picks: seq<nat>, k: nat)
    requires |picks| == |arrivals|
    ensures forall x :: x in Assigned(arrivals, picks, k) ==> x in arrivals
    decreases |arrivals|
  {
    if |arrivals| > 0 {
      AssignedFrom(arrivals[1..], picks[1..], k);
      assert forall x :: x in arrivals[1..] ==> x in arrivals;
    }
  }

  /** `getFilaTerreo().add(p)` on the car at position `k`. */
  function Enqueue(fleet: seq<Car>, k: nat, a: nat): (r: seq<Car>)
    requires k < |fleet|
    ensures |r| == |fleet|
    ensures forall j :: 0 <= j < |fleet| ==>
      r[j] == fleet[j].(queue := fleet[j].queue + (if j == k then [a] else []))
  {
    fleet[k := fleet[k].(queue := fleet[k].queue + [a])]
  }

  /** Queueing a passenger reference keeps every car's references valid. */
  lemma EnqueueRefs(fleet: seq<Car>, k: nat, a: nat, n: nat)
    requires FleetRefs(fleet, n) && k < |fleet| && a < n
    ensures FleetRefs(Enqueue(fleet, k, a), n)
  {
    RefsAppend(fleet[k].queue, [a], n);
  }

  /**
   * Dispatching this tick's arrivals one by one: the policy chooses a car
   * for each, seeing the queues as left by the previous choices, and the
   * passenger joins the end of that car's lobby queue. Returns the policy
   * state, the fleet and the picks.
   */
  function Dispatch(policy: Policy, fleet: seq<Car>, ps: seq<Passenger>, arrivals: seq<nat>, t: int)
    : (r: Result<(Policy, seq<Car>, seq<nat>)>)
    requires FleetRefs(fleet, |ps|) && Refs(arrivals, |ps|)
    ensures r.Ok? ==> |r.value.2| == |arrivals| && |r.value.1| == |fleet|
    ensures r.Ok? ==> forall j :: 0 <= j < |arrivals| ==> r.value.2[j] < |fleet|
    decreases |arrivals|
  {
    if |arrivals| == 0 then Ok((policy, fleet, []))
    else
      var a := arrivals[0];
      var (next, pick) :- Decide(policy, fleet, ps, ps[a], t);
      var queued := Enqueue(fleet, pick, a);
      EnqueueRefs(fleet, pick, a, |ps|);
      var (last, fleet', picks) :- Dispatch(next, queued, ps, arrivals[1..], t);
      Ok((last, fleet', [pick] + picks))
  }

  /** One dispatch step: decide for the first arrival, enqueue it, dispatch the rest. */
  lemma DispatchStep(policy: Policy, fleet: seq<Car>, ps: seq<Passenger>, arrivals: seq<nat>, t: int)
    requires FleetRefs(fleet, |ps|) && Refs(arrivals, |ps|) && |arrivals| > 0
    ensures var d := Decide(policy, fleet, ps, ps[arrivals[0]], t);
      && (d.Fail? ==> Dispatch(policy, fleet, ps, arrivals, t) == Fail(d.fault))
      && (d.Ok? ==>
            var queued := Enqueue(fleet, d.value.1, arrivals[0]);
            && FleetRefs(queued, |ps|)
            && var rest := Dispatch(d.value.0, queued, ps, arrivals[1..], t);
            && (rest.Fail? ==> Dispatch(policy, fleet, ps, arrivals, t) == Fail(rest.fault))
            && (rest.Ok? ==> Dispatch(policy, fleet, ps, arrivals, t)
                             == Ok((rest.value.0, rest.value.1, [d.value.1] + rest.value.2))))
  {
    var d := Decide(policy, fleet, ps, ps[arrivals[0]], t);
    if d.Ok? {
      EnqueueRefs(fleet, d.value.1, arrivals[0], |ps|);
    }
  }

  /**
   * After dispatching, each car's queue is its old queue followed by the
   * arrivals assigned to it, in arrival order; nothing else about a car
   * changes.
   */
  lemma {:induction false} DispatchQueues(policy: Policy, fleet: seq<Car>, ps: seq<Passenger>, arrivals: seq<nat>, t: int)
    requires FleetRefs(fleet, |ps|) && Refs(arrivals, |ps|)
    requires Dispatch(policy, fleet, ps, arrivals, t).Ok?
    ensures var (_, fleet', picks) := Dispatch(policy, fleet, ps, arrivals, t).value;
      forall k :: 0 <= k < |fleet| ==> fleet'[k] == fleet[k].(queue := fleet[k].queue + Assigned(arrivals, picks, k))
    ensures FleetRefs(Dispatch(policy, fleet, ps, arrivals, t).value.1, |ps|)
    decreases |arrivals|
  {
    DispatchQueuesShape(policy, fleet, ps, arrivals, t);
    var (_, fleet', picks) := Dispatch(policy, fleet, ps, arrivals, t).value;
    forall k | 0 <= k < |fleet|
      ensures CarRefs(fleet'[k], |ps|)
    {
      var extra := Assigned(arrivals, picks, k);
      AssignedFrom(arrivals, picks, k);
      assert forall j :: 0 <= j < |extra| ==> extra[j] in arrivals;
      assert fleet'[k].queue == fleet[k].queue + extra;
    }
  }

  lemma {:induction false} DispatchQueuesShape(policy: Policy, fleet: seq<Car>, ps: seq<Passenger>, arrivals: seq<nat>, t: int)
    requires FleetRefs(fleet, |ps|) && Refs(arrivals, |ps|)
    requires Dispatch(policy, fleet, ps, arrivals, t).Ok?
    ensures var (_, fleet', picks) := Dispatch(policy, fleet, ps, arrivals, t).value;
      forall k :: 0 <= k < |fleet| ==> fleet'[k] == fleet[k].(queue := fleet[k].queue + Assigned(arrivals, picks, k))
    decreases |arrivals|
  {
    if |arrivals| > 0 {
      var a := arrivals[0];
      DispatchStep(policy, fleet, ps, arrivals, t);
      var (next, pick) := Decide(policy, fleet, ps, ps[a], t).value;
      var queued := Enqueue(fleet, pick, a);
      DispatchQueuesShape(next, queued, ps, arrivals[1..], t);
      var (_, fleet', picks) := Dispatch(next, queued, ps, arrivals[1..], t).value;
      assert ([pick] + picks)[1..] == picks;
      forall k | 0 <= k < |fleet|
        ensures fleet'[k] == fleet[k].(queue := fleet[k].queue + Assigned(arrivals, [pick] + picks, k))
      {
        var extra: seq<nat> := if pick == k then [a] else [];
        var later := Assigned(arrivals[1..], picks, k);
        assert Assigned(arrivals, [pick] + picks, k) == extra + later;
        assert queued[k] == fleet[k].(queue := fleet[k].queue + extra);
        assert fleet'[k] == queued[k].(queue := queued[k].queue + later);
        ConcatAssoc(fleet[k].queue, extra, later);
      }
    }
  }

  /**
   * Under the sequential policy the picks of one tick are the next turns of
   * the round robin, and the counter moves once per arrival; only an empty
   * fleet with somebody arriving fails.
   */
  lemma {:induction false} DispatchSequential(index: nat, fleet: seq<Car>, ps: seq<Passenger>, arrivals: seq<nat>, t: int)
    requires FleetRefs(fleet, |ps|) && Refs(arrivals, |ps|)
    ensures var r := Dispatch(Sequential(index), fleet, ps, arrivals, t);
      && (r.Fail? <==> |arrivals| > 0 && |fleet| == 0)
      && (r.Ok? ==> r.value.0 == Sequential(index + |arrivals|))
      && (r.Ok? ==> Turns(index, |fleet|, |arrivals|) == Ok(r.value.2))
    decreases |arrivals|
  {
    if |arrivals| > 0 && |fleet| > 0 {
      var a := arrivals[0];
      var pick := (index + 1) % |fleet|;
      assert Decide(Sequential(index), fleet, ps, ps[a], t) == Ok((Sequential(index + 1), pick));
      DispatchStep(Sequential(index), fleet, ps, arrivals, t);
      var queued := Enqueue(fleet, pick, a);
      DispatchSequential(index + 1, queued, ps, arrivals[1..], t);
    }
  }

  /** No car at all, or some car that the least-time policy cannot cost. */
  predicate Unusable(fleet: seq<Car>)
  {
    |fleet| == 0 || exists k :: 0 <= k < |fleet| && fleet[k].capacity <= 0
  }

  /** Queueing a passenger never changes a capacity. */
  lemma EnqueueKeepsUnusable(fleet: seq<Car>, pick: nat, a: nat)
    requires pick < |fleet|
    ensures Unusable(Enqueue(fleet, pick, a)) <==> Unusable(fleet)
  {
    var queued := Enqueue(fleet, pick, a);
    assert forall k :: 0 <= k < |fleet| ==> queued[k].capacity == fleet[k].capacity;
  }

  /**
   * Under the least-time policy a tick with arrivals fails iff there is no
   * car or some car cannot be costed; enqueueing never changes a capacity.
   */
  lemma {:induction false} DispatchLeastTimeFails(fleet: seq<Car>, ps: seq<Passenger>, arrivals: seq<nat>, t: int)
    requires FleetRefs(fleet, |ps|) && Refs(arrivals, |ps|)
    ensures Dispatch(LeastTime, fleet, ps, arrivals, t).Fail? <==> |arrivals| > 0 && Unusable(fleet)
    decreases |arrivals|
  {
    if |arrivals| > 0 {
      var a := arrivals[0];
      var d := Decide(LeastTime, fleet, ps, ps[a], t);
      assert d.Fail? <==> Unusable(fleet) by {
        LeastTimeChoice(fleet, ps, ps[a], t);
      }
      if d.Ok? {
        var queued := Enqueue(fleet, d.value.1, a);
        var rest := Dispatch(LeastTime, queued, ps, arrivals[1..], t);
        assert FleetRefs(queued, |ps|) && d.value.0 == LeastTime
            && (Dispatch(LeastTime, fleet, ps, arrivals, t).Fail? <==> rest.Fail?) by {
          DispatchStep(LeastTime, fleet, ps, arrivals, t);
        }
        assert rest.Fail? <==> |arrivals[1..]| > 0 && Unusable(queued) by {
          DispatchLeastTimeFails(queued, ps, arrivals[1..], t);
        }
        EnqueueKeepsUnusable(fleet, d.value.1, a);
      } else {
        assert Dispatch(LeastTime, fleet, ps, arrivals, t).Fail? by {
          DispatchStep(LeastTime, fleet, ps, arrivals, t);
        }
      }
    }
  }

  // --------------------------------------------------------------- boarding

  /**
   * The boarding loop over one lobby queue: the whole queue is walked in
   * order; a passenger boards while the car holds fewer than `cap` riders
   * and otherwise stays queued, in place. Returns riders and queue.
   */
  function Board(riders: seq<nat>, queue: seq<nat>, cap: int): (seq<nat>, seq<nat>)
    decreases |queue|
  {
    if |queue| == 0 then (riders, [])
    else if |riders| < cap then Board(riders + [queue[0]], queue[1..], cap)
    else
      var (inside, left) := Board(riders, queue[1..], cap);
      (inside, [queue[0]] + left)
  }

  /** How many queued passengers fit: the free places, but no more than are waiting. */
  function Room(riders: seq<nat>, queue: seq<nat>, cap: int): (k: nat)
    ensures k <= |queue|
    ensures k == |queue| || |riders| + k >= cap
    ensures k == 0 || |riders| + k <= cap
  {
    if cap - |riders| <= 0 then 0
    else if cap - |riders| < |queue| then cap - |riders|
    else |queue|
  }

  /** Boarding moves the longest prefix of the queue that fits, keeping the rest queued in order. */
  lemma {:induction false} BoardTakesPrefix(riders: seq<nat>, queue: seq<nat>, cap: int)
    ensures var k := Room(riders, queue, cap);
      Board(riders, queue, cap) == (riders + queue[..k], queue[k..])
    decreases |queue|
  {
    if |queue| > 0 {
      var k := Room(riders, queue, cap);
      if |riders| < cap {
        BoardTakesPrefix(riders + [queue[0]], queue[1..], cap);
        assert Room(riders + [queue[0]], queue[1..], cap) == k - 1;
        assert riders + [queue[0]] + queue[1..][..k - 1] == riders + queue[..k];
        assert queue[1..][k - 1..] == queue[k..];
      } else {
        BoardTakesPrefix(riders, queue[1..], cap);
        assert Room(riders, queue[1..], cap) == 0;
        assert [queue[0]] + queue[1..] == queue;
      }
    } else {
      assert riders + queue[..0] == riders;
    }
  }

  /**
   * Boarding at one car (run for cars idle at the base only): the car is
   * set to stop going up iff its queue is non-empty, then takes queued
   * passengers in FIFO order while there is room under `cap`. Returns the
   * car and who boarded.
   */
  function BoardCar(c: Car, cap: int): (r: (Car, seq<nat>))
    ensures r.0 == c.(status := r.0.status, riders := r.0.riders, queue := r.0.queue)
    ensures c.status != IdleAtBase ==> r == (c, [])
    ensures c.status == IdleAtBase ==> (r.0.status == StoppedUp <==> |c.queue| > 0)
    ensures c.status == IdleAtBase ==> (r.0.status == IdleAtBase <==> |c.queue| == 0)
    ensures r.0.riders == c.riders + r.1 && c.queue == r.1 + r.0.queue
    ensures |r.1| == 0 || |r.0.riders| <= cap
    ensures c.status == IdleAtBase && |r.0.queue| > 0 ==> |r.0.riders| >= cap
  {
    if c.status != IdleAtBase then (c, [])
    else
      var (riders, queue) := Board(c.riders, c.queue, cap);
      var k := Room(c.riders, c.queue, cap);
      BoardTakesPrefix(c.riders, c.queue, cap);
      assert c.queue == c.queue[..k] + c.queue[k..];
      (c.(status := if |c.queue| > 0 then StoppedUp else IdleAtBase, riders := riders, queue := queue),
       c.queue[..k])
  }

  /** A passenger boards at this tick iff they are within the room of an idle car's queue. */
  predicate Boards(fleet: seq<Car>, cap: int, i: nat)
  {
    exists k :: 0 <= k < |fleet| && fleet[k].status == IdleAtBase
                && i in fleet[k].queue[..Room(fleet[k].riders, fleet[k].queue, cap)]
  }

  /** The boarders of all cars, in fleet order. */
  function Boarders(fleet: seq<Car>, cap: int): seq<nat>
  {
    Flatten(seq(|fleet|, k requires 0 <= k < |fleet| => BoardCar(fleet[k], cap).1))
  }

  lemma BoardersExactly(fleet: seq<Car>, cap: int, i: nat)
    ensures i in Boarders(fleet, cap) <==> Boards(fleet, cap, i)
  {
    var lists := seq(|fleet|, k requires 0 <= k < |fleet| => BoardCar(fleet[k], cap).1);
    InFlatten(lists, i);
    forall k | 0 <= k < |fleet|
      ensures lists[k] == if fleet[k].status == IdleAtBase
                          then fleet[k].queue[..Room(fleet[k].riders, fleet[k].queue, cap)] else []
    {
      var c := fleet[k];
      if c.status == IdleAtBase {
        BoardTakesPrefix(c.riders, c.queue, cap);
      }
    }
  }

  /** Boarding only moves references between a car's queue and its riders. */
  lemma BoardCarRefs(c: Car, cap: int, n: nat)
    requires CarRefs(c, n)
    ensures CarRefs(BoardCar(c, cap).0, n) && Refs(BoardCar(c, cap).1, n)
  {
    var (c', taken) := BoardCar(c, cap);
    RefsAppend(taken, c'.queue, n);
    RefsAppend(c.riders, taken, n);
  }

  /**
   * The boarding pass over the fleet with the simulator's capacity (not the
   * car's own field): boarders are stamped with the current instant.
   */
  function BoardAll(fleet: seq<Car>, ps: seq<Passenger>, cap: int, t: int): (r: (seq<Car>, seq<Passenger>))
    requires FleetRefs(fleet, |ps|)
    ensures |r.0| == |fleet| && |r.1| == |ps|
    ensures forall k :: 0 <= k < |fleet| ==> r.0[k] == BoardCar(fleet[k], cap).0
    ensures FleetRefs(r.0, |ps|)
    ensures forall i :: 0 <= i < |ps| ==>
      r.1[i] == if Boards(fleet, cap, i) then ps[i].(boarding := Some(t)) else ps[i]
  {
    var lists := seq(|fleet|, k requires 0 <= k < |fleet| => BoardCar(fleet[k], cap).1);
    var fleet' := seq(|fleet|, k requires 0 <= k < |fleet| => BoardCar(fleet[k], cap).0);
    assert FleetRefs(fleet', |ps|) && forall k :: 0 <= k < |fleet| ==> Refs(lists[k], |ps|) by {
      forall k | 0 <= k < |fleet|
        ensures CarRefs(fleet'[k], |ps|) && Refs(lists[k], |ps|)
      {
        BoardCarRefs(fleet[k], cap, |ps|);
      }
    }
    FlattenRefs(lists, |ps|);
    assert Boarders(fleet, cap) == Flatten(lists);
    forall i: nat | i < |ps|
      ensures i in Boarders(fleet, cap) <==> Boards(fleet, cap, i)
    {
      BoardersExactly(fleet, cap, i);
    }
    (fleet', StampAll(ps, Boarders(fleet, cap), Boarded, t))
  }

  // ------------------------------------------------------------------ tick

  /** Every passenger has a disembark instant. */
  predicate AllDisembarked(ps: seq<Passenger>)
  {
    forall i :: 0 <= i < |ps| ==> ps[i].disembark.Some?
  }

  /** Two passenger lists differ at most in the recorded instants. */
  predicate SameFacts(ps: seq<Passenger>, qs: seq<Passenger>)
  {
    |ps| == |qs| &&
    forall i :: 0 <= i < |ps| ==>
      qs[i].name == ps[i].name && qs[i].floor == ps[i].floor && qs[i].arrival == ps[i].arrival
  }

  /** First half of a tick: every car moves, then stopped cars let their riders off. */
  function Settle(fleet: seq<Car>, ps: seq<Passenger>, t: int): (r: Result<(seq<Car>, seq<Passenger>)>)
    requires FleetRefs(fleet, |ps|)
    ensures r.Fail? <==> StepAll(fleet, ps, t).Fail?
    ensures r.Ok? ==> |r.value.0| == |fleet| && FleetRefs(r.value.0, |ps|) && SameFacts(ps, r.value.1)
  {
    var moved :- StepAll(fleet, ps, t);
    assert FleetRefs(moved, |ps|) by {
      forall k | 0 <= k < |moved|
        ensures CarRefs(moved[k], |ps|)
      {
        assert SameCargo(fleet[k], moved[k]);
      }
    }
    Ok(DisembarkAll(moved, ps, t))
  }

  /**
   * Second half of a tick: the passengers arriving at `t` are dispatched,
   * then cars idle at the base board their queues.
   */
  function Admit(policy: Policy, fleet: seq<Car>, ps: seq<Passenger>, cap: int, t: int)
    : (r: Result<(Policy, seq<Car>, seq<Passenger>)>)
    requires FleetRefs(fleet, |ps|)
    ensures r.Fail? <==> Dispatch(policy, fleet, ps, Arrivals(ps, t), t).Fail?
    ensures r.Ok? ==> |r.value.1| == |fleet| && FleetRefs(r.value.1, |ps|) && SameFacts(ps, r.value.2)
  {
    var (next, queued, _) :- Dispatch(policy, fleet, ps, Arrivals(ps, t), t);
    DispatchQueues(policy, fleet, ps, Arrivals(ps, t), t);
    var (boarded, people) := BoardAll(queued, ps, cap, t);
    Ok((next, boarded, people))
  }

  /**
   * `processarInstante` at the current instant `t`: refuses to run without
   * an instant or past the final one; otherwise succeeds iff every car
   * update and every dispatch decision does (`TickOutcome`). A successful
   * tick moves every car, lets off riders at stopped cars, dispatches the
   * passengers arriving at `t`, boards the queues of cars idle at the
   * base, and reports the run finished (recording `t` as the final
   * instant) iff nobody is left without a disembark instant.
   */
  function ProcessTick(s: Sim): (r: Result<(Sim, Progress)>)
    requires Linked(s)
    ensures s.current.None? ==> r == Fail(NoCurrentInstant)
    ensures s.current.Some? && s.final.Some? && s.current.value > s.final.value ==> r == Fail(PastFinalInstant)
    ensures r.Ok? ==> Linked(r.value.0) && SameFacts(s.people, r.value.0.people)
    ensures r.Ok? ==> (r.value.1 == Finished <==> AllDisembarked(r.value.0.people))
    ensures r.Ok? ==> r.value.0.final == if r.value.1 == Finished then s.current else s.final
    ensures r.Ok? ==>
      && r.value.0.config == s.config && r.value.0.initial == s.initial && r.value.0.current == s.current
      && |r.value.0.fleet| == |s.fleet|
  {
    if s.current.None? then Fail(NoCurrentInstant)
    else
      var t := s.current.value;
      if s.final.Some? && t > s.final.value then Fail(PastFinalInstant)
      else
        var (landed, people1) :- Settle(s.fleet, s.people, t);
        var (policy, boarded, people2) :- Admit(s.policy, landed, people1, s.config.capacity, t);
        var done := AllDisembarked(people2);
        Ok((s.(policy := policy, people := people2, fleet := boarded, final := if done then Some(t) else s.final),
            if done then Finished else Running))
  }

  /**
   * Past its guards, a tick fails exactly when the car updates fail or,
   * after them, a dispatch decision fails, and it reports that first fault.
   */
  lemma TickOutcome(s: Sim)
    requires Linked(s) && s.current.Some? && !(s.final.Some? && s.current.value > s.final.value)
    ensures var settled := Settle(s.fleet, s.people, s.current.value);
      if settled.Fail? then ProcessTick(s) == Fail(settled.fault)
      else
        var admitted := Admit(s.policy, settled.value.0, settled.value.1, s.config.capacity, s.current.value);
        && (ProcessTick(s).Ok? <==> admitted.Ok?)
        && (admitted.Fail? ==> ProcessTick(s) == Fail(admitted.fault))
  {
  }
}
