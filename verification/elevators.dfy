/**
 * One elevator car (`Elevador`): its motion state machine, driven by the
 * current instant, and the time estimates the least-time dispatch policy
 * ranks cars by. Riders and the lobby queue are lists of passenger indices
 * into the simulator's passenger list `ps`.
 */
module Elevators {
  import opened Wrappers
  import opened Seqs
  import opened Passengers

  /** `ElevadorStatus`. */
  datatype Status =
    | IdleAtBase     // ESPERA_TERREO
    | StoppedUp      // PARADO_SUBIR
    | MovingUp       // SUBINDO
    | StoppedDown    // PARADO_DESCER
    | MovingDown     // DESCENDO

  datatype Car = Car(
    id: int,              // `identificacao`
    floor: int,           // `andarAtual`
    minFloor: int,        // `andarMinimo`, the base floor
    maxFloor: int,        // `andarMaximo`
    capacity: int,        // `lotacaoMaxima`
    riders: seq<nat>,     // `lotacao`: passengers on board
    queue: seq<nat>,      // `filaTerreo`: passengers assigned but not yet boarded, FIFO
    status: Status,
    mark: int,            // `marcadorTemporal`: instant the current period started
    travelPeriod: int,    // `periodoEntreAndares`, seconds per floor
    dwellPeriod: int)     // `periodoParada`, seconds stopped at a floor

  /** `Elevador.equals`: two cars are the same car iff their ids match. */
  predicate SameCar(a: Car, b: Car)
  {
    a.id == b.id
  }

  predicate CarRefs(c: Car, n: nat)
  {
    Refs(c.riders, n) && Refs(c.queue, n)
  }

  /** The car is between its base floor and its top floor. */
  predicate InShaft(c: Car)
  {
    c.minFloor <= c.floor <= c.maxFloor
  }

  /** Everything `atualizar` never touches: identity, bounds, capacity, periods, riders and queue. */
  predicate SameCargo(c: Car, d: Car)
  {
    && d.id == c.id && d.minFloor == c.minFloor && d.maxFloor == c.maxFloor
    && d.capacity == c.capacity && d.travelPeriod == c.travelPeriod
    && d.dwellPeriod == c.dwellPeriod && d.riders == c.riders && d.queue == c.queue
  }

  predicate IsStopped(s: Status)
  {
    s == StoppedUp || s == StoppedDown
  }

  predicate IsMoving(s: Status)
  {
    s == MovingUp || s == MovingDown
  }

  /** The period the current state waits for before it changes. */
  function ActivePeriod(c: Car): int
  {
    if IsMoving(c.status) then c.travelPeriod
    else if IsStopped(c.status) then c.dwellPeriod
    else 0
  }

  /**
   * `periodoFinalizado`: whether `period` seconds have passed since `mark`,
   * and the mark to keep (moved to `t` exactly when they have).
   */
  function CheckPeriod(mark: int, t: int, period: int): (r: (bool, int))
    ensures r.0 <==> t - mark >= period
    ensures r.1 == (if r.0 then t else mark)
  {
    if t - mark >= period then (true, t) else (false, mark)
  }

  /** Some rider of `c` is headed for floor `f`. */
  predicate HasRiderFor(c: Car, ps: seq<Passenger>, f: int)
    requires Refs(c.riders, |ps|)
  {
    exists j :: 0 <= j < |c.riders| && ps[c.riders[j]].floor == f
  }

  /** Two different riders of `c` are headed for floor `f`. */
  predicate TwoRidersFor(c: Car, ps: seq<Passenger>, f: int)
    requires Refs(c.riders, |ps|)
  {
    exists i, j :: 0 <= i < j < |c.riders| && ps[c.riders[i]].floor == f && ps[c.riders[j]].floor == f
  }

  /** Some rider of `c` is headed for a floor strictly above the car and not above its top floor. */
  predicate HasRiderAbove(c: Car, ps: seq<Passenger>)
    requires Refs(c.riders, |ps|)
  {
    exists j :: 0 <= j < |c.riders| && c.floor < ps[c.riders[j]].floor <= c.maxFloor
  }

  /**
   * `getParadasLotacao`: the riders' floors from the current floor up to the
   * top floor, in boarding order, with repetition: `StopsCount` gives each
   * floor's multiplicity and `StopsBoard` fixes the order.
   */
  function Stops(c: Car, ps: seq<Passenger>): (r: seq<int>)
    requires Refs(c.riders, |ps|)
    ensures |r| <= |c.riders|
    ensures forall f :: f in r <==> c.floor <= f <= c.maxFloor && HasRiderFor(c, ps, f)
  {
    var fs := Floors(c.riders, ps);
    assert forall f :: f in fs <==> HasRiderFor(c, ps, f) by {
      forall f
        ensures f in fs <==> HasRiderFor(c, ps, f)
      {
        InFloors(c.riders, ps, f);
      }
    }
    Between(fs, c.floor, c.maxFloor)
  }

  /** Each floor between the current floor and the top floor occurs once per rider headed there; no other floor occurs. */
  lemma StopsCount(c: Car, ps: seq<Passenger>, f: int)
    requires Refs(c.riders, |ps|)
    ensures Count(Stops(c, ps), f) == if c.floor <= f <= c.maxFloor then Heading(c.riders, ps, f) else 0
  {
    CountFloors(c.riders, ps, f);
  }

  /**
   * A rider who boards last adds their floor at the end of the stops when
   * it lies between the current floor and the top floor, and nothing
   * otherwise. With no riders there are no stops, so this fixes the order.
   */
  lemma StopsBoard(c: Car, ps: seq<Passenger>, j: nat)
    requires Refs(c.riders, |ps|) && j < |ps|
    ensures Refs(c.riders + [j], |ps|)
    ensures Stops(c.(riders := c.riders + [j]), ps)
              == Stops(c, ps) + (if c.floor <= ps[j].floor <= c.maxFloor then [ps[j].floor] else [])
  {
    FloorsSnoc(c.riders, ps, j);
    BetweenAppend(Floors(c.riders, ps), [ps[j].floor], c.floor, c.maxFloor);
  }

  /** `getUltimaParadaLotacao`: the highest rider floor, absent when nobody rides. */
  function LastStop(c: Car, ps: seq<Passenger>): (r: Option<int>)
    requires Refs(c.riders, |ps|)
    ensures r.None? <==> |c.riders| == 0
    ensures r.Some? ==> exists j :: 0 <= j < |c.riders| && ps[c.riders[j]].floor == r.value
    ensures r.Some? ==> forall j :: 0 <= j < |c.riders| ==> ps[c.riders[j]].floor <= r.value
  {
    if |c.riders| == 0 then None
    else
      var fs := Floors(c.riders, ps);
      var top := Max(fs);
      assert exists j :: 0 <= j < |fs| && fs[j] == top;
      Some(top)
  }

  /**
   * `getParadasFilaTerreo`: the queued passengers' floors not above the top
   * floor, FIFO, with repetition: `QueueStopsCount` gives each floor's
   * multiplicity and `QueueStopsEnqueue` fixes the order.
   */
  function QueueStops(c: Car, ps: seq<Passenger>): (r: seq<int>)
    requires Refs(c.queue, |ps|)
    ensures |r| <= |c.queue|
    ensures forall f :: f in r <==> f <= c.maxFloor && exists j :: 0 <= j < |c.queue| && ps[c.queue[j]].floor == f
  {
    var fs := Floors(c.queue, ps);
    assert forall f :: f in fs <==> exists j :: 0 <= j < |c.queue| && ps[c.queue[j]].floor == f by {
      forall f
        ensures f in fs <==> exists j :: 0 <= j < |c.queue| && ps[c.queue[j]].floor == f
      {
        InFloors(c.queue, ps, f);
      }
    }
    AtMost(fs, c.maxFloor)
  }

  /** Each floor not above the top floor occurs once per queued passenger headed there; no other floor occurs. */
  lemma QueueStopsCount(c: Car, ps: seq<Passenger>, f: int)
    requires Refs(c.queue, |ps|)
    ensures Count(QueueStops(c, ps), f) == if f <= c.maxFloor then Heading(c.queue, ps, f) else 0
  {
    CountFloors(c.queue, ps, f);
  }

  /**
   * A passenger added at the end of the queue (`getFilaTerreo().add`) adds
   * their floor at the end of the queue's stops when it is not above the
   * top floor. With an empty queue there are no stops, so this fixes the
   * order.
   */
  lemma QueueStopsEnqueue(c: Car, ps: seq<Passenger>, j: nat)
    requires Refs(c.queue, |ps|) && j < |ps|
    ensures Refs(c.queue + [j], |ps|)
    ensures QueueStops(c.(queue := c.queue + [j]), ps)
              == QueueStops(c, ps) + (if ps[j].floor <= c.maxFloor then [ps[j].floor] else [])
  {
    FloorsSnoc(c.queue, ps, j);
    AtMostAppend(Floors(c.queue, ps), [ps[j].floor], c.maxFloor);
  }

  /**
   * `atualizarStatusSubindo`, for a car that has just moved up to
   * `c.floor <= c.maxFloor`: it stops iff some rider is headed for this
   * floor, and then turns down iff no rider is headed any higher.
   */
  function StatusAfterAscent(c: Car, ps: seq<Passenger>): (r: Status)
    requires Refs(c.riders, |ps|)
    requires c.floor <= c.maxFloor
    ensures r == MovingUp <==> !HasRiderFor(c, ps, c.floor)
    ensures r == StoppedUp <==> HasRiderFor(c, ps, c.floor) && HasRiderAbove(c, ps)
    ensures r == StoppedDown <==> HasRiderFor(c, ps, c.floor) && !HasRiderAbove(c, ps)
  {
    var stops := Stops(c, ps);
    InFloors(c.riders, ps, c.floor);
    if c.floor in stops then
      SingleDistinct(stops, c.floor);
      assert HasRiderAbove(c, ps) <==> exists i :: 0 <= i < |stops| && stops[i] != c.floor by {
        if HasRiderAbove(c, ps) {
          var j :| 0 <= j < |c.riders| && c.floor < ps[c.riders[j]].floor <= c.maxFloor;
          var g := ps[c.riders[j]].floor;
          assert Floors(c.riders, ps)[j] == g;
          assert g in stops;
        }
        if exists i :: 0 <= i < |stops| && stops[i] != c.floor {
          var i :| 0 <= i < |stops| && stops[i] != c.floor;
          assert stops[i] in Floors(c.riders, ps);
          InFloors(c.riders, ps, stops[i]);
        }
      }
      if DistinctCount(stops) == 1 then StoppedDown else StoppedUp
    else
      MovingUp
  }

  /**
   * `atualizar`: advances the car to instant `t`. A stopped car starts
   * moving once its dwell period has elapsed; a moving car changes floor by
   * one once its travel period has elapsed, failing if that leaves the
   * shaft; an idle car does nothing. Riders and queue never change.
   */
  function Step(c: Car, ps: seq<Passenger>, t: int): (r: Result<Car>)
    requires Refs(c.riders, |ps|)
    ensures r.Ok? ==> SameCargo(c, r.value)
    ensures r.Ok? && InShaft(c) ==> InShaft(r.value)
    ensures c.status == IdleAtBase ==> r == Ok(c)
    ensures IsStopped(c.status) ==> r.Ok? && r.value.floor == c.floor
    ensures IsStopped(c.status) && t - c.mark < c.dwellPeriod ==> r == Ok(c)
    ensures IsStopped(c.status) && t - c.mark >= c.dwellPeriod ==>
      r.value.mark == t &&
      r.value.status == (if c.status == StoppedUp then MovingUp else MovingDown)
    ensures IsMoving(c.status) && t - c.mark < c.travelPeriod ==> r == Ok(c)
    ensures c.status == MovingUp && t - c.mark >= c.travelPeriod ==>
      if c.floor + 1 > c.maxFloor then r == Fail(FloorAboveMaximum)
      else
        && r.Ok? && r.value.floor == c.floor + 1 && r.value.mark == t
        && (r.value.status == MovingUp <==> !HasRiderFor(r.value, ps, r.value.floor))
        && (r.value.status == StoppedUp <==> HasRiderFor(r.value, ps, r.value.floor) && HasRiderAbove(r.value, ps))
        && (r.value.status == StoppedDown <==> HasRiderFor(r.value, ps, r.value.floor) && !HasRiderAbove(r.value, ps))
    ensures c.status == MovingDown && t - c.mark >= c.travelPeriod ==>
      if c.floor - 1 < c.minFloor then r == Fail(FloorBelowMinimum)
      else
        && r.Ok? && r.value.floor == c.floor - 1 && r.value.mark == t
        && r.value.status == (if c.floor - 1 == c.minFloor then IdleAtBase else MovingDown)
  {
    match c.status
    case StoppedUp =>
      var (done, mark) := CheckPeriod(c.mark, t, c.dwellPeriod);
      if done then Ok(c.(status := MovingUp, mark := mark)) else Ok(c)
    case StoppedDown =>
      var (done, mark) := CheckPeriod(c.mark, t, c.dwellPeriod);
      if done then Ok(c.(status := MovingDown, mark := mark)) else Ok(c)
    case MovingUp =>
      var (done, mark) := CheckPeriod(c.mark, t, c.travelPeriod);
      if !done then Ok(c)
      else
        var up := c.(floor := c.floor + 1, mark := mark);
        if up.floor > up.maxFloor then Fail(FloorAboveMaximum)
        else Ok(up.(status := StatusAfterAscent(up, ps)))
    case MovingDown =>
      var (done, mark) := CheckPeriod(c.mark, t, c.travelPeriod);
      if !done then Ok(c)
      else
        var down := c.(floor := c.floor - 1, mark := mark);
        if down.floor < down.minFloor then Fail(FloorBelowMinimum)
        else Ok(if down.floor == down.minFloor then down.(status := IdleAtBase) else down)
    case IdleAtBase =>
      Ok(c)
  }

  /**
   * `calcularTempoRestanteMudancaStatusAndar`: elapsed time since the mark
   * minus the active period (zero when idle). As written this is the
   * negated time left before the next change, not the time left itself.
   */
  function TimeToPhaseChange(c: Car, t: int): int
  {
    if c.status == IdleAtBase then 0 else (t - c.mark) - ActivePeriod(c)
  }

  /**
   * The phase-change term is negative exactly at the instants where `Step`
   * leaves the car as it is, and non-negative exactly where it fires.
   */
  lemma PhaseTiming(c: Car, ps: seq<Passenger>, t: int)
    requires Refs(c.riders, |ps|)
    requires c.status != IdleAtBase
    ensures Step(c, ps, t) == Ok(c) <==> TimeToPhaseChange(c, t) < 0
    ensures TimeToPhaseChange(c, t) < 0 <==> t < c.mark + ActivePeriod(c)
  {
  }

  /** `calcularTempoRestanteTerreoDescendo`: refuses the ascending and idle states. */
  function RemainingDescent(c: Car, t: int): (r: Result<int>)
    ensures r.Fail? <==> c.status in {MovingUp, StoppedUp, IdleAtBase}
    ensures r.Fail? ==> r.fault == RemainingDescentWhileNotDescending
  {
    if c.status == MovingUp || c.status == StoppedUp || c.status == IdleAtBase then
      Fail(RemainingDescentWhileNotDescending)
    else
      var floors := c.floor - c.minFloor - (if c.status == MovingDown then 1 else 0);
      Ok(c.travelPeriod * floors + TimeToPhaseChange(c, t))
  }

  /** `calcularTempoRestanteUltimoAndarSubindo`: up-leg time to the highest rider floor. */
  function RemainingAscent(c: Car, ps: seq<Passenger>, t: int): int
    requires Refs(c.riders, |ps|)
  {
    var pending := RemoveFirst(Stops(c, ps), c.floor);
    var top := LastStop(c, ps).GetOr(c.floor);
    var dwell := c.dwellPeriod * DistinctCount(pending);
    var floors := top - c.floor - (if c.status == MovingUp then 1 else 0);
    dwell + c.travelPeriod * floors + TimeToPhaseChange(c, t)
  }

  /** `calcularTempoDescida`: empty descent from the highest rider floor; refuses the descending states. */
  function DescentTime(c: Car, ps: seq<Passenger>): (r: Result<int>)
    requires Refs(c.riders, |ps|)
    ensures r.Fail? <==> c.status in {MovingDown, StoppedDown}
    ensures r.Fail? ==> r.fault == DescentTimeWhileDescending
  {
    if c.status == MovingDown || c.status == StoppedDown then Fail(DescentTimeWhileDescending)
    else Ok(c.travelPeriod * (LastStop(c, ps).GetOr(c.floor) - c.minFloor))
  }

  /**
   * `calcularTempoRestanteTerreo`: estimated time until the car is back at
   * the base floor. It picks the helper by state, so neither helper's
   * wrong-state failure can surface.
   */
  function TimeToBase(c: Car, ps: seq<Passenger>, t: int): (r: Result<int>)
    requires Refs(c.riders, |ps|)
    ensures r.Ok?
    ensures c.status == IdleAtBase ==> r.value == 0
    ensures c.status in {MovingDown, StoppedDown} ==>
      r.value == c.travelPeriod * (c.floor - c.minFloor - (if c.status == MovingDown then 1 else 0))
                 + ((t - c.mark) - ActivePeriod(c))
  {
    if c.status == MovingDown || c.status == StoppedDown then
      RemainingDescent(c, t)
    else if c.status == MovingUp || c.status == StoppedUp then
      Ok(RemainingAscent(c, ps, t) + DescentTime(c, ps).value)
    else
      Ok(0)
  }

  /**
   * The estimate for an ascending car: a dwell per distinct pending stop,
   * the climb to the highest rider floor (one floor less while already
   * moving), the phase correction, and the empty descent from that floor.
   */
  lemma AscendingEstimate(c: Car, ps: seq<Passenger>, t: int)
    requires Refs(c.riders, |ps|)
    requires c.status in {MovingUp, StoppedUp}
    ensures var top := LastStop(c, ps).GetOr(c.floor);
      TimeToBase(c, ps, t).value
        == c.dwellPeriod * DistinctCount(RemoveFirst(Stops(c, ps), c.floor))
           + c.travelPeriod * (top - c.floor - (if c.status == MovingUp then 1 else 0))
           + ((t - c.mark) - ActivePeriod(c))
           + c.travelPeriod * (top - c.minFloor)
  {
  }

  /** The distinct rider floors strictly above the car and not above its top floor. */
  function FloorsAbove(c: Car, ps: seq<Passenger>): set<int>
    requires Refs(c.riders, |ps|)
  {
    set g | g in Floors(c.riders, ps) && c.floor < g <= c.maxFloor
  }

  /**
   * The dwell term of the ascending estimate counts the distinct rider
   * floors strictly above the car (up to the top floor), plus the current
   * floor itself when two or more riders are headed for it: `List.remove`
   * drops only one of their entries.
   */
  lemma StopsAbove(c: Car, ps: seq<Passenger>)
    requires Refs(c.riders, |ps|)
    ensures Elements(Stops(c, ps)) - {c.floor} == FloorsAbove(c, ps)
  {
    var fs := Floors(c.riders, ps);
    var stops := Between(fs, c.floor, c.maxFloor);
    forall g
      ensures g in Elements(stops) - {c.floor} <==> g in FloorsAbove(c, ps)
    {
      assert g in Elements(stops) <==> g in stops;
      assert g in stops <==> g in fs && c.floor <= g <= c.maxFloor;
    }
  }

  lemma AscentDwellCount(c: Car, ps: seq<Passenger>)
    requires Refs(c.riders, |ps|)
    ensures DistinctCount(RemoveFirst(Stops(c, ps), c.floor))
              == if c.floor <= c.maxFloor && TwoRidersFor(c, ps, c.floor)
                 then |FloorsAbove(c, ps)| + 1 else |FloorsAbove(c, ps)|
  {
    DwellsByStops(c, ps);
    StopsCount(c, ps, c.floor);
    HeadingTwo(c.riders, ps, c.floor);
  }

  /** `AscentDwellCount` in terms of how often the current floor occurs among the stops. */
  lemma DwellsByStops(c: Car, ps: seq<Passenger>)
    requires Refs(c.riders, |ps|)
    ensures DistinctCount(RemoveFirst(Stops(c, ps), c.floor))
              == if Count(Stops(c, ps), c.floor) >= 2 then |FloorsAbove(c, ps)| + 1 else |FloorsAbove(c, ps)|
  {
    var stops := Stops(c, ps);
    var above := FloorsAbove(c, ps);
    RemoveFirstElements(stops, c.floor);
    StopsAbove(c, ps);
    if Count(stops, c.floor) >= 2 {
      assert c.floor in stops by {
        assert multiset(stops)[c.floor] > 0;
      }
      assert c.floor !in above;
      assert Elements(stops) == above + {c.floor};
      assert |above + {c.floor}| == |above| + 1;
    }
  }

  /**
   * One ascend-dwell-descend cycle (`simularTempoSubida` + `simularTempoDescida`)
   * from the base floor up to `top`, stopping at `floors` distinct floors.
   */
  function GroupCost(c: Car, top: int, floors: nat): int
  {
    var climb := top - c.minFloor;
    c.travelPeriod * climb + c.dwellPeriod * floors + c.travelPeriod * climb
  }

  /**
   * The cycle serving `group`. The partition never yields an empty group;
   * one would cost nothing.
   */
  function CycleCost(c: Car, group: seq<int>): int
  {
    if |group| == 0 then 0 else GroupCost(c, Max(group), DistinctCount(group))
  }

  /** Total cost of serving the groups one after another. */
  function SumCycles(c: Car, groups: seq<seq<int>>): int
  {
    if |groups| == 0 then 0
    else SumCycles(c, groups[..|groups| - 1]) + CycleCost(c, groups[|groups| - 1])
  }

  /**
   * `simularTempoFilaEspera`: the cost of serving the lobby queue with `p`
   * appended, in groups of at most the car's capacity. Fails like
   * `Lists.partition` when the capacity is not positive.
   */
  function SimulateQueueDelay(c: Car, ps: seq<Passenger>, p: Passenger): (r: Result<int>)
    requires Refs(c.queue, |ps|)
    ensures r.Fail? <==> c.capacity <= 0
    ensures r.Fail? ==> r.fault == InvalidPartitionSize
  {
    if c.capacity <= 0 then Fail(InvalidPartitionSize)
    else
      var stops := QueueStops(c, ps) + [p.floor];
      Ok(SumCycles(c, Chunks(stops, c.capacity)))
  }

  /**
   * When the queue (floors above the top floor excluded) is shorter than the
   * capacity, everybody fits in one cycle: twice the climb to the highest
   * floor among them and `p`, plus one dwell per distinct floor.
   */
  lemma SingleGroupDelay(c: Car, ps: seq<Passenger>, p: Passenger)
    requires Refs(c.queue, |ps|)
    requires 0 < c.capacity
    requires |QueueStops(c, ps)| < c.capacity
    ensures var stops := QueueStops(c, ps) + [p.floor];
            SimulateQueueDelay(c, ps, p)
              == Ok(c.travelPeriod * (Max(stops) - c.minFloor) + c.dwellPeriod * DistinctCount(stops)
                    + c.travelPeriod * (Max(stops) - c.minFloor))
  {
    var stops := QueueStops(c, ps) + [p.floor];
    assert Chunks(stops, c.capacity) == [stops];
    assert [stops][..0] == [];
    assert SumCycles(c, [stops]) == SumCycles(c, []) + CycleCost(c, stops);
  }

  /** Closing a full group extends the partition of the prefix by that group. */
  lemma CloseGroup(c: Car, stops: seq<int>, n: nat, start: nat, i: nat, groups: nat)
    requires 0 < n && start < i <= start + n && i <= |stops| && start == groups * n
    ensures SumCycles(c, Chunks(stops[..i], n))
            == SumCycles(c, Chunks(stops[..start], n)) + CycleCost(c, stops[start..i])
  {
    var group := stops[start..i];
    assert stops[..start] + group == stops[..i];
    ChunksAppend(stops[..start], group, n, groups);
    var cs := Chunks(stops[..i], n);
    assert cs[..|cs| - 1] == Chunks(stops[..start], n);
  }

  /** One pass over a group: its highest floor and its number of distinct floors. */
  method ScanGroup(g: seq<int>) returns (top: int, floors: nat)
    requires |g| > 0
    ensures top == Max(g)
    ensures floors == DistinctCount(g)
  {
    top := g[0];
    var seen: set<int> := {g[0]};
    var i := 1;
    assert g[..1] == [g[0]];
    assert Elements([g[0]]) == {g[0]};
    while i < |g|
      invariant 1 <= i <= |g|
      invariant top == Max(g[..i])
      invariant seen == Elements(g[..i])
    {
      assert g[..i + 1] == g[..i] + [g[i]];
      MaxSnoc(g[..i], g[i]);
      ElementsSnoc(g[..i], g[i]);
      if g[i] > top {
        top := g[i];
      }
      seen := seen + {g[i]};
      i := i + 1;
    }
    assert g[..i] == g;
    floors := |seen|;
  }

  /**
   * The partition-based estimate computed group by group: `stops` is cut
   * every `n` entries, and each group's cycle is costed from one scan.
   */
  method ScanGroups(c: Car, stops: seq<int>, n: nat) returns (total: int)
    requires 0 < n
    ensures total == SumCycles(c, Chunks(stops, n))
  {
    total := 0;
    var start := 0;
    ghost var groups := 0;
    while start < |stops|
      invariant 0 <= start <= |stops|
      invariant start < |stops| ==> start == groups * n
      invariant start == |stops| ==> total == SumCycles(c, Chunks(stops, n))
      invariant start < |stops| ==> total == SumCycles(c, Chunks(stops[..start], n))
      decreases |stops| - start
    {
      var end := if start + n < |stops| then start + n else |stops|;
      var top, floors := ScanGroup(stops[start..end]);
      CloseGroup(c, stops, n, start, end, groups);
      total := total + GroupCost(c, top, floors);
      if end == |stops| {
        assert stops[..end] == stops;
      } else {
        assert end == (groups + 1) * n;
      }
      start := end;
      groups := groups + 1;
    }
    if |stops| == 0 {
      assert Chunks(stops, n) == [];
    }
  }

  /** `simularTempoFilaEspera` by the one-pass scan; agrees with the partition-based definition. */
  method ScanQueueDelay(c: Car, ps: seq<Passenger>, p: Passenger) returns (r: Result<int>)
    requires Refs(c.queue, |ps|)
    ensures r == SimulateQueueDelay(c, ps, p)
  {
    if c.capacity <= 0 {
      return Fail(InvalidPartitionSize);
    }
    var total := ScanGroups(c, QueueStops(c, ps) + [p.floor], c.capacity);
    return Ok(total);
  }
}
