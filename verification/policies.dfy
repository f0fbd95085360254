/**
 * The dispatch policies (`ElevadorControle`): given an arriving passenger,
 * pick the car whose lobby queue receives them. A decision is an index into
 * the fleet; the policy's own state, if any, is threaded through.
 */
module Policies {
  import opened Wrappers
  import opened Seqs
  import opened Passengers
  import opened Elevators

  /**
   * The sequential counter starts at 0 and only grows, so it is a `nat`:
   * Java's `%` truncates toward zero and Dafny's is Euclidean, which agree
   * on non-negative operands.
   */
  datatype Policy =
    | Sequential(index: nat)   // ElevadorControleSequencial, with its counter
    | LeastTime                // ElevadorControleMenorTempoImediato, stateless

  /** `inicializar`: the sequential counter restarts at 0; the least-time policy keeps nothing. */
  function Reset(policy: Policy): (r: Policy)
    ensures r.Sequential? <==> policy.Sequential?
    ensures r.Sequential? ==> r.index == 0
  {
    match policy
    case Sequential(_) => Sequential(0)
    case LeastTime => LeastTime
  }

  predicate FleetRefs(fleet: seq<Car>, n: nat)
  {
    forall k :: 0 <= k < |fleet| ==> CarRefs(fleet[k], n)
  }

  /**
   * The sequential decision: the counter moves first, then picks the car at
   * that position modulo the fleet size. An empty fleet divides by zero.
   */
  function NextInTurn(index: int, size: nat): (r: Result<(int, nat)>)
    ensures r.Fail? <==> size == 0
    ensures r.Fail? ==> r.fault == DivisionByZero
    ensures r.Ok? ==> r.value.0 == index + 1 && r.value.1 < size
  {
    if size == 0 then Fail(DivisionByZero)
    else Ok((index + 1, (index + 1) % size))
  }

  /**
   * `calcularTempoRestanteTerreo(t) + simularTempoFilaEspera(p)`: the
   * least-time policy's cost for one car.
   */
  function CarCost(c: Car, ps: seq<Passenger>, p: Passenger, t: int): (r: Result<int>)
    requires CarRefs(c, |ps|)
    ensures r.Fail? <==> c.capacity <= 0
    ensures r.Ok? ==> r.value == TimeToBase(c, ps, t).value + SimulateQueueDelay(c, ps, p).value
  {
    var wait := TimeToBase(c, ps, t).value;
    var queue :- SimulateQueueDelay(c, ps, p);
    Ok(wait + queue)
  }

  /** The cost of every car, in fleet order; the first car that cannot be costed aborts the decision. */
  function Costs(fleet: seq<Car>, ps: seq<Passenger>, p: Passenger, t: int): (r: Result<seq<int>>)
    requires FleetRefs(fleet, |ps|)
    ensures r.Fail? <==> exists k :: 0 <= k < |fleet| && fleet[k].capacity <= 0
    ensures r.Fail? ==> r.fault == InvalidPartitionSize
    ensures r.Ok? ==> |r.value| == |fleet|
    ensures r.Ok? ==> forall k :: 0 <= k < |fleet| ==> r.value[k] == CarCost(fleet[k], ps, p, t).value
  {
    if |fleet| == 0 then Ok([])
    else
      var head :- CarCost(fleet[0], ps, p, t);
      var tail := fleet[1..];
      assert forall k :: 1 <= k < |fleet| ==> tail[k - 1] == fleet[k];
      var rest :- Costs(tail, ps, p, t);
      Ok([head] + rest)
  }

  /**
   * The `HashMap<Duration, Elevador>` filled in fleet order: a cost already
   * present is overwritten, so each cost maps to the last car that has it.
   */
  function CostTable(costs: seq<int>): map<int, nat>
  {
    if |costs| == 0 then map[]
    else CostTable(costs[..|costs| - 1])[costs[|costs| - 1] := |costs| - 1]
  }

  /** The table's keys are exactly the costs, and each maps to the last position holding it. */
  lemma {:induction false} CostTableLast(costs: seq<int>)
    ensures forall v :: v in CostTable(costs) <==> v in costs
    ensures forall v :: v in CostTable(costs) ==>
      && CostTable(costs)[v] < |costs|
      && costs[CostTable(costs)[v]] == v
      && forall j :: CostTable(costs)[v] < j < |costs| ==> costs[j] != v
  {
    if |costs| > 0 {
      var front := costs[..|costs| - 1];
      CostTableLast(front);
      assert costs == front + [costs[|costs| - 1]];
      forall v | v in costs
        ensures v in CostTable(costs)
      {
        if v != costs[|costs| - 1] {
          assert v in front;
        }
      }
    }
  }

  /**
   * `decisao` of the least-time policy over the costs: the smallest cost is
   * looked up in the table, so ties go to the last car with that cost. No
   * car at all leaves `Optional.get()` without a value.
   */
  function LeastCostChoice(costs: seq<int>): (r: Result<nat>)
    ensures r.Fail? <==> |costs| == 0
    ensures r.Fail? ==> r.fault == EmptyFleet
    ensures r.Ok? ==> r.value < |costs|
    ensures r.Ok? ==> forall j :: 0 <= j < |costs| ==> costs[r.value] <= costs[j]
    ensures r.Ok? ==> forall j :: r.value < j < |costs| ==> costs[r.value] < costs[j]
  {
    if |costs| == 0 then Fail(EmptyFleet)
    else
      CostTableLast(costs);
      Ok(CostTable(costs)[Min(costs)])
  }

  /**
   * One dispatch decision for passenger `p` at instant `t`: the new policy
   * state and the chosen car's position in the fleet.
   */
  function Decide(policy: Policy, fleet: seq<Car>, ps: seq<Passenger>, p: Passenger, t: int): (r: Result<(Policy, nat)>)
    requires FleetRefs(fleet, |ps|)
    ensures r.Ok? ==> r.value.1 < |fleet|
    ensures r.Ok? ==> r.value.0.Sequential? == policy.Sequential?
    ensures policy.Sequential? ==> (r.Fail? <==> |fleet| == 0)
    ensures policy.Sequential? && r.Ok? ==>
      r.value.0.index == policy.index + 1 && r.value.1 == (policy.index + 1) % |fleet|
    ensures policy.LeastTime? && r.Ok? ==> r.value.0 == LeastTime
  {
    match policy
    case Sequential(index) =>
      var (next, pick) :- NextInTurn(index, |fleet|);
      Ok((Sequential(next), pick))
    case LeastTime =>
      var costs :- Costs(fleet, ps, p, t);
      var pick :- LeastCostChoice(costs);
      Ok((LeastTime, pick))
  }

  /**
   * The least-time decision fails iff there is no car or some car cannot be
   * costed; otherwise it picks a car of minimal cost, and no later car in
   * fleet order has that cost.
   */
  lemma LeastTimeChoice(fleet: seq<Car>, ps: seq<Passenger>, p: Passenger, t: int)
    requires FleetRefs(fleet, |ps|)
    ensures var r := Decide(LeastTime, fleet, ps, p, t);
      && (r.Fail? <==> |fleet| == 0 || exists k :: 0 <= k < |fleet| && fleet[k].capacity <= 0)
      && (r.Ok? ==> forall k :: 0 <= k < |fleet| ==>
            CarCost(fleet[r.value.1], ps, p, t).value <= CarCost(fleet[k], ps, p, t).value)
      && (r.Ok? ==> forall k :: r.value.1 < k < |fleet| ==>
            CarCost(fleet[r.value.1], ps, p, t).value < CarCost(fleet[k], ps, p, t).value)
  {
    var costs := Costs(fleet, ps, p, t);
    if costs.Ok? {
      var choice := LeastCostChoice(costs.value);
    }
  }

  /**
   * The picks of `k` successive sequential decisions on a fleet of `size`
   * cars, starting from counter `index`.
   */
  function Turns(index: int, size: nat, k: nat): Result<seq<nat>>
    decreases k
  {
    if k == 0 then Ok([])
    else
      var (next, pick) :- NextInTurn(index, size);
      var rest :- Turns(next, size, k - 1);
      Ok([pick] + rest)
  }

  /** The `j`-th of those decisions (from 0) picks position `index + 1 + j` modulo the fleet size. */
  lemma {:induction false} TurnsModulo(index: int, size: nat, k: nat)
    requires 0 < size
    ensures Turns(index, size, k).Ok?
    ensures |Turns(index, size, k).value| == k
    ensures forall j :: 0 <= j < k ==> Turns(index, size, k).value[j] == (index + 1 + j) % size
    decreases k
  {
    if k > 0 {
      TurnsModulo(index + 1, size, k - 1);
      var rest := Turns(index + 1, size, k - 1).value;
      assert Turns(index, size, k).value == [(index + 1) % size] + rest;
      forall j | 1 <= j < k
        ensures Turns(index, size, k).value[j] == (index + 1 + j) % size
      {
        assert rest[j - 1] == (index + 1 + 1 + (j - 1)) % size;
      }
    }
  }

  /**
   * After `inicializar`, whatever the counter was, the `k`-th call
   * (counting from 1) returns the car at position `k mod n`: the very
   * first call skips the first car.
   */
  lemma KthCallAfterReset(counter: nat, size: nat, k: nat)
    requires 0 < size && 0 < k
    ensures Reset(Sequential(counter)) == Sequential(0)
    ensures var picks := Turns(Reset(Sequential(counter)).index, size, k);
      && picks.Ok? && |picks.value| == k
      && picks.value[k - 1] == k % size
      && (2 <= size ==> picks.value[0] == 1)
  {
    var picks := Turns(0, size, k);
    TurnsModulo(0, size, k);
    assert picks.value[k - 1] == (0 + 1 + (k - 1)) % size;
    if 2 <= size {
      assert picks.value[0] == (0 + 1 + 0) % size;
    }
  }

  /** The sequence of picks repeats with period `n`. */
  lemma TurnsPeriodic(index: int, size: nat, k: nat, j: nat)
    requires 0 < size && j + size < k
    ensures Turns(index, size, k).Ok? && |Turns(index, size, k).value| == k
    ensures Turns(index, size, k).value[j + size] == Turns(index, size, k).value[j]
  {
    TurnsModulo(index, size, k);
    ModAddPeriod(index + 1 + j, size);
  }

  /** Any `n` consecutive sequential decisions on a fleet of `n` cars choose every car. */
  lemma TurnsCoverFleet(index: int, size: nat, car: nat)
    requires 0 < size && car < size
    ensures Turns(index, size, size).Ok?
    ensures car in Turns(index, size, size).value
  {
    TurnsModulo(index, size, size);
    var j := (car - (index + 1)) % size;
    var q := (car - (index + 1)) / size;
    assert car - (index + 1) == q * size + j;
    assert index + 1 + j == (-q) * size + car;
    DivModUnique(index + 1 + j, size, -q, car);
    assert Turns(index, size, size).value[j] == car;
  }

  lemma MulAtLeast(a: int, n: int)
    requires n > 0 && a >= 1
    ensures a * n >= n
  {
    if a > 1 {
      MulAtLeast(a - 1, n);
      assert a * n == (a - 1) * n + n;
    }
  }

  /** Euclidean remainder is determined by any quotient-remainder decomposition. */
  lemma DivModUnique(x: int, n: int, q: int, r: int)
    requires n > 0 && 0 <= r < n && x == q * n + r
    ensures x % n == r
  {
    var q' := x / n;
    var r' := x % n;
    assert x == q' * n + r';
    assert (q - q') * n == r' - r;
    if q - q' >= 1 {
      MulAtLeast(q - q', n);
    } else if q' - q >= 1 {
      MulAtLeast(q' - q, n);
    }
  }

  lemma ModAddPeriod(x: int, n: int)
    requires n > 0
    ensures (x + n) % n == x % n
  {
    var q := x / n;
    assert x == q * n + x % n;
    assert x + n == (q + 1) * n + x % n;
    DivModUnique(x + n, n, q + 1, x % n);
  }
}
