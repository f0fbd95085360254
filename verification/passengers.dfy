/**
 * A passenger (`Pessoa`): an arrival fact plus the boarding and disembark
 * instants the simulator records. Instants and durations are whole seconds.
 */
module Passengers {
  import opened Wrappers
  import opened Seqs

  datatype Passenger = Passenger(
    name: string,
    floor: int,                // destination floor (`andar`)
    arrival: int,              // instant of arrival in the lobby
    boarding: Option<int>,     // set by the simulator when the passenger boards
    disembark: Option<int>)    // set by the simulator when the passenger leaves the car

  /** A passenger as the loader creates it: no timestamp recorded yet. */
  function NewPassenger(name: string, floor: int, arrival: int): (p: Passenger)
    ensures p.boarding.None? && p.disembark.None?
    ensures p.name == name && p.floor == floor && p.arrival == arrival
  {
    Passenger(name, floor, arrival, None, None)
  }

  /** `calculaTempoEsperaFila`: time spent in the lobby queue, once boarded. */
  function QueueWait(p: Passenger): (r: Option<int>)
    ensures r.Some? <==> p.boarding.Some?
    ensures r.Some? ==> p.arrival + r.value == p.boarding.value
  {
    match p.boarding
    case None => None
    case Some(b) => Some(b - p.arrival)
  }

  /** `calculaTempoChegadaAndar`: time inside the car, once boarded and disembarked. */
  function Transit(p: Passenger): (r: Option<int>)
    ensures r.Some? <==> p.boarding.Some? && p.disembark.Some?
    ensures r.Some? ==> p.boarding.value + r.value == p.disembark.value
  {
    if p.boarding.None? || p.disembark.None? then None
    else Some(p.disembark.value - p.boarding.value)
  }

  /**
   * `calculaTempoTotalPercurso`: the transit time plus the queue wait, built
   * with `flatMap`/`map` over the two optional durations.
   */
  function TotalTime(p: Passenger): (r: Option<int>)
    ensures r.Some? <==> QueueWait(p).Some? && Transit(p).Some?
    ensures r.Some? <==> p.boarding.Some? && p.disembark.Some?
    ensures r.Some? ==> r.value == QueueWait(p).value + Transit(p).value
    ensures r.Some? ==> p.arrival + r.value == p.disembark.value
  {
    match QueueWait(p)
    case None => None
    case Some(wait) =>
      match Transit(p)
      case None => None
      case Some(ride) => Some(ride + wait)
  }

  /**
   * `Pessoa.equals`: field-by-field comparison of the five fields; it is
   * exactly value equality of the record.
   */
  predicate SamePassenger(p: Passenger, q: Passenger): (r: bool)
    ensures r <==> p == q
  {
    && p.floor == q.floor
    && p.arrival == q.arrival
    && p.disembark == q.disembark
    && p.boarding == q.boarding
    && p.name == q.name
  }

  /** Every index in `ids` names a passenger of a list of length `n`. */
  predicate Refs(ids: seq<nat>, n: nat)
  {
    forall j :: 0 <= j < |ids| ==> ids[j] < n
  }

  /** A concatenation refers only to the first `n` passengers iff both parts do. */
  lemma RefsAppend(a: seq<nat>, b: seq<nat>, n: nat)
    ensures Refs(a + b, n) <==> Refs(a, n) && Refs(b, n)
  {
    if Refs(a + b, n) {
      assert forall j :: 0 <= j < |a| ==> a[j] == (a + b)[j];
      assert forall j :: 0 <= j < |b| ==> b[j] == (a + b)[j + |a|];
    }
  }

  /** The destination floors of the passengers `ids`, in order. */
  function Floors(ids: seq<nat>, ps: seq<Passenger>): (r: seq<int>)
    requires Refs(ids, |ps|)
    ensures |r| == |ids|
    ensures forall j :: 0 <= j < |ids| ==> r[j] == ps[ids[j]].floor
  {
    seq(|ids|, j requires 0 <= j < |ids| => ps[ids[j]].floor)
  }

  /** A floor is among the destinations of `ids` iff some listed passenger goes there. */
  lemma InFloors(ids: seq<nat>, ps: seq<Passenger>, f: int)
    requires Refs(ids, |ps|)
    ensures f in Floors(ids, ps) <==> exists j :: 0 <= j < |ids| && ps[ids[j]].floor == f
  {
    var fs := Floors(ids, ps);
    if f in fs {
      var j :| 0 <= j < |fs| && fs[j] == f;
      assert ps[ids[j]].floor == f;
    }
  }

  /** The number of listed passengers headed for floor `f`. */
  function Heading(ids: seq<nat>, ps: seq<Passenger>, f: int): nat
    requires Refs(ids, |ps|)
  {
    if |ids| == 0 then 0
    else Heading(ids[..|ids| - 1], ps, f) + (if ps[ids[|ids| - 1]].floor == f then 1 else 0)
  }

  /** Listing one more passenger appends their floor. */
  lemma FloorsSnoc(ids: seq<nat>, ps: seq<Passenger>, j: nat)
    requires Refs(ids, |ps|) && j < |ps|
    ensures Refs(ids + [j], |ps|)
    ensures Floors(ids + [j], ps) == Floors(ids, ps) + [ps[j].floor]
  {
    RefsAppend(ids, [j], |ps|);
  }

  /** Each floor occurs among the destinations once per listed passenger headed there. */
  lemma {:induction false} CountFloors(ids: seq<nat>, ps: seq<Passenger>, f: int)
    requires Refs(ids, |ps|)
    ensures Count(Floors(ids, ps), f) == Heading(ids, ps, f)
    decreases |ids|
  {
    if |ids| > 0 {
      var front := ids[..|ids| - 1];
      assert Refs(front, |ps|);
      CountFloors(front, ps, f);
      assert ids == front + [ids[|ids| - 1]];
      FloorsSnoc(front, ps, ids[|ids| - 1]);
    }
  }

  /** Some listed passenger is headed for `f` iff at least one is counted. */
  lemma HeadingSome(ids: seq<nat>, ps: seq<Passenger>, f: int)
    requires Refs(ids, |ps|)
    ensures Heading(ids, ps, f) >= 1 <==> exists i :: 0 <= i < |ids| && ps[ids[i]].floor == f
  {
    CountFloors(ids, ps, f);
    InFloors(ids, ps, f);
    assert f in Floors(ids, ps) <==> multiset(Floors(ids, ps))[f] > 0;
  }

  /** Two different listed passengers are headed for `f` iff at least two are counted. */
  lemma HeadingTwo(ids: seq<nat>, ps: seq<Passenger>, f: int)
    requires Refs(ids, |ps|)
    ensures Heading(ids, ps, f) >= 2 <==>
      exists i, j :: 0 <= i < j < |ids| && ps[ids[i]].floor == f && ps[ids[j]].floor == f
  {
    if Heading(ids, ps, f) >= 2 {
      var i, j := CountedPair(ids, ps, f);
    }
    if exists i, j :: 0 <= i < j < |ids| && ps[ids[i]].floor == f && ps[ids[j]].floor == f {
      var i, j :| 0 <= i < j < |ids| && ps[ids[i]].floor == f && ps[ids[j]].floor == f;
      PairCounted(ids, ps, f, i, j);
    }
  }

  /** Two listed passengers headed for `f` are both counted. */
  lemma {:induction false} PairCounted(ids: seq<nat>, ps: seq<Passenger>, f: int, i: nat, j: nat)
    requires Refs(ids, |ps|)
    requires i < j < |ids| && ps[ids[i]].floor == f && ps[ids[j]].floor == f
    ensures Heading(ids, ps, f) >= 2
    decreases |ids|
  {
    var n := |ids| - 1;
    var front := ids[..n];
    assert Refs(front, |ps|);
    assert front[i] == ids[i];
    if j < n {
      assert front[j] == ids[j];
      PairCounted(front, ps, f, i, j);
    } else {
      HeadingSome(front, ps, f);
    }
  }

  /** When at least two listed passengers are counted for `f`, two different ones are headed there. */
  lemma {:induction false} CountedPair(ids: seq<nat>, ps: seq<Passenger>, f: int) returns (i: nat, j: nat)
    requires Refs(ids, |ps|) && Heading(ids, ps, f) >= 2
    ensures i < j < |ids| && ps[ids[i]].floor == f && ps[ids[j]].floor == f
    decreases |ids|
  {
    var n := |ids| - 1;
    var front := ids[..n];
    assert Refs(front, |ps|);
    if ps[ids[n]].floor == f {
      HeadingSome(front, ps, f);
      i :| 0 <= i < n && ps[front[i]].floor == f;
      j := n;
    } else {
      i, j := CountedPair(front, ps, f);
    }
  }
}
