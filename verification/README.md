# Elevator simulator — a Dafny model

This project models the discrete-time engine of the elevator simulator
`jprm.simulador_elevadores`.

- A fleet of cars (`Elevador`) moves between a base floor and a top floor.
- Passengers (`Pessoa`) arrive in the lobby at given instants. A dispatch
  policy (`ElevadorControle`) assigns each one to the lobby queue of one car.
- Every simulated second, `Simulador.processarInstante` runs a fixed
  protocol:
  1. every car is updated;
  2. stopped cars let riders off at their floor;
  3. the passengers arriving at this instant are dispatched;
  4. cars idle at the base board their queues, first in first out, up to
     the capacity;
  5. the run is declared finished once everybody has been let off.
- At the end, the statistics report the queue wait, the ride time and the
  total time.

Modelling choices:

- Instants and durations are whole seconds (`int`).
- Passengers are identified by their index in the simulator's passenger
  list. A car's riders (`lotacao`) and lobby queue (`filaTerreo`) are
  sequences of such indices.
- Every object is an immutable datatype. Every operation is a pure function
  that returns the new state, or a `Fail` for each exception the Java code
  can raise.
- Because the operations are pure, the queries (the estimators, the three
  passenger durations, a least-time decision) provably change no car and no
  passenger.

The modules follow the classes:

| module | models |
|---|---|
| `Wrappers` | `Option` and `Result`, plus the `Fault` each Java exception becomes |
| `Seqs` | the sequence helpers the streams use: `Sum`, `Max`, `Min`, `distinct().count()`, `List.remove(Object)`, and `Lists.partition` as `Chunks` |
| `Passengers` | `Pessoa` |
| `Elevators` | `Elevador`: the state machine and the estimators |
| `Policies` | `ElevadorControleSequencial` and `ElevadorControleMenorTempoImediato` |
| `Simulator` | `Simulador`: `inicializar`, `incrementarInstanteAtual`, `processarInstante` |
| `Statistics` | `obterListaTempo`, `calculaTempoMedio` and the counts in `imprimeEstatisticasSimulacao` |
| `Invariants` | the passenger lifecycle that `processarInstante` maintains, across one tick and along a run |

The lifecycle invariant is the main proved property. At any time, each
passenger is in exactly one of four situations:

- not yet arrived, with no instant recorded;
- queued in exactly one lobby queue, not yet boarded;
- riding exactly one car, boarded no earlier than arrival;
- delivered: boarded, then let off strictly later.

Also, no car ever holds more riders than the simulator's capacity.
`inicializar` establishes this invariant. Every `processarInstante`
preserves it, so it holds along any run of the driving loop.

Three behaviours of the code are easy to misread, and the model keeps each
as written:

- Least-time ties go to the last car. The least-time policy collects costs
  in a `HashMap<Duration, Elevador>`, so among cars with the minimal cost
  the last one in fleet order wins, not the first.
- A car's time marker is not reset when passengers board. It keeps the
  instant the car last became idle at the base, or the initial instant. The
  boarding dwell is therefore counted from that instant. A car idle for at
  least the dwell period (20 s by default) starts up at the next tick
  after boarding. A car that became idle more recently waits out the rest
  of the dwell. For a passenger going from the base floor 1 to floor 5,
  with 2 s between floors:
  - boarding a fresh car at the run's first instant, they alight 28 s after
    arriving: 20 s of dwell counted from initialisation, then 8 s of
    travel. A reading that starts the car at once would give 8 s;
  - boarding a car that has been idle for a minute, they alight 9 s after
    arriving: 1 s to the next tick, then 8 s of travel.
- `calcularTempoRestanteMudancaStatusAndar` returns a negated value. It
  computes elapsed time minus the active period, which is the negation of
  the time left. It is modelled as written (`TimeToPhaseChange`), and
  `PhaseTiming` states what the value means.

## Model

| member | source | states |
|---|---|---|
| Elevators.CheckPeriod | src/main/java/jprm/simulador_elevadores/Elevador.java:88-94 | The period is over iff the time since the marker is at least the period; the marker moves to the current instant exactly when it is over and is kept otherwise. |
| Elevators.Step | src/main/java/jprm/simulador_elevadores/Elevador.java:36-77 | A stopped car keeps its floor and starts moving (up after stopping to go up, down after stopping to go down) only once the dwell period has elapsed. A car going up rises exactly one floor once the travel period has elapsed, failing above the top floor. A car going down descends exactly one floor, failing below the base, and becomes idle exactly when it reaches the base. An idle car is left exactly as it was. Riders, queue, identity, bounds and periods never change, and a car inside the shaft stays inside it. |
| Elevators.StatusAfterAscent | src/main/java/jprm/simulador_elevadores/Elevador.java:96-107 | After rising a floor, the car keeps moving iff no rider is headed for this floor. It stops to go up iff some rider is headed here and another rider is headed higher (up to the top floor). It stops to go down iff a rider is headed here and none higher. |
| Elevators.Stops | src/main/java/jprm/simulador_elevadores/Elevador.java:207-214 | The programmed stops hold at most one entry per rider, and a floor is among them iff it lies between the current floor and the top floor and some rider is headed there. |
| Elevators.StopsCount | src/main/java/jprm/simulador_elevadores/Elevador.java:207-214 | With repetition: each floor between the current floor and the top floor occurs among the stops exactly as often as riders are headed there, and no other floor occurs. |
| Elevators.StopsBoard | src/main/java/jprm/simulador_elevadores/Elevador.java:207-214 | The stops keep boarding order: a rider added last appends their floor at the end when it lies between the current floor and the top floor, and changes nothing otherwise. |
| Elevators.QueueStops | src/main/java/jprm/simulador_elevadores/Elevador.java:237-244 | The queue's stops hold at most one entry per queued passenger, and a floor is among them iff it is not above the top floor and some queued passenger is headed there. |
| Elevators.QueueStopsCount | src/main/java/jprm/simulador_elevadores/Elevador.java:237-244 | With repetition: each floor not above the top floor occurs among the queue's stops exactly as often as queued passengers are headed there, and no other floor occurs. |
| Elevators.QueueStopsEnqueue | src/main/java/jprm/simulador_elevadores/Elevador.java:237-244 | The queue's stops keep FIFO order: a passenger added at the end of the queue appends their floor at the end when it is not above the top floor, and changes nothing otherwise. |
| Elevators.LastStop | src/main/java/jprm/simulador_elevadores/Elevador.java:221-223 | The last stop is absent iff nobody rides; otherwise it is some rider's floor, and no rider's floor is higher. |
| Elevators.PhaseTiming | src/main/java/jprm/simulador_elevadores/Elevador.java:196-204 | For a car that is not idle, the phase term `TimeToPhaseChange` is negative exactly at the instants where the update leaves the car unchanged, that is, before the marker plus the active period; it is the negation of the time left. |
| Elevators.RemainingDescent | src/main/java/jprm/simulador_elevadores/Elevador.java:175-187 | The descending estimate refuses exactly the ascending and idle states, with its own fault. |
| Elevators.DescentTime | src/main/java/jprm/simulador_elevadores/Elevador.java:159-166 | The empty-descent estimate refuses exactly the two descending states, with its own fault. |
| Elevators.TimeToBase | src/main/java/jprm/simulador_elevadores/Elevador.java:122-130 | The time-to-base estimate never fails in any state, because it picks each helper only in the states that helper accepts. It is zero for an idle car. For a descending car it is the travel period times the floors still to go (one fewer while moving), plus the phase term. |
| Elevators.AscendingEstimate | src/main/java/jprm/simulador_elevadores/Elevador.java:138-150 | For an ascending car the estimate is: one dwell per distinct pending stop, plus the climb to the highest rider floor (one floor less while moving), plus the phase term, plus the empty descent from that floor to the base. |
| Elevators.AscentDwellCount | src/main/java/jprm/simulador_elevadores/Elevador.java:138-143 | The number of dwells counted while ascending is the number of distinct rider floors strictly above the car and not above the top floor. It is one more iff at least two riders are headed for the current floor and that floor is not above the top floor: `List.remove` drops only one of their entries. |
| Elevators.SimulateQueueDelay | src/main/java/jprm/simulador_elevadores/Elevador.java:246-255 | The queue simulation fails, as the partition does, exactly when the capacity is not positive. |
| Elevators.SingleGroupDelay | src/main/java/jprm/simulador_elevadores/Elevador.java:257-270 | When the queued floors (those above the top floor excluded) are fewer than the capacity, the estimate is one cycle: twice the climb from the base to the highest floor among them and the new passenger's, plus one dwell per distinct floor. |
| Elevators.ScanGroup | src/main/java/jprm/simulador_elevadores/Elevador.java:257-270 | One scan of a non-empty group yields its highest floor and its number of distinct floors. |
| Elevators.ScanGroups | src/main/java/jprm/simulador_elevadores/Elevador.java:251-254 | Walking the stop list group by group, cut every capacity entries, gives the sum of the cycle costs over the partition of that list. |
| Elevators.ScanQueueDelay | src/main/java/jprm/simulador_elevadores/Elevador.java:246-270 | The loop-based queue simulation agrees exactly with the partition-based definition, failures included. |
| Seqs.ChunksPartition | src/main/java/jprm/simulador_elevadores/Elevador.java:251 | The partition of a list loses and reorders nothing. Every group is non-empty and holds at most the group size, and every group but the last holds exactly that many. |
| Passengers.NewPassenger | src/main/java/jprm/simulador_elevadores/Pessoa.java:35-40 | A new passenger has the given name, floor and arrival, and neither instant recorded. |
| Passengers.QueueWait | src/main/java/jprm/simulador_elevadores/Pessoa.java:15-21 | The queue wait is present iff a boarding instant is recorded; then arrival plus wait is the boarding instant. |
| Passengers.Transit | src/main/java/jprm/simulador_elevadores/Pessoa.java:23-29 | The ride time is present iff both instants are recorded; then boarding plus ride time is the disembark instant. |
| Passengers.TotalTime | src/main/java/jprm/simulador_elevadores/Pessoa.java:31-33 | The total time is present iff both other durations are. It then equals their sum, and arrival plus total is the disembark instant. |
| Passengers.SamePassenger | src/main/java/jprm/simulador_elevadores/Pessoa.java:95-129 | The field-by-field comparison holds iff the two passengers are equal as values. |
| Policies.Reset | src/main/java/jprm/simulador_elevadores/ElevadorControleSequencial.java:12-15 | Initialising keeps the kind of policy and sets the sequential counter to 0. |
| Policies.NextInTurn | src/main/java/jprm/simulador_elevadores/ElevadorControleSequencial.java:18-21 | A sequential decision fails (division by zero) iff the fleet is empty. Otherwise the counter grows by exactly one before the lookup, and the pick is a position in the fleet. |
| Policies.Decide | src/main/java/jprm/simulador_elevadores/ElevadorControleSequencial.java:18-21 | A decision always picks a position in the fleet and keeps the kind of policy. A sequential decision fails iff the fleet is empty. It picks the incremented counter modulo the fleet size, whatever the passenger and the instant. A least-time decision leaves the policy stateless. |
| Policies.TurnsModulo | src/main/java/jprm/simulador_elevadores/ElevadorControleSequencial.java:19-20 | Of k successive sequential decisions from counter c on a non-empty fleet of n cars, all succeed, and the j-th picks (c + 1 + j) mod n. |
| Policies.KthCallAfterReset | src/main/java/jprm/simulador_elevadores/ElevadorControleSequencial.java:19-20 | Initialisation sets any counter back to 0. After it, the k-th call picks position k mod n, so the first call picks the second car when there are at least two. |
| Policies.TurnsPeriodic | src/main/java/jprm/simulador_elevadores/ElevadorControleSequencial.java:18-21 | The sequence of sequential picks repeats with period n. |
| Policies.TurnsCoverFleet | src/main/java/jprm/simulador_elevadores/ElevadorControleSequencial.java:20 | Any n successive sequential decisions on n cars pick every car. |
| Policies.CarCost | src/main/java/jprm/simulador_elevadores/ElevadorControleMenorTempoImediato.java:22-24 | A car's cost fails iff its capacity is not positive. Otherwise it is its time-to-base estimate plus its simulated queue delay with the passenger added. |
| Policies.Costs | src/main/java/jprm/simulador_elevadores/ElevadorControleMenorTempoImediato.java:21-24 | Costing the fleet fails iff some car cannot be costed. Otherwise it yields one cost per car, in fleet order. |
| Policies.CostTableLast | src/main/java/jprm/simulador_elevadores/ElevadorControleMenorTempoImediato.java:21-24 | The cost-to-car map holds exactly the costs as keys. Because later entries overwrite earlier ones, each cost maps to the last car with that cost. |
| Policies.LeastCostChoice | src/main/java/jprm/simulador_elevadores/ElevadorControleMenorTempoImediato.java:26-28 | The choice fails iff there is no car. Otherwise it is a car whose cost is at most every car's cost, and every later car costs strictly more. |
| Policies.LeastTimeChoice | src/main/java/jprm/simulador_elevadores/ElevadorControleMenorTempoImediato.java:19-29 | The least-time decision fails iff the fleet is empty or some car cannot be costed. Otherwise the chosen car's cost is minimal, and ties go to the last minimal car. |
| Simulator.NewSim | src/main/java/jprm/simulador_elevadores/Simulador.java:240-249 | A new simulator carries the default parameters (4 cars, 20 s dwell, 2 s per floor, 8 riders, floors 1 to 25, start at floor 1), the given policy, and no instant yet. |
| Simulator.Initialize | src/main/java/jprm/simulador_elevadores/Simulador.java:66-98 | Initialisation fails iff the passenger list is empty, the number of cars is negative, or (with cars) the capacity is negative. Otherwise the initial and current instants are the earliest arrival. The fleet has exactly the configured number of cars; the car at position k has id k + 1, is idle at the start floor, has no riders and no queue, and has its marker at the initial instant. The policy is reset and the final instant of an earlier run is kept. |
| Simulator.InitialCarsDistinct | src/main/java/jprm/simulador_elevadores/Elevador.java:410-425 | Cars built by initialisation are equal under the id comparison iff they are the same position in the fleet. |
| Simulator.Increment | src/main/java/jprm/simulador_elevadores/Simulador.java:101-103 | Advancing the clock moves the current instant by exactly one second and changes nothing else; it fails iff there is no current instant. |
| Simulator.StepAll | src/main/java/jprm/simulador_elevadores/Simulador.java:114 | Updating the fleet updates every car in place. It fails iff some car's update fails, and then with that car's fault. |
| Simulator.StampAll | src/main/java/jprm/simulador_elevadores/Simulador.java:122-124 | Each listed passenger gets the instant set, and every other passenger is untouched. |
| Simulator.SplitByFloor | src/main/java/jprm/simulador_elevadores/Simulador.java:119-120 | Filtering riders by floor sends exactly the riders headed for the floor to one side and the rest to the other. |
| Simulator.SplitByFloorKeepsAll | src/main/java/jprm/simulador_elevadores/Simulador.java:119-121 | Together, the two sides hold exactly the original riders. |
| Simulator.Alight | src/main/java/jprm/simulador_elevadores/Simulador.java:117-127 | Only a stopped car lets anyone off. It lets off riders headed for its current floor and keeps none headed there. The riders kept plus those let off are exactly the riders before, and nothing else about the car changes. |
| Simulator.AlightExactly | src/main/java/jprm/simulador_elevadores/Simulador.java:118-121 | A passenger is let off a car iff the car is stopped and the passenger rides it headed for its floor. |
| Simulator.LeaversExactly | src/main/java/jprm/simulador_elevadores/Simulador.java:117-127 | Over the fleet, a passenger is let off iff they ride some stopped car whose floor is their destination. |
| Simulator.DisembarkAll | src/main/java/jprm/simulador_elevadores/Simulador.java:117-127 | After the disembark pass, exactly the passengers who leave get the current instant as their disembark instant; everybody else is unchanged. |
| Simulator.Arrivals | src/main/java/jprm/simulador_elevadores/Simulador.java:131-132 | The passengers dispatched at an instant are exactly those whose arrival equals it (equality, not "at or before"), in list order, each once. |
| Simulator.Dispatch | src/main/java/jprm/simulador_elevadores/Simulador.java:131-136 | A successful dispatch makes one pick per arrival, each a position in the fleet, and keeps the fleet's size. |
| Simulator.DispatchStep | src/main/java/jprm/simulador_elevadores/Simulador.java:136 | The first arrival's failed decision fails the whole dispatch. Otherwise the arrival is queued at the chosen car, and the rest are dispatched with the updated policy and queues. |
| Simulator.DispatchQueues | src/main/java/jprm/simulador_elevadores/Simulador.java:131-136 | After dispatching, each car's queue is its old queue followed by the arrivals assigned to it, in arrival order; nothing else about any car changes. |
| Simulator.DispatchSequential | src/main/java/jprm/simulador_elevadores/ElevadorControleSequencial.java:19-20 | Under the sequential policy, a tick's dispatch fails iff somebody arrives and the fleet is empty. Otherwise the counter moves once per arrival, and the picks are the next turns of the round robin. |
| Simulator.DispatchLeastTimeFails | src/main/java/jprm/simulador_elevadores/ElevadorControleMenorTempoImediato.java:19-29 | Under the least-time policy, a tick's dispatch fails iff somebody arrives and either there is no car or some car cannot be costed. |
| Simulator.Room | src/main/java/jprm/simulador_elevadores/Simulador.java:150-158 | The number of queued passengers that fit is at most the queue's length. It is the whole queue unless the car is then full, and boarding any fills the car at most to the capacity. |
| Simulator.BoardTakesPrefix | src/main/java/jprm/simulador_elevadores/Simulador.java:150-158 | The boarding loop (`Board`) moves the longest prefix of the queue that fits under the capacity to the end of the riders, and leaves the rest queued in order. |
| Simulator.BoardCar | src/main/java/jprm/simulador_elevadores/Simulador.java:142-159 | Only an idle car boards. It becomes stopped-to-go-up iff its queue was non-empty, and stays idle iff the queue was empty. The boarders are a prefix of the queue, appended to the riders. A car that boarded anyone is not above capacity, and a car leaving anyone queued is full. |
| Simulator.BoardersExactly | src/main/java/jprm/simulador_elevadores/Simulador.java:142-159 | A passenger boards iff they are within the places that fit at the head of an idle car's queue. |
| Simulator.BoardAll | src/main/java/jprm/simulador_elevadores/Simulador.java:142-159 | After the boarding pass, exactly the passengers who board get the current instant as their boarding instant. The capacity used is the simulator's, not the car's own field. |
| Simulator.Settle | src/main/java/jprm/simulador_elevadores/Simulador.java:113-127 | Updating and disembarking fails iff some car's update fails; otherwise it only records instants on passengers and keeps every reference valid. |
| Simulator.Admit | src/main/java/jprm/simulador_elevadores/Simulador.java:129-159 | Dispatching and boarding fails iff the dispatch fails; otherwise it only records instants on passengers and keeps every reference valid. |
| Simulator.ProcessTick | src/main/java/jprm/simulador_elevadores/Simulador.java:105-169 | A tick fails without a current instant, and past a recorded final instant. A successful tick reports the run finished iff every passenger has a disembark instant, and then records the current instant as final. It changes no passenger's name, floor or arrival, and no configuration, instant or fleet size. |
| Simulator.TickOutcome | src/main/java/jprm/simulador_elevadores/Simulador.java:105-136 | Once past its guards, a tick fails iff a car update fails or, after that phase, a dispatch decision fails. It reports that first fault, so it throws in no other case. |
| Statistics.DurationsExactly | src/main/java/jprm/simulador_elevadores/Simulador.java:235-238 | A duration is listed iff some passenger has it for the measure. |
| Statistics.DurationsCount | src/main/java/jprm/simulador_elevadores/Simulador.java:235-238 | The list has one entry per passenger who has the measure: its length plus the number missing it is the number of passengers. |
| Statistics.Present | src/main/java/jprm/simulador_elevadores/Simulador.java:236 | The passengers kept by the filter are the positions of exactly those that have the measure, in list order and each once. |
| Statistics.DurationsInOrder | src/main/java/jprm/simulador_elevadores/Simulador.java:235-238 | The list (`Durations`) has one entry per passenger with the measure, and its j-th entry is the measure of the j-th such passenger in list order. This fixes the order and the multiplicities, not only which durations occur. |
| Statistics.NoneMissing | src/main/java/jprm/simulador_elevadores/Simulador.java:235-238 | When every passenger has the measure, nobody is missing, and the list is every passenger's measure in list order. |
| Statistics.NotBoardedCount | src/main/java/jprm/simulador_elevadores/Simulador.java:196-198 | The reported count (passengers minus listed wait times) is the number of passengers without a boarding instant. |
| Statistics.TruncDiv | src/main/java/jprm/simulador_elevadores/Simulador.java:232 | The division truncates toward zero: the quotient times the divisor is within one divisor of the dividend, on the dividend's side of zero. |
| Statistics.MeanNanos | src/main/java/jprm/simulador_elevadores/Simulador.java:231-233 | The mean is absent iff the list is empty. Otherwise, in nanoseconds, it is the sum divided by the count and truncated toward zero: for a non-negative sum, mean times count is at most the scaled sum and less than it plus one count; a negative sum is bracketed the other way. |
| Statistics.MeanBetween | src/main/java/jprm/simulador_elevadores/Simulador.java:231-233 | The mean of non-negative durations is non-negative and at most the largest duration. |
| Statistics.Longest | src/main/java/jprm/simulador_elevadores/Simulador.java:192 | The longest duration is absent iff the list is empty; otherwise it is listed, and no listed duration exceeds it. |
| Invariants.PassengerTick | src/main/java/jprm/simulador_elevadores/Simulador.java:117-159 | One passenger in their situation after the previous instant is still in a valid situation after this one, if at most their rides end, they join one queue when arriving now, and they board from their queue. |
| Invariants.SettleCounts | src/main/java/jprm/simulador_elevadores/Simulador.java:113-127 | The first half of a tick never adds a rider or changes a queue. It records the disembark instant of exactly the passengers it lets off. |
| Invariants.SettleShrinks | src/main/java/jprm/simulador_elevadores/Simulador.java:113-127 | The first half of a tick never makes a car fuller. |
| Invariants.DispatchCounts | src/main/java/jprm/simulador_elevadores/Simulador.java:131-136 | Dispatching adds each arrival exactly once to the queues of the fleet and touches no rider. |
| Invariants.AdmitCounts | src/main/java/jprm/simulador_elevadores/Simulador.java:129-159 | The second half of a tick never lets a rider go. It adds a passenger to the fleet exactly once when they arrive now. It records the boarding instant of exactly the passengers who board. |
| Invariants.AdmitWithin | src/main/java/jprm/simulador_elevadores/Simulador.java:153 | Boarding never fills a car beyond the capacity. |
| Invariants.TickPhases | src/main/java/jprm/simulador_elevadores/Simulador.java:113-159 | A successful tick is the update and disembark pass followed by dispatch and boarding with the simulator's capacity. |
| Invariants.TickPassenger | src/main/java/jprm/simulador_elevadores/Simulador.java:105-169 | Across a tick, each passenger moves from a valid situation after the previous instant to a valid situation after this one. |
| Invariants.TickWithin | src/main/java/jprm/simulador_elevadores/Simulador.java:142-159 | No car ends a tick over the capacity. |
| Invariants.TickKeepsConsistent | src/main/java/jprm/simulador_elevadores/Simulador.java:105-169 | A tick preserves the lifecycle invariant. Nobody is both in a queue and in a car, or in two places. Nobody both boards and leaves in the same tick. No car exceeds the capacity. |
| Invariants.TickStampsOnce | src/main/java/jprm/simulador_elevadores/Simulador.java:117-159 | A tick never changes a recorded instant; it only fills a missing one, with the current instant. |
| Invariants.InitializeConsistent | src/main/java/jprm/simulador_elevadores/Simulador.java:66-98 | Initialising with freshly loaded passengers yields a run consistent just before its first instant. |
| Invariants.FinishedDelivered | src/main/java/jprm/simulador_elevadores/Simulador.java:161-168 | Once everybody has a disembark instant in a consistent run, every passenger was delivered and nobody remains in a car or queue. All three durations are then present for everybody. |
| Invariants.FinishedIffServed | src/main/java/jprm/simulador_elevadores/Simulador.java:161-168 | From a consistent run, a tick reports the run finished iff every passenger has both a boarding and a disembark instant. |
| Invariants.Round | src/main/java/jprm/simulador_elevadores/Simulador.java:101-169 | One round of the driving loop (a tick, then a clock advance unless finished) moves the clock by one second when the run goes on, and not at all when it finishes. |
| Invariants.RoundKeepsConsistent | src/main/java/jprm/simulador_elevadores/Simulador.java:101-169 | A round keeps the run consistent with the instant it is about to process. A finishing round leaves everybody disembarked. |
| Invariants.AdvanceKeepsConsistent | src/main/java/jprm/simulador_elevadores/Simulador.java:101-169 | A round that does not finish advances the clock by exactly one second and keeps the run consistent. |
| Invariants.TraceStep | src/main/java/jprm/simulador_elevadores/Simulador.java:101-169 | One step along a run of the driving loop keeps it consistent and advances the clock by one second. |
| Invariants.TraceKeepsConsistent | src/main/java/jprm/simulador_elevadores/Simulador.java:101-169 | Along any run of the driving loop that starts consistent, the clock advances one second per round, and every state is consistent. |
| Invariants.RoundFinishes | src/main/java/jprm/simulador_elevadores/Simulador.java:161-168 | A round that finishes a consistent run ends with every passenger delivered. |

## Left out

- `PessoaLoader`: reads passengers from CSV files and parses dates, so it is I/O. `NewPassenger` stands for the passengers it creates.
- `Configuracao`: loads and saves a properties file, so it is I/O. The parameters are the `Config` record.
- `App`: the entry point only loads and logs.
- The driving loop: it is modelled by `Round` and `Trace`, but it is not proved to terminate.
- `ElevadorControleAleatorio`: it draws from `ThreadLocalRandom`, so it is randomness.
- `ElevadorControle`: an interface with no behaviour of its own. It becomes the `Policy` datatype.
- Logging and message building: `registrarDesembarque`, `imprimeElevadores`, and the formatting in `imprimeEstatisticasSimulacao`. The counts and aggregates that method computes are modelled in `Statistics`.
- Getters, setters, `toString` and `hashCode`: no behaviour beyond field access.
- `getUltimaParadaFilaTerreo`: nothing in the core calls it.
- `LocalDateTime` and `Duration` calendar arithmetic: every period in the core is whole seconds, so instants are integer seconds. The mean is kept in nanoseconds, truncated as `Duration.dividedBy` does.
- Elevators.Step: compares the floor with the base floor by value after a downward step. The Java code compares boxed `Integer`s with `==` there, which agrees with value equality only for floors from -128 to 127. The default floors 1 to 25 are in range.
- Simulator.Alight: compares floors by value. The boxed `Integer` `==` in the disembark filter is treated the same way.
- Policies.NextInTurn: the counter is an unbounded integer. The Java `Integer` counter would wrap after 2^31 - 1 decisions.
- Integer widths in general: floors, ids, capacities, periods and second counts are unbounded integers throughout. The Java `int`, `Integer` and `long` arithmetic on them (`andarAtual += 1`, the duration multiplications) would wrap only far outside any realistic building or run.
- Null passengers and null fields are not modelled. The `filter(Objects::nonNull)` steps are no-ops on the model's lists.
- The model does not state the stronger property that the run eventually finishes. That depends on the passenger data and the configuration.
