/** Failure-carrying values shared by every module of the simulator model. */
module Wrappers {

  /** A value that may be absent; stands in for a Java `null` field or an `Optional`. */
  datatype Option<T> = None | Some(value: T) {

    /** The value when present, `default` otherwise (`Optional.orElse`). */
    function GetOr(default: T): T {
      match this
      case Some(v) => v
      case None => default
    }
  }

  /**
   * The ways a run of the simulator can abort. Each names one exception the
   * Java code can throw from the modelled core.
   */
  datatype Fault =
    | EmptyPassengerList        // Simulador.inicializar: empty list
    | NegativeFleetSize         // new ArrayList<>(quantidadeElevadores < 0)
    | NegativeCapacity          // new ArrayList<>(lotacaoMaxima < 0) inside the Elevador constructor
    | FloorAboveMaximum         // Elevador.atualizar while ascending
    | FloorBelowMinimum         // Elevador.atualizar while descending
    | DescentTimeWhileDescending      // Elevador.calcularTempoDescida
    | RemainingDescentWhileNotDescending  // Elevador.calcularTempoRestanteTerreoDescendo
    | InvalidPartitionSize      // Lists.partition with a size that is not positive
    | EmptyFleet                // Optional.get() on the minimum of no cost
    | DivisionByZero            // index % elevadores.size() with no elevator
    | NoCurrentInstant          // processarInstante / incrementarInstanteAtual before inicializar
    | PastFinalInstant          // processarInstante after the run finished

  /** Either a value or the fault that aborted the computation; usable with `:-`. */
  datatype Result<T> = Ok(value: T) | Fail(fault: Fault) {

    predicate IsFailure() {
      Fail?
    }

    function PropagateFailure<U>(): Result<U>
      requires Fail?
    {
      Fail(fault)
    }

    function Extract(): T
      requires Ok?
    {
      value
    }
  }
}
