/** The step and time bookkeeping shared by the visual runners. */
module Counter {

  /** OperationCounter: a step count and a stopwatch. The clock is read by
      the caller and passed in as `now`. */
  class OperationCounter {
    var steps: int
    var startTime: real
    var executionTime: real

    constructor ()
      ensures steps == 0 && startTime == 0.0 && executionTime == 0.0
    {
      steps := 0;
      startTime := 0.0;
      executionTime := 0.0;
    }

    /** Zero the step count and the measured time; the start time stays. */
    method Reset()
      modifies this
      ensures steps == 0 && executionTime == 0.0
      ensures startTime == old(startTime)
    {
      steps := 0;
      executionTime := 0.0;
    }

    /** Count one step. */
    method Increment()
      modifies this
      ensures steps == old(steps) + 1
      ensures startTime == old(startTime) && executionTime == old(executionTime)
    {
      steps := steps + 1;
    }

    /** Reset and start the stopwatch at the clock reading now. */
    method Start(now: real)
      modifies this
      ensures steps == 0 && executionTime == 0.0 && startTime == now
    {
      Reset();
      startTime := now;
    }

    /** Stop the stopwatch at the clock reading now. */
    method Stop(now: real)
      modifies this
      ensures executionTime == now - startTime
      // A clock that has not gone backwards gives a non-negative time.
      ensures now >= startTime ==> executionTime >= 0.0
      ensures steps == old(steps) && startTime == old(startTime)
    {
      executionTime := now - startTime;
    }
  }
}
