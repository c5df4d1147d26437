/** A compute dispatch runs one kernel thread for every id below a count, in an
    order the hardware chooses.  Every dispatch here is proved for every order. */
module Dispatch {

  ghost predicate IsSchedule(order: seq<nat>, count: nat) {
    && (forall p :: 0 <= p < |order| ==> order[p] < count)
    && (forall id: nat :: id < count ==> id in order)
    && (forall p, q :: 0 <= p < q < |order| ==> order[p] != order[q])
  }

  /** `Scheduler(d, c)` is the order in which the d-th dispatch, of c threads, runs. */
  type Scheduler = (nat, nat) -> seq<nat>

  ghost predicate Fair(scheduler: Scheduler) {
    forall d, c :: IsSchedule(scheduler(d, c), c)
  }

  /** Thread ids come in groups of 64, so the last group may overshoot. */
  function Threads(work: nat): (count: nat)
    ensures work <= count < work + 64
  {
    (work + 63) / 64 * 64
  }
}
