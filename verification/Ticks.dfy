/** Cycle stamps. `Never` is TICK_T_MAX of host.h, the stamp of an event that has not happened. */
module Ticks {

  datatype Tick = At(cycle: int) | Never {
    /** `stamp <= now` in the source, for a current cycle below TICK_T_MAX. */
    predicate By(now: int) {
      At? && cycle <= now
    }
  }
}
