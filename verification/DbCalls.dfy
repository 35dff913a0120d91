/**
 Database calls that may throw. `faults` counts the calls that threw for a
 reason of their own, so that contracts can say when a program had to give up.
 */
module DbCalls {

  class Calls {
    var faults: nat

    constructor ()
      ensures faults == 0
    {
      faults := 0;
    }

    // Whether the next call throws.
    method Throws() returns (t: bool)
      modifies this
      ensures faults == old(faults) + if t then 1 else 0
    {
      t := *;
      faults := faults + if t then 1 else 0;
    }
  }
}
