/** A clock whose readings never decrease.  Times are whole microseconds. */
module Clocks {
  class Clock {
    var last: int

    constructor (start: int)
      ensures last == start
    {
      last := start;
    }

    method Now() returns (t: int)
      modifies this`last
      ensures old(last) <= t == last
    {
      t :| t >= last;
      last := t;
    }
  }
}
