/** A non-decreasing clock: every reading is at least the previous one, otherwise arbitrary. */
module Clocks {
  class Clock {
    var now: real

    constructor (start: real)
      ensures now == start
    {
      now := start;
    }

    method Read() returns (t: real)
      modifies this
      ensures t == now && old(now) <= now
    {
      var elapsed: real := *;
      if elapsed > 0.0 {
        now := now + elapsed;
      }
      t := now;
    }

    /** At least `seconds` pass. */
    method Sleep(seconds: real)
      requires seconds >= 0.0
      modifies this
      ensures now >= old(now) + seconds
    {
      now := now + seconds;
      var t := Read();
    }
  }
}
