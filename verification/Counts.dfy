/** Dictionaries of counts; a missing key counts zero. */
module Counts {
  type Counts = map<string, nat>

  function Get(counts: Counts, key: string): nat {
    if key in counts then counts[key] else 0
  }
}
