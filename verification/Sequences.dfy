/** Sequences taken apart at their end, and sums. */
module Sequences {
  function Last<T>(s: seq<T>): T
    requires s != []
  {
    s[|s| - 1]
  }

  function Init<T>(s: seq<T>): seq<T>
    requires s != []
  {
    s[..|s| - 1]
  }

  function Sum(xs: seq<real>): real {
    if xs == [] then 0.0 else Sum(Init(xs)) + Last(xs)
  }
}
