/** What the parts of the resampler share. */
module Sampling {

  /** The input samples `n0 .. n1` that contribute to an output sample; none if `n1 < n0`. */
  datatype Contributors = Contributors(n0: int, n1: int)

  function Moved(c: Contributors, step: int): Contributors {
    Contributors(c.n0 + step, c.n1 + step)
  }
}
