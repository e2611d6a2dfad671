/** The per-part progress figure both clients keep in the shared `progress`
    list while a part downloads. */
module Progress {
  /** `(received_size / chunk_size) * 100`. The clients write it only inside
      the receive loop, where `chunk_size > received_size >= 0` held at the
      top of the turn. Floating-point rounding is not modelled: the figure
      is an exact real. */
  function Percent(received: int, chunkSize: int): (p: real)
    requires chunkSize > 0
    ensures 0 <= received <= chunkSize ==> 0.0 <= p <= 100.0
    ensures received == chunkSize ==> p == 100.0
  {
    (received as real / chunkSize as real) * 100.0
  }
}
