/**
  The size ceiling of `read_recv_stream` (src/quic/common.rs:58-67). The read
  itself, and the enforcement of the ceiling, happen inside the transport
  library's `RecvStream::read_to_end`.
 */
module RecvStream {
  import opened Types

  /** Rust's `usize` on a 64-bit target. */
  type usize = n: int | 0 <= n < 0x1_0000_0000_0000_0000

  /** The ceiling used when the caller gives none: 64 KiB. */
  const DefaultLimit: usize := 64 * 1024

  /** `limit.unwrap_or(64 * 1024)`: the caller's ceiling, or the default. */
  function EffectiveLimit(limit: Option<usize>): (r: usize)
    ensures limit.None? ==> r == 65536
    ensures limit.Some? ==> r == limit.value
  {
    match limit
    case Some(n) => n
    case None => DefaultLimit
  }
}
