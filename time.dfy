/** A point in time as Unix represents it (`struct timespec`): the seconds
    offset from the epoch and the nanoseconds into that second. Rust's
    `SystemTime` and Ruby's `Time#timespec` both have this shape. */
module Time {
  import opened Bytes

  type Nanos = x: int | 0 <= x < 1_000_000_000

  datatype Timespec = Timespec(tvSec: i64, tvNsec: Nanos)

  /** `UNIX_EPOCH + Duration::from_secs(secs)`. */
  function FromEpochSecs(secs: nat): (r: Timespec)
    requires secs < 0x8000_0000_0000_0000
    ensures r.tvSec == secs && r.tvNsec == 0
  {
    Timespec(secs, 0)
  }

  /** The time rounded down to the whole second (Ruby's `Time#floor`). */
  function Floor(t: Timespec): Timespec {
    Timespec(t.tvSec, 0)
  }
}
