/** Integer widths, the `make_db_id!` id newtypes and the session expiry clock
    of the backend crate root (backend/src/lib.rs). */
module Lib {

  datatype Option<T> = None | Some(value: T)

  /** Rust's fixed-width integers as subsets of the unbounded `int`. */
  type i32 = x: int | -0x8000_0000 <= x <= 0x7FFF_FFFF
  type i64 = x: int | -0x8000_0000_0000_0000 <= x <= 0x7FFF_FFFF_FFFF_FFFF
  type u64 = x: int | 0 <= x <= 0xFFFF_FFFF_FFFF_FFFF
  type u8 = x: int | 0 <= x < 0x100

  const I32_MAX: i32 := 0x7FFF_FFFF
  const U64_MAX: u64 := 0xFFFF_FFFF_FFFF_FFFF

  // ---------------------------------------------------------------------------
  // Database ids

  /** One id newtype produced by `make_db_id!($name)`: a tuple struct around an
      i32. The phantom `Tag` keeps `PostId` and `VoteId` apart as the macro's
      separate structs do. */
  datatype DbId<Tag> = DbId(value: i32)

  /** `impl From<i32> for $name` */
  function FromI32<Tag>(value: i32): DbId<Tag> {
    DbId(value)
  }

  /** `impl From<$name> for i32` */
  function ToI32<Tag>(id: DbId<Tag>): i32 {
    id.value
  }

  /** `impl Into$name for i32`: goes through `$name::from`. */
  function I32IntoId<Tag>(value: i32): DbId<Tag> {
    FromI32(value)
  }

  /** `impl Into$name for $name`: the identity. */
  function IdIntoId<Tag>(id: DbId<Tag>): DbId<Tag> {
    id
  }

  /** Wrapping an i32 and unwrapping it again gives it back, and the other way round. */
  lemma IdRoundTrip<Tag>(value: i32, id: DbId<Tag>)
    ensures ToI32(FromI32<Tag>(value)) == value
    ensures FromI32<Tag>(ToI32(id)) == id
  {
  }

  /** Both `into_id` impls agree with the `From` conversions. */
  lemma IntoIdAgreesWithFrom<Tag>(value: i32, id: DbId<Tag>)
    ensures I32IntoId<Tag>(value) == FromI32(value)
    ensures IdIntoId(id) == id
    ensures ToI32(I32IntoId<Tag>(value)) == value
  {
  }

  // ---------------------------------------------------------------------------
  // Clock

  const NANOS_PER_SEC: nat := 1_000_000_000
  const EIGHT_HOURS_SECS: nat := 60 * 60 * 8

  /** A Unix `SystemTime`: a signed 64-bit second count and a nanosecond part,
      relative to 1970-01-01T00:00:00Z. */
  datatype SystemTime = SystemTime(tvSec: i64, tvNsec: nat)
  type Time = t: SystemTime | t.tvNsec < NANOS_PER_SEC witness SystemTime(0, 0)

  /** `std::time::Duration`. */
  datatype Duration = Duration(secs: u64, nanos: nat)

  /** `SystemTime::duration_since(UNIX_EPOCH)`: an error for a time before the epoch. */
  function DurationSinceEpoch(now: Time): (d: Option<Duration>)
    ensures d.Some? <==> now.tvSec >= 0
    ensures d.Some? ==> d.value.secs == now.tvSec && d.value.nanos < NANOS_PER_SEC
  {
    if now.tvSec < 0 then None else Some(Duration(now.tvSec, now.tvNsec))
  }

  /** `Duration::checked_add`: seconds add with a carry from the nanoseconds;
      `None` when the seconds overflow u64. */
  function CheckedAdd(a: Duration, b: Duration): Option<Duration>
    requires a.nanos < NANOS_PER_SEC && b.nanos < NANOS_PER_SEC
  {
    var nanos := a.nanos + b.nanos;
    var carry := if nanos >= NANOS_PER_SEC then 1 else 0;
    var secs := a.secs + b.secs + carry;
    if secs > U64_MAX then None else Some(Duration(secs, nanos - carry * NANOS_PER_SEC))
  }

  /** The result of `get_timestamp_after_8_hours`: a second count, or the
      text of the panic that aborts the calling request (for the clock, the
      `expect` text without the `SystemTimeError` Rust appends). */
  datatype Timestamp = Expiry(secs: u64) | Panic(message: string)

  const CLOCK_BEFORE_EPOCH := "Time somehow went backwards"
  const DURATION_OVERFLOW := "overflow when adding durations"

  /** Seconds since the epoch eight hours after `now`: the `expect` on
      `duration_since` panics before the epoch, and `Duration + Duration`
      panics on overflow (which a 64-bit signed clock cannot reach). */
  function GetTimestampAfter8Hours(now: Time): (r: Timestamp)
    ensures r.Panic? <==> now.tvSec < 0
    ensures r.Panic? ==> r.message == CLOCK_BEFORE_EPOCH
    ensures r.Expiry? ==> r.secs == now.tvSec + EIGHT_HOURS_SECS
    ensures r.Expiry? ==> r.secs > now.tvSec
  {
    match DurationSinceEpoch(now)
    case None => Panic(CLOCK_BEFORE_EPOCH)
    case Some(sinceEpoch) =>
      match CheckedAdd(sinceEpoch, Duration(EIGHT_HOURS_SECS, 0))
      case None => Panic(DURATION_OVERFLOW)
      case Some(later) => Expiry(later.secs)
  }
}
