/** Shared vocabulary of the model: optional values, results with the
    rejections the bot's model layer raises, and instants in milliseconds. */
module Common {

  /** A JavaScript `Date` is modelled as milliseconds since the Unix epoch. */
  type Instant = int

  const MsPerSecond: int := 1000
  const MsPerMinute: int := 60 * MsPerSecond
  const MsPerHour: int := 60 * MsPerMinute
  const MsPerDay: int := 24 * MsPerHour

  datatype Option<T> = None | Some(value: T)

  /** The rejections the calendar and the timer callback can produce. */
  datatype Error =
    | EventNotFound      // Promise.reject("Event not found")
    | TimezoneNotFound   // Promise.reject("Timezone not found")
    | EventIdMissing     // `events[-1].repeat` throws when no event has the ID
    | CalendarMissing    // `findById` yielded no document; the callback dereferences null

  datatype Result<T> = Ok(value: T) | Err(error: Error)
}
