/** Points in time. `LocalDateTime.now()` is never called: the current time is passed in as `now`. */
module Clock {

  /** A `LocalDateTime`, as an instant on an ordered time line. */
  type Time = int
}
