/** Small shared vocabulary: an optional value and the model's clock. */
module Base {

  /** Python's `Optional[...]`: either nothing or a value. */
  datatype Option<T> = None | Some(value: T)

  /**
   * An instant on the wall clock, in whole seconds. The source reads
   * `datetime.now(timezone.utc)` where this model takes a `now` parameter.
   */
  type Time = int

  /** `timedelta(minutes=1)` and `timedelta(hours=1)` in seconds. */
  const MINUTE: int := 60
  const HOUR: int := 3600
}
