/** Outcomes shared by every operation of the scheduling engine: the optional value,
    the error each service can raise, and the pair of a result with the store it leaves. */
module Results {

  datatype Option<+T> = None | Some(value: T)

  /** The errors the services raise, one constructor per distinct failure. */
  datatype Error =
    | BadTimeFormat            // a time field fails the `HH:MM` pattern of its input type
    | EndNotAfterStart         // availability whose end does not come after its start
    | DateInPast               // availability for a day before today
    | OverlapsExisting         // availability that intersects one of the owner's windows that day
    | LinkNotFound             // no active booking link carries the slug
    | InvalidTimeValue         // a start time the `HH:mm:ss` parser cannot read (a RangeError)
    | SlotTaken                // the (link, date, startTime) triple is already booked
    | StorageFailure(code: string)  // any other error raised by the store, by its code

  datatype Result<+T> = Ok(value: T) | Err(error: Error)

  /** What an operation on a store returns: its result and the store after it. */
  datatype Step<+T, +S> = Step(result: Result<T>, store: seq<S>)
}
