/** The record type shared by the store and its callers (internal/models/models.go). */
module Models {

  /** An optional value; `None` plays the part of Go's nil pointer. */
  datatype Option<+T> = None | Some(value: T)

  /** A point in time, in nanoseconds since a fixed epoch (Go's `time.Time`). */
  type Time = int

  /** A span of time in nanoseconds (Go's `time.Duration`). */
  type Duration = int

  /** One shortened URL. `title` is optional and empty when absent;
      `expiresOn == None` means the record never expires. */
  datatype URLData = URLData(
    shortCode: string,
    url: string,
    title: string,
    createdOn: Time,
    expiresOn: Option<Time>
  )
}
