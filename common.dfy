/** Values shared by every part of the watcher model: optional values, Go's
    `error` results, the unit of time, and the identity of one watched record. */
module Common {

  /** An optional value; `None` stands for Go's zero value where the source
      treats it as "never set". */
  datatype Option<T> = None | Some(value: T)

  /** A Go `error` result: `Pass` is `nil`, `Fail` carries `err.Error()`. */
  datatype Outcome = Pass | Fail(message: string)

  /** Time is an explicit integer number of seconds; one minute is 60 of them. */
  const Minute: int := 60

  /** The largest record id plus one: record ids are Go `uint64` values. */
  const RecordIdBound: int := 0x1_0000_0000_0000_0000

  type RecordId = x: int | 0 <= x < RecordIdBound

  /** What one watcher needs to name its record in a request and a message:
      the DNS domain, the configured record value (an IP address) and the
      provider's record id. */
  datatype Target = Target(domain: string, value: string, recordId: RecordId)
}
