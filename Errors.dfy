/** The ways one run of the filter can abort, one per exception the filter lets escape. */
module Errors {

  datatype Error =
    /** A TRACE line that `split(" ")` leaves as a single token. */
    | MalformedTrace(line: string)
    /** Text that `Integer.parseInt` rejects. */
    | BadNumber(text: string)
    /** A stack line in the active trace block before any TRACE line. */
    | NoOpenTrace(line: string)
    /** The active trace block reached CPU SAMPLES BEGIN with nothing to rewind to. */
    | NotMarked
    /** A CPU SAMPLES BEGIN line whose parentheses do not fit the substring arithmetic. */
    | MalformedBegin(line: string)
    /** A sample row that does not split into exactly six fields. */
    | MalformedSample(line: string)

  datatype Result<+T> = Ok(value: T) | Err(error: Error)
}
