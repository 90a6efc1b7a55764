/** Optional values, results and the failures a run of the extractor can end with. */
module Wrappers {

  /** A value that may be absent; `None` plays the role of Python's `None` and of the
      `-1` that `bytes.find` returns when nothing is found. */
  datatype Option<+T> = None | Some(value: T)

  /** The outcome of a step that may raise. */
  datatype Result<+R, +E> = Success(value: R) | Failure(error: E)

  /** The exceptions that abort a run of the extractor. Each names the offset at which
      the Python program would raise. */
  datatype Fault =
    | LinkByteOutOfRange(at: nat)   // `data[r + 6]` is past the end of the dump
    | ShortHeader(at: nat)          // fewer than 68 header bytes remain at `at`
    | ShortBamEntry(slot: nat)      // the BAM entry of `slot` is not 4 bytes long
}
