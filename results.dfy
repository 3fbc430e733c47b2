/** Error values and outcomes shared by the helpers and the batch commands. */
module Results {

  datatype Option<+T> = None | Some(value: T)

  /** The Go `error` values that the modelled code returns, one variant per origin. */
  datatype Error =
    | OpenFailed(path: string)             // os.Open / os.OpenFile on a missing file
    | NoExifData                           // exif.ErrNoExif from the locator
    | TagLookupFailed                      // getRootIfd, ChildWithIfdPath or FindTagWithName failed
    | MissingTag(name: string)             // "image does not have tags with name %q"
    | TagFormatFailed                      // FormatFirst failed
    | DateParseFailed(text: string)        // time.Parse rejected the tag text
    | CopyFailed(path: string)             // os.Create failed on the destination, or io.Copy into it failed
    | DestinationMissing(path: string)     // "destination file does not exist: %w"
    | ExifCopyFailed                       // "failed to copy exif metadata: %w", wrapping the exec error

  /**
   * The result of a helper: a value, a returned error, or a Go panic
   * (`log.Panic`), which does not return to the caller at all.
   */
  datatype Result<T> = Ok(value: T) | Err(error: Error) | Fatal

  /** How a batch loop ended; `entry` is the index in the directory listing. */
  datatype Outcome = Completed | Aborted(entry: nat, error: Error) | Crashed(entry: nat)

  /** What a batch loop did, in order, and how it ended. */
  datatype Batch<A> = Batch(trace: seq<A>, outcome: Outcome)
}
