/** The lines the bot writes to its standard output and error streams. */
module Diagnostics {
  import opened Files
  import opened Feed

  datatype LogLine =
    | FailedToMove(from: Path, to: Path, ioError: IoError)
    | FailedToPost(publishError: PublishError)
}
