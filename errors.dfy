/** The exceptions the modelled code raises or catches, one constructor per kind. */
module Errors {

  datatype Error =
    /** `std::ios_base::failure`: a stream could not be opened, or a read ran past the end
        of the file (eof, fail and bad bits all throw). */
    | IoFailure
    /** `std::filesystem::filesystem_error`, e.g. `copy_file` from a missing file. */
    | FilesystemError
    /** `documents::exceptions::FilesystemException`: a page or the meta index is unusable. */
    | FilesystemException
    /** `std::invalid_argument` raised by `stol`/`stoul` when no conversion is possible. */
    | InvalidArgument
    /** `std::out_of_range`: a parsed number does not fit, or `at()` ran out of bounds. */
    | OutOfRange
    /** Any other `std::logic_error`, with its message. */
    | LogicError(msg: string)
    /** Any other `std::runtime_error`, with its message. */
    | RuntimeError(msg: string)
    /** `NotFoundException` for a document id. */
    | NotFound(id: nat)
    /** An HTTP 400 response raised as an exception, with its message. */
    | BadRequest(msg: string)

  /** True for the kinds that derive from `std::logic_error`, which a
      `catch (const std::logic_error&)` block intercepts. */
  predicate IsLogicError(e: Error) {
    e.InvalidArgument? || e.OutOfRange? || e.LogicError?
  }
}
