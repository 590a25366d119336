/** Failure-carrying datatypes used throughout the model: an optional value and a
    success-or-error result standing in for Python's `None` and raised exceptions. */
module Wrappers {

  /** A value that may be absent (Python's `None`). */
  datatype Option<+T> = None | Some(value: T)

  /** Either a computed value or the error the Python code would raise. */
  datatype Result<+R, +E> = Success(value: R) | Failure(error: E)
}

/** The exceptions the modelled code can raise, each tagged with the place that raises it. */
module Errors {

  datatype Error =
    | ShortOutOfRange        // ValueError from utils.to_unsigned_short
    | CoordinatesOutOfRange  // ValueError from Schematic._check_coordinates
    | GridIndexError         // numpy IndexError: [x, y, z] outside the (length, height, width) buffer
    | MalformedBlockString   // ValueError from tuple unpacking in Palette.set_palette
    | ReshapeMismatch        // numpy ValueError: decoded count differs from the target shape's size
    | VersionNotFound        // ValueError from Schematic._parse_file
    | InvalidVersion         // ValueError from Schematic._parse_file
    | VersionUnsupported     // NotImplementedError for schema version 1
    | NotACompound           // AttributeError: `.get` on a `Schematic` tag that is not a compound
    | MissingProperties      // AttributeError: `.items()` on a block entity whose properties are None

  /** The Python exception class each error surfaces as. */
  predicate IsValueError(e: Error) {
    e.ShortOutOfRange? || e.CoordinatesOutOfRange? || e.MalformedBlockString?
    || e.ReshapeMismatch? || e.VersionNotFound? || e.InvalidVersion?
  }
}
