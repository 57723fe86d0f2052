/**
 * The exceptions the server raises, as values.  `NoSuchObject` and
 * `NoNarGenerated` are the two classes of src/servenix/exceptions.py;
 * `CouldNotUpdateHash` is the class servenix.py imports and raises but
 * exceptions.py does not define; `NameError` is what Python raises for an
 * undefined name; `InvalidSize` stands for the IndexError or ValueError that
 * `int(du.split()[0])` raises on output it cannot read.
 */
module Exceptions {

  datatype Error =
    | NoSuchObject(message: string)
    | NoNarGenerated(path: string, extension: string)
    | CouldNotUpdateHash(path: string, registered: string, correct: string)
    | NameError(name: string)
    | InvalidSize(duOutput: string)

  /** A call either returns a value or raises one of the errors above. */
  datatype Result<+T> = Success(value: T) | Failure(error: Error)

}
