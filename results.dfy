/** The exceptions the pipeline can raise, and a result type that carries them. */
module Results {

  /** The Python exceptions raised by the modelled code: `int('', 2)`, `int('', 16)` and
      `max([])` raise ValueError; a division by a zero total raises ZeroDivisionError. */
  datatype PyError = ValueError | ZeroDivisionError

  datatype Result<+T> = Success(value: T) | Failure(error: PyError)
}
