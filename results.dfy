/** The (value, error) pair that Go functions return, as a sum type:
    exactly one of the two is meaningful. */
module Results {

  datatype Result<+T, +E> = Success(value: T) | Failure(error: E)

}
