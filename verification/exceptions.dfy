/** The ways an operation of the modelled classes can end other than by returning. */
module Exceptions {

  /** What the C++ code throws, or the undefined or fatal outcome it reaches. */
  datatype Exception =
    /** `Array::check_bounds`, first branch: `std::out_of_range` "index exceeds size". */
    | IndexExceedsSize(index: int, size: int)
    /** `Array::check_bounds`, second branch: `std::out_of_range` "index is negative". */
    | IndexNegative(index: int)
    /** `std::vector::at` past the end: `std::out_of_range`. */
    | PositionOutOfRange(pos: nat, count: nat)
    /** `std::map::at` for a key that is not present: `std::out_of_range`. */
    | KeyNotFound(key: string)
    /** `std::make_unique<double[]>(n)` with a negative `n`: `std::bad_array_new_length`. */
    | BadArrayNewLength(length: int)
    /** Dereferencing a null pointer: undefined behaviour, not an exception. */
    | NullDereference
    /** A GSL `Expects` precondition failed: the program terminates. */
    | ContractViolation
    /** A debug-build `assert` failed: the program aborts. */
    | AssertionFailure
  {
    /** The exceptions that are a `std::out_of_range`. */
    predicate IsOutOfRange() {
      IndexExceedsSize? || IndexNegative? || PositionOutOfRange? || KeyNotFound?
    }
  }

  /** Either the value an operation returns or what it throws instead. */
  datatype Result<+T> = Ok(value: T) | Throw(error: Exception) {
    predicate IsFailure() {
      Throw?
    }

    function PropagateFailure<U>(): Result<U>
      requires Throw?
    {
      Throw(error)
    }

    function Extract(): T
      requires Ok?
    {
      value
    }
  }
}
