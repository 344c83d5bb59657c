/** Failure-compatible result type shared by every module of the model.
    Each error constructor stands for the Python exception the source raises. */
module Results {

  /** The exceptional outcomes the modelled code can produce. */
  datatype Error =
    | DivisionByZero      // ZeroDivisionError: `x // 0`, `0 ** -k`, `gcd(0, 0)` used as a divisor
    | NegativeExponent    // `a ** -k` with a != 0: a float in Python, outside the integer model
    | NotInvertible       // ValueError: `pow(a, -k, n)` with a having no inverse modulo n
    | EmptyReduction      // TypeError: `reduce` over an empty iterable without an initial value
    | InvalidModulus      // ValueError: a modulus below 1
    | OutOfFuel           // the model's recursion bound was exhausted (no Python counterpart)

  datatype Result<+T> = Ok(value: T) | Err(error: Error) {

    predicate IsFailure() {
      Err?
    }

    function PropagateFailure<U>(): Result<U>
      requires Err?
    {
      Err(error)
    }

    function Extract(): T
      requires Ok?
    {
      value
    }
  }
}
