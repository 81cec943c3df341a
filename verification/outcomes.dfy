/** The exceptions the recombination step can raise, and a result type that
    carries either a value or one of them. */
module Outcomes {

  /** The Python exceptions raised on the paths this model covers.
      - IndexError: a population or fitness index outside [-n, n).
      - EmptyRange: `rd.randint(0, -1)` on an empty genotype (ValueError).
      - SampleLargerThanPopulation: `rd.sample(range(0, L), 2)` with L < 2 (ValueError). */
  datatype Error = IndexError | EmptyRange | SampleLargerThanPopulation

  /** Either the value an operation returns or the exception it raises. */
  datatype Result<T> = Ok(value: T) | Err(error: Error)
}
