/** How the card engine reports failure, and the explicit state that stands in
    for the two sources of randomness the engine consumes. */
module Outcomes {

  datatype Option<T> = None | Some(value: T)

  /** One constructor per kind of `throw` of the engine. */
  datatype Error =
    | UniqueDrawFailed   // getRandomNumbers ran out of attempts
    | Retry              // a 90-ball layout attempt was rejected
    | GenerationFailed   // every one of the 100 90-ball attempts failed
    | InvalidCardType    // a variant's fromJSON was given the other variant's record
    | UnknownType        // the factory's create was given an unknown tag
    | UnknownJsonType    // the factory's fromJSON was given a record with an unknown tag
    | CountTooSmall      // createMultiple with a count below 1
    | CountTooLarge      // createMultiple with a count above 1000

  /** The result of an operation that consumes no randomness. */
  datatype Result<T> = Success(value: T) | Failure(error: Error)

  /** The randomness still available: the values `Math.random()` will return
      next, and the index of the next `crypto.randomUUID()` call. */
  datatype Env = Env(tape: seq<real>, next: nat)

  /** The result of an operation that consumes randomness: a value or a thrown
      error, each with the randomness left over; or `Exhausted` when the tape
      ended before the operation could finish. */
  datatype Gen<T> = Ok(value: T, env: Env) | Thrown(error: Error, env: Env) | Exhausted
}
