/** Status codes, and results that may carry one. */
module Outcome {

  datatype Error = RE_DATA | RE_ENCODING | RE_KEY | RE_LEN | RE_MODULUS_LEN | RE_NEED_RANDOM

  datatype Result<+T> = Ok(value: T) | Err(error: Error)
}
