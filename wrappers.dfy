/** Results of the operations of the registry: a value, or the kind of failure the source reports. */
module Wrappers {

  datatype Option<+T> = None | Some(value: T)

  /** The failures the mem-pool and the registry report to their callers. */
  datatype Error =
    | NotFound      // no request in the mem pool / no block under the key
    | NotValidated  // the request exists but its signature has not been verified
    | MissingData   // an empty address, dec, ra or story in a block request

  datatype Result<+T> = Ok(value: T) | Err(error: Error)
}
