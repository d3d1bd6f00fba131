/** Optional values and operations that can fail with a message, as the scripts
    express them with `undefined` and with `throw new Error(message)`. */
module Outcomes {

  datatype Option<T> = None | Some(value: T)

  datatype Result<T> = Ok(value: T) | Err(message: string)
}
