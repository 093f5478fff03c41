/** Failure-carrying results shared by every model: `Option` for the source's
    nullable values and `Result` for the places where the source throws. */
module Wrappers {

  datatype Option<+T> = None | Some(value: T)

  /** `Err` stands for an exception raised by the source; `msg` names its kind. */
  datatype Result<+T> = Ok(value: T) | Err(msg: string)
}
