/** Option and Result values shared by the model.  `Raised` stands for a Python
    exception escaping a call; its message text is not modelled. */
module Outcomes {

  datatype Option<+T> = None | Some(value: T)

  datatype Result<+T> = Ok(value: T) | Raised
}
