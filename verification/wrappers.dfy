/** Option and Result values shared by every module of the hostel model.
    An `Option` stands for a nullable column or an absent request parameter;
    a `Result` stands for a view or form outcome that is either a value or an error. */
module Wrappers {

  datatype Option<+T> = None | Some(value: T)

  datatype Result<+T, +E> = Ok(value: T) | Err(error: E)
}
