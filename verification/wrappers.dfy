/** The optional value the model uses wherever the source uses `null`:
    a nullable tile, a null route, a null delegate or a null strategy. */
module Wrappers {

  datatype Option<+T> = None | Some(value: T)
}
