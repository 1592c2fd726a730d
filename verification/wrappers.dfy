/** The Some/None datatype the model uses wherever the dashboard has a
    nullable value (`string | null`, a missing row, `NaN` from parseInt). */
module Wrappers {

  datatype Option<+T> = None | Some(value: T)
}
