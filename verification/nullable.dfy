/** A value that may be missing, standing for JavaScript's `null` and
    `undefined` in the theme service's signatures. */
module Nullable {

  datatype Option<+T> = None | Some(value: T)

}
