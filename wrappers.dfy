/** A nullable value: the raw and reference-counted pointers of the model
    (an image, a source layer, a texture, a certificate handle). */
module Wrappers {

  datatype Option<+T> = None | Some(value: T)

}
