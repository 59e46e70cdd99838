/** Small shared vocabulary: an optional value (the model's stand-in for a
    nullable pointer) and the errno values the containers return. */
module Common {

  /** `None` plays the role of a NULL pointer. */
  datatype Option<+T> = None | Some(value: T)

  /** errno values on the platforms the library targets (Linux numbering). */
  const ENOENT: int := 2
  const ENOMEM: int := 12
}
