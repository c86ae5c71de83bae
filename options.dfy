/** The usual optional value, used for "hit or no hit" and for a sampler that found nothing. */
module Options {
  datatype Option<T> = None | Some(value: T)
}
