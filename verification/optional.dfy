/** A value that may be missing: PHP's `null` results (`->first()` finding nothing, a rejected word). */
module Optional {

  datatype Option<+T> = None | Some(value: T)
}
