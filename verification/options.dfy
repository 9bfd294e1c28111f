/** Failure-carrying wrappers used throughout the model. */
module Options {

  /** A value that may be missing: a NULL optional argument, or a failed
      load or parse. */
  datatype Option<+T> = None | Some(value: T)

  /** An opaque structure owned by a collaborator outside this model (key
      aggregation cache, keypair, public key). Loading it either fails or
      yields the value it holds. */
  datatype Handle<+T> = Unloadable | Loads(value: T)
}
