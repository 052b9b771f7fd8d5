/** The factory the pool delegates to, as an oracle: each call is answered by a total function of
    how many calls of that kind came before it (and of the object, for validate and destroy). */
module ObjectFactory {

  /** Pooled objects are opaque; the model names them by the order in which they were created. */
  type ObjId = nat

  /** What one call of `create` does. */
  datatype Creation =
    | Fresh          // returns a new object, never seen before
    | Null           // returns null
    | CreateThrows   // fails; the thread-safe wrapper rethrows it as a creation error

  /** What one call of `validate` does. */
  datatype Validation = Valid | Invalid | ValidateThrows

  datatype Factory = Factory(
    create: nat -> Creation,                // answer of the k-th create call
    validate: (nat, ObjId) -> Validation,   // answer of the k-th validate call, on that object
    destroy: (nat, ObjId) -> bool)          // whether the k-th destroy call, on that object, succeeds
}
