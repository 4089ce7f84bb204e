/** Typed outcomes of the document engine: every operation returns a Result
    instead of throwing, and each failure names its kind. */
module Failures {

  /** The failure kinds the engine reports. */
  datatype Error =
    | NodeNotFound             // the storage-node id is not registered
    | NodeNotAssociated        // the node is none of the document type's four node references
    | InvalidMode              // the storage mode is not one of the five named modes
    | UnsupportedLifetime      // a Temporary type whose lifetime has no offset (ParentDetermined)
    | DateOutOfRange           // projecting "now" forward passes DateTime.MaxValue
    | DocumentTypeNotFound     // the document type is missing or inactive
    | NoStorageNodeConfigured  // the document type has no first active storage node
    | DocumentNotFound         // no stored-document row with that id
    | FileNotFound             // the row exists but its file is missing from storage

  datatype Option<+T> = None | Some(value: T)

  datatype Result<+T> = Success(value: T) | Failure(error: Error) {
    predicate IsFailure() { Failure? }

    function PropagateFailure<U>(): Result<U>
      requires Failure?
    {
      Failure(error)
    }

    function Extract(): T
      requires Success?
    {
      value
    }
  }
}
