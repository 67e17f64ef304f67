/** What the containers' operations report. The source signals these through console
    messages and exceptions; here they are values returned to the caller. */
module Outcomes {

  datatype Option<T> = None | Some(value: T)

  /** The exceptions the source raises or runs into. */
  datatype Fault =
    | NullArgument      // ArgumentNullException for a null item
    | IndexOutOfRange   // an array index below zero (negative hash codes)
    | NullReference     // a member access on a null slot
    | KeyArgument       // ArgumentException: the key is absent (Map.Search)

  /** The result of a state-changing operation. */
  datatype Outcome =
    | Added             // the entry was stored
    | AlreadyExists     // "Key ... even in the list": nothing changed
    | Full              // "Dict is full": nothing changed
    | Updated           // "Changed from ... to ...": at least one value was replaced
    | Removed           // the entry was deleted
    | NotFound          // the key is not listed: nothing changed
    | Stranded          // the key is listed but probing did not reach it: nothing changed
    | Threw(fault: Fault)

  /** The result of a lookup: a value, the type's `default` (a soft miss), or an exception. */
  datatype Lookup<V> = Hit(value: V) | Miss | Thrown(fault: Fault)
}
