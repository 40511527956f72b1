/** Failure-carrying results: each C++ `throw`, `static_assert` failure or null result of the library
    becomes a `Result` error or an `Option` `None` here. */
module Wrappers {

  datatype Option<+T> = None | Some(value: T)

  datatype Result<+T, +E> = Ok(value: T) | Err(error: E)

  /** The error conditions of the library, one per kind of failure it can report. */
  datatype Error =
    /** `MetaStruct<T>`/`MetaEnum<T>` used for a type that has no generated table. */
    | NotVisitable(typeName: string)
    /** `get<i>`/`getName<i>` with `i >= fieldCount`. */
    | IndexOutOfRange(index: nat, count: nat)
    /** `enumName` of a value that is not in the table ("Invalid enumerator."). */
    | UnknownEnumerator
    /** `fromName` of a name that is not in the table ("No enumerator for name ..."). */
    | UnknownEnumeratorName(name: string)
    /** `json::at(name)` on an object that has no such key. */
    | MissingField(field: string)
    /** A C-array field whose document array does not have exactly `expected` elements. */
    | ArraySizeMismatch(expected: nat, actual: nat)
    /** `json::at(name)` on a document that is not an object. */
    | NotAnObject(field: string)
    /** A document value whose kind the document library cannot convert to the field's type. */
    | DocTypeMismatch
}
