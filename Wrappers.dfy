/** Failure-compatible result types and the exceptions the feature model can raise. */
module Wrappers {

  /** A value that may be absent: a Java reference that may be `null`. */
  datatype Option<+T> = None | Some(value: T)

  /** A value, or the exception thrown instead of returning it. */
  datatype Result<+T, +E> = Success(value: T) | Failure(error: E)

  /** Normal completion of a `void` method, or the exception it threw. */
  datatype Outcome<+E> = Pass | Fail(error: E)

  /** Which piece of metadata a declaration lacked ("misses a name.", ...). */
  datatype MetadataKind = MissesName | MissesShortName | MissesDimension

  /** The exceptions thrown by the feature model, as Java classes. */
  datatype Exception =
    /** IllegalArgumentException from a declare call: `feature` lacks `missing`. */
    | MissingMetadata(feature: string, missing: MetadataKind)
    /** IllegalArgumentException from an aggregation over an undeclared feature. */
    | UnknownFeature(feature: string)
    /** NullPointerException: a missing per-entity map was dereferenced, or a null value unboxed. */
    | NullPointer
    /** ArrayIndexOutOfBoundsException: more values than the array has room for. */
    | IndexOutOfBounds
}
