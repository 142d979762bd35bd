/** Small value wrappers shared by every module: Java's nullable results and
    thrown exceptions become explicit values. */
module Wrappers {

  /** A Java reference that may be null. */
  datatype Option<+T> = None | Some(value: T)

  /** The result of a repository call that may throw: the value, or the
      exception's message. */
  datatype Result<+T> = Success(value: T) | Failure(message: string)

  /** What a Java call does: it returns a value, or it throws the named exception. */
  datatype Outcome<+T> = Returned(value: T) | Thrown(exception: string)

  const NullPointer := "java.lang.NullPointerException"
}
