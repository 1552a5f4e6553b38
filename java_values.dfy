/**
 * Java's two ways of not producing a value: a reference that is `null`
 * (`Option.None`) and a method that throws (`Outcome.Threw`).
 */
module JavaValues {

  datatype Option<+T> = None | Some(value: T)

  /** An exception, known only by its class name and message. */
  datatype Exception = Exception(className: string, message: string)

  /** What a Java call ends with: a returned value or a thrown exception. */
  datatype Outcome<+T> = Returned(value: T) | Threw(exception: Exception)
}
