/** Values shared by the whole model: optional and failing results, the Java
    values that travel inside a call, and the exceptions the code raises. */
module Common {

  /** A Java reference that may be null. */
  datatype Option<+T> = None | Some(value: T)

  /** The outcome of a Java call that either returns a value or throws. */
  datatype Result<+T, +E> = Ok(value: T) | Err(error: E)

  /** A fully qualified Java class name, as found in `Class.getName()`. */
  type TypeName = string

  /** The Java objects that are passed as arguments and returned as results;
      `Null` is Java's `null`, `Obj` stands for any other object by identity. */
  datatype Value = Null | Str(s: string) | Int(i: int) | Bool(b: bool) | Obj(id: nat)

  /** The Java exceptions the modelled code creates, catches or rethrows. */
  datatype Exception =
    | RuntimeException(message: string)
    | IllegalArgumentException(message: string)
    | NoSuchMethodException(methodName: string, parameterTypes: seq<TypeName>)
    | InvocationTargetException(target: Exception)
    | IOException(message: string)
}
