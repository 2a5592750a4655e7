// Failure values of the converter. Every exception the C# code can raise on the
// modelled paths becomes one Error constructor; all of them abort the run.
module Outcomes {

  datatype Error =
    | BadMagic(magic: string)   // "Incorrect BSP header!"
    | BadVersion(version: int)  // "Incorrect BSP version!"
    | EndOfStream               // BinaryReader ran past the end of the file
    | NegativePosition          // FileStream.Position set to a negative offset
    | NegativeCount             // array allocated with a negative record count
    | MissingNul                // Substring(0, -1) on a texture name without NUL
    | IndexOutOfRange           // an array or list index outside its bounds
    | AbsOverflow               // Math.Abs(int.MinValue)
    | UnfixableSurface          // "Surface with degenerate triangles could not be fixed."

  datatype Option<+T> = None | Some(value: T)

  datatype Result<+T> = Ok(value: T) | Err(error: Error) {
    predicate IsFailure() {
      Err?
    }

    function PropagateFailure<U>(): Result<U>
      requires Err?
    {
      Err(error)
    }

    function Extract(): T
      requires Ok?
    {
      value
    }
  }
}
