/** Values shared by every part of the asset compiler model: bytes, optional
    values, and the results of steps that can abort the build. */
module Common {

  /** One byte of the output file. */
  type Byte = b: int | 0 <= b < 256

  datatype Option<+T> = None | Some(value: T)

  /** Every way the compiler stops the build. In the program each of these is
      an `exit(1)` or an uncaught exception: nothing is written. */
  datatype Error =
    | Usage                           // an output path but no input file: the usage message
    | UnknownExtension(ext: string)   // an input that is not .png, .aseprite or .opus
    | InvalidSheetDefinition          // a `name@...` sheet whose suffix is not `X,Y`
    | BadCount(text: string)          // a grid count that `int()` refuses
    | ZeroDivision                    // a grid count of zero (cell size is width / count)
    | FrameIndex                      // an animation tag that names a frame past the end
    | AtlasPackFailed                 // an item that a fresh page cannot hold either
    | StructRange                     // a value too wide for its big-endian field

  datatype Result<+T> = Ok(value: T) | Err(error: Error)
}
