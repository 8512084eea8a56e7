/** Failure-compatible wrappers and the errors the plugin and its runtime can raise. */
module Base {

  datatype Option<+T> = None | Some(value: T)

  /** The exceptions thrown by themify.ts and utils.ts, one constructor per message. */
  datatype Error =
    | OptionsRequired                  // buildOptions called without options
    | PaletteRequired                  // options given without a palette
    | ParseFailure(expr: string)       // the macro argument is not JSON
    | OneVariation(expr: string)       // the macro names no colour for the variation
    | EmptyColor                       // the array form has no (truthy) colour
    | UnknownVariable(name: string)    // the palette has no colour of that name
    | MissingColorMap(variation: string) // generateVars met a falsy colour map
    | TypeError                        // the engine read a property of undefined or null

  /** The text of the exception each error stands for. */
  function Message(e: Error): string
  {
    match e
    case OptionsRequired => "options is required."
    case PaletteRequired => "The 'pallete' option is required."
    case ParseFailure(x) => "fail to parse the following expression: " + x + "."
    case OneVariation(x) => x + " has one variation."
    case EmptyColor => "Oops. Received an empty color!"
    case UnknownVariable(n) => "The variable name '" + n + "' doesn't exists in your pallete."
    case MissingColorMap(v) => "Expected map of colors for the variation name " + v
    case TypeError => "TypeError"
  }

  datatype Result<+T> = Ok(value: T) | Err(error: Error) {
    predicate IsFailure() { Err? }

    function PropagateFailure<U>(): Result<U>
      requires Err?
    {
      Err(error)
    }

    function Extract(): T
      requires Ok?
    {
      value
    }
  }
}
