/** Option and Result, and the exception kinds the modelled Python code raises. */
module Wrappers {

  datatype Option<+T> = None | Some(value: T)

  datatype Result<+R, +E> = Success(value: R) | Failure(error: E)

  /** The Python exceptions that the modelled code lets escape to its caller. */
  datatype Error =
    | KeyError(key: string)           // a missing dict key
    | ValueError                      // a bad `word count` line or an unparsable integer
    | IndexError                      // `s.split('.')[-2]` on a name without a dot
    | TypeError                       // a call with the wrong number of arguments
    | ImportError                     // a morphology backend that cannot be initialised
    | FileNotFound(path: string)      // a data file that cannot be opened
    | WordNetError(message: string)   // nltk's WordNetError, with its message
    | AttributeError(name: string)    // `data.<name>` read on pawn.load before the global was ever assigned
}
