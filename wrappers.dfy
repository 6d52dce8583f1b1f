/** Optional values: Go's `nil` results and `(value, ok)` pairs. */
module Wrappers {

  datatype Option<+T> = None | Some(value: T) {

    /** The carried value, or `default` when there is none. */
    function GetOr(default: T): T {
      match this
      case Some(v) => v
      case None => default
    }
  }
}

/** The errors the flag engine returns, one variant per distinct Go error value or format. */
module Errors {

  datatype Error =
      /** "Cannot use two forms of the same flag: <name> <other>" from normalizeFlags. */
    | TwoForms(name: string, other: string)
      /** "choice must be provided for ChoiceFlag". */
    | ChoiceMissing
      /** The package-level `errParse` ("parse error"), also the error the standard
          flag set returns for a malformed boolean or number. */
    | Parse
      /** The standard flag set's "value out of range" for a number that does not fit. */
    | Range
      /** "could not parse <value> as bool value for flag <flag>: ...". */
    | BadBool(value: string, flag: string)
      /** "could not parse <value> as uint64 value for flag <flag>: ...". */
    | BadUint64(value: string, flag: string)
      /** "failed to initialize new choice value swap: <cause>". */
    | SwapFailed(cause: Error)
      /** "destination must be a ptr, not <type>". */
    | DestinationNotPointer
      /** "destination must not be nil". */
    | DestinationNil
      /** The standard flag set's "no such flag -<name>". */
    | NoSuchFlag(name: string)
      /** errRequiredFlags: every missing required flag, in flag order. */
    | RequiredFlags(missing: seq<string>)
}
