/** The types the parser's header declares: its error codes, the per-argument
    configuration record and the enumerations that fill it. */
module ArgTypes {

  datatype ArgErrorCode =
    | NoError
    | PositionalError
    | DuplicateArgumentError
    | InvalidOsSep
    | RawVectorOutOfRange
    | OptionalProvidedWithNoValue
    | ConvertArgError

  /** What the parser throws (or, with code NoError, returns). The C++ error
      carries a formatted message; the model keeps the argument name that the
      message reports, or "" when the message names none. */
  datatype Error = Error(code: ArgErrorCode, subject: string)

  /** Error(): the value parse_args returns when it succeeds. */
  const Success: Error := Error(NoError, "")

  datatype ArgSpecialBehavior = None | DropPositionalCheck

  datatype ArgType = TStoreFalse | TStoreTrue | TString | TFloat | TDouble | TInt

  datatype ArgImportance = Positional | Optional

  /** A registered argument. isSet and strValue are what the binding passes
      write; pos is the 1-based slot of a positional argument, -1 otherwise. */
  datatype ArgConfig = ArgConfig(
    name: string,
    help: string,
    argType: ArgType,
    importance: ArgImportance,
    behavior: ArgSpecialBehavior,
    isSet: bool,
    strValue: string,
    pos: int)

  /** The ArgConfig constructor: a new argument starts unbound with an empty
      raw value. */
  function NewArgConfig(name: string, help: string, argType: ArgType,
                        importance: ArgImportance, behavior: ArgSpecialBehavior,
                        pos: int): (c: ArgConfig)
    ensures !c.isSet && c.strValue == ""
    ensures c.name == name && c.help == help && c.argType == argType
    ensures c.importance == importance && c.behavior == behavior && c.pos == pos
  {
    ArgConfig(name, help, argType, importance, behavior, false, "", pos)
  }

  /** The two types that take no value. */
  predicate IsFlag(t: ArgType)
  {
    t == TStoreTrue || t == TStoreFalse
  }

  /** The raw values the optional pass records for a bound flag. */
  const StoreTrueMark: string := "<store_true>"
  const StoreFalseMark: string := "<store_false>"

  /** The result of a pass that may throw: the state it leaves behind, and
      the error when it stopped early. */
  datatype Outcome<S> = Done(state: S) | Aborted(state: S, error: Error)

  /** The error a method reports for an outcome: Success when it finished. */
  function ErrorOf<S>(o: Outcome<S>): Error
  {
    if o.Aborted? then o.error else Success
  }

  /** The outcome a method left behind, read from its state and the error
      it reported. */
  function Report<S>(st: S, err: Error): Outcome<S>
  {
    if err.code == NoError then Done(st) else Aborted(st, err)
  }
}
