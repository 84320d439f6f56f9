/** Failure values shared by every module of the model.

    The library signals every failure by throwing; here each exception a core
    operation can raise is a `Fault`, returned inside a `Result` (for
    operations that yield a value) or a `Status` (for operations that only
    succeed or fail). */
module Common {

  /** The exceptions the core can raise. */
  datatype Fault =
    | IndexOutOfRange        // an array index outside the array
    | ArgumentOutOfRange     // a bounds check of the library itself, or a range slice past the end
    | InvalidCast            // unboxing an object as a type it does not hold
    | Overflow               // a `checked` 32-bit addition or multiplication overflowed
    | NotPrimitive           // ByteUtils.Pack was given a value it cannot serialise
    | DeviceNotOpen          // the receiver was started without a stream
    | AlreadyRunning         // the receiver was started twice
    | FeatureFailure(featureError: ReportError)    // a FeatureException carrying the report's error kind
    | RegisterFailure(registerError: ReportError)  // a RegisterException carrying the report's error kind

  /** The closed set of error kinds a report can carry (the library's ReportError enum). */
  datatype ReportError =
    | NoError | Unknown | InvalidSubId | InvalidAddress | InvalidValue | ConnectFailed
    | TooManyDevices | AlreadyExists | Busy | UnknownDevice | ResourceError
    | RequestUnavailable | InvalidArgument | WrongPinCode | HardwareError
    | LogitechInternal | InvalidFeature | InvalidFunctionId | Unsupported | Timeout
    | HidPpInternal | OutOfRange | KeepAliveTimeout

  datatype Option<+T> = None | Some(value: T)

  datatype Result<+T> = Ok(value: T) | Err(fault: Fault) {
    predicate IsFailure() { Err? }
    function PropagateFailure<U>(): Result<U>
      requires Err?
    {
      Err(fault)
    }
    function Extract(): T
      requires Ok?
    {
      value
    }
  }

  datatype Status = Done | Raised(fault: Fault)
}
