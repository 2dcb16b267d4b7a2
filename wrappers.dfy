/** Option, Result and the error vocabulary shared by every module.
    Each `Error` constructor stands for one exception the Python code raises. */
module Wrappers {

  datatype Option<+T> = None | Some(value: T)

  /** The exceptions of the decode path and of schema loading. */
  datatype Error =
    | ShortRead                              // struct.error: fewer bytes remain than the format needs
    | PackOutOfRange                         // struct.error on pack: the value does not fit the format
    | MissingProtocolInfo                    // ValueError: no _ProtocolInfo element
    | MissingRecord(tag: string)             // IndexError: element[0] on an element without children
    | MissingInfoField(name: string)         // ValueError: field missing from protocol info entry
    | MissingMessageField(name: string)      // ValueError: field missing from message entry
    | NotAnInteger(text: Option<string>)     // ValueError / TypeError raised by int(text)
    | UnhandledType(parameter: string)       // RuntimeError: parameter without TYPE
    | MissingTypeKey(parameter: string)      // KeyError('TYPE') in the legacy loader
    | UnorderableOrders                      // TypeError: sorting compares None with int
    | OrderMismatch(order: int, index: int)  // RuntimeError: declared order differs from its position
    | MissingReadMethod(typeTag: string)     // RuntimeError: type tag not in the conversion table
    | InvalidMessageOrder(order: int)        // RuntimeError: no message for the order id
    | UnexpectedServiceId(serviceId: int)    // RuntimeError: no protocol for the service id
    | ControlsNotImplemented                 // NotImplementedError("forgot controls")
    | NotImplemented                         // NotImplementedError of a base-class decoder
    | MagicMismatch(magic: int)              // AssertionError: frame magic is not 0xF00D
    | UnicodeDecode                          // UnicodeDecodeError that is not caught
    | TupleArithmetic                        // TypeError: tuple + int
    | StrHasNoName                           // AttributeError: 'str' object has no attribute 'name'
    | MissingOpcodeArgument                  // TypeError: __init__() missing argument 'opcode'

  datatype Result<+T> = Ok(value: T) | Err(error: Error) {
    predicate IsFailure() { Err? }

    function PropagateFailure<U>(): Result<U>
      requires Err?
    {
      Err(error)
    }

    function Extract(): T
      requires Ok?
    {
      value
    }
  }

  /** The outcome of a read at a position together with the position the cursor
      is left at, whether the read succeeded or not. */
  datatype Decoded<+T> = Decoded(result: Result<T>, pos: nat)
}
