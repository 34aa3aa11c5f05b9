/** Values shared by every stage of the assembler: an optional value, the
    errors that abort an assembly, and a failure-compatible result. */
module Results {

  datatype Option<T> = None | Some(value: T)
  {
    predicate IsFailure() { None? }

    function PropagateFailure<U>(): Option<U>
      requires None?
    {
      None
    }

    function Extract(): T
      requires Some?
    {
      value
    }
  }

  /** Every way an assembly can stop before producing its word list. The
      original program ends the process (an explicit exit, or an uncaught
      Python exception); here each becomes a value. */
  datatype Error =
    | DuplicateLabel(token: string)  // pass 1: a label token is declared a second time
    | NegativeAddress(line: nat)     // dec2bin8: the address is negative
    | InvalidImmediate(line: nat)    // dec2comp8: the immediate is below -128
    | MissingOperand(line: nat)      // pass 2: an operand token is absent (IndexError)
    | NotANumber(line: nat)          // pass 2: a numeric operand is not a decimal literal (ValueError)
    | UndefinedLabel(name: string)   // pass 2: a branch target is not in the label map (KeyError)

  datatype Result<T> = Ok(value: T) | Err(error: Error) {
    predicate IsFailure() { Err? }

    function PropagateFailure<U>(): Result<U>
      requires Err?
    {
      Err(error)
    }

    function Extract(): T
      requires Ok?
    {
      value
    }
  }
}
