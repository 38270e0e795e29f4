/** Outcomes of the scripts' operations: a value, or the exception that ends them. */
module Outcomes {

  /** The exceptions raised by the modelled code, one constructor per kind. */
  datatype Error =
    | ValueError                  // int() of a malformed numeral, list.remove of a missing value, a negative array dimension
    | IndexError                  // a list, array or string index out of range
    | KeyError                    // a dictionary lookup of a missing key
    | TypeError                   // range(None)
    | ZeroDivision                // `//` or `%` by zero
    | UnboundLocal                // a local variable read before any assignment
    | StopIteration               // next() on a reader with no rows left
    | FileNotFound                // opening a missing file for reading
    | MalformedLiteral            // ast.literal_eval of text that is not an int or a sequence of ints
    | WrongValue(param: string)   // exceptions.WrongValueError for the named parameter
    | NoParameter(param: string)  // exceptions.NoParameterError for the named parameter
    | UnknownLedgerKind           // OtherError: no header is defined for this analysis type
    | EmptyPrimarySelection       // OtherError: no SNP chosen at the class perc
    | LabelMismatch(part: string) // OtherError: the Y vectors of two chromosomes differ
    | PatientCountMismatch        // OtherError: chromosomes of one data set disagree on the patient count
    | Blocked                     // Queue.get on an empty queue, which never returns

  datatype Result<T> = Ok(value: T) | Err(error: Error)

  datatype Option<T> = None | Some(value: T)
}
