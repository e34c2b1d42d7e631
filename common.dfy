/** Option and Result types shared by the store model, and the faults that the
    Python code raises (or that PostgreSQL raises through psycopg2). */
module Common {

  datatype Option<+T> = None | Some(value: T)

  /** Why an operation stopped. Each fault is an exception in the original program;
      the model returns it instead of raising it. */
  datatype Fault =
    | EmptyLastName     // IndexError on `lastName[0]`
    | NoSuchRow         // `fetchone()` returned None and the code indexed or unpacked it
    | ValueTooLong      // a VARCHAR(n) column rejected a longer value
    | DuplicateKey      // the Faces primary key rejected an id that is already present
    | UnboundVariable   // a Python local used before any assignment
    | CannotUnpack      // a function returned None where a tuple was unpacked
    | TooFewWords       // IndexError on `fullName[1]` after `split()`

  datatype Result<+T> = Ok(value: T) | Err(fault: Fault)
}
