/** Values shared by every script: spreadsheet cells, JavaScript's `undefined`,
    and the exceptions a script can throw. */
module Values {

  datatype Option<+T> = None | Some(value: T)

  /** An exception thrown by the script; the message says which expression failed. */
  datatype Error = TypeError(message: string) | RangeError(message: string)

  /** The outcome of a script function: a value, or the exception it throws. */
  datatype Result<+T> = Ok(value: T) | Err(error: Error)

  /** A cell of a spreadsheet range or an element of a JavaScript array.
      `Undef` is `undefined`: an index past the end, or a hole of `new Array(n)`.
      Sheet numbers are modelled as integers. */
  datatype Cell = Undef | Text(s: string) | Num(n: int)

  /** `row[i]` in JavaScript: `undefined` outside the array. */
  function At(row: seq<Cell>, i: int): Cell
  {
    if 0 <= i < |row| then row[i] else Undef
  }

  /** Is `c` a string of at least one character (`typeof c === 'string' && c.length > 0`)? */
  predicate IsNonEmptyText(c: Cell)
  {
    c.Text? && |c.s| > 0
  }
}
