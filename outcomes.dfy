/** Failure-carrying results and the failures the BDM core raises. */
module Outcomes {

  /** The exceptions raised by the encoding and stage functions; the comment
      on each names the Python exception class it stands for. */
  datatype Error =
    | NotOneDimensional                        // AttributeError: the sequence to encode is not 1-D
    | NegativeSymbol                           // ValueError: a symbol is negative
    | SymbolNotBelowBase(base: int)            // ValueError: a symbol is greater than base - 1
    | CodeTooLong(code: int, shape: seq<int>)  // ValueError: the code does not encode an array of that shape
    | NotADigit(c: char)                       // ValueError: the cast of a character to int fails
    | RaggedRows                               // numpy cannot build a rectangular array from the rows
    | AsymmetricShape(shape: seq<int>)         // AttributeError: the part shape is not symmetric
    | NotConformable                           // AttributeError: dataset and part shapes are not conformable
    | MissingKey(key: string)                  // KeyError: the CTM dataset does not contain the object
    | NoDefault(ndim: int)                     // KeyError: no default CTM dataset for the dimensionality

  datatype Option<T> = None | Some(value: T)

  datatype Result<T> = Ok(value: T) | Err(error: Error)
}
