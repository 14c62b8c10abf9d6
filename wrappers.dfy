/**
 * Option, the error kinds the parser and resolver raise, and a failure-compatible
 * Result so that `:-` propagates errors the way the C# code propagates exceptions.
 */
module Wrappers {

  datatype Option<T> = None | Some(value: T)

  /** One constructor per exception the parser, the resolver and the root accessors raise. */
  datatype ErrorKind =
    // text and tokens
    | EmptyInput              // ParseTextAsync: null or white-space text
    | TokenizerFailure        // HoconTokenizerException, wrapped into a parser exception
    | IllegalToken            // ParseTokensAsync: a token that cannot start a document element
    | OneArrayOrObject        // ParseTokensAsync: anything after a root array
      // include directives
    | InvalidIncludeToken     // token outside the expected set
    | UnexpectedCloseParen    // ')' with no open parenthesis
    | ExpectedOpenParen       // required/url/file/classpath not followed by '('
    | InvalidFileName         // file name that is not a quoted string
    | UnexpectedIncludeToken  // anything else inside an include directive
    | MissingFileName         // directive without a file name
    | RequiredIncludeMissing  // required include whose callback text is blank
    | IncludeTypeMismatch     // included root type differs from its owner's type
    | IncludeDepthExhausted   // the model's bound on nested includes
      // objects, fields, values, arrays
    | ObjectStartExpected     // ParseObject entered on a token that cannot start an object
    | FieldStartExpected      // ParseField entered on a token that is not a literal
    | IncludeExpected         // ParseInclude entered on a token that is not `include`
    | MissingSeparator        // two fields or includes with no separator
    | LeadingComma            // a comma with no value before it in an object
    | ExpectedEndOfFile       // '}' closing a headless object
    | ExpectedEndOfObject     // end of file inside a braced object
    | UnexpectedObjectToken
    | KeyExpected
    | AssignExpected
    | EmptyKey
    | UnexpectedValueToken
    | ArrayMissingSeparator
    | ArrayLeadingComma
    | UnexpectedArrayToken
    | ConcatTypeMismatch      // value concatenation of operands of different types
    | NotAnObject             // GetObject of a value that is not object-typed
      // substitutions
    | SelfReferenceInArray
    | ParentReference
    | CyclicSubstitution
    | UnresolvedSubstitution
      // runtime faults of the C# code that the model reproduces
    | NullDereference
    | InvalidCast
      // root accessors
    | NullRoot                // GetNode on a root whose value is null
    | NotAnArray
    | ConversionFailure

  datatype Result<T> = Ok(value: T) | Err(error: ErrorKind) {
    predicate IsFailure() { Err? }

    function PropagateFailure<U>(): Result<U>
      requires Err?
    {
      Err(error)
    }

    function Extract(): T
      requires Ok?
    {
      value
    }
  }
}
