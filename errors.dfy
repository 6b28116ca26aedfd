/** What can go wrong while reading: `GmshFileFormatError` with its causes,
    the `NotImplementedError` for other major versions, the generic Python
    errors a malformed line can raise, and the two warnings. */
module GmshErrors {
  /** The causes of `GmshFileFormatError`, each with the values its message
      interpolates. */
  datatype FormatError =
    | UnexpectedEndOfFile
    | ExpectedSectionStart(found: string)
    | MoreThanOneMeshFormatLine
    | NotAsciiFileType(fileType: string)
    | NotFourComponents(parts: seq<string>)
    | OutOfOrderNode(got: int, expected: int)
    | NodeCountMismatch(got: int, expected: int)
    | TooFewElementEntries(entries: seq<int>)
    | OutOfOrderElement(got: int, expected: int)
    | UnexpectedElementType(code: int)
    | ElementNodeCountMismatch(got: int, expected: int)
    | ElementCountMismatch(got: int, expected: int)
    | UnquotedPhysicalName(name: string)
    | PhysicalNameCountMismatch(got: int, expected: int)

  /** Errors that are not `GmshFileFormatError`: Python's own exceptions
      raised by malformed input or inconsistent element tables. */
  datatype HostError =
    | NotAnInteger(text: string)              // ValueError from int()
    | WrongNumberOfFields(expected: nat, got: nat)  // ValueError from unpacking
    | EmptyPhysicalName                       // IndexError from name[0]
    | MissingNodeTuple(code: int)             // KeyError in the permutation lookup
    | NodeIndexOutOfRange(code: int)          // IndexError from fancy indexing

  datatype ParseError =
    | FileFormat(cause: FormatError)
    | UnsupportedVersion(version: string)     // NotImplementedError
    | Host(host: HostError)

  datatype Warning =
    | UnexpectedVersion(version: string)
    | UnrecognizedSection(name: string)
}
