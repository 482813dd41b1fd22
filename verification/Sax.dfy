/** The events a parser or a value sends to a handler, and the errors a parser reports. */
module Sax {
  import opened Text

  datatype Event =
    | Null
    | Bool(b: bool)
    | Int(i: int)
    | Uint(u: int)
    | Int64(i64: int)
    | Uint64(u64: int)
    | Double(lexeme: seq<Byte>) // the value is the library's strtod of this lexeme
    | String(s: seq<Byte>)
    | StartObject
    | Key(k: seq<Byte>)
    | EndObject(memberCount: nat)
    | StartArray
    | EndArray(elementCount: nat)

  datatype ErrorCode =
    | DocumentEmpty
    | DocumentRootNotSingular
    | ValueInvalid
    | ObjectMissName
    | ObjectMissColon
    | ObjectMissCommaOrCurlyBracket
    | ArrayMissCommaOrSquareBracket
    | StringUnicodeEscapeInvalidHex
    | StringUnicodeSurrogateInvalid
    | StringEscapeInvalid
    | StringMissQuotationMark
    | StringInvalidEncoding
    | NumberTooBig
    | NumberMissFraction
    | NumberMissExponent
    | Termination
    | UnspecificSyntaxError

  /** The flags that change what is parsed. */
  datatype Flags = Flags(
    validateEncoding: bool,
    stopWhenDone: bool,
    comments: bool,
    trailingCommas: bool,
    nanAndInf: bool)

  /**
   What a parse depends on: the text, the flags, the handler's answer to the last of the events
   it has been sent, and the floating-point test that stops a digit run too big for a double.
   */
  datatype Env = Env(text: seq<Byte>, flags: Flags, accepts: seq<Event> -> bool, tooBig: seq<Byte> -> bool)
}
