/**
 * The exceptions the command builder and the decoding helper raise,
 * each with the Python exception class it surfaces as.
 */
module Errors {

  /**
   * Python exception classes that appear in this model, and `OutsideModel`
   * for a failure that marks a boundary of the model rather than a Python
   * exception (Python may well succeed there).
   */
  datatype ExceptionClass = TypeError | ValueError | NotImplementedError | UnicodeDecodeError | LookupError | OutsideModel

  /** Why a UTF-8 decode failed, as CPython words it. */
  datatype DecodeReason = InvalidStartByte | InvalidContinuationByte | UnexpectedEndOfData

  /** Which reserved argument syntax was used. */
  datatype ReservedSyntax = EllipsisSyntax | DictSyntax | SetSyntax

  datatype Error =
    /** A command was built with no program name. */
    | MissingProgramName
    /** `None` was passed as a command argument. */
    | NoneArgument
    /** An argument syntax reserved for future use. */
    | Reserved(syntax: ReservedSyntax)
    /** `append=True` given with a target that is not a filesystem path. */
    | AppendNotAllowed
    /** An operand of `%` that is not a command. */
    | UnsupportedOperand
    /** An ill-formed UTF-8 subsequence `data[start..end]`. */
    | Utf8Error(start: nat, end: nat, reason: DecodeReason)
    /** A codec name this model does not cover; not a Python failure. */
    | UnmodelledCodec(codec: string)
    /** An error handler this model does not cover, met at an ill-formed sequence. */
    | UnmodelledHandler(handler: string)

  /**
   * Error handlers Python registers that decode by rules this model does not
   * cover (`surrogatepass` succeeds only on encoded surrogates).
   */
  predicate DecodingHandler(name: string)
  {
    name == "backslashreplace" || name == "surrogateescape" || name == "surrogatepass"
  }

  /** Error handlers Python registers for encoding only; decoding with them is a type error. */
  predicate EncodingOnlyHandler(name: string)
  {
    name == "xmlcharrefreplace" || name == "namereplace"
  }

  /** The Python exception class each error surfaces as, or `OutsideModel`. */
  function ClassOf(e: Error): ExceptionClass
  {
    match e
    case MissingProgramName => ValueError
    case NoneArgument => TypeError
    case Reserved(_) => NotImplementedError
    case AppendNotAllowed => TypeError
    case UnsupportedOperand => TypeError
    case Utf8Error(_, _, _) => UnicodeDecodeError
    case UnmodelledCodec(_) => OutsideModel
    case UnmodelledHandler(h) =>
      if DecodingHandler(h) then OutsideModel
      else if EncodingOnlyHandler(h) then TypeError
      else LookupError
  }

  /** `sub` occurs in `s` starting at index `i`. */
  predicate OccursAt(s: string, sub: string, i: nat)
  {
    i + |sub| <= |s| && s[i..i + |sub|] == sub
  }

  /** `sub` occurs somewhere in `s` (what `pytest.raises(match=...)` checks for a literal pattern). */
  predicate Contains(s: string, sub: string)
  {
    exists i: nat | i <= |s| :: OccursAt(s, sub, i)
  }

  /**
   * The message of each error whose wording the behaviour fixes; only the
   * quoted fragment in each ensures is fixed, the rest of the wording is the model's.
   */
  function Message(e: Error): (m: string)
    ensures e == MissingProgramName ==> Contains(m, "Command must include program name")
    ensures e.Reserved? ==> Contains(m, "reserved")
    ensures e == AppendNotAllowed ==> Contains(m, "append")
  {
    match e
    case MissingProgramName =>
      var m := "Command must include program name";
      assert OccursAt(m, "Command must include program name", 0);
      m
    case Reserved(_) =>
      var m := "argument syntax is " + "reserved";
      assert OccursAt(m, "reserved", 19);
      m
    case AppendNotAllowed =>
      var m := "append" + " is only allowed for a path target";
      assert OccursAt(m, "append", 0);
      m
    case _ => ""
  }
}
