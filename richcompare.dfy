/**
 * The dispatch of arrayobject.cpp, array_richcompare: which collaborator answers a
 * rich comparison of an ndarray with another object.
 *
 * Every collaborator is given as its outcome: the coercion of the other operand
 * (PyArray_FromAny), the generic elementwise ufunc (PyArray_GenericBinaryFunction),
 * the dtype equality test, the structured-record comparison, the conversion of the
 * other operand in the text fallback (PyArray_FromObject) and the text comparison.
 * The model tracks the one reference the dispatch itself owns, the coerced other
 * operand, to say whether every path releases it.
 */
module RichCompare {
  import opened Wrappers
  import opened TextCompare

  /** Outcome of the generic elementwise ufunc. */
  datatype Generic = GenericValue | GenericError | GenericNotImplemented

  /** What the comparison hands back to the interpreter. */
  datatype Answer =
    | UfuncResult              // the ufunc's own result object
    | Delegated(r: CmpResult)  // the result of the record or text comparison
    | Constant(b: bool)        // Py_True / Py_False
    | NotImplementedAnswer     // Py_NotImplemented: the interpreter tries the reflected operation
    | Raised                   // NULL with an exception set
    | NullDereference          // a NULL pointer is read

  /** The answer, and whether the coerced other operand is still held afterwards. */
  datatype Outcome = Outcome(answer: Answer, leaked: bool)

  /** Outcomes of the collaborators for one call. */
  datatype Collaborators = Collaborators(
    coerced: bool,               // PyArray_FromAny(other) succeeded
    generic: Generic,            // the elementwise ufunc
    descrEq: int,                // dtype equality: negative on error, 0 unequal, positive equal
    voidResult: CmpResult,       // _void_compare(self, other)
    converted: Option<TypeNum>,  // PyArray_FromObject(other) in the fallback; None on failure
    stringsResult: CmpResult)    // _strings_richcompare(self, other)

  predicate IsEquality(op: int) { op == EQ || op == NE }

  /**
   * The first stage hands the comparison to the text fallback: EQ/NE on a coerced
   * operand whose ufunc deferred, unless self holds records; any other operator
   * whose ufunc deferred; and an unknown operator, which never reaches the ufunc.
   */
  predicate FallsBack(op: int, otherIsNone: bool, self: TypeNum, c: Collaborators)
  {
    if IsEquality(op) then !otherIsNone && c.coerced && c.generic.GenericNotImplemented? && self != VoidType
    else !ValidOp(op) || c.generic.GenericNotImplemented?
  }

  /** The text fallback taken when the first stage answered NotImplemented, as written. */
  function Fallback(self: TypeNum, c: Collaborators): (o: Outcome)
    ensures o.answer.Delegated? ==> IsText(self) && c.converted.Some? && IsText(c.converted.value)
    ensures self == ObjectType ==> o.answer == NotImplementedAnswer
    ensures !o.leaked
    // a failed conversion is read through for every non-object array
    ensures self != ObjectType && c.converted.None? ==> o.answer == NullDereference
    // two text operands are handed to the text comparison
    ensures self != ObjectType && c.converted.Some? && IsText(self) && IsText(c.converted.value) ==>
              o.answer == Delegated(c.stringsResult)
    // any other converted pair defers to the reflected operation
    ensures c.converted.Some? && !(IsText(self) && IsText(c.converted.value)) ==> o.answer == NotImplementedAnswer
  {
    if self == ObjectType then Outcome(NotImplementedAnswer, false)
    else if c.converted.None? then Outcome(NullDereference, false)
    else if IsText(self) && IsText(c.converted.value) then Outcome(Delegated(c.stringsResult), false)
    else Outcome(NotImplementedAnswer, false)
  }

  /** array_richcompare as written. */
  function RichCompareAsWritten(op: int, otherIsNone: bool, self: TypeNum, c: Collaborators): (o: Outcome)
    ensures IsEquality(op) && otherIsNone ==> o.answer == Constant(op == NE) && !o.leaked
    ensures self == ObjectType ==> !o.answer.Delegated?
    ensures o.leaked <==> op == NE && !otherIsNone && c.coerced && c.generic.GenericNotImplemented?
                          && self == VoidType && c.descrEq == 0
    // a ufunc that produced a value answers, unless the None or coercion tests came first
    ensures ValidOp(op) && c.generic.GenericValue? && !(IsEquality(op) && (otherIsNone || !c.coerced)) ==>
              o.answer == UfuncResult
    ensures FallsBack(op, otherIsNone, self, c) ==> o == Fallback(self, c)
  {
    if IsEquality(op) then
      if otherIsNone then Outcome(Constant(op == NE), false)
      else if !c.coerced then Outcome(NotImplementedAnswer, false)
      else if c.generic.GenericNotImplemented? && self == VoidType then
        if c.descrEq < 0 then Outcome(Raised, false)
        else if c.descrEq > 0 then Outcome(Delegated(c.voidResult), false)
        else Outcome(NotImplementedAnswer, op == NE)
      else if c.generic.GenericError? then Outcome(NotImplementedAnswer, false)
      else if c.generic.GenericValue? then Outcome(UfuncResult, false)
      else Fallback(self, c)
    else if ValidOp(op) then
      if c.generic.GenericError? then Outcome(Raised, false)
      else if c.generic.GenericValue? then Outcome(UfuncResult, false)
      else Fallback(self, c)
    else Fallback(self, c)
  }

  /** The text fallback with the failed conversion reported instead of read through. */
  function FallbackChecked(self: TypeNum, c: Collaborators): (o: Outcome)
    ensures o.answer != NullDereference && !o.leaked
    ensures o.answer.Delegated? <==> IsText(self) && c.converted.Some? && IsText(c.converted.value)
    ensures o.answer == Raised <==> self != ObjectType && c.converted.None?
    ensures self != ObjectType && c.converted.Some? && IsText(self) && IsText(c.converted.value) ==>
              o.answer == Delegated(c.stringsResult)
    ensures c.converted.Some? && !(IsText(self) && IsText(c.converted.value)) ==> o.answer == NotImplementedAnswer
  {
    if self == ObjectType then Outcome(NotImplementedAnswer, false)
    else if c.converted.None? then Outcome(Raised, false)
    else if IsText(self) && IsText(c.converted.value) then Outcome(Delegated(c.stringsResult), false)
    else Outcome(NotImplementedAnswer, false)
  }

  /**
   * array_richcompare with the coerced operand released on every path and a failed
   * fallback conversion raised.
   */
  function RichCompareChecked(op: int, otherIsNone: bool, self: TypeNum, c: Collaborators): (o: Outcome)
    ensures !o.leaked && o.answer != NullDereference
    // None is unequal to every array
    ensures IsEquality(op) && otherIsNone ==> o.answer == Constant(op == NE)
    // an operand that cannot be made an array defers to the reflected operation
    ensures IsEquality(op) && !otherIsNone && !c.coerced ==> o.answer == NotImplementedAnswer
    // for equality a failing ufunc never raises; only the dtype test or the fallback can
    ensures IsEquality(op) && o.answer == Raised ==>
              (self == VoidType && c.descrEq < 0) || (self != ObjectType && c.converted.None?)
    // structured records are compared field by field only when the dtypes are equal
    ensures o.answer == Delegated(c.voidResult) && !(IsText(self) && c.converted.Some? && IsText(c.converted.value)) ==>
              IsEquality(op) && self == VoidType && c.descrEq > 0
    // object arrays never fall back to the text comparison
    ensures self == ObjectType ==> !o.answer.Delegated?
    // the text comparison answers only for two text operands
    ensures o.answer.Delegated? && self != VoidType ==> IsText(self) && c.converted.Some? && IsText(c.converted.value)
    // an unknown operator is never handled by the ufunc
    ensures !ValidOp(op) ==> o.answer != UfuncResult
    // a ufunc that produced a value answers, unless the None or coercion tests came first
    ensures ValidOp(op) && c.generic.GenericValue? && !(IsEquality(op) && (otherIsNone || !c.coerced)) ==>
              o.answer == UfuncResult
    // for equality a failing ufunc defers; for ordering it raises
    ensures IsEquality(op) && !otherIsNone && c.coerced && c.generic.GenericError? ==> o.answer == NotImplementedAnswer
    ensures ValidOp(op) && !IsEquality(op) && c.generic.GenericError? ==> o.answer == Raised
    // records whose ufunc deferred: compared field by field for equal dtypes, deferred for unequal ones
    ensures IsEquality(op) && !otherIsNone && c.coerced && c.generic.GenericNotImplemented? && self == VoidType ==>
              o.answer == (if c.descrEq < 0 then Raised
                           else if c.descrEq > 0 then Delegated(c.voidResult)
                           else NotImplementedAnswer)
    // everything else goes to the text fallback, where two text operands are compared as text
    ensures FallsBack(op, otherIsNone, self, c) ==> o == FallbackChecked(self, c)
    ensures (FallsBack(op, otherIsNone, self, c) && self != ObjectType && c.converted.Some? &&
             IsText(self) && IsText(c.converted.value)) ==> o.answer == Delegated(c.stringsResult)
  {
    if IsEquality(op) then
      if otherIsNone then Outcome(Constant(op == NE), false)
      else if !c.coerced then Outcome(NotImplementedAnswer, false)
      else if c.generic.GenericNotImplemented? && self == VoidType then
        if c.descrEq < 0 then Outcome(Raised, false)
        else if c.descrEq > 0 then Outcome(Delegated(c.voidResult), false)
        else Outcome(NotImplementedAnswer, false)
      else if c.generic.GenericError? then Outcome(NotImplementedAnswer, false)
      else if c.generic.GenericValue? then Outcome(UfuncResult, false)
      else FallbackChecked(self, c)
    else if ValidOp(op) then
      if c.generic.GenericError? then Outcome(Raised, false)
      else if c.generic.GenericValue? then Outcome(UfuncResult, false)
      else FallbackChecked(self, c)
    else FallbackChecked(self, c)
  }

  /** Wherever the code as written does not read a failed conversion, the corrected dispatch gives the same answer. */
  lemma CheckedAgreesWithAsWritten(op: int, otherIsNone: bool, self: TypeNum, c: Collaborators)
    requires c.converted.Some? || self == ObjectType || !FallsBack(op, otherIsNone, self, c)
    ensures RichCompareChecked(op, otherIsNone, self, c).answer == RichCompareAsWritten(op, otherIsNone, self, c).answer
  {
  }

  /** A structured array compared for inequality with an array of another dtype keeps the coerced operand. */
  lemma UnequalRecordDtypesLeak()
    ensures var c := Collaborators(true, GenericNotImplemented, 0, NotImplemented, None, NotImplemented);
            RichCompareAsWritten(NE, false, VoidType, c) == Outcome(NotImplementedAnswer, true) &&
            RichCompareChecked(NE, false, VoidType, c) == Outcome(NotImplementedAnswer, false)
  {
  }

  /** When the ufunc defers and the fallback conversion fails, the code as written reads a NULL array. */
  lemma FailedConversionDereferenced()
    ensures var c := Collaborators(true, GenericNotImplemented, 0, NotImplemented, None, NotImplemented);
            RichCompareAsWritten(LT, false, StringType, c).answer == NullDereference &&
            RichCompareChecked(LT, false, StringType, c).answer == Raised
  {
  }
}
