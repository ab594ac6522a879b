/**
 * Structured-record (VOID) comparison of arrayobject.cpp, _void_compare: only
 * equality and inequality are defined; the per-field comparison results are
 * reduced over any extra field dimensions and folded with logical AND (for EQ) or
 * logical OR (for NE), field by field in the dtype's order.
 *
 * The recursive comparison of each field (array_subscript followed by
 * array_richcompare) is given as its outcome, one per field entry.
 */
module VoidCompare {
  import opened Wrappers
  import Layout
  import opened TextCompare

  /** The comparison of one field of the two operands: a boolean array, or a failure. */
  datatype FieldOutcome = FieldBools(shape: seq<nat>, values: seq<bool>) | FieldFailed

  /** An entry of the dtype's field dictionary; title entries alias a real field. */
  datatype FieldEntry = FieldEntry(isTitle: bool, outcome: FieldOutcome)

  /**
   * A field result whose leading dimensions are the broadcast shape `outer` of the
   * two records; any further dimensions come from a shaped field.
   */
  predicate WellShaped(o: FieldOutcome, outer: seq<nat>)
  {
    o.FieldBools? && |o.shape| >= |outer| && o.shape[..|outer|] == outer
    && |o.values| == Layout.Product(o.shape)
  }

  predicate WellFormedFields(fields: seq<FieldEntry>, outer: seq<nat>)
  {
    forall f :: 0 <= f < |fields| && !fields[f].isTitle && fields[f].outcome.FieldBools? ==>
      WellShaped(fields[f].outcome, outer)
  }

  /** Number of positions of the broadcast shape. */
  function Size(outer: seq<nat>): (n: nat)
  {
    Layout.ProductNonNegative(outer);
    Layout.Product(outer)
  }

  /** Logical AND of a block for EQ, logical OR for NE (the identity on an empty block). */
  function Combine(op: int, block: seq<bool>): bool
  {
    if op == EQ then forall i :: 0 <= i < |block| ==> block[i]
    else exists i :: 0 <= i < |block| && block[i]
  }

  /** Extent of the dimensions a field adds beyond the broadcast shape. */
  function Inner(o: FieldOutcome, outer: seq<nat>): (n: nat)
    requires WellShaped(o, outer)
  {
    Layout.ProductNonNegative(o.shape[|outer|..]);
    Layout.Product(o.shape[|outer|..])
  }

  /** The block of position `k` lies inside the field's values. */
  lemma BlockInside(o: FieldOutcome, outer: seq<nat>, k: nat)
    requires WellShaped(o, outer) && k < Size(outer)
    ensures k * Inner(o, outer) + Inner(o, outer) <= |o.values|
  {
    Layout.ProductSplit(o.shape, |outer|);
    Layout.MulLeftMonotone(Inner(o, outer), k + 1, Size(outer));
  }

  /**
   * The value of a field result at broadcast position `k` once its extra
   * dimensions are collapsed to one and reduced with the operator.
   */
  function FieldAt(op: int, o: FieldOutcome, outer: seq<nat>, k: nat): bool
    requires WellShaped(o, outer) && k < Size(outer)
  {
    var lo := k * Inner(o, outer);
    BlockInside(o, outer, k);
    Combine(op, o.values[lo..lo + Inner(o, outer)])
  }

  /**
   * The verdict at position `k` over the first `n` field entries: for EQ every
   * non-title field holds there, for NE some non-title field does.
   */
  ghost predicate Verdict(op: int, fields: seq<FieldEntry>, n: nat, outer: seq<nat>, k: nat)
    requires n <= |fields| && WellFormedFields(fields, outer) && k < Size(outer)
    requires forall f :: 0 <= f < n && !fields[f].isTitle ==> fields[f].outcome.FieldBools?
  {
    if op == EQ then
      forall f :: 0 <= f < n && !fields[f].isTitle ==> FieldAt(op, fields[f].outcome, outer, k)
    else
      exists f :: 0 <= f < n && !fields[f].isTitle && FieldAt(op, fields[f].outcome, outer, k)
  }

  predicate HasRealField(fields: seq<FieldEntry>)
  {
    exists f :: 0 <= f < |fields| && !fields[f].isTitle
  }

  predicate SomeFieldFailed(fields: seq<FieldEntry>)
  {
    exists f :: 0 <= f < |fields| && !fields[f].isTitle && fields[f].outcome.FieldFailed?
  }

  /**
   * _void_compare: EQ and NE only; with fields, the AND (EQ) or OR (NE) fold of the
   * reduced per-field results, "No fields found." when every entry is a title; a
   * VOID dtype without fields is compared as raw bytes with rstrip off.
   */
  method VoidCompare(op: int, hasFields: bool, fields: seq<FieldEntry>, outer: seq<nat>,
                     self: TextOperand, other: TextOperand, broadcast: Option<Pairs>)
    returns (res: CmpResult)
    requires hasFields ==> WellFormedFields(fields, outer)
    requires !hasFields ==> self.typeNum == other.typeNum
    requires !hasFields && broadcast.Some? ==> WellFormedPairs(broadcast.value, self, other)
    ensures op != EQ && op != NE ==> res == Failed(VoidOnlyEquality)
    ensures (op == EQ || op == NE) && hasFields && SomeFieldFailed(fields) ==> res == Failed(FieldCompareFailed)
    ensures (op == EQ || op == NE) && hasFields && !HasRealField(fields) ==> res == Failed(NoFieldsFound)
    ensures (op == EQ || op == NE) && hasFields && HasRealField(fields) && !SomeFieldFailed(fields) ==>
              res.BoolArray? && res.shape == outer && |res.values| == Size(outer) &&
              forall k :: 0 <= k < Size(outer) ==> res.values[k] == Verdict(op, fields, |fields|, outer, k)
    ensures (op == EQ || op == NE) && !hasFields && broadcast.None? ==> res == Failed(BroadcastFailed)
    ensures (op == EQ || op == NE) && !hasFields && broadcast.Some? ==>
              res.BoolArray? && res.shape == broadcast.value.shape &&
              |res.values| == |broadcast.value.left| &&
              forall k :: 0 <= k < |res.values| ==>
                res.values[k] == (if op == EQ then PaddedCmp(broadcast.value.left[k], broadcast.value.right[k]) == 0
                                  else PaddedCmp(broadcast.value.left[k], broadcast.value.right[k]) != 0)
  {
    if op != EQ && op != NE {
      return Failed(VoidOnlyEquality);
    }
    if !hasFields {
      res := StringsRichCompare(self, other, op, false, false, broadcast);
      return;
    }
    var size := Size(outer);
    var acc: Option<seq<bool>> := None;
    var i := 0;
    while i < |fields|
      invariant 0 <= i <= |fields|
      invariant forall f :: 0 <= f < i && !fields[f].isTitle ==> fields[f].outcome.FieldBools?
      invariant acc.None? <==> forall f :: 0 <= f < i ==> fields[f].isTitle
      invariant acc.Some? ==> (|acc.value| == size &&
                  forall k :: 0 <= k < size ==> acc.value[k] == Verdict(op, fields, i, outer, k))
    {
      var entry := fields[i];
      if !entry.isTitle {
        if entry.outcome.FieldFailed? {
          return Failed(FieldCompareFailed);
        }
        var temp := seq(size, k requires 0 <= k < size => FieldAt(op, entry.outcome, outer, k));
        if acc.None? {
          acc := Some(temp);
        } else {
          var prev := acc.value;
          acc := Some(seq(size, k requires 0 <= k < size =>
                           if op == EQ then prev[k] && temp[k] else prev[k] || temp[k]));
        }
      }
      i := i + 1;
    }
    if acc.None? {
      return Failed(NoFieldsFound);
    }
    return BoolArray(outer, acc.value);
  }

  /** The NE outcome of a field is the pointwise negation of its EQ outcome. */
  predicate NegatedFields(eq: seq<FieldEntry>, ne: seq<FieldEntry>)
  {
    |eq| == |ne| &&
    forall f :: 0 <= f < |eq| ==>
      eq[f].isTitle == ne[f].isTitle &&
      eq[f].outcome.FieldBools? == ne[f].outcome.FieldBools? &&
      (eq[f].outcome.FieldBools? ==>
         eq[f].outcome.shape == ne[f].outcome.shape &&
         |eq[f].outcome.values| == |ne[f].outcome.values| &&
         forall j :: 0 <= j < |eq[f].outcome.values| ==> ne[f].outcome.values[j] == !eq[f].outcome.values[j])
  }

  /** A block of negated values reduced with OR is the negation of the block reduced with AND. */
  lemma FieldAtComplement(e: FieldOutcome, n: FieldOutcome, outer: seq<nat>, k: nat)
    requires WellShaped(e, outer) && WellShaped(n, outer) && e.shape == n.shape
    requires forall j :: 0 <= j < |e.values| ==> n.values[j] == !e.values[j]
    requires k < Size(outer)
    ensures FieldAt(NE, n, outer, k) == !FieldAt(EQ, e, outer, k)
  {
    var inner := Inner(e, outer);
    var lo := k * inner;
    BlockInside(e, outer, k);
    var be := e.values[lo..lo + inner];
    var bn := n.values[lo..lo + inner];
    assert forall i :: 0 <= i < |bn| ==> bn[i] == !be[i];
  }

  /**
   * When every field's NE result negates its EQ result, the record NE verdict
   * negates the record EQ verdict at every position, extra field dimensions
   * included.
   */
  lemma VerdictComplement(eq: seq<FieldEntry>, ne: seq<FieldEntry>, outer: seq<nat>, k: nat)
    requires NegatedFields(eq, ne)
    requires WellFormedFields(eq, outer) && WellFormedFields(ne, outer)
    requires forall f :: 0 <= f < |eq| && !eq[f].isTitle ==> eq[f].outcome.FieldBools?
    requires k < Size(outer)
    ensures Verdict(NE, ne, |ne|, outer, k) == !Verdict(EQ, eq, |eq|, outer, k)
  {
    forall f | 0 <= f < |eq| && !eq[f].isTitle
      ensures FieldAt(NE, ne[f].outcome, outer, k) == !FieldAt(EQ, eq[f].outcome, outer, k)
    {
      FieldAtComplement(eq[f].outcome, ne[f].outcome, outer, k);
    }
  }
}
