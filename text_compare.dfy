/**
 * Fixed-width text comparison of arrayobject.cpp: the unsigned lexicographic
 * comparators, the NUL-padding comparators, the trailing-whitespace strippers and
 * the per-position comparison loop with its kind reconciliation.
 *
 * An element is a sequence of code units: bytes (0..255) for STRING and VOID
 * elements, UCS4 code points for UNICODE elements. The byte and the UCS4 variant
 * of each routine in the source run the same steps over different unit widths, so
 * each is modelled once over `seq<nat>`.
 */
module TextCompare {
  import opened Wrappers
  import Layout

  // ---------------------------------------------------------------------------
  // Lexicographic comparison of equal-length unit sequences
  // ---------------------------------------------------------------------------

  /** Three-way comparison in unsigned unit order: -1, 0 or 1. */
  function LexCmp(a: seq<nat>, b: seq<nat>): (r: int)
    requires |a| == |b|
    ensures -1 <= r <= 1
    decreases |a|
  {
    if |a| == 0 then 0
    else if a[0] != b[0] then (if a[0] < b[0] then -1 else 1)
    else LexCmp(a[1..], b[1..])
  }

  /** `a` is below `b` at `k`: they agree before `k` and `a` has the smaller unit there. */
  ghost predicate FirstDiffBelow(a: seq<nat>, b: seq<nat>, k: nat)
  {
    k < |a| && k < |b| && a[..k] == b[..k] && a[k] < b[k]
  }

  /** LexCmp is 0 exactly on equal sequences and -1 exactly at a first unit that is smaller. */
  lemma {:induction false} LexCmpMeaning(a: seq<nat>, b: seq<nat>)
    requires |a| == |b|
    ensures LexCmp(a, b) == 0 <==> a == b
    ensures LexCmp(a, b) == -1 <==> exists k: nat :: FirstDiffBelow(a, b, k)
    ensures LexCmp(a, b) == 1 <==> exists k: nat :: FirstDiffBelow(b, a, k)
    decreases |a|
  {
    if |a| == 0 {
      assert forall k: nat :: !FirstDiffBelow(a, b, k);
      assert forall k: nat :: !FirstDiffBelow(b, a, k);
    } else if a[0] != b[0] {
      if a[0] < b[0] {
        assert FirstDiffBelow(a, b, 0);
        forall k: nat | FirstDiffBelow(b, a, k) ensures false {
        }
      } else {
        assert FirstDiffBelow(b, a, 0);
        forall k: nat | FirstDiffBelow(a, b, k) ensures false {
        }
      }
    } else {
      LexCmpMeaning(a[1..], b[1..]);
      assert a == [a[0]] + a[1..] && b == [b[0]] + b[1..];
      forall k: nat | FirstDiffBelow(a, b, k) ensures k >= 1 && FirstDiffBelow(a[1..], b[1..], k - 1) {
        assert k >= 1;
        assert a[1..][..k - 1] == a[..k][1..];
        assert b[1..][..k - 1] == b[..k][1..];
      }
      forall k: nat | FirstDiffBelow(b, a, k) ensures k >= 1 && FirstDiffBelow(b[1..], a[1..], k - 1) {
        assert k >= 1;
        assert a[1..][..k - 1] == a[..k][1..];
        assert b[1..][..k - 1] == b[..k][1..];
      }
      forall k: nat | FirstDiffBelow(a[1..], b[1..], k) ensures FirstDiffBelow(a, b, k + 1) {
        assert a[..k + 1] == [a[0]] + a[1..][..k];
        assert b[..k + 1] == [b[0]] + b[1..][..k];
      }
      forall k: nat | FirstDiffBelow(b[1..], a[1..], k) ensures FirstDiffBelow(b, a, k + 1) {
        assert a[..k + 1] == [a[0]] + a[1..][..k];
        assert b[..k + 1] == [b[0]] + b[1..][..k];
      }
    }
  }

  /** Swapping the operands negates the comparison. */
  lemma {:induction false} LexCmpAntisymmetric(a: seq<nat>, b: seq<nat>)
    requires |a| == |b|
    ensures LexCmp(b, a) == -LexCmp(a, b)
    decreases |a|
  {
    if |a| > 0 && a[0] == b[0] {
      LexCmpAntisymmetric(a[1..], b[1..]);
    }
  }

  /** Comparing a concatenation decides on the first parts unless they are equal. */
  lemma {:induction false} LexCmpConcat(a1: seq<nat>, a2: seq<nat>, b1: seq<nat>, b2: seq<nat>)
    requires |a1| == |b1| && |a2| == |b2|
    ensures LexCmp(a1 + a2, b1 + b2) == if LexCmp(a1, b1) != 0 then LexCmp(a1, b1) else LexCmp(a2, b2)
    decreases |a1|
  {
    if |a1| > 0 {
      assert (a1 + a2)[1..] == a1[1..] + a2;
      assert (b1 + b2)[1..] == b1[1..] + b2;
      LexCmpConcat(a1[1..], a2, b1[1..], b2);
    } else {
      assert a1 + a2 == a2 && b1 + b2 == b2;
    }
  }

  /**
   * PyArray_CompareString / PyArray_CompareUCS4: compare the first `len` units of
   * both elements, giving the sign of the first difference or 0.
   */
  method CompareUnits(s1: seq<nat>, s2: seq<nat>, len: nat) returns (r: int)
    requires len <= |s1| && len <= |s2|
    ensures r == LexCmp(s1[..len], s2[..len])
  {
    var i := 0;
    while i < len
      invariant 0 <= i <= len
      invariant LexCmp(s1[..len], s2[..len]) == LexCmp(s1[i..len], s2[i..len])
    {
      if s1[i] != s2[i] {
        return if s1[i] > s2[i] then 1 else -1;
      }
      assert s1[i..len][1..] == s1[i + 1..len] && s2[i..len][1..] == s2[i + 1..len];
      i := i + 1;
    }
    return 0;
  }

  // ---------------------------------------------------------------------------
  // Comparison of elements of different declared widths (NUL padding)
  // ---------------------------------------------------------------------------

  function Zeros(n: nat): (z: seq<nat>)
    ensures |z| == n && forall i :: 0 <= i < n ==> z[i] == 0
  {
    seq(n, _ => 0)
  }

  /** `s` extended with NUL units to width `n`. */
  function ZeroPad(s: seq<nat>, n: nat): (p: seq<nat>)
    requires |s| <= n
  {
    s + Zeros(n - |s|)
  }

  predicate AllZero(s: seq<nat>)
  {
    forall i :: 0 <= i < |s| ==> s[i] == 0
  }

  function Max(a: nat, b: nat): nat { if a < b then b else a }

  function Min(a: nat, b: nat): nat { if a < b then a else b }

  /**
   * The reference meaning of comparing two fixed-width elements of possibly
   * different widths: pad the shorter one with NUL units and compare
   * lexicographically.
   */
  function PaddedCmp(a: seq<nat>, b: seq<nat>): int
  {
    var n := Max(|a|, |b|);
    LexCmp(ZeroPad(a, n), ZeroPad(b, n))
  }

  /** A run of NULs compares below anything that is not all NUL, and equal otherwise. */
  lemma {:induction false} LexCmpZerosLeft(t: seq<nat>)
    ensures LexCmp(Zeros(|t|), t) == if AllZero(t) then 0 else -1
    decreases |t|
  {
    if |t| > 0 {
      assert Zeros(|t|)[1..] == Zeros(|t| - 1);
      LexCmpZerosLeft(t[1..]);
      if t[0] == 0 {
        assert AllZero(t) <==> AllZero(t[1..]) by {
          if AllZero(t[1..]) {
            forall i | 0 <= i < |t| ensures t[i] == 0 {
              if i > 0 { assert t[i] == t[1..][i - 1]; }
            }
          }
        }
      }
    }
  }

  /**
   * _mystrncmp / _myunincmp, as the source decides it: compare the common prefix;
   * if that is equal and the widths differ, the longer element decides — equal when
   * its tail is all NUL, otherwise the longer element is the greater.
   */
  lemma PaddedCmpCases(a: seq<nat>, b: seq<nat>)
    ensures PaddedCmp(a, b) ==
      var v := LexCmp(a[..Min(|a|, |b|)], b[..Min(|a|, |b|)]);
      if v != 0 || |a| == |b| then v
      else if |b| > |a| then (if AllZero(b[|a|..]) then 0 else -1)
      else (if AllZero(a[|b|..]) then 0 else 1)
  {
    var m := Min(|a|, |b|);
    var n := Max(|a|, |b|);
    var pa, pb := ZeroPad(a, n), ZeroPad(b, n);
    if |a| <= |b| {
      assert pa == a[..m] + Zeros(n - m) && pb == b[..m] + b[m..];
      LexCmpConcat(a[..m], Zeros(n - m), b[..m], b[m..]);
      LexCmpZerosLeft(b[m..]);
    } else {
      assert pa == a[..m] + a[m..] && pb == b[..m] + Zeros(n - m);
      LexCmpConcat(a[..m], a[m..], b[..m], Zeros(n - m));
      LexCmpZerosLeft(a[m..]);
      LexCmpAntisymmetric(Zeros(n - m), a[m..]);
    }
  }

  /** Swapping the operands negates the padded comparison. */
  lemma PaddedCmpAntisymmetric(a: seq<nat>, b: seq<nat>)
    ensures PaddedCmp(b, a) == -PaddedCmp(a, b)
  {
    var n := Max(|a|, |b|);
    LexCmpAntisymmetric(ZeroPad(a, n), ZeroPad(b, n));
  }

  /** Two elements compare equal exactly when they agree after NUL padding. */
  lemma PaddedCmpZeroIff(a: seq<nat>, b: seq<nat>)
    ensures PaddedCmp(a, b) == 0 <==> ZeroPad(a, Max(|a|, |b|)) == ZeroPad(b, Max(|a|, |b|))
  {
    var n := Max(|a|, |b|);
    LexCmpMeaning(ZeroPad(a, n), ZeroPad(b, n));
  }

  /**
   * _mystrncmp / _myunincmp: compare two elements of widths |s1| and |s2| with
   * NUL padding; only the sign of the result is modelled.
   */
  method PaddedCompare(s1: seq<nat>, s2: seq<nat>) returns (r: int)
    ensures r == PaddedCmp(s1, s2)
  {
    PaddedCmpCases(s1, s2);
    var m := if |s1| < |s2| then |s1| else |s2|;
    r := CompareUnits(s1, s2, m);
    if r != 0 || |s1| == |s2| {
      return;
    }
    var tail, start, sign;
    if |s2| > |s1| {
      tail, start, sign := s2, |s1|, -1;
    } else {
      tail, start, sign := s1, |s2|, 1;
    }
    var i := start;
    while i < |tail|
      invariant start <= i <= |tail|
      invariant forall j :: start <= j < i ==> tail[j] == 0
    {
      if tail[i] != 0 {
        assert tail[start..][i - start] != 0;
        return sign;
      }
      i := i + 1;
    }
    assert AllZero(tail[start..]);
    return 0;
  }

  // ---------------------------------------------------------------------------
  // Trailing-whitespace stripping
  // ---------------------------------------------------------------------------

  /** NUL or one of the six whitespace characters of the source's isspace macro. */
  predicate Blank(c: nat)
  {
    c == 0 || c == 32 /* ' ' */ || c == 9 /* \t */ || c == 10 /* \n */
    || c == 13 /* \r */ || c == 11 /* \v */ || c == 12 /* \f */
  }

  /**
   * Where the strippable tail begins: the maximal run of blank units at the end of
   * `s` that does not include index 0.
   */
  function TrailStart(s: seq<nat>): (k: nat)
    ensures k <= |s|
    ensures |s| >= 1 ==> k >= 1
    ensures forall i :: k <= i < |s| ==> Blank(s[i])
    ensures k >= 2 ==> !Blank(s[k - 1])
    decreases |s|
  {
    if |s| <= 1 then |s|
    else if Blank(s[|s| - 1]) then TrailStart(s[..|s| - 1])
    else |s|
  }

  /** The four properties of TrailStart's contract determine it. */
  lemma TrailStartUnique(s: seq<nat>, k: nat)
    requires k <= |s|
    requires |s| >= 1 ==> k >= 1
    requires forall i :: k <= i < |s| ==> Blank(s[i])
    requires k >= 2 ==> !Blank(s[k - 1])
    ensures TrailStart(s) == k
  {
    var k' := TrailStart(s);
    assert k' >= 2 ==> !Blank(s[k' - 1]);
    assert k' >= k;
    assert k >= k';
  }

  /** `s` with its strippable tail overwritten by NUL units. */
  function Stripped(s: seq<nat>): seq<nat>
  {
    s[..TrailStart(s)] + Zeros(|s| - TrailStart(s))
  }

  /**
   * Stripping keeps the width, never touches index 0, changes only blank units,
   * sets them to NUL, and leaves no blank unit after index 0 at the end.
   */
  lemma StrippedMeaning(s: seq<nat>)
    ensures |Stripped(s)| == |s|
    ensures |s| > 0 ==> Stripped(s)[0] == s[0]
    ensures forall i :: 0 <= i < |s| && Stripped(s)[i] != s[i] ==> i >= 1 && Blank(s[i]) && Stripped(s)[i] == 0
    ensures forall i :: TrailStart(s) <= i < |s| ==> Stripped(s)[i] == 0
    ensures forall i :: 0 <= i < TrailStart(s) ==> Stripped(s)[i] == s[i]
  {
  }

  /** Stripping twice is stripping once. */
  lemma StrippedIdempotent(s: seq<nat>)
    ensures Stripped(Stripped(s)) == Stripped(s)
  {
    var k := TrailStart(s);
    var t := Stripped(s);
    // k also starts the maximal blank tail of t: t is NUL from k on and t[k-1] == s[k-1].
    assert k >= 2 ==> t[k - 1] == s[k - 1];
    TrailStartUnique(t, k);
  }

  /**
   * _rstripw / _unistripw: overwrite the trailing blank units of `s` with NUL, from
   * the end down to index 1, stopping at the first unit that is not blank.
   */
  method StripTrailing(s: array<nat>)
    modifies s
    ensures s[..] == Stripped(old(s[..]))
  {
    ghost var k := TrailStart(old(s[..]));
    var i := s.Length - 1;
    while i >= 1
      invariant -1 <= i < s.Length
      invariant k <= i + 1
      invariant forall j :: 0 <= j <= i ==> s[j] == old(s[j])
      invariant forall j :: i < j < s.Length ==> s[j] == 0
    {
      var c := s[i];
      if Blank(c) {
        s[i] := 0;
      } else {
        break;
      }
      i := i - 1;
    }
    assert k == i + 1;
    assert s[..] == Stripped(old(s[..]));
  }

  /**
   * _char_copy_n_strip / _uni_copy_n_strip: copy an element into a fresh buffer and
   * strip the copy; the original is left as it was.
   */
  method CopyAndStrip(original: seq<nat>) returns (temp: array<nat>)
    ensures fresh(temp)
    ensures temp[..] == Stripped(original)
  {
    temp := new nat[|original|](i requires 0 <= i < |original| => original[i]);
    assert temp[..] == original;
    StripTrailing(temp);
  }

  /** A blank tail after a non-empty element makes no difference under rstrip comparison. */
  lemma RStripIgnoresTrailingBlanks(t: seq<nat>, w: seq<nat>)
    requires |t| >= 1
    requires forall i :: 0 <= i < |w| ==> Blank(w[i])
    ensures PaddedCmp(Stripped(t + w), Stripped(t)) == 0
  {
    var tw := t + w;
    var k := TrailStart(t);
    assert forall i :: k <= i < |tw| ==> Blank(tw[i]) by {
      forall i | k <= i < |tw| ensures Blank(tw[i]) {
        if i >= |t| { assert tw[i] == w[i - |t|]; }
      }
    }
    assert k >= 2 ==> tw[k - 1] == t[k - 1];
    TrailStartUnique(tw, k);
    var a, b := Stripped(tw), Stripped(t);
    assert ZeroPad(a, |a|) == ZeroPad(b, |a|);
    PaddedCmpZeroIff(a, b);
  }

  // ---------------------------------------------------------------------------
  // Per-position comparison
  // ---------------------------------------------------------------------------

  /** CPython's rich comparison operator codes. */
  const LT := 0
  const LE := 1
  const EQ := 2
  const NE := 3
  const GT := 4
  const GE := 5

  predicate ValidOp(op: int) { LT <= op <= GE }

  /** `v OP 0` for a three-way comparison result `v`. */
  function Holds(op: int, v: int): bool
    requires ValidOp(op)
  {
    if op == LT then v < 0
    else if op == LE then v <= 0
    else if op == EQ then v == 0
    else if op == NE then v != 0
    else if op == GT then v > 0
    else v >= 0
  }

  /** The comparison of one pair of elements, on stripped copies when `rstrip` is set. */
  function ElementCmp(a: seq<nat>, b: seq<nat>, rstrip: bool): int
  {
    if rstrip then PaddedCmp(Stripped(a), Stripped(b)) else PaddedCmp(a, b)
  }

  /** Kinds of element the comparison dispatch distinguishes. */
  datatype TypeNum = StringType | UnicodeType | VoidType | ObjectType | OtherType

  predicate IsText(t: TypeNum) { t == StringType || t == UnicodeType }

  /** Units per element: elsize bytes, or elsize >> 2 code points for UNICODE. */
  function UnitCount(t: TypeNum, elsize: nat): nat
  {
    if t == UnicodeType then elsize / 4 else elsize
  }

  /**
   * _compare_strings: for each of the `size` positions the broadcast iterator
   * visits, write `cmp(a_k, b_k) OP 0` into the boolean result; a bad operator code
   * is an error and writes nothing.
   */
  method CompareStrings(result: array<bool>, left: seq<seq<nat>>, right: seq<seq<nat>>,
                        op: int, rstrip: bool, kind: TypeNum, elsize1: nat, elsize2: nat)
    returns (status: int)
    requires result.Length == |left| == |right|
    requires forall k :: 0 <= k < |left| ==> |left[k]| == UnitCount(kind, elsize1)
    requires forall k :: 0 <= k < |right| ==> |right[k]| == UnitCount(kind, elsize2)
    modifies result
    ensures status == 0 || status == -1
    ensures status == 0 <==> ValidOp(op)
    ensures status == 0 ==> forall k :: 0 <= k < result.Length ==> result[k] == Holds(op, ElementCmp(left[k], right[k], rstrip))
    ensures status == -1 ==> result[..] == old(result[..])
  {
    var n1 := UnitCount(kind, elsize1);
    var n2 := UnitCount(kind, elsize2);
    if !ValidOp(op) {
      return -1;
    }
    var k := 0;
    while k < |left|
      invariant 0 <= k <= |left|
      invariant forall j :: 0 <= j < k ==> result[j] == Holds(op, ElementCmp(left[j], right[j], rstrip))
    {
      var val;
      if rstrip {
        var a := CopyAndStrip(left[k]);
        var b := CopyAndStrip(right[k]);
        val := PaddedCompare(a[..], b[..]);
      } else {
        val := PaddedCompare(left[k], right[k]);
      }
      result[k] := Holds(op, val);
      k := k + 1;
    }
    return 0;
  }

  // ---------------------------------------------------------------------------
  // Kind reconciliation and the whole text comparison
  // ---------------------------------------------------------------------------

  /** A text operand as the comparison sees it: its type number and element size. */
  datatype TextOperand = TextOperand(typeNum: TypeNum, elsize: nat)

  /** What the broadcast multi-iterator yields: the common shape and the element pairs. */
  datatype Pairs = Pairs(shape: seq<nat>, left: seq<seq<nat>>, right: seq<seq<nat>>)

  datatype CmpError =
    | InvalidStringTypes   // "invalid string data-types in comparison"
    | BroadcastFailed      // the multi-iterator could not broadcast the operands
    | BadOperator          // "bad comparison operator"
    | VoidOnlyEquality     // "Void-arrays can only be compared for equality."
    | NoFieldsFound        // "No fields found."
    | FieldCompareFailed   // the comparison of one field failed
    | DescrCompareFailed   // comparing the two dtypes for equality failed

  /** What a rich comparison returns: a boolean array, a scalar, NotImplemented or an error. */
  datatype CmpResult =
    | BoolArray(shape: seq<nat>, values: seq<bool>)
    | Scalar(b: bool)
    | NotImplemented
    | Failed(err: CmpError)

  /** The two operand kinds can be compared: equal, or (outside Py3K) STRING against UNICODE. */
  predicate Reconcilable(a: TypeNum, b: TypeNum, py3k: bool)
  {
    a == b || (!py3k && IsText(a) && IsText(b))
  }

  /**
   * The operands after kind reconciliation: a STRING side compared with a UNICODE
   * side becomes UNICODE with four bytes per character.
   */
  function Widened(self: TextOperand, other: TextOperand): (r: (TextOperand, TextOperand))
    requires Reconcilable(self.typeNum, other.typeNum, false)
    ensures r.0.typeNum == r.1.typeNum
    ensures self.typeNum != other.typeNum ==> r.0.typeNum == UnicodeType
    ensures self.typeNum == other.typeNum ==> r == (self, other)
    ensures self.typeNum == StringType && other.typeNum == UnicodeType ==> r.0.elsize == 4 * self.elsize && r.1 == other
    ensures self.typeNum == UnicodeType && other.typeNum == StringType ==> r.1.elsize == 4 * other.elsize && r.0 == self
    ensures UnitCount(r.0.typeNum, r.0.elsize) == UnitCount(self.typeNum, self.elsize)
    ensures UnitCount(r.1.typeNum, r.1.elsize) == UnitCount(other.typeNum, other.elsize)
  {
    if self.typeNum == StringType && other.typeNum == UnicodeType then
      (TextOperand(UnicodeType, self.elsize * 4), other)
    else if self.typeNum == UnicodeType && other.typeNum == StringType then
      (self, TextOperand(UnicodeType, other.elsize * 4))
    else (self, other)
  }

  predicate WellFormedPairs(p: Pairs, self: TextOperand, other: TextOperand)
  {
    |p.left| == |p.right| == Layout.Product(p.shape)
    && (forall k :: 0 <= k < |p.left| ==> |p.left[k]| == UnitCount(self.typeNum, self.elsize))
    && (forall k :: 0 <= k < |p.right| ==> |p.right[k]| == UnitCount(other.typeNum, other.elsize))
  }

  /**
   * _strings_richcompare: reconcile the kinds, broadcast, allocate a BOOL result of
   * the broadcast shape and fill it position by position. `broadcast` is the
   * multi-iterator's output for the reconciled operands, None when it fails.
   */
  method StringsRichCompare(self: TextOperand, other: TextOperand, op: int, rstrip: bool,
                            py3k: bool, broadcast: Option<Pairs>)
    returns (res: CmpResult)
    requires broadcast.Some? ==> WellFormedPairs(broadcast.value, self, other)
    ensures self.typeNum != other.typeNum && py3k ==> res == NotImplemented
    ensures !Reconcilable(self.typeNum, other.typeNum, py3k) && !py3k ==> res == Failed(InvalidStringTypes)
    ensures Reconcilable(self.typeNum, other.typeNum, py3k) && broadcast.None? ==> res == Failed(BroadcastFailed)
    ensures Reconcilable(self.typeNum, other.typeNum, py3k) && broadcast.Some? && !ValidOp(op) ==> res == Failed(BadOperator)
    ensures Reconcilable(self.typeNum, other.typeNum, py3k) && broadcast.Some? && ValidOp(op) ==>
              res.BoolArray? && res.shape == broadcast.value.shape &&
              |res.values| == Layout.Product(broadcast.value.shape) &&
              forall k :: 0 <= k < |res.values| ==>
                res.values[k] == Holds(op, ElementCmp(broadcast.value.left[k], broadcast.value.right[k], rstrip))
  {
    if self.typeNum != other.typeNum {
      if py3k {
        return NotImplemented;
      }
      if !(IsText(self.typeNum) && IsText(other.typeNum)) {
        return Failed(InvalidStringTypes);
      }
    }
    var (a, b) := Widened(self, other);
    if broadcast.None? {
      return Failed(BroadcastFailed);
    }
    var mit := broadcast.value;
    var result := new bool[|mit.left|];
    var status := CompareStrings(result, mit.left, mit.right, op, rstrip, a.typeNum, a.elsize, b.elsize);
    if status < 0 {
      return Failed(BadOperator);
    }
    return BoolArray(mit.shape, result[..]);
  }

  // ---------------------------------------------------------------------------
  // Worked cases of the padding and stripping rules
  // ---------------------------------------------------------------------------

  /** "ab" equals "ab\0"; "ab" is below "abc". */
  lemma PaddingExamples()
    ensures PaddedCmp([97, 98], [97, 98, 0]) == 0
    ensures PaddedCmp([97, 98], [97, 98, 99]) == -1
  {
    PaddedCmpCases([97, 98], [97, 98, 0]);
    PaddedCmpCases([97, 98], [97, 98, 99]);
    var ab: seq<nat> := [97, 98];
    LexCmpMeaning(ab, ab);
    assert ab[..2] == ab;
    assert [97, 98, 0][..2] == ab && AllZero([97, 98, 0][2..]);
    assert [97, 98, 99][..2] == ab && [97, 98, 99][2..][0] == 99;
  }

  /** "ab  " equals "ab" under rstrip but not without it. */
  lemma RStripExample()
    ensures ElementCmp([97, 98, 32, 32], [97, 98], true) == 0
    ensures ElementCmp([97, 98, 32, 32], [97, 98], false) == 1
  {
    RStripIgnoresTrailingBlanks([97, 98], [32, 32]);
    assert [97, 98] + [32, 32] == [97, 98, 32, 32];
    PaddedCmpCases([97, 98, 32, 32], [97, 98]);
    assert [97, 98, 32, 32][..2] == [97, 98];
    assert [97, 98, 32, 32][2..][0] == 32;
  }
}
