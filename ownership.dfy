/**
 * The base-object graph of arrays and the release of an array, from
 * arrayobject.cpp: PyArray_SetBaseObject, which points a view at the object that
 * really owns its memory, and array_dealloc, which writes an UPDATEIFCOPY array
 * back into its base and frees what the array owns.
 *
 * The interpreter's heap is an `ObjectSpace`: a map from object identities to
 * records holding the flags the two operations read, and a log of the host calls
 * (reference releases, memory frees, the copy back) in the order they are made.
 */
module Ownership {
  import opened Wrappers

  type Id = nat

  /** The parts of an object these operations read or change. */
  datatype ObjRecord = ObjRecord(
    isArray: bool,        // PyArray_Check
    ownData: bool,        // NPY_ARRAY_OWNDATA
    hasData: bool,        // the data pointer is not NULL
    maskNA: bool,         // NPY_ARRAY_MASKNA
    ownMask: bool,        // NPY_ARRAY_OWNMASKNA
    writeable: bool,      // NPY_ARRAY_WRITEABLE
    updateIfCopy: bool,   // NPY_ARRAY_UPDATEIFCOPY
    itemRefs: bool,       // the dtype holds object references (NPY_ITEM_REFCOUNT)
    base: Option<Id>,
    contents: seq<int>)   // the elements, in C order

  /** Host calls made while an array is released. */
  datatype HostCall =
    | EnableWriteable(target: Id)
    | CopyBack(dst: Id, src: Id, ok: bool)   // a failed copy is printed and cleared
    | ReleaseBase(target: Id)
    | ReleaseItems(arr: Id)
    | FreeData(arr: Id)
    | ReleaseMaskDtype(arr: Id)
    | FreeMask(arr: Id)
    | FreeShape(arr: Id)
    | ReleaseDescr(arr: Id)
    | FreeObject(arr: Id)

  datatype BaseError = NullBase | BaseAlreadySet | CircularBase

  /** Every base is a live object. */
  ghost predicate Closed(objs: map<Id, ObjRecord>)
  {
    forall id :: id in objs && objs[id].base.Some? ==> objs[id].base.value in objs
  }

  /** `rank` strictly decreases from every object to its base. */
  ghost predicate RankedBy(objs: map<Id, ObjRecord>, rank: map<Id, nat>)
  {
    (forall id :: id in objs ==> id in rank) &&
    forall id :: id in objs && objs[id].base.Some? ==>
      objs[id].base.value in rank && rank[objs[id].base.value] < rank[id]
  }

  /** Following bases from any object always ends. */
  ghost predicate Acyclic(objs: map<Id, ObjRecord>)
  {
    exists rank :: RankedBy(objs, rank)
  }

  /** `y` is reached from `x` by following at most `n` bases. */
  ghost predicate ReachesWithin(objs: map<Id, ObjRecord>, x: Id, y: Id, n: nat)
    decreases n
  {
    x == y || (n > 0 && x in objs && objs[x].base.Some? && ReachesWithin(objs, objs[x].base.value, y, n - 1))
  }

  ghost predicate Reaches(objs: map<Id, ObjRecord>, x: Id, y: Id)
  {
    exists n: nat :: ReachesWithin(objs, x, y, n)
  }

  lemma ReachesSelf(objs: map<Id, ObjRecord>, x: Id)
    ensures Reaches(objs, x, x)
  {
    assert ReachesWithin(objs, x, x, 0);
  }

  /** Reaching from an object's base is reaching from the object, and conversely once past the object itself. */
  lemma ReachesStep(objs: map<Id, ObjRecord>, x: Id, y: Id)
    requires x in objs && objs[x].base.Some? && x != y
    ensures Reaches(objs, x, y) <==> Reaches(objs, objs[x].base.value, y)
  {
    var b := objs[x].base.value;
    if Reaches(objs, x, y) {
      var n: nat :| ReachesWithin(objs, x, y, n);
      assert ReachesWithin(objs, b, y, n - 1);
    }
    if Reaches(objs, b, y) {
      var n: nat :| ReachesWithin(objs, b, y, n);
      assert ReachesWithin(objs, x, y, n + 1);
    }
  }

  /** An object without a base reaches only itself. */
  lemma ReachesFromRoot(objs: map<Id, ObjRecord>, x: Id, y: Id)
    requires x !in objs || objs[x].base.None?
    ensures Reaches(objs, x, y) <==> x == y
  {
    if x == y {
      ReachesSelf(objs, x);
    }
  }

  /**
   * The view-collapsing loop steps past `x`: an array other than `arr` that owns
   * neither its data nor (when `arr` does not own its NA mask) an NA mask, and
   * that has a base.
   */
  predicate Continues(objs: map<Id, ObjRecord>, arr: Id, x: Id)
  {
    arr in objs && x in objs &&
    objs[x].isArray && x != arr && !objs[x].ownData &&
    !(!objs[arr].ownMask && objs[x].ownMask) &&
    objs[x].base.Some?
  }

  /** `chain` is the walk of the collapsing loop from `start`, ending at the object it stops on. */
  ghost predicate IsCollapseChain(objs: map<Id, ObjRecord>, arr: Id, start: Id, chain: seq<Id>)
  {
    |chain| >= 1 && chain[0] == start &&
    (forall i :: 0 <= i < |chain| - 1 ==>
       Continues(objs, arr, chain[i]) && chain[i + 1] == objs[chain[i]].base.value) &&
    !Continues(objs, arr, chain[|chain| - 1])
  }

  /** The collapsing walk is determined by its start: two chains from one object are the same. */
  lemma {:induction false} CollapseChainUnique(objs: map<Id, ObjRecord>, arr: Id, start: Id, c1: seq<Id>, c2: seq<Id>)
    requires IsCollapseChain(objs, arr, start, c1) && IsCollapseChain(objs, arr, start, c2)
    ensures c1 == c2
    decreases |c1|
  {
    if |c1| > 1 && |c2| > 1 {
      assert Continues(objs, arr, c1[0]);
      CollapseChainUnique(objs, arr, c1[1], c1[1..], c2[1..]);
    }
  }

  /** The object the collapsing walk stops on is reached from its start by following bases. */
  lemma {:induction false} CollapseChainReaches(objs: map<Id, ObjRecord>, arr: Id, start: Id, chain: seq<Id>)
    requires IsCollapseChain(objs, arr, start, chain)
    ensures Reaches(objs, start, chain[|chain| - 1])
    decreases |chain|
  {
    if |chain| == 1 || start == chain[|chain| - 1] {
      ReachesSelf(objs, start);
    } else {
      assert Continues(objs, arr, start);
      CollapseChainReaches(objs, arr, chain[1], chain[1..]);
      ReachesStep(objs, start, chain[|chain| - 1]);
    }
  }

  /** Following bases never climbs in rank. */
  lemma {:induction false} ReachRank(objs: map<Id, ObjRecord>, rank: map<Id, nat>, x: Id, y: Id, n: nat)
    requires Closed(objs) && RankedBy(objs, rank) && x in objs && ReachesWithin(objs, x, y, n)
    ensures y in rank && rank[y] <= rank[x]
    decreases n
  {
    if x != y {
      ReachRank(objs, rank, objs[x].base.value, y, n - 1);
    }
  }

  /** An object whose base leads back to it sits on a cycle. */
  lemma CycleNotAcyclic(objs: map<Id, ObjRecord>, x: Id)
    requires Closed(objs) && x in objs && objs[x].base.Some? && Reaches(objs, objs[x].base.value, x)
    ensures !Acyclic(objs)
  {
    var b := objs[x].base.value;
    forall rank | RankedBy(objs, rank)
      ensures false
    {
      var n :| ReachesWithin(objs, b, x, n);
      ReachRank(objs, rank, b, x, n);
    }
  }

  /** Attaching a base `t` to a base-less `arr` keeps the graph acyclic when `t` does not reach `arr`. */
  lemma {:induction false} LinkPreservesAcyclic(objs: map<Id, ObjRecord>, arr: Id, t: Id)
    requires Closed(objs) && Acyclic(objs) && arr in objs && t in objs
    requires objs[arr].base.None? && !Reaches(objs, t, arr)
    ensures Acyclic(objs[arr := objs[arr].(base := Some(t))])
  {
    var rank :| RankedBy(objs, rank);
    var objs' := objs[arr := objs[arr].(base := Some(t))];
    var rank' := map id | id in objs :: if Reaches(objs, id, arr) then rank[id] + rank[t] + 1 else rank[id];
    forall id | id in objs' && objs'[id].base.Some?
      ensures objs'[id].base.value in rank' && rank'[objs'[id].base.value] < rank'[id]
    {
      if id == arr {
        ReachesSelf(objs, arr);
      } else {
        var b := objs[id].base.value;
        ReachesStep(objs, id, arr);
      }
    }
    assert RankedBy(objs', rank');
  }

  class ObjectSpace {
    var objs: map<Id, ObjRecord>
    var log: seq<HostCall>

    ghost predicate Valid()
      reads this
    {
      Closed(objs) && Acyclic(objs)
    }

    constructor(objs0: map<Id, ObjRecord>)
      requires Closed(objs0) && Acyclic(objs0)
      ensures Valid() && objs == objs0 && log == []
    {
      objs := objs0;
      log := [];
    }

    /** The collapsing loop of PyArray_SetBaseObject: the object the walk from `start` stops on. */
    method CollapseTarget(arr: Id, start: Id) returns (t: Id, ghost chain: seq<Id>)
      requires Valid() && arr in objs && start in objs
      ensures t in objs && IsCollapseChain(objs, arr, start, chain) && t == chain[|chain| - 1]
      ensures !Continues(objs, arr, t)
    {
      ghost var rank :| RankedBy(objs, rank);
      t := start;
      chain := [start];
      while Continues(objs, arr, t)
        invariant t in objs && |chain| >= 1 && chain[0] == start && chain[|chain| - 1] == t
        invariant forall i :: 0 <= i < |chain| - 1 ==>
                    Continues(objs, arr, chain[i]) && chain[i + 1] == objs[chain[i]].base.value
        decreases rank[t]
      {
        t := objs[t].base.value;
        chain := chain + [t];
      }
    }

    /** Whether following bases from `start` meets `target`. */
    method ReachesFrom(start: Id, target: Id) returns (found: bool)
      requires Valid() && start in objs
      ensures found <==> Reaches(objs, start, target)
    {
      ghost var rank :| RankedBy(objs, rank);
      var cur := start;
      while cur != target && objs[cur].base.Some?
        invariant cur in objs
        invariant Reaches(objs, start, target) <==> Reaches(objs, cur, target)
        decreases rank[cur]
      {
        ReachesStep(objs, cur, target);
        cur := objs[cur].base.value;
      }
      if cur == target {
        ReachesSelf(objs, cur);
      } else {
        ReachesFromRoot(objs, cur, target);
      }
      found := cur == target;
    }

    /**
     * PyArray_SetBaseObject as written: the base may be set once, never to NULL, and
     * is set to the object that ends the collapsing walk; the only circularity
     * rejected is a walk that ends at `arr` itself.
     */
    method SetBaseObject(arr: Id, obj: Option<Id>) returns (err: Option<BaseError>, ghost chain: seq<Id>)
      requires Valid() && arr in objs
      requires obj.Some? ==> obj.value in objs
      modifies this
      ensures log == old(log) && Closed(objs)
      ensures obj.None? ==> err == Some(NullBase) && objs == old(objs)
      ensures obj.Some? && old(objs)[arr].base.Some? ==> err == Some(BaseAlreadySet) && objs == old(objs)
      ensures obj.Some? && old(objs)[arr].base.None? ==>
                IsCollapseChain(old(objs), arr, obj.value, chain) &&
                (chain[|chain| - 1] == arr ==> err == Some(CircularBase) && objs == old(objs)) &&
                (chain[|chain| - 1] != arr ==>
                   err.None? && objs == old(objs)[arr := old(objs)[arr].(base := Some(chain[|chain| - 1]))])
    {
      chain := [];
      if obj.None? {
        return Some(NullBase), chain;
      }
      if objs[arr].base.Some? {
        return Some(BaseAlreadySet), chain;
      }
      var t;
      t, chain := CollapseTarget(arr, obj.value);
      if t == arr {
        return Some(CircularBase), chain;
      }
      objs := objs[arr := objs[arr].(base := Some(t))];
      err := None;
    }

    /**
     * PyArray_SetBaseObject with the circularity test widened to the whole base
     * chain of the collapse target: the graph stays acyclic.
     */
    method SetBaseObjectChecked(arr: Id, obj: Option<Id>) returns (err: Option<BaseError>, ghost chain: seq<Id>)
      requires Valid() && arr in objs
      requires obj.Some? ==> obj.value in objs
      modifies this
      ensures log == old(log) && Valid()
      ensures obj.None? ==> err == Some(NullBase) && objs == old(objs)
      ensures obj.Some? && old(objs)[arr].base.Some? ==> err == Some(BaseAlreadySet) && objs == old(objs)
      ensures obj.Some? && old(objs)[arr].base.None? ==>
                IsCollapseChain(old(objs), arr, obj.value, chain) &&
                (Reaches(old(objs), chain[|chain| - 1], arr) ==> err == Some(CircularBase) && objs == old(objs)) &&
                (!Reaches(old(objs), chain[|chain| - 1], arr) ==>
                   err.None? && objs == old(objs)[arr := old(objs)[arr].(base := Some(chain[|chain| - 1]))])
    {
      chain := [];
      if obj.None? {
        return Some(NullBase), chain;
      }
      if objs[arr].base.Some? {
        return Some(BaseAlreadySet), chain;
      }
      var t;
      t, chain := CollapseTarget(arr, obj.value);
      var circular := ReachesFrom(t, arr);
      if circular {
        return Some(CircularBase), chain;
      }
      LinkPreservesAcyclic(objs, arr, t);
      objs := objs[arr := objs[arr].(base := Some(t))];
      err := None;
    }

    /** The UPDATEIFCOPY part of array_dealloc: unlock the base and copy the elements back into it. */
    method WriteBack(self: Id, copyOk: bool)
      requires Closed(objs) && self in objs
      modifies this
      ensures objs == WrittenBack(old(objs), self, copyOk)
      ensures log == old(log) + WriteBackEvents(old(objs), self, copyOk)
    {
      var rec := objs[self];
      if rec.updateIfCopy && rec.base.Some? {
        var b := rec.base.value;
        log := log + [EnableWriteable(b)];
        var ok := copyOk && |objs[b].contents| == |rec.contents|;
        log := log + [CopyBack(b, self, ok)];
        var baseRec := objs[b].(writeable := true, contents := if ok then rec.contents else objs[b].contents);
        objs := objs[b := baseRec];
      }
    }

    /** Free the data of an array that owns it, releasing the items of an object dtype first. */
    method ReleaseData(self: Id, rec: ObjRecord)
      modifies this
      ensures objs == old(objs) && log == old(log) + DataEvents(rec, self)
    {
      if rec.ownData && rec.hasData {
        if rec.itemRefs {
          log := log + [ReleaseItems(self)];
        }
        log := log + [FreeData(self)];
      }
    }

    /** Release the NA mask's dtype and free the mask when the array owns it. */
    method ReleaseMask(self: Id, rec: ObjRecord)
      modifies this
      ensures objs == old(objs) && log == old(log) + MaskEvents(rec, self)
    {
      if rec.maskNA {
        log := log + [ReleaseMaskDtype(self)];
        if rec.ownMask {
          log := log + [FreeMask(self)];
        }
      }
    }

    /**
     * array_dealloc: an UPDATEIFCOPY array makes its base writeable again and
     * copies its elements back (a failed copy is reported, not raised); the base
     * reference is released; the data is freed (after releasing the items of an
     * object dtype) only when the array owns it, the NA mask only when the array
     * owns that; the shape, the dtype and the object itself go last.
     */
    method Dealloc(self: Id, copyOk: bool)
      requires Valid() && self in objs && objs[self].isArray
      requires forall id :: id in objs ==> objs[id].base != Some(self)
      modifies this
      ensures Valid()
      ensures objs == WrittenBack(old(objs), self, copyOk) - {self}
      ensures log == old(log) + DeallocEvents(old(objs), self, copyOk)
    {
      var rec := objs[self];
      ghost var objs0 := objs;
      ghost var log0 := log;
      WriteBack(self, copyOk);
      if rec.base.Some? {
        log := log + [ReleaseBase(rec.base.value)];
      }
      assert log == log0 + (WriteBackEvents(objs0, self, copyOk) + BaseEvents(rec));
      ghost var log1 := log;
      ReleaseData(self, rec);
      ReleaseMask(self, rec);
      assert log == log1 + (DataEvents(rec, self) + MaskEvents(rec, self));
      log := log + [FreeShape(self), ReleaseDescr(self), FreeObject(self)];
      AppendThree(log0, WriteBackEvents(objs0, self, copyOk) + BaseEvents(rec),
                  DataEvents(rec, self) + MaskEvents(rec, self), [FreeShape(self), ReleaseDescr(self), FreeObject(self)]);
      DeallocEventsParts(objs0, self, copyOk);
      ReleasePreservesValid(objs0, self, copyOk);
      objs := objs - {self};
    }
  }

  /**
   * The heap after the write-back: only the base of an UPDATEIFCOPY array changes,
   * becoming writeable and, when the copy succeeds, holding the array's elements.
   */
  function WrittenBack(objs: map<Id, ObjRecord>, self: Id, copyOk: bool): (objs': map<Id, ObjRecord>)
    requires Closed(objs) && self in objs
    ensures objs'.Keys == objs.Keys
  {
    var rec := objs[self];
    if rec.updateIfCopy && rec.base.Some? then
      var b := rec.base.value;
      objs[b := objs[b].(writeable := true,
                         contents := if CopySucceeds(objs, self, copyOk) then rec.contents else objs[b].contents)]
    else objs
  }

  /** The write-back changes only the record of the base of an UPDATEIFCOPY array, and not its base link. */
  lemma WrittenBackChangesOnlyBase(objs: map<Id, ObjRecord>, self: Id, copyOk: bool)
    requires Closed(objs) && self in objs
    ensures var objs' := WrittenBack(objs, self, copyOk);
            (forall id :: id in objs && !(objs[self].updateIfCopy && objs[self].base == Some(id)) ==>
               objs'[id] == objs[id]) &&
            (objs[self].updateIfCopy && objs[self].base.Some? ==>
               var b := objs[self].base.value;
               objs'[b].writeable && objs'[b].base == objs[b].base &&
               objs'[b].contents == (if CopySucceeds(objs, self, copyOk) then objs[self].contents else objs[b].contents))
  {
  }

  /** Removing an unreferenced array after the write-back keeps the heap closed and acyclic. */
  lemma ReleasePreservesValid(objs: map<Id, ObjRecord>, self: Id, copyOk: bool)
    requires Closed(objs) && Acyclic(objs) && self in objs
    requires forall id :: id in objs ==> objs[id].base != Some(self)
    ensures Closed(WrittenBack(objs, self, copyOk) - {self}) && Acyclic(WrittenBack(objs, self, copyOk) - {self})
  {
    var rank :| RankedBy(objs, rank);
    WrittenBackChangesOnlyBase(objs, self, copyOk);
    var objs' := WrittenBack(objs, self, copyOk) - {self};
    forall id | id in objs' && objs'[id].base.Some?
      ensures objs'[id].base == objs[id].base
    {
    }
    assert RankedBy(objs', rank);
  }

  /** PyArray_CopyAnyInto succeeds when the element counts agree and nothing else fails. */
  predicate CopySucceeds(objs: map<Id, ObjRecord>, self: Id, copyOk: bool)
    requires self in objs && objs[self].base.Some? && objs[self].base.value in objs
  {
    copyOk && |objs[objs[self].base.value].contents| == |objs[self].contents|
  }

  /** The write-back of an UPDATEIFCOPY array: unlock the base, then copy into it. */
  function WriteBackEvents(objs: map<Id, ObjRecord>, self: Id, copyOk: bool): seq<HostCall>
    requires Closed(objs) && self in objs
  {
    var rec := objs[self];
    if rec.updateIfCopy && rec.base.Some?
    then [EnableWriteable(rec.base.value), CopyBack(rec.base.value, self, CopySucceeds(objs, self, copyOk))]
    else []
  }

  function BaseEvents(rec: ObjRecord): seq<HostCall>
  {
    if rec.base.Some? then [ReleaseBase(rec.base.value)] else []
  }

  function DataEvents(rec: ObjRecord, self: Id): seq<HostCall>
  {
    if rec.ownData && rec.hasData
    then (if rec.itemRefs then [ReleaseItems(self)] else []) + [FreeData(self)]
    else []
  }

  function MaskEvents(rec: ObjRecord, self: Id): seq<HostCall>
  {
    if rec.maskNA then [ReleaseMaskDtype(self)] + (if rec.ownMask then [FreeMask(self)] else []) else []
  }

  /** The host calls array_dealloc makes, in order. */
  function DeallocEvents(objs: map<Id, ObjRecord>, self: Id, copyOk: bool): (ev: seq<HostCall>)
    requires Closed(objs) && self in objs
    ensures |ev| >= 3 && ev[|ev| - 1] == FreeObject(self)
    // the write-back precedes the release of the base it writes into
    ensures objs[self].updateIfCopy && objs[self].base.Some? ==>
              var b := objs[self].base.value;
              ev[0] == EnableWriteable(b) && ev[1] == CopyBack(b, self, CopySucceeds(objs, self, copyOk)) &&
              ev[2] == ReleaseBase(b)
  {
    var rec := objs[self];
    WriteBackEvents(objs, self, copyOk) + BaseEvents(rec) + DataEvents(rec, self) + MaskEvents(rec, self)
      + [FreeShape(self), ReleaseDescr(self), FreeObject(self)]
  }

  lemma AppendThree<T>(a: seq<T>, x: seq<T>, y: seq<T>, t: seq<T>)
    ensures ((a + x) + y) + t == a + ((x + y) + t)
  {
  }

  /** DeallocEvents grouped as write-back and base, data and mask, then the object itself. */
  lemma DeallocEventsParts(objs: map<Id, ObjRecord>, self: Id, copyOk: bool)
    requires Closed(objs) && self in objs
    ensures var rec := objs[self];
            DeallocEvents(objs, self, copyOk) ==
              ((WriteBackEvents(objs, self, copyOk) + BaseEvents(rec)) + (DataEvents(rec, self) + MaskEvents(rec, self)))
              + [FreeShape(self), ReleaseDescr(self), FreeObject(self)]
  {
  }

  /** The base reference is released exactly when there is one, and no other object is released as the base. */
  lemma DeallocReleasesBase(objs: map<Id, ObjRecord>, self: Id, copyOk: bool, b: Id)
    requires Closed(objs) && self in objs
    ensures ReleaseBase(b) in DeallocEvents(objs, self, copyOk) <==> objs[self].base == Some(b)
  {
    var rec := objs[self];
    var tail := DataEvents(rec, self) + MaskEvents(rec, self) + [FreeShape(self), ReleaseDescr(self), FreeObject(self)];
    assert DeallocEvents(objs, self, copyOk) == WriteBackEvents(objs, self, copyOk) + BaseEvents(rec) + tail;
    assert ReleaseBase(b) !in tail;
  }

  /** The data is freed exactly when the array owns a non-NULL buffer; the items of an object dtype are released first. */
  lemma DeallocFreesOwnedData(objs: map<Id, ObjRecord>, self: Id, copyOk: bool)
    requires Closed(objs) && self in objs
    ensures FreeData(self) in DeallocEvents(objs, self, copyOk) <==> objs[self].ownData && objs[self].hasData
    ensures ReleaseItems(self) in DeallocEvents(objs, self, copyOk) <==>
              objs[self].ownData && objs[self].hasData && objs[self].itemRefs
  {
    var rec := objs[self];
    var head := WriteBackEvents(objs, self, copyOk) + BaseEvents(rec);
    var tail := MaskEvents(rec, self) + [FreeShape(self), ReleaseDescr(self), FreeObject(self)];
    assert DeallocEvents(objs, self, copyOk) == head + DataEvents(rec, self) + tail;
    assert FreeData(self) !in head && FreeData(self) !in tail;
    assert ReleaseItems(self) !in head && ReleaseItems(self) !in tail;
  }

  /** The NA mask is freed exactly when the array has one and owns it. */
  lemma DeallocFreesOwnedMask(objs: map<Id, ObjRecord>, self: Id, copyOk: bool)
    requires Closed(objs) && self in objs
    ensures FreeMask(self) in DeallocEvents(objs, self, copyOk) <==> objs[self].maskNA && objs[self].ownMask
  {
    var rec := objs[self];
    var head := WriteBackEvents(objs, self, copyOk) + BaseEvents(rec) + DataEvents(rec, self);
    var tail := [FreeShape(self), ReleaseDescr(self), FreeObject(self)];
    assert DeallocEvents(objs, self, copyOk) == head + MaskEvents(rec, self) + tail;
    assert FreeMask(self) !in head && FreeMask(self) !in tail;
  }

  /** The read-only original of an UPDATEIFCOPY pair. */
  function UpdateIfCopyOriginal(): ObjRecord
  {
    ObjRecord(isArray := true, ownData := true, hasData := true, maskNA := false, ownMask := false,
              writeable := false, updateIfCopy := false, itemRefs := false, base := None, contents := [1, 2])
  }

  /** The writeable copy of an UPDATEIFCOPY pair: it owns its data and has object 0 as its base. */
  function UpdateIfCopyCopy(): ObjRecord
  {
    ObjRecord(isArray := true, ownData := true, hasData := true, maskNA := false, ownMask := false,
              writeable := true, updateIfCopy := true, itemRefs := false, base := Some(0), contents := [1, 2])
  }

  /**
   * An UPDATEIFCOPY copy owns its data and has the original as its base; making it
   * the original's base passes the circularity test as written and closes a cycle,
   * which the widened test rejects.
   */
  lemma CircularBaseAccepted()
    ensures var objs := map[0 := UpdateIfCopyOriginal(), 1 := UpdateIfCopyCopy()];
            Closed(objs) && Acyclic(objs) && objs[0].base.None? &&
            IsCollapseChain(objs, 0, 1, [1]) && 1 != 0 &&
            !Acyclic(objs[0 := objs[0].(base := Some(1))]) &&
            Reaches(objs, 1, 0)
  {
    var objs := map[0 := UpdateIfCopyOriginal(), 1 := UpdateIfCopyCopy()];
    assert RankedBy(objs, map[0 := 0, 1 := 1]);
    var objs' := objs[0 := objs[0].(base := Some(1))];
    assert ReachesWithin(objs', 1, 0, 1);
    CycleNotAcyclic(objs', 0);
    assert ReachesWithin(objs, 1, 0, 1);
  }

  /** Three arrays with NA masks: 0 and 2 have no base, 1 is a view of 0 that owns its own mask. */
  function MaskedHeap(): map<Id, ObjRecord>
  {
    var plain := ObjRecord(isArray := true, ownData := false, hasData := true, maskNA := true, ownMask := false,
                           writeable := true, updateIfCopy := false, itemRefs := false, base := None, contents := [1, 2]);
    map[0 := plain,
        1 := plain.(ownMask := true, base := Some(0)),
        2 := plain.(ownData := true, ownMask := true)]
  }

  /** MaskedHeap once SetBaseObject as written has made 1 the base of 0. */
  function LinkedMaskedHeap(): map<Id, ObjRecord>
  {
    MaskedHeap()[0 := MaskedHeap()[0].(base := Some(1))]
  }

  /** Every element of a collapse chain from 0 over a two-object base cycle 0 <-> 1 is 0 or 1. */
  lemma {:induction false} ChainStaysOnCycle(objs: map<Id, ObjRecord>, arr: Id, chain: seq<Id>, k: nat)
    requires 0 in objs && 1 in objs && objs[0].base == Some(1) && objs[1].base == Some(0)
    requires IsCollapseChain(objs, arr, 0, chain) && k < |chain|
    ensures chain[k] == 0 || chain[k] == 1
  {
    if k > 0 {
      ChainStaysOnCycle(objs, arr, chain, k - 1);
    }
  }

  /**
   * Making the view 1 the base of 0 passes the circularity test as written (the walk
   * from 1 stops at once, since 1 owns its mask and 0 does not), and closes the
   * cycle 0 -> 1 -> 0. Every later walk that enters the cycle on behalf of an array
   * owning its mask then has no end: no collapse chain from 0 exists for array 2.
   */
  lemma LaterWalkDiverges()
    ensures var objs := MaskedHeap();
            Closed(objs) && Acyclic(objs) && objs[0].base.None? &&
            IsCollapseChain(objs, 0, 1, [1]) &&
            LinkedMaskedHeap() == objs[0 := objs[0].(base := Some(1))] &&
            forall chain :: !IsCollapseChain(LinkedMaskedHeap(), 2, 0, chain)
  {
    var objs := MaskedHeap();
    assert RankedBy(objs, map[0 := 0, 1 := 1, 2 := 0]);
    var objs' := LinkedMaskedHeap();
    assert Continues(objs', 2, 0) && Continues(objs', 2, 1);
    forall chain | IsCollapseChain(objs', 2, 0, chain)
      ensures false
    {
      ChainStaysOnCycle(objs', 2, chain, |chain| - 1);
    }
  }
}
