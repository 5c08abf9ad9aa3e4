/**
 * The array container: pdf_array_len, pdf_array_get, pdf_array_put,
 * pdf_array_push, pdf_array_insert, pdf_array_delete, pdf_array_find,
 * pdf_array_contains and pdf_copy_array.
 *
 * An array's items are the field `items` of its PdfObj, rewritten in place.
 * Every mutator that links a value in (put, push, insert) first runs the
 * shared preparation step (Graph.PrepareForLink): a value bound to another
 * document is refused, otherwise the value's containers take the array's
 * parent number and the array is flagged dirty. The walk needs the value's
 * containment to be acyclic, which the ranked universe U states of the state
 * before the link. The array may lie in U and be reached from the value:
 * pdf_array_push(a, a) is accepted, its walk stamps what a reached before the
 * push, and the link closes a cycle, after which U is no longer ranked.
 */
module Arrays {
  import opened Flags
  import opened Objects
  import opened Graph
  import opened Compare

  /** pdf_array_len: 0 for anything that is not an array. */
  function ArrayLen(a: Handle): (n: nat)
    reads Heap(a)
    ensures !IsArray(a) ==> n == 0
  {
    if IsArray(a) then |a.o.items| else 0
  }

  /** pdf_array_get: PDF_NULL for a non-array or an index outside [0, length). */
  function ArrayGet(a: Handle, i: int): (v: Handle)
    reads Heap(a)
    ensures !(0 <= i < ArrayLen(a)) ==> v == PdfNull
  {
    if IsArray(a) && 0 <= i < |a.o.items| then a.o.items[i] else PdfNull
  }

  /** No item of c belongs to a document other than c's. */
  ghost predicate ItemDocsAgree(c: PdfObj)
    reads c
  {
    forall i :: 0 <= i < |c.items| ==> !DocMismatch(c, c.items[i])
  }

  /**
   * pdf_array_put: replaces the item at index i, which must lie in
   * [0, length]; the other items stay where they are. An index equal to the
   * length appends, as pdf_array_push does.
   */
  method ArrayPut(a: Handle, i: int, val: Handle, ghost U: set<PdfObj>, ghost rank: map<PdfObj, nat>)
    returns (st: Status)
    requires Ranked(U, rank) && In(val, U)
    modifies Heap(a)`items, Heap(a)`flags, U`parentNum
    ensures !IsArray(a) ==> st == Failed(NotAnArray)
    ensures IsArray(a) && !(0 <= i <= old(ArrayLen(a))) ==> st == Failed(IndexOutOfBounds)
    ensures IsArray(a) && 0 <= i <= old(ArrayLen(a)) ==> (st.Failed? <==> DocMismatch(a.o, val))
    ensures st.Failed? ==> unchanged(Heap(a)) && unchanged(U`parentNum)
    ensures st.Done? ==>
              && a.o.items == (if i < old(|a.o.items|) then old(a.o.items)[i := val] else old(a.o.items) + [val])
              && ArrayLen(a) == old(ArrayLen(a)) + (if i == old(ArrayLen(a)) then 1 else 0)
              && ArrayGet(a, i) == val
              && (forall j :: j != i ==> ArrayGet(a, j) == old(ArrayGet(a, j)))
              && a.o.flags == SetBit(old(a.o.flags), Dirty)
              && (forall p :: p in U ==>
                    p.parentNum == if old(Stamps(val, p, U, rank)) then old(a.o.parentNum) else old(p.parentNum))
    ensures IsArray(a) && old(ItemDocsAgree(a.o)) ==> ItemDocsAgree(a.o)
  {
    if !IsArray(a) {
      return Failed(NotAnArray);
    }
    if i == |a.o.items| {
      st := ArrayPush(a, val, U, rank);
      return;
    }
    if i < 0 || i > |a.o.items| {
      return Failed(IndexOutOfBounds);
    }
    st := PrepareForLink(a.o, val, U, rank);
    if st.Done? {
      a.o.items := a.o.items[i := val];
    }
  }

  /** pdf_array_push: appends one item. */
  method ArrayPush(a: Handle, val: Handle, ghost U: set<PdfObj>, ghost rank: map<PdfObj, nat>)
    returns (st: Status)
    requires Ranked(U, rank) && In(val, U)
    modifies Heap(a)`items, Heap(a)`flags, U`parentNum
    ensures !IsArray(a) ==> st == Failed(NotAnArray)
    ensures IsArray(a) ==> (st.Failed? <==> DocMismatch(a.o, val))
    ensures st.Failed? ==> unchanged(Heap(a)) && unchanged(U`parentNum)
    ensures st.Done? ==>
              && a.o.items == old(a.o.items) + [val]
              && ArrayLen(a) == old(ArrayLen(a)) + 1
              && ArrayGet(a, ArrayLen(a) - 1) == val
              && (forall j :: j < old(ArrayLen(a)) ==> ArrayGet(a, j) == old(ArrayGet(a, j)))
              && a.o.flags == SetBit(old(a.o.flags), Dirty)
              && (forall p :: p in U ==>
                    p.parentNum == if old(Stamps(val, p, U, rank)) then old(a.o.parentNum) else old(p.parentNum))
    ensures IsArray(a) && old(ItemDocsAgree(a.o)) ==> ItemDocsAgree(a.o)
  {
    if !IsArray(a) {
      return Failed(NotAnArray);
    }
    st := PrepareForLink(a.o, val, U, rank);
    if st.Done? {
      a.o.items := a.o.items + [val];
    }
  }

  /**
   * pdf_array_push(a, a) is accepted: the walk stamps what a reached before
   * the push, a keeps its parent number, and a ends up holding itself.
   */
  method PushSelf(a: Handle, ghost U: set<PdfObj>, ghost rank: map<PdfObj, nat>) returns (st: Status)
    requires IsArray(a) && Ranked(U, rank) && a.o in U
    modifies a.o`items, a.o`flags, U`parentNum
    ensures st.Done? && a.o.items == old(a.o.items) + [a]
    ensures a.o.parentNum == old(a.o.parentNum)
  {
    st := ArrayPush(a, a, U, rank);
  }

  /**
   * pdf_array_insert: puts val at index i, which must lie in [0, length];
   * the items from i on move up by one.
   */
  method ArrayInsert(a: Handle, val: Handle, i: int, ghost U: set<PdfObj>, ghost rank: map<PdfObj, nat>)
    returns (st: Status)
    requires Ranked(U, rank) && In(val, U)
    modifies Heap(a)`items, Heap(a)`flags, U`parentNum
    ensures !IsArray(a) ==> st == Failed(NotAnArray)
    ensures IsArray(a) && !(0 <= i <= old(ArrayLen(a))) ==> st == Failed(IndexOutOfBounds)
    ensures IsArray(a) && 0 <= i <= old(ArrayLen(a)) ==> (st.Failed? <==> DocMismatch(a.o, val))
    ensures st.Failed? ==> unchanged(Heap(a)) && unchanged(U`parentNum)
    ensures st.Done? ==>
              && a.o.items == old(a.o.items)[..i] + [val] + old(a.o.items)[i..]
              && ArrayLen(a) == old(ArrayLen(a)) + 1
              && ArrayGet(a, i) == val
              && (forall j :: j < i ==> ArrayGet(a, j) == old(ArrayGet(a, j)))
              && (forall j :: i < j ==> ArrayGet(a, j) == old(ArrayGet(a, j - 1)))
              && a.o.flags == SetBit(old(a.o.flags), Dirty)
              && (forall p :: p in U ==>
                    p.parentNum == if old(Stamps(val, p, U, rank)) then old(a.o.parentNum) else old(p.parentNum))
    ensures IsArray(a) && old(ItemDocsAgree(a.o)) ==> ItemDocsAgree(a.o)
  {
    if !IsArray(a) {
      return Failed(NotAnArray);
    }
    if i < 0 || i > |a.o.items| {
      return Failed(IndexOutOfBounds);
    }
    st := PrepareForLink(a.o, val, U, rank);
    if st.Done? {
      a.o.items := a.o.items[..i] + [val] + a.o.items[i..];
    }
  }

  /**
   * pdf_array_delete: removes the item at index i, which must lie in
   * [0, length); the items after it move down by one. Nothing is linked, so
   * no document check and no parent stamping happen; the array turns dirty.
   */
  method ArrayDelete(a: Handle, i: int) returns (st: Status)
    modifies Heap(a)`items, Heap(a)`flags
    ensures !IsArray(a) ==> st == Failed(NotAnArray)
    ensures IsArray(a) && !(0 <= i < old(ArrayLen(a))) ==> st == Failed(IndexOutOfBounds)
    ensures IsArray(a) && 0 <= i < old(ArrayLen(a)) ==> st == Done
    ensures st.Failed? ==> unchanged(Heap(a))
    ensures st.Done? ==>
              && a.o.items == old(a.o.items)[..i] + old(a.o.items)[i + 1..]
              && ArrayLen(a) == old(ArrayLen(a)) - 1
              && (forall j :: j < i ==> ArrayGet(a, j) == old(ArrayGet(a, j)))
              && (forall j :: i <= j ==> ArrayGet(a, j) == old(ArrayGet(a, j + 1)))
              && a.o.flags == SetBit(old(a.o.flags), Dirty)
    ensures IsArray(a) && old(ItemDocsAgree(a.o)) ==> ItemDocsAgree(a.o)
  {
    if !IsArray(a) {
      return Failed(NotAnArray);
    }
    if i < 0 || i >= |a.o.items| {
      return Failed(IndexOutOfBounds);
    }
    a.o.flags := SetBit(a.o.flags, Dirty);
    a.o.items := a.o.items[..i] + a.o.items[i + 1..];
    st := Done;
  }

  // ---------------------------------------------------------------- search

  /** The index of the first item pdf_objcmp finds equal to obj, or -1. */
  ghost function FirstMatch(items: seq<Handle>, obj: Handle, U: set<PdfObj>, rank: map<PdfObj, nat>): (r: int)
    requires Ranked(U, rank) && In(obj, U)
    requires forall j :: 0 <= j < |items| ==> In(items[j], U)
    reads U
    ensures -1 <= r < |items|
    ensures r >= 0 ==> ObjEq(items[r], obj, U, rank)
    ensures forall j :: 0 <= j < |items| && (r < 0 || j < r) ==> !ObjEq(items[j], obj, U, rank)
    decreases |items|
  {
    if |items| == 0 then -1
    else if ObjEq(items[0], obj, U, rank) then 0
    else
      var r := FirstMatch(items[1..], obj, U, rank);
      if r < 0 then -1 else r + 1
  }


  /**
   * pdf_array_find: the first index whose item pdf_objcmp finds equal to obj,
   * or -1; a non-array has no items.
   */
  method ArrayFind(a: Handle, obj: Handle, ghost U: set<PdfObj>, ghost rank: map<PdfObj, nat>)
    returns (r: int)
    requires Ranked(U, rank) && In(a, U) && In(obj, U)
    ensures IsArray(a) ==> r == FirstMatch(a.o.items, obj, U, rank)
    ensures !IsArray(a) ==> r == -1
  {
    if !IsArray(a) {
      return -1;
    }
    var items := a.o.items;
    var i := 0;
    while i < |items|
      invariant 0 <= i <= |items|
      invariant forall j :: 0 <= j < i ==> !ObjEq(items[j], obj, U, rank)
    {
      var same := ObjCmp(items[i], obj, U, rank);
      if same {
        MatchIsFirst(items, obj, U, rank, i);
        return i;
      }
      i := i + 1;
    }
    MatchIsFirst(items, obj, U, rank, -1);
    r := -1;
  }

  /** pdf_array_contains: whether some item compares equal to obj, which is when pdf_array_find succeeds. */
  method ArrayContains(a: Handle, obj: Handle, ghost U: set<PdfObj>, ghost rank: map<PdfObj, nat>)
    returns (c: bool)
    requires Ranked(U, rank) && In(a, U) && In(obj, U)
    ensures IsArray(a) ==> (c <==> exists j :: 0 <= j < |a.o.items| && ObjEq(a.o.items[j], obj, U, rank))
    ensures IsArray(a) ==> (c <==> FirstMatch(a.o.items, obj, U, rank) >= 0)
    ensures !IsArray(a) ==> !c
  {
    if !IsArray(a) {
      return false;
    }
    var items := a.o.items;
    var i := 0;
    while i < |items|
      invariant 0 <= i <= |items|
      invariant forall j :: 0 <= j < i ==> !ObjEq(items[j], obj, U, rank)
    {
      var same := ObjCmp(items[i], obj, U, rank);
      if same {
        return true;
      }
      i := i + 1;
    }
    c := false;
  }

  /**
   * FirstMatch is characterised by its contract: an index whose item matches
   * with no match before it, or -1 when nothing matches.
   */
  lemma MatchIsFirst(items: seq<Handle>, obj: Handle, U: set<PdfObj>, rank: map<PdfObj, nat>, r: int)
    requires Ranked(U, rank) && In(obj, U)
    requires forall j :: 0 <= j < |items| ==> In(items[j], U)
    requires -1 <= r < |items|
    requires r >= 0 ==> ObjEq(items[r], obj, U, rank)
    requires forall j :: 0 <= j < |items| && (r < 0 || j < r) ==> !ObjEq(items[j], obj, U, rank)
    ensures FirstMatch(items, obj, U, rank) == r
  {
  }

  // ---------------------------------------------------------------- copy

  /**
   * One round of the loop of pdf_copy_array: item i of the original a is
   * pushed onto the copy c, which holds the items before it.
   */
  method CopyItem(c: Handle, a: PdfObj, i: nat, ghost U: set<PdfObj>, ghost rank: map<PdfObj, nat>,
                  ghost base: map<PdfObj, int>)
    returns (st: Status)
    requires Ranked(U, rank) && a in U && a.kind == ArrayKind && i < |a.items|
    requires IsArray(c) && c.o !in U && c.o.doc == a.doc && c.o.parentNum == 0
    requires c.o.items == a.items[..i] && AgreesUpTo(a, a.items, i)
    requires StampedSince(U, base, a.items, i, 0, rank)
    modifies c.o`items, c.o`flags, U`parentNum
    ensures st.Failed? <==> DocMismatch(a, a.items[i])
    ensures st.Done? ==>
              && c.o.items == a.items[..i + 1] && AgreesUpTo(a, a.items, i + 1)
              && IsDirty(c.o.flags) && StampedSince(U, base, a.items, i + 1, 0, rank)
  {
    st := ArrayPush(c, a.items[i], U, rank);
    if st.Done? {
      assert a.items[..i + 1] == a.items[..i] + [a.items[i]];
      forall p | p in U
        ensures p in base && p.parentNum == if StampedByAny(a.items, i + 1, p, U, rank) then 0 else base[p]
      {
        StampedByAnyNext(a.items, i, p, U, rank);
      }
    }
  }

  /**
   * The loop of pdf_copy_array: the items of a are pushed in order onto the
   * empty array c, stopping at the first one bound to another document.
   */
  method PushAll(c: Handle, a: PdfObj, ghost U: set<PdfObj>, ghost rank: map<PdfObj, nat>,
                 ghost base: map<PdfObj, int>)
    returns (ok: bool)
    requires Ranked(U, rank) && a in U && a.kind == ArrayKind
    requires IsArray(c) && c.o !in U && c.o.doc == a.doc && c.o.parentNum == 0
    requires c.o.items == [] && !IsDirty(c.o.flags)
    requires StampedSince(U, base, a.items, 0, 0, rank)
    modifies c.o`items, c.o`flags, U`parentNum
    ensures ok <==> AgreesUpTo(a, a.items, |a.items|)
    ensures ok ==>
              && c.o.items == a.items && IsDirty(c.o.flags) == (|a.items| > 0)
              && StampedSince(U, base, a.items, |a.items|, 0, rank)
  {
    var i := 0;
    while i < |a.items|
      invariant 0 <= i <= |a.items|
      invariant c.o.items == a.items[..i] && IsDirty(c.o.flags) == (i > 0)
      invariant AgreesUpTo(a, a.items, i)
      invariant StampedSince(U, base, a.items, i, 0, rank)
    {
      var st := CopyItem(c, a, i, U, rank, base);
      if st.Failed? {
        return false;
      }
      i := i + 1;
    }
    assert a.items[..i] == a.items;
    return true;
  }

  /** pdf_copy_array: a fresh array holding the same item handles, in the same order. */
  method CopyArray(a: Handle, ghost U: set<PdfObj>, ghost rank: map<PdfObj, nat>) returns (r: Result<Handle>)
    requires Ranked(U, rank) && In(a, U)
    modifies U`parentNum
    ensures !IsArray(a) ==> r == Fail(NotAnArray) && unchanged(U`parentNum)
    ensures IsArray(a) ==> (r.Fail? <==> exists j :: 0 <= j < |a.o.items| && DocMismatch(a.o, a.o.items[j]))
    ensures IsArray(a) && r.Fail? ==> r.err == DocumentMismatch
    ensures r.Ok? ==>
              && IsArray(r.value) && fresh(r.value.o)
              && r.value.o.items == a.o.items
              && BoundDocument(r.value) == BoundDocument(a)
              && ObjParentNum(r.value) == 0
              && ObjIsDirty(r.value) == (|a.o.items| > 0)
              && (forall p :: p in U ==>
                    p.parentNum == if StampedByAny(a.o.items, |a.o.items|, p, U, rank) then 0 else old(p.parentNum))
  {
    if !IsArray(a) {
      return Fail(NotAnArray);
    }
    ghost var base := map p | p in U :: p.parentNum;
    var c := NewArray(a.o.doc, Wrap32(|a.o.items|));
    var ok := PushAll(c, a.o, U, rank, base);
    if !ok {
      return Fail(DocumentMismatch);
    }
    r := Ok(c);
  }
}
