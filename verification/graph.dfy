/**
 * Walks over the object graph.
 *
 * Arrays and dictionaries hold handles of other objects, so heap objects form
 * a graph. The recursive walks of the interface (pdf_set_obj_parent,
 * pdf_objcmp, pdf_deep_copy_obj) follow direct containment without a guard,
 * and so they terminate only when direct containment is acyclic: that is what
 * they demand of their callers. The model states it with a ghost universe U,
 * closed under direct containment, and a ghost ranking that strictly decreases
 * from a container to each object it holds.
 */
module Graph {
  import opened Flags
  import opened Objects

  /** The handle is an immediate, or its object is in U. */
  predicate In(h: Handle, U: set<PdfObj>) {
    h.Obj? ==> h.o in U
  }

  /** Handle h sits strictly below container o. */
  ghost predicate Below(h: Handle, o: PdfObj, U: set<PdfObj>, rank: map<PdfObj, nat>)
    requires o in rank
  {
    h.Obj? ==> h.o in U && h.o in rank && rank[h.o] < rank[o]
  }

  /** U is closed under direct containment, and `rank` decreases along it: no direct cycles. */
  ghost predicate Ranked(U: set<PdfObj>, rank: map<PdfObj, nat>)
    reads U`items, U`entries
  {
    && (forall o :: o in U ==> o in rank)
    && (forall o, i :: o in U && o.kind == ArrayKind && 0 <= i < |o.items| ==>
          Below(o.items[i], o, U, rank))
    && (forall o, i :: o in U && o.kind == DictKind && 0 <= i < |o.entries| ==>
          Below(o.entries[i].k, o, U, rank) && Below(o.entries[i].v, o, U, rank))
  }

  /** The termination measure of the walks: immediates lie below every heap object. */
  ghost function Measure(h: Handle, rank: map<PdfObj, nat>): nat {
    if h.Imm? || h.o !in rank then 0 else rank[h.o] + 1
  }

  predicate IsContainer(h: Handle) {
    IsArray(h) || IsDict(h)
  }

  /**
   * The objects pdf_set_obj_parent(h, _) writes: h itself when it is a
   * container, and recursively what the walk writes from each array item or
   * dictionary value. Keys, scalars and indirect references are not entered.
   */
  ghost predicate Stamps(h: Handle, p: PdfObj, U: set<PdfObj>, rank: map<PdfObj, nat>)
    requires In(h, U)
    reads U`items, U`entries
    decreases Measure(h, rank)
  {
    && IsContainer(h)
    && (|| h.o == p
        || (h.o.kind == ArrayKind && h.o in rank &&
            exists i :: 0 <= i < |h.o.items| && Below(h.o.items[i], h.o, U, rank) &&
                        Stamps(h.o.items[i], p, U, rank))
        || (h.o.kind == DictKind && h.o in rank &&
            exists i :: 0 <= i < |h.o.entries| && Below(h.o.entries[i].v, h.o, U, rank) &&
                        Stamps(h.o.entries[i].v, p, U, rank)))
  }

  /** Only containers carry a parent number, so only containers are stamped. */
  lemma {:induction false} StampsOnlyContainers(h: Handle, p: PdfObj, U: set<PdfObj>, rank: map<PdfObj, nat>)
    requires Ranked(U, rank) && In(h, U)
    requires Stamps(h, p, U, rank)
    ensures p in U && (p.kind == ArrayKind || p.kind == DictKind)
    decreases Measure(h, rank)
  {
    if h.o != p {
      if h.o.kind == ArrayKind {
        var i :| 0 <= i < |h.o.items| && Stamps(h.o.items[i], p, U, rank);
        StampsOnlyContainers(h.o.items[i], p, U, rank);
      } else {
        var i :| 0 <= i < |h.o.entries| && Stamps(h.o.entries[i].v, p, U, rank);
        StampsOnlyContainers(h.o.entries[i].v, p, U, rank);
      }
    }
  }

  /**
   * pdf_set_obj_parent: stamps `num` as the parent number of h and of every
   * array and dictionary nested in it through array items and dictionary
   * values; every other object keeps its parent number.
   */
  method SetObjParent(h: Handle, num: int, ghost U: set<PdfObj>, ghost rank: map<PdfObj, nat>)
    requires Ranked(U, rank) && In(h, U)
    modifies U`parentNum
    ensures forall p :: p in U ==>
              p.parentNum == if Stamps(h, p, U, rank) then num else old(p.parentNum)
    ensures IsContainer(h) ==> ObjParentNum(h) == num
    decreases Measure(h, rank), 1
  {
    if h.Obj? && h.o.kind == ArrayKind {
      SetItemsParent(h.o, num, U, rank);
    } else if h.Obj? && h.o.kind == DictKind {
      SetValuesParent(h.o, num, U, rank);
    }
  }

  /** The array case of pdf_set_obj_parent: the array, then each item in turn. */
  method SetItemsParent(o: PdfObj, num: int, ghost U: set<PdfObj>, ghost rank: map<PdfObj, nat>)
    requires Ranked(U, rank) && o in U && o.kind == ArrayKind
    modifies U`parentNum
    ensures forall p :: p in U ==>
              p.parentNum == if p == o || exists j :: 0 <= j < |o.items| && Stamps(o.items[j], p, U, rank)
                             then num else old(p.parentNum)
    decreases rank[o] + 1, 0
  {
    o.parentNum := num;
    var n := |o.items|;
    var i := 0;
    while i < n
      invariant 0 <= i <= n == |o.items|
      invariant forall p :: p in U ==>
                  p.parentNum == if p == o || exists j :: 0 <= j < i && Stamps(o.items[j], p, U, rank)
                                 then num else old(p.parentNum)
    {
      SetObjParent(o.items[i], num, U, rank);
      i := i + 1;
    }
  }

  /** The dictionary case of pdf_set_obj_parent: the dictionary, then each value in turn. */
  method SetValuesParent(o: PdfObj, num: int, ghost U: set<PdfObj>, ghost rank: map<PdfObj, nat>)
    requires Ranked(U, rank) && o in U && o.kind == DictKind
    modifies U`parentNum
    ensures forall p :: p in U ==>
              p.parentNum == if p == o || exists j :: 0 <= j < |o.entries| && Stamps(o.entries[j].v, p, U, rank)
                             then num else old(p.parentNum)
    decreases rank[o] + 1, 0
  {
    o.parentNum := num;
    var n := |o.entries|;
    var i := 0;
    while i < n
      invariant 0 <= i <= n == |o.entries|
      invariant forall p :: p in U ==>
                  p.parentNum == if p == o || exists j :: 0 <= j < i && Stamps(o.entries[j].v, p, U, rank)
                                 then num else old(p.parentNum)
    {
      SetObjParent(o.entries[i].v, num, U, rank);
      i := i + 1;
    }
  }

  /** A value bound to one document may not be linked into a container bound to another. */
  predicate DocMismatch(c: PdfObj, val: Handle) {
    c.doc != NoDoc && BoundDocument(val) != NoDoc && BoundDocument(val) != c.doc
  }

  /**
   * prepare_object_for_alteration, run by every array and dictionary mutator
   * that links `val` into container c: a value of another document is
   * refused; otherwise val and its nested containers are stamped with c's
   * parent number and c is flagged dirty. The container may itself lie in U
   * and be reached from val (a link that is about to close a cycle): the walk
   * runs before the link is stored, and stamping c gives it the number it
   * already has.
   */
  method PrepareForLink(c: PdfObj, val: Handle, ghost U: set<PdfObj>, ghost rank: map<PdfObj, nat>)
    returns (st: Status)
    requires c.kind == ArrayKind || c.kind == DictKind
    requires c.Valid()
    requires Ranked(U, rank) && In(val, U)
    modifies c`flags, U`parentNum
    ensures c.Valid() && c.parentNum == old(c.parentNum)
    ensures st == Done || st == Failed(DocumentMismatch)
    ensures st.Failed? <==> DocMismatch(c, val)
    ensures st.Failed? ==> c.flags == old(c.flags) && forall p :: p in U ==> p.parentNum == old(p.parentNum)
    ensures st.Done? ==> c.flags == SetBit(old(c.flags), Dirty)
    ensures st.Done? ==> forall p :: p in U ==>
              p.parentNum == if old(Stamps(val, p, U, rank)) then old(c.parentNum) else old(p.parentNum)
  {
    if DocMismatch(c, val) {
      return Failed(DocumentMismatch);
    }
    SetObjParent(val, c.parentNum, U, rank);
    c.flags := SetBit(c.flags, Dirty);
    st := Done;
  }

  /** No handle among the first n of hs belongs to a document other than c's. */
  ghost predicate AgreesUpTo(c: PdfObj, hs: seq<Handle>, n: int)
    requires 0 <= n <= |hs|
  {
    forall j :: 0 <= j < n ==> !DocMismatch(c, hs[j])
  }

  /** Some handle among the first n of hs has p among the objects pdf_set_obj_parent stamps from it. */
  ghost predicate StampedByAny(hs: seq<Handle>, n: int, p: PdfObj, U: set<PdfObj>, rank: map<PdfObj, nat>)
    requires 0 <= n <= |hs| && forall j :: 0 <= j < n ==> In(hs[j], U)
    reads U`items, U`entries
  {
    exists j :: 0 <= j < n && Stamps(hs[j], p, U, rank)
  }

  /** Stamping from one more handle adds what that handle stamps. */
  lemma StampedByAnyNext(hs: seq<Handle>, n: int, p: PdfObj, U: set<PdfObj>, rank: map<PdfObj, nat>)
    requires 0 <= n < |hs| && Ranked(U, rank) && forall j :: 0 <= j <= n ==> In(hs[j], U)
    ensures StampedByAny(hs, n + 1, p, U, rank) == (StampedByAny(hs, n, p, U, rank) || Stamps(hs[n], p, U, rank))
  {
  }

  /**
   * Since the parent numbers of U were `base`, exactly the objects stamped
   * from one of the first n handles of hs have taken parent number num.
   */
  ghost predicate StampedSince(U: set<PdfObj>, base: map<PdfObj, int>, hs: seq<Handle>, n: int, num: int,
                               rank: map<PdfObj, nat>)
    requires 0 <= n <= |hs| && forall j :: 0 <= j < n ==> In(hs[j], U)
    reads U
  {
    forall p :: p in U ==>
      p in base && p.parentNum == if StampedByAny(hs, n, p, U, rank) then num else base[p]
  }
}
