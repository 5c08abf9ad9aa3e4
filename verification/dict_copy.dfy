/**
 * pdf_copy_dict: a shallow copy of a dictionary.
 *
 * The copy is a new dictionary bound to the original's document, filled by
 * pdf_dict_put entry by entry, so it shares its values with the original,
 * every copied value is stamped with the new dictionary's parent number (0),
 * and a value bound to another document makes the copy fail part-way.
 */
module DictCopy {
  import opened Flags
  import opened Objects
  import opened Graph
  import opened DictSpec
  import opened Dicts

  /** The values of a dictionary's entries, in entry order. */
  function Values(e: seq<KeyVal>): (vs: seq<Handle>)
    ensures |vs| == |e| && forall j :: 0 <= j < |e| ==> vs[j] == e[j].v
  {
    seq(|e|, j requires 0 <= j < |e| => e[j].v)
  }

  /**
   * Entries ce hold the first n entries of e: each of their keys looks up its
   * value in ce, and every other name looks up nothing.
   */
  ghost predicate Holds(ce: seq<KeyVal>, e: seq<KeyVal>, n: int)
    requires 0 <= n <= |e|
  {
    && (forall j :: 0 <= j < n ==> Lookup(ce, KeyText(e[j])) == e[j].v)
    && (forall t :: (forall j :: 0 <= j < n ==> KeyText(e[j]) != t) ==> Lookup(ce, t) == PdfNull)
  }

  /** The copy c is a dictionary holding the first n entries of e. */
  ghost predicate CopiedUpTo(c: Handle, e: seq<KeyVal>, n: int)
    requires 0 <= n <= |e|
    reads Heap(c)
  {
    IsDict(c) && Holds(c.o.entries, e, n)
  }

  /** A copy that holds every entry of a well-formed e looks up what e looks up. */
  lemma CopiedAll(c: Handle, e: seq<KeyVal>)
    requires WellFormedDict(e, false) && CopiedUpTo(c, e, |e|)
    ensures forall t :: GetText(c, t) == Lookup(e, t)
  {
    forall t
      ensures GetText(c, t) == Lookup(e, t)
    {
      if j :| 0 <= j < |e| && KeyText(e[j]) == t {
        LookupFound(e, t, j);
      }
    }
  }

  /**
   * Putting entry i of e, whose keys are distinct, into entries ce that held
   * the entries before it gives entries ce' that hold the first i + 1.
   */
  lemma CopiedNext(ce: seq<KeyVal>, ce': seq<KeyVal>, e: seq<KeyVal>, i: nat)
    requires i < |e| && forall j :: 0 <= j < i ==> KeyText(e[j]) != KeyText(e[i])
    requires Holds(ce, e, i)
    requires Lookup(ce', KeyText(e[i])) == e[i].v
    requires forall t :: t != KeyText(e[i]) ==> Lookup(ce', t) == Lookup(ce, t)
    ensures Holds(ce', e, i + 1)
  {
    forall t | forall j :: 0 <= j < i + 1 ==> KeyText(e[j]) != t
      ensures Lookup(ce', t) == PdfNull
    {
      assert KeyText(e[i]) != t;
    }
  }

  /**
   * The put of one round of the loop of pdf_copy_dict: entry i of the
   * original's entries e is put into the copy c, which holds the entries
   * before it, and the subtree of its value is stamped with parent number 0.
   */
  method PutEntry(c: Handle, e: seq<KeyVal>, i: nat, ghost U: set<PdfObj>, ghost rank: map<PdfObj, nat>)
    returns (st: Status)
    requires Ranked(U, rank) && i < |e| && In(e[i].v, U)
    requires IsName(e[i].k) && forall j :: 0 <= j < i ==> KeyText(e[j]) != KeyText(e[i])
    requires IsDict(c) && ValidHandle(c) && c.o !in U && c.o.parentNum == 0
    requires CopiedUpTo(c, e, i)
    modifies c.o`entries, c.o`flags, U`parentNum
    ensures ValidHandle(c)
    ensures st.Failed? <==> DocMismatch(c.o, e[i].v)
    ensures st.Done? ==>
              && CopiedUpTo(c, e, i + 1)
              && (forall p :: p in U ==> p.parentNum == if Stamps(e[i].v, p, U, rank) then 0 else old(p.parentNum))
  {
    ghost var ce := c.o.entries;
    var replaced;
    st, replaced := PutInto(c.o, e[i].k, e[i].v, U, rank);
    if st.Done? {
      PutAfterAutoSort(ce, IsSorted(old(c.o.flags)), e[i].k, e[i].v);
      CopiedNext(ce, c.o.entries, e, i);
    }
  }

  /**
   * One round of the loop of pdf_copy_dict: entry i of e is put into the
   * copy, and the stamps of the values before it grow by its value's subtree.
   */
  method CopyEntry(c: Handle, e: seq<KeyVal>, i: nat, ghost U: set<PdfObj>, ghost rank: map<PdfObj, nat>,
                   ghost base: map<PdfObj, int>)
    returns (st: Status)
    requires Ranked(U, rank) && i < |e| && forall j :: 0 <= j < |e| ==> In(e[j].v, U)
    requires IsName(e[i].k) && forall j :: 0 <= j < i ==> KeyText(e[j]) != KeyText(e[i])
    requires IsDict(c) && ValidHandle(c) && c.o !in U && c.o.parentNum == 0
    requires CopiedUpTo(c, e, i) && AgreesUpTo(c.o, Values(e), i)
    requires StampedSince(U, base, Values(e), i, 0, rank)
    modifies c.o`entries, c.o`flags, U`parentNum
    ensures ValidHandle(c)
    ensures st.Failed? <==> DocMismatch(c.o, e[i].v)
    ensures st.Done? ==>
              && CopiedUpTo(c, e, i + 1) && AgreesUpTo(c.o, Values(e), i + 1)
              && StampedSince(U, base, Values(e), i + 1, 0, rank)
  {
    ghost var vs := Values(e);
    assert vs[i] == e[i].v;
    st := PutEntry(c, e, i, U, rank);
    if st.Done? {
      forall p | p in U
        ensures p in base && p.parentNum == if StampedByAny(vs, i + 1, p, U, rank) then 0 else base[p]
      {
        StampedByAnyNext(vs, i, p, U, rank);
      }
    }
  }

  /**
   * The loop of pdf_copy_dict: the entries of d are put in order into the
   * empty dictionary c, stopping at the first value bound to another document.
   */
  method PutAll(c: Handle, d: PdfObj, ghost U: set<PdfObj>, ghost rank: map<PdfObj, nat>,
                ghost base: map<PdfObj, int>)
    returns (ok: bool)
    requires Ranked(U, rank) && d in U && d.kind == DictKind && d.Valid()
    requires IsDict(c) && ValidHandle(c) && c.o !in U && c.o.doc == d.doc && c.o.parentNum == 0
    requires c.o.entries == []
    requires StampedSince(U, base, Values(d.entries), 0, 0, rank)
    modifies c.o`entries, c.o`flags, U`parentNum
    ensures ValidHandle(c)
    ensures ok <==> AgreesUpTo(d, Values(d.entries), |d.entries|)
    ensures ok ==>
              && CopiedUpTo(c, d.entries, |d.entries|)
              && StampedSince(U, base, Values(d.entries), |d.entries|, 0, rank)
  {
    var e := d.entries;
    assert forall j :: 0 <= j < |e| ==> In(e[j].v, U);
    var i := 0;
    while i < |e|
      invariant 0 <= i <= |e|
      invariant ValidHandle(c)
      invariant CopiedUpTo(c, e, i) && AgreesUpTo(c.o, Values(e), i)
      invariant StampedSince(U, base, Values(e), i, 0, rank)
    {
      assert IsName(e[i].k) && forall j :: 0 <= j < i ==> KeyText(e[j]) != KeyText(e[i]);
      var st := CopyEntry(c, e, i, U, rank, base);
      if st.Failed? {
        return false;
      }
      i := i + 1;
    }
    return true;
  }

  /**
   * pdf_copy_dict: a fresh dictionary under which every name looks up the
   * same value as in the original.
   */
  method CopyDict(d: Handle, ghost U: set<PdfObj>, ghost rank: map<PdfObj, nat>) returns (r: Result<Handle>)
    requires ValidHandle(d) && Ranked(U, rank) && In(d, U)
    modifies U`parentNum
    ensures !IsDict(d) ==> r == Fail(NotADict) && unchanged(U`parentNum)
    ensures IsDict(d) ==> (r.Fail? <==> exists j :: 0 <= j < |d.o.entries| && DocMismatch(d.o, d.o.entries[j].v))
    ensures IsDict(d) && r.Fail? ==> r.err == DocumentMismatch
    ensures r.Ok? ==>
              && IsDict(r.value) && fresh(r.value.o) && ValidHandle(r.value)
              && BoundDocument(r.value) == BoundDocument(d)
              && ObjParentNum(r.value) == 0
              && (forall t :: GetText(r.value, t) == GetText(d, t))
              && (forall p :: p in U ==>
                    p.parentNum == if StampedByAny(Values(d.o.entries), |d.o.entries|, p, U, rank)
                                   then 0 else old(p.parentNum))
  {
    if !IsDict(d) {
      return Fail(NotADict);
    }
    ghost var base := map p | p in U :: p.parentNum;
    var c := NewDict(d.o.doc, Wrap32(|d.o.entries|));
    var ok := PutAll(c, d.o, U, rank, base);
    if !ok {
      return Fail(DocumentMismatch);
    }
    CopiedAll(c, d.o.entries);
    r := Ok(c);
  }
}
