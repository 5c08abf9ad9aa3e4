/**
 * Structural comparison of objects: pdf_objcmp, pdf_objcmp_resolve and
 * pdf_name_eq.
 *
 * pdf_objcmp walks arrays and dictionaries without a cycle guard, so, like
 * pdf_set_obj_parent, it is modelled over a ranked universe U in which direct
 * containment is acyclic.
 */
module Compare {
  import opened Names
  import opened Objects
  import opened Graph

  /**
   * What pdf_objcmp(a, b) == 0 means. A handle equals itself. Null, true and
   * false equal nothing else. A built-in name equals a different handle only
   * when that handle is a heap name spelling its text (which interning rules
   * out). Two heap objects must be of the same kind: integers compare
   * by value, reals by bit pattern, strings by bytes, names by text, indirect
   * references by number and generation, arrays item by item and
   * dictionaries slot by slot, keys and values alike.
   */
  ghost predicate ObjEq(a: Handle, b: Handle, U: set<PdfObj>, rank: map<PdfObj, nat>)
    requires Ranked(U, rank) && In(a, U) && In(b, U)
    reads U
    decreases Measure(a, rank)
  {
    if a == b then true
    else if (a.Imm? && a.id <= FalseId) || (b.Imm? && b.id <= FalseId) then false
    else if a.Imm? && b.Imm? then false
    else if a.Imm? then b.o.kind == NameKind && ToName(a) == b.o.name
    else if b.Imm? then a.o.kind == NameKind && a.o.name == ToName(b)
    else if a.o.kind != b.o.kind then false
    else match a.o.kind
      case IntKind => a.o.intVal == b.o.intVal
      case RealKind => a.o.realBits == b.o.realBits
      case StringKind => a.o.bytes == b.o.bytes
      case NameKind => a.o.name == b.o.name
      case IndirectKind => a.o.num == b.o.num && a.o.gen == b.o.gen
      case ArrayKind =>
        && |a.o.items| == |b.o.items|
        && forall i :: 0 <= i < |a.o.items| ==> ObjEq(a.o.items[i], b.o.items[i], U, rank)
      case DictKind =>
        && |a.o.entries| == |b.o.entries|
        && forall i :: 0 <= i < |a.o.entries| ==>
             && ObjEq(a.o.entries[i].k, b.o.entries[i].k, U, rank)
             && ObjEq(a.o.entries[i].v, b.o.entries[i].v, U, rank)
  }

  /** pdf_objcmp, reporting whether the result is 0. */
  method ObjCmp(a: Handle, b: Handle, ghost U: set<PdfObj>, ghost rank: map<PdfObj, nat>)
    returns (same: bool)
    requires Ranked(U, rank) && In(a, U) && In(b, U)
    ensures same == ObjEq(a, b, U, rank)
    decreases Measure(a, rank)
  {
    if a == b {
      return true;
    }
    if (a.Imm? && a.id <= FalseId) || (b.Imm? && b.id <= FalseId) {
      return false;
    }
    if a.Imm? && b.Imm? {
      return false;
    }
    if a.Imm? {
      return b.o.kind == NameKind && ToName(a) == b.o.name;
    }
    if b.Imm? {
      return a.o.kind == NameKind && a.o.name == ToName(b);
    }
    if a.o.kind != b.o.kind {
      return false;
    }
    match a.o.kind {
      case IntKind => same := a.o.intVal == b.o.intVal;
      case RealKind => same := a.o.realBits == b.o.realBits;
      case StringKind => same := a.o.bytes == b.o.bytes;
      case NameKind => same := a.o.name == b.o.name;
      case IndirectKind => same := a.o.num == b.o.num && a.o.gen == b.o.gen;
      case ArrayKind => same := ItemsCmp(a.o, b.o, U, rank);
      case DictKind => same := EntriesCmp(a.o, b.o, U, rank);
    }
  }

  /** The array case of pdf_objcmp: equal lengths, then the items pairwise. */
  method ItemsCmp(x: PdfObj, y: PdfObj, ghost U: set<PdfObj>, ghost rank: map<PdfObj, nat>)
    returns (same: bool)
    requires Ranked(U, rank) && x in U && y in U
    requires x.kind == ArrayKind && y.kind == ArrayKind
    ensures same == (&& |x.items| == |y.items|
                     && forall i :: 0 <= i < |x.items| ==> ObjEq(x.items[i], y.items[i], U, rank))
    decreases rank[x] + 1, 0
  {
    if |x.items| != |y.items| {
      return false;
    }
    var i := 0;
    while i < |x.items|
      invariant 0 <= i <= |x.items|
      invariant forall j :: 0 <= j < i ==> ObjEq(x.items[j], y.items[j], U, rank)
    {
      var s := ObjCmp(x.items[i], y.items[i], U, rank);
      if !s {
        return false;
      }
      i := i + 1;
    }
    return true;
  }

  /** The dictionary case of pdf_objcmp: equal lengths, then key and value slot by slot. */
  method EntriesCmp(x: PdfObj, y: PdfObj, ghost U: set<PdfObj>, ghost rank: map<PdfObj, nat>)
    returns (same: bool)
    requires Ranked(U, rank) && x in U && y in U
    requires x.kind == DictKind && y.kind == DictKind
    ensures same == (&& |x.entries| == |y.entries|
                     && forall i :: 0 <= i < |x.entries| ==>
                          && ObjEq(x.entries[i].k, y.entries[i].k, U, rank)
                          && ObjEq(x.entries[i].v, y.entries[i].v, U, rank))
    decreases rank[x] + 1, 0
  {
    if |x.entries| != |y.entries| {
      return false;
    }
    var i := 0;
    while i < |x.entries|
      invariant 0 <= i <= |x.entries|
      invariant forall j :: 0 <= j < i ==>
                  && ObjEq(x.entries[j].k, y.entries[j].k, U, rank)
                  && ObjEq(x.entries[j].v, y.entries[j].v, U, rank)
    {
      var sk := ObjCmp(x.entries[i].k, y.entries[i].k, U, rank);
      if !sk {
        return false;
      }
      var sv := ObjCmp(x.entries[i].v, y.entries[i].v, U, rank);
      if !sv {
        return false;
      }
      i := i + 1;
    }
    return true;
  }

  /** pdf_objcmp_resolve: pdf_objcmp on what the two handles resolve to. */
  method ObjCmpResolve(a: Handle, b: Handle, xref: (int, int) -> Handle,
                       ghost U: set<PdfObj>, ghost rank: map<PdfObj, nat>)
    returns (same: bool)
    requires Ranked(U, rank) && In(Resolve(a, xref), U) && In(Resolve(b, xref), U)
    ensures same == ObjEq(Resolve(a, xref), Resolve(b, xref), U, rank)
    ensures !IsIndirect(a) && !IsIndirect(b) ==> same == ObjEq(a, b, U, rank)
  {
    same := ObjCmp(Resolve(a, xref), Resolve(b, xref), U, rank);
  }

  /** pdf_objcmp is symmetric: swapping the operands does not change whether they compare equal. */
  lemma {:induction false} ObjEqSymmetric(a: Handle, b: Handle, U: set<PdfObj>, rank: map<PdfObj, nat>)
    requires Ranked(U, rank) && In(a, U) && In(b, U)
    ensures ObjEq(a, b, U, rank) == ObjEq(b, a, U, rank)
    decreases Measure(a, rank)
  {
    if a != b && a.Obj? && b.Obj? && a.o.kind == b.o.kind {
      if a.o.kind == ArrayKind && |a.o.items| == |b.o.items| {
        forall i | 0 <= i < |a.o.items|
          ensures ObjEq(a.o.items[i], b.o.items[i], U, rank) == ObjEq(b.o.items[i], a.o.items[i], U, rank)
        {
          ObjEqSymmetric(a.o.items[i], b.o.items[i], U, rank);
        }
      } else if a.o.kind == DictKind && |a.o.entries| == |b.o.entries| {
        forall i | 0 <= i < |a.o.entries|
          ensures ObjEq(a.o.entries[i].k, b.o.entries[i].k, U, rank) == ObjEq(b.o.entries[i].k, a.o.entries[i].k, U, rank)
          ensures ObjEq(a.o.entries[i].v, b.o.entries[i].v, U, rank) == ObjEq(b.o.entries[i].v, a.o.entries[i].v, U, rank)
        {
          ObjEqSymmetric(a.o.entries[i].k, b.o.entries[i].k, U, rank);
          ObjEqSymmetric(a.o.entries[i].v, b.o.entries[i].v, U, rank);
        }
      }
    }
  }

  /**
   * On names pdf_objcmp is equality of text: interning makes a built-in name
   * the only handle that spells its text.
   */
  lemma ObjEqNames(a: Handle, b: Handle, U: set<PdfObj>, rank: map<PdfObj, nat>)
    requires Ranked(U, rank) && In(a, U) && In(b, U)
    requires IsName(a) && IsName(b)
    ensures ObjEq(a, b, U, rank) <==> ToName(a) == ToName(b)
  {
    if a.Imm? && b.Imm? {
      InternedNameIdentity(a, b);
    }
  }

  /**
   * An immediate (null, true, false or a built-in name) is equal under
   * pdf_objcmp to itself only: no heap name spells a built-in name's text.
   */
  lemma ImmediateEqualsOnlyItself(a: Handle, b: Handle, U: set<PdfObj>, rank: map<PdfObj, nat>)
    requires Ranked(U, rank) && In(a, U) && In(b, U) && a.Imm?
    ensures ObjEq(a, b, U, rank) <==> a == b
    ensures ObjEq(b, a, U, rank) <==> a == b
  {
    if b.Obj? && a.id > FalseId && b.o.kind == NameKind {
      assert ToName(a) in NameTable;
    }
  }

  /**
   * pdf_objcmp's equality is transitive: it is an equivalence on the objects
   * of an acyclic universe.
   */
  lemma {:induction false} ObjEqTransitive(a: Handle, b: Handle, c: Handle, U: set<PdfObj>, rank: map<PdfObj, nat>)
    requires Ranked(U, rank) && In(a, U) && In(b, U) && In(c, U)
    requires ObjEq(a, b, U, rank) && ObjEq(b, c, U, rank)
    ensures ObjEq(a, c, U, rank)
    decreases Measure(a, rank)
  {
    if a.Imm? {
      ImmediateEqualsOnlyItself(a, b, U, rank);
    } else if b.Imm? {
      ImmediateEqualsOnlyItself(b, a, U, rank);
    } else if c.Imm? {
      ImmediateEqualsOnlyItself(c, b, U, rank);
    } else if a != b && b != c && a != c {
      if a.o.kind == ArrayKind {
        forall i | 0 <= i < |a.o.items|
          ensures ObjEq(a.o.items[i], c.o.items[i], U, rank)
        {
          ObjEqTransitive(a.o.items[i], b.o.items[i], c.o.items[i], U, rank);
        }
      } else if a.o.kind == DictKind {
        forall i | 0 <= i < |a.o.entries|
          ensures ObjEq(a.o.entries[i].k, c.o.entries[i].k, U, rank)
          ensures ObjEq(a.o.entries[i].v, c.o.entries[i].v, U, rank)
        {
          ObjEqTransitive(a.o.entries[i].k, b.o.entries[i].k, c.o.entries[i].k, U, rank);
          ObjEqTransitive(a.o.entries[i].v, b.o.entries[i].v, c.o.entries[i].v, U, rank);
        }
      }
    }
  }

  /**
   * pdf_name_eq: both handles are resolved first; null, true and false are
   * never equal names; when either side is a built-in name the handles must
   * be identical; two heap objects must both be names of the same text.
   */
  function NameEq(a: Handle, b: Handle, xref: (int, int) -> Handle): (r: bool)
    ensures r ==> IsName(Resolve(a, xref)) && IsName(Resolve(b, xref))
  {
    var x, y := Resolve(a, xref), Resolve(b, xref);
    if (x.Imm? && x.id <= FalseId) || (y.Imm? && y.id <= FalseId) then false
    else if x.Imm? || y.Imm? then x == y
    else x.o.kind == NameKind && y.o.kind == NameKind && x.o.name == y.o.name
  }

  /**
   * On names pdf_name_eq is equality of text, and so it agrees with
   * pdf_objcmp; on anything else it is false.
   */
  lemma NameEqIsTextEq(a: Handle, b: Handle, xref: (int, int) -> Handle, U: set<PdfObj>, rank: map<PdfObj, nat>)
    requires Ranked(U, rank) && In(a, U) && In(b, U)
    ensures IsName(a) && IsName(b) ==> (NameEq(a, b, xref) <==> ToName(a) == ToName(b))
    ensures IsName(a) && IsName(b) ==> (NameEq(a, b, xref) <==> ObjEq(a, b, U, rank))
    ensures !IsName(a) && !IsIndirect(a) ==> !NameEq(a, b, xref)
  {
    if IsName(a) && IsName(b) {
      ObjEqNames(a, b, U, rank);
      if a.Imm? {
        InternedNameIdentity(b, a);
      } else if b.Imm? {
        InternedNameIdentity(a, b);
      }
    }
  }
}
