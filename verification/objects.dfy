/**
 * The PDF object value core (include/mupdf/pdf/object.h).
 *
 * A pdf_obj pointer is a Handle: either an immediate constant below PDF_LIMIT
 * (null, true, false, a built-in name) or a reference to a heap object. Heap
 * objects are shared by reference and changed in place, so they are instances
 * of the class PdfObj. What never changes after creation (the kind, a name's
 * text, a real's bits, an indirect reference's numbers and the owning
 * document) is a `const`; the integer value, the string's bytes, the array
 * items, the dictionary entries, the flag byte and the parent number are
 * fields that the mutators rewrite.
 */
module Objects {
  import opened Names
  import opened Flags

  /** PDF_MAX_OBJECT_NUMBER: the largest object number an indirect reference may carry. */
  const MaxObjectNumber: int := 8388607

  const TwoTo31: int := 0x8000_0000
  const TwoTo32: int := 0x1_0000_0000

  /** The C integer types of the interface. */
  type Int32 = x: int | -0x8000_0000 <= x < 0x8000_0000
  type Int64 = x: int | -0x8000_0000_0000_0000 <= x < 0x8000_0000_0000_0000
  type Byte = x: int | 0 <= x < 256

  /** An object number an indirect reference may carry. */
  type ObjNum = n: int | 0 <= n <= MaxObjectNumber

  /** Identity of a document an object is bound to; 0 stands for "no document". */
  type DocId = nat
  const NoDoc: DocId := 0

  datatype Kind = IntKind | RealKind | NameKind | StringKind | ArrayKind | DictKind | IndirectKind

  /** The text a heap name object may hold: never a built-in name, because pdf_new_name interns those. */
  type HeapName = s: string | s !in NameTable

  datatype Handle = Imm(id: ImmId) | Obj(o: PdfObj)

  /** One dictionary entry. */
  datatype KeyVal = KeyVal(k: Handle, v: Handle)

  /** Errors the interface throws. */
  datatype Error =
    | NotAnArray
    | NotADict
    | KeyNotAName
    | IndexOutOfBounds
    | InvalidObjectNumber
    | DocumentMismatch

  datatype Status = Done | Failed(err: Error)

  datatype Result<T> = Ok(value: T) | Fail(err: Error)

  const PdfNull: Handle := Imm(NullId)
  const PdfTrue: Handle := Imm(TrueId)
  const PdfFalse: Handle := Imm(FalseId)

  class PdfObj {
    const kind: Kind
    const realBits: bv32
    const name: HeapName
    const doc: DocId
    const num: ObjNum
    const gen: int

    var intVal: Int64
    var bytes: seq<Byte>
    var items: seq<Handle>
    var entries: seq<KeyVal>
    var flags: bv8
    var parentNum: int

    /** The object invariant. */
    ghost predicate Valid()
      reads this
    {
      kind == DictKind ==> WellFormedDict(entries, IsSorted(flags))
    }

    /** A fresh object: no flags set, no parent, empty containers. */
    constructor Init(k: Kind, i: Int64, r: bv32, n: HeapName, b: seq<Byte>, d: DocId, nm: ObjNum, g: int)
      ensures kind == k && intVal == i && realBits == r && name == n && bytes == b
      ensures doc == d && num == nm && gen == g
      ensures items == [] && entries == [] && flags == 0 && parentNum == 0
      ensures Valid()
    {
      kind, intVal, realBits, name, bytes := k, i, r, n, b;
      doc, num, gen := d, nm, g;
      items, entries, flags, parentNum := [], [], 0, 0;
    }
  }

  /** The heap object behind a handle, if any. */
  function Heap(h: Handle): set<PdfObj> {
    if h.Obj? then {h.o} else {}
  }

  ghost predicate ValidHandle(h: Handle)
    reads Heap(h)
  {
    h.Obj? ==> h.o.Valid()
  }

  // ---------------------------------------------------------------- type queries

  predicate IsNull(h: Handle) { h == PdfNull }
  predicate IsBool(h: Handle) { h == PdfTrue || h == PdfFalse }
  predicate IsInt(h: Handle) { h.Obj? && h.o.kind == IntKind }
  predicate IsReal(h: Handle) { h.Obj? && h.o.kind == RealKind }
  predicate IsNumber(h: Handle) { IsInt(h) || IsReal(h) }
  predicate IsName(h: Handle) {
    if h.Imm? then h.id > FalseId else h.o.kind == NameKind
  }
  predicate IsString(h: Handle) { h.Obj? && h.o.kind == StringKind }
  predicate IsArray(h: Handle) { h.Obj? && h.o.kind == ArrayKind }
  predicate IsDict(h: Handle) { h.Obj? && h.o.kind == DictKind }
  predicate IsIndirect(h: Handle) { h.Obj? && h.o.kind == IndirectKind }

  /**
   * Every handle is of exactly one kind, and a handle below PDF_LIMIT is never
   * a heap object. These are the tests of the handle as given; what the
   * library's tests report for an indirect reference is ResolvedKinds.
   */
  lemma ExactlyOneKind(h: Handle)
    ensures h.Imm? ==> IsNull(h) || IsBool(h) || IsName(h)
    ensures h.Obj? ==> !IsNull(h) && !IsBool(h)
    ensures var ks := [IsNull(h), IsBool(h), IsInt(h), IsReal(h), IsName(h),
                       IsString(h), IsArray(h), IsDict(h), IsIndirect(h)];
            forall i, j :: 0 <= i < j < |ks| ==> !(ks[i] && ks[j])
    ensures IsNull(h) || IsBool(h) || IsInt(h) || IsReal(h) || IsName(h) ||
            IsString(h) || IsArray(h) || IsDict(h) || IsIndirect(h)
  {
  }

  // ---------------------------------------------------------------- coercions

  /** The C conversion of a 64-bit integer to `int`: two's-complement wrap-around. */
  function Wrap32(x: int): (r: Int32)
    ensures (r - x) % TwoTo32 == 0
    ensures -TwoTo31 <= x < TwoTo31 ==> r == x
  {
    (x + TwoTo31) % TwoTo32 - TwoTo31
  }

  /** pdf_to_name: a name's text; "" for anything that is not a name. */
  function ToName(h: Handle): (s: string)
    ensures !IsName(h) ==> s == ""
    ensures h.Imm? && IsName(h) ==> s in NameTable
    ensures h.Obj? && IsName(h) ==> s !in NameTable
  {
    if h.Imm? then ImmText(h.id)
    else if h.o.kind == NameKind then h.o.name
    else ""
  }

  /** pdf_to_bool: true only for PDF_TRUE. */
  function ToBool(h: Handle): (b: bool)
    ensures b ==> IsBool(h)
    ensures IsBool(h) ==> (b <==> h != PdfFalse)
  {
    h == PdfTrue
  }

  /**
   * pdf_to_int64: an integer's value, a real rounded by `round` (the float
   * arithmetic, outside this model), 0 for anything else.
   */
  function ToInt64(h: Handle, round: bv32 -> Int64): (r: Int64)
    reads Heap(h)
    ensures !IsNumber(h) ==> r == 0
    ensures IsInt(h) ==> r == h.o.intVal
  {
    if IsInt(h) then h.o.intVal
    else if IsReal(h) then round(h.o.realBits)
    else 0
  }

  /**
   * pdf_to_int: an integer's value converted to the 32-bit `int` of the
   * interface, a real rounded by `round` and cut to 32 bits, 0 for anything
   * else.
   */
  function ToInt(h: Handle, round: bv32 -> Int64): (r: Int32)
    reads Heap(h)
    ensures !IsNumber(h) ==> r == 0
    ensures IsInt(h) && -TwoTo31 <= h.o.intVal < TwoTo31 ==> r == h.o.intVal
    ensures IsInt(h) ==> (r - h.o.intVal) % TwoTo32 == 0
  {
    Wrap32(ToInt64(h, round))
  }

  /** pdf_to_str_buf: a string's bytes; empty for anything else. */
  function ToStrBuf(h: Handle): (s: seq<Byte>)
    reads Heap(h)
    ensures !IsString(h) ==> s == []
  {
    if IsString(h) then h.o.bytes else []
  }

  /** pdf_to_str_len: the length of what pdf_to_str_buf returns. */
  function ToStrLen(h: Handle): (n: int)
    reads Heap(h)
    ensures n == |ToStrBuf(h)|
    ensures !IsString(h) ==> n == 0
  {
    if IsString(h) then |h.o.bytes| else 0
  }

  /** pdf_to_num: an indirect reference's object number, 0 for anything else. */
  function ToNum(h: Handle): (n: int)
    ensures !IsIndirect(h) ==> n == 0
    ensures 0 <= n <= MaxObjectNumber
  {
    if IsIndirect(h) then h.o.num else 0
  }

  /** pdf_to_gen: an indirect reference's generation, 0 for anything else. */
  function ToGen(h: Handle): (g: int)
    ensures !IsIndirect(h) ==> g == 0
  {
    if IsIndirect(h) then h.o.gen else 0
  }

  /**
   * The coercions never fail: on a handle of the wrong kind they all return
   * their default, so that a 0 from pdf_to_int says nothing about the kind; a
   * null, a name and an integer 0 all read as 0. The library applies them to
   * the resolved handle, so a reference reads as its target.
   */
  lemma SilentDefaults(h: Handle, round: bv32 -> Int64)
    ensures !IsBool(h) ==> !ToBool(h)
    ensures !IsNumber(h) ==> ToInt(h, round) == 0 && ToInt64(h, round) == 0
    ensures !IsName(h) ==> ToName(h) == ""
    ensures !IsString(h) ==> ToStrBuf(h) == [] && ToStrLen(h) == 0
    ensures !IsIndirect(h) ==> ToNum(h) == 0 && ToGen(h) == 0
  {
  }

  /** pdf_get_bound_document: the document an array, dictionary or indirect reference belongs to. */
  function BoundDocument(h: Handle): (d: DocId)
    ensures !(IsArray(h) || IsDict(h) || IsIndirect(h)) ==> d == NoDoc
  {
    if IsArray(h) || IsDict(h) || IsIndirect(h) then h.o.doc else NoDoc
  }

  /** pdf_get_indirect_document: the document of an indirect reference only. */
  function IndirectDocument(h: Handle): (d: DocId)
    ensures !IsIndirect(h) ==> d == NoDoc
    ensures IsIndirect(h) ==> d == BoundDocument(h)
  {
    if IsIndirect(h) then h.o.doc else NoDoc
  }

  /**
   * pdf_resolve_obj: an indirect reference is replaced by what the document
   * maps its (number, generation) to; `xref` stands for that mapping, which is
   * the document's and not part of this model. Anything else is itself.
   */
  function Resolve(h: Handle, xref: (int, int) -> Handle): (r: Handle)
    ensures !IsIndirect(h) ==> r == h
    ensures IsIndirect(h) ==> r == xref(ToNum(h), ToGen(h))
  {
    if IsIndirect(h) then xref(h.o.num, h.o.gen) else h
  }

  /**
   * What the library's kind tests and coercions see. Every kind test but
   * pdf_is_indirect, and every coercion but pdf_to_num and pdf_to_gen, first
   * resolves its argument: pdf_is_int(h) is IsInt(Resolve(h, xref)) and
   * pdf_to_int(h) is ToInt(Resolve(h, xref), round). The document follows a
   * chain of references to its end, so what `xref` yields is never a
   * reference. Then exactly one of the eight other tests holds of the
   * resolved handle, and a reference passes pdf_is_indirect as well as the
   * test of its target's kind.
   */
  lemma ResolvedKinds(h: Handle, xref: (int, int) -> Handle)
    requires forall n, g :: !IsIndirect(xref(n, g))
    ensures var r := Resolve(h, xref);
            var ks := [IsNull(r), IsBool(r), IsInt(r), IsReal(r), IsName(r), IsString(r), IsArray(r), IsDict(r)];
            && (forall i, j :: 0 <= i < j < |ks| ==> !(ks[i] && ks[j]))
            && (IsNull(r) || IsBool(r) || IsInt(r) || IsReal(r) || IsName(r) || IsString(r) || IsArray(r) || IsDict(r))
    ensures IsIndirect(h) ==> !IsIndirect(Resolve(h, xref)) && Resolve(h, xref) == xref(ToNum(h), ToGen(h))
  {
    ExactlyOneKind(Resolve(h, xref));
  }

  /**
   * Interning makes handle identity and spelling agree: a built-in name is
   * the same handle as any name that spells the same text, because no heap
   * name spells a built-in name.
   */
  lemma InternedNameIdentity(a: Handle, b: Handle)
    requires IsName(a) && IsName(b) && b.Imm?
    ensures a == b <==> ToName(a) == ToName(b)
  {
    if a.Imm? && ToName(a) == ToName(b) && a != b {
      TableDistinct(a.id - FirstNameId, b.id - FirstNameId);
    }
  }

  // ---------------------------------------------------------------- dictionary well-formedness

  /** The name a dictionary key spells (pdf_to_name of the key). */
  function KeyText(e: KeyVal): string {
    ToName(e.k)
  }

  /**
   * The invariant of a dictionary's entries: every key is a name, no name is
   * a key twice, and when the dictionary is flagged sorted the keys are in
   * strictly increasing strcmp order.
   */
  predicate WellFormedDict(entries: seq<KeyVal>, sorted: bool) {
    && (forall i :: 0 <= i < |entries| ==> IsName(entries[i].k))
    && (forall i, j :: 0 <= i < j < |entries| ==> KeyText(entries[i]) != KeyText(entries[j]))
    && (sorted ==> forall i, j :: 0 <= i < j < |entries| ==> StrLess(KeyText(entries[i]), KeyText(entries[j])))
  }

  // ---------------------------------------------------------------- constructors

  /** pdf_new_int. */
  method NewInt(i: Int64) returns (h: Handle)
    ensures IsInt(h) && fresh(h.o) && h.o.Valid()
    ensures ToInt64(h, _ => 0) == i
    ensures h.o.flags == 0 && h.o.parentNum == 0
  {
    var o := new PdfObj.Init(IntKind, i, 0, "", [], NoDoc, 0, 0);
    h := Obj(o);
  }

  /** pdf_new_real: the float is kept as its bit pattern. */
  method NewReal(bits: bv32) returns (h: Handle)
    ensures IsReal(h) && fresh(h.o) && h.o.Valid()
    ensures h.o.realBits == bits && h.o.flags == 0 && h.o.parentNum == 0
  {
    var o := new PdfObj.Init(RealKind, 0, bits, "", [], NoDoc, 0, 0);
    h := Obj(o);
  }

  /**
   * pdf_new_name: a built-in name is returned as its immediate handle, any
   * other text as a fresh heap name object.
   */
  method NewName(s: string) returns (h: Handle)
    ensures IsName(h) && ToName(h) == s
    ensures h.Imm? <==> s in NameTable
    ensures h.Obj? ==> fresh(h.o) && h.o.Valid() && h.o.flags == 0 && h.o.parentNum == 0
  {
    var idx := FindBuiltin(s);
    if idx >= 0 {
      h := Imm(BuiltinName(idx));
    } else {
      var o := new PdfObj.Init(NameKind, 0, 0, s, [], NoDoc, 0, 0);
      h := Obj(o);
    }
  }

  /** pdf_new_string: a byte string of the given bytes. */
  method NewString(s: seq<Byte>) returns (h: Handle)
    ensures IsString(h) && fresh(h.o) && h.o.Valid()
    ensures ToStrBuf(h) == s && ToStrLen(h) == |s|
    ensures h.o.flags == 0 && h.o.parentNum == 0
  {
    var o := new PdfObj.Init(StringKind, 0, 0, "", s, NoDoc, 0, 0);
    h := Obj(o);
  }

  /**
   * pdf_new_indirect: a reference to object (num, gen) of `doc`; an object
   * number outside [0, PDF_MAX_OBJECT_NUMBER] is an error.
   */
  method NewIndirect(doc: DocId, num: Int32, gen: Int32) returns (r: Result<Handle>)
    ensures r.Fail? <==> !(0 <= num <= MaxObjectNumber)
    ensures r.Fail? ==> r.err == InvalidObjectNumber
    ensures r.Ok? ==> IsIndirect(r.value) && fresh(r.value.o) && r.value.o.Valid()
    ensures r.Ok? ==> ToNum(r.value) == num && ToGen(r.value) == gen
    ensures r.Ok? ==> IndirectDocument(r.value) == doc
  {
    if num < 0 || num > MaxObjectNumber {
      return Fail(InvalidObjectNumber);
    }
    var o := new PdfObj.Init(IndirectKind, 0, 0, "", [], doc, num, gen);
    r := Ok(Obj(o));
  }

  /** pdf_new_array: an empty array bound to `doc` (the initial capacity is an allocation hint). */
  method NewArray(doc: DocId, initialCap: Int32) returns (h: Handle)
    ensures IsArray(h) && fresh(h.o) && h.o.Valid()
    ensures h.o.items == [] && BoundDocument(h) == doc
    ensures h.o.flags == 0 && h.o.parentNum == 0
  {
    var o := new PdfObj.Init(ArrayKind, 0, 0, "", [], doc, 0, 0);
    h := Obj(o);
  }

  /** pdf_new_dict: an empty, unsorted dictionary bound to `doc`. */
  method NewDict(doc: DocId, initialCap: Int32) returns (h: Handle)
    ensures IsDict(h) && fresh(h.o) && h.o.Valid()
    ensures h.o.entries == [] && BoundDocument(h) == doc
    ensures h.o.flags == 0 && h.o.parentNum == 0
  {
    var o := new PdfObj.Init(DictKind, 0, 0, "", [], doc, 0, 0);
    h := Obj(o);
  }

  // ---------------------------------------------------------------- scalar mutators

  /** pdf_set_int: rewrites an integer's value; any other handle is left alone. */
  method SetInt(h: Handle, i: Int64)
    modifies Heap(h)`intVal
    ensures IsInt(h) ==> h.o.intVal == i
    ensures !IsInt(h) ==> unchanged(Heap(h))
  {
    if IsInt(h) {
      h.o.intVal := i;
    }
  }

  /**
   * pdf_set_str_len: shortens a string in place. The buffer is not
   * reallocated, so a length outside [0, current length] and a handle that is
   * not a string are ignored.
   */
  method SetStrLen(h: Handle, newLen: Int32)
    modifies Heap(h)`bytes
    ensures IsString(h) && 0 <= newLen <= old(ToStrLen(h)) ==>
              ToStrBuf(h) == old(ToStrBuf(h))[..newLen]
    ensures !(IsString(h) && 0 <= newLen <= old(ToStrLen(h))) ==> unchanged(Heap(h))
  {
    if IsString(h) && 0 <= newLen <= |h.o.bytes| {
      h.o.bytes := h.o.bytes[..newLen];
    }
  }

  // ---------------------------------------------------------------- mark, memo and dirty flags

  /** pdf_obj_marked: immediates are never marked. */
  function ObjMarked(h: Handle): (m: bool)
    reads Heap(h)
    ensures m ==> h.Obj?
  {
    h.Obj? && IsMarked(h.o.flags)
  }

  /**
   * pdf_mark_obj: sets the mark and reports whether it was already set, which
   * is how a recursive walk detects that it has come back to an object.
   */
  method MarkObj(h: Handle) returns (wasMarked: bool)
    modifies Heap(h)`flags
    ensures wasMarked == old(ObjMarked(h))
    ensures h.Obj? ==> ObjMarked(h) && OthersAgree(old(h.o.flags), h.o.flags, Marked)
  {
    wasMarked := ObjMarked(h);
    if h.Obj? {
      h.o.flags := SetBit(h.o.flags, Marked);
    }
  }

  /** pdf_unmark_obj. */
  method UnmarkObj(h: Handle)
    modifies Heap(h)`flags
    ensures !ObjMarked(h)
    ensures h.Obj? ==> OthersAgree(old(h.o.flags), h.o.flags, Marked)
  {
    if h.Obj? {
      h.o.flags := ClearBit(h.o.flags, Marked);
    }
  }

  /** pdf_obj_memo: immediates never carry a memo. */
  function ObjMemo(h: Handle, bit: MemoBit): (m: MemoState)
    reads Heap(h)
    ensures h.Imm? ==> m == NoMemo
  {
    if h.Imm? then NoMemo else Memo(h.o.flags, bit)
  }

  /** pdf_set_obj_memo: records `memo` in slot `bit` and leaves every other flag alone. */
  method SetObjMemo(h: Handle, bit: MemoBit, memo: bool)
    modifies Heap(h)`flags
    ensures h.Obj? ==> ObjMemo(h, bit) == HasMemo(memo)
    ensures h.Obj? ==> ObjMemo(h, 1 - bit) == old(ObjMemo(h, 1 - bit))
    ensures h.Obj? ==> ObjMarked(h) == old(ObjMarked(h)) && ObjIsDirty(h) == old(ObjIsDirty(h))
    ensures h.Obj? ==> IsSorted(h.o.flags) == old(IsSorted(h.o.flags))
    ensures h.Imm? ==> ObjMemo(h, bit) == NoMemo
  {
    if h.Obj? {
      h.o.flags := SetMemo(h.o.flags, bit, memo);
    }
  }

  /** pdf_obj_is_dirty: immediates are never dirty. */
  function ObjIsDirty(h: Handle): (d: bool)
    reads Heap(h)
    ensures d ==> h.Obj?
  {
    h.Obj? && IsDirty(h.o.flags)
  }

  /** pdf_dirty_obj. */
  method DirtyObj(h: Handle)
    modifies Heap(h)`flags
    ensures h.Obj? ==> ObjIsDirty(h) && OthersAgree(old(h.o.flags), h.o.flags, Dirty)
  {
    if h.Obj? {
      h.o.flags := SetBit(h.o.flags, Dirty);
    }
  }

  /** pdf_clean_obj. */
  method CleanObj(h: Handle)
    modifies Heap(h)`flags
    ensures !ObjIsDirty(h)
    ensures h.Obj? ==> OthersAgree(old(h.o.flags), h.o.flags, Dirty)
  {
    if h.Obj? {
      h.o.flags := ClearBit(h.o.flags, Dirty);
    }
  }

  /**
   * pdf_obj_parent_num: the parent number of an array or dictionary, an
   * indirect reference's own object number, 0 for anything else.
   */
  function ObjParentNum(h: Handle): (n: int)
    reads Heap(h)
    ensures !(IsArray(h) || IsDict(h) || IsIndirect(h)) ==> n == 0
    ensures IsIndirect(h) ==> n == h.o.num
  {
    if IsArray(h) || IsDict(h) then h.o.parentNum
    else if IsIndirect(h) then h.o.num
    else 0
  }
}
