/**
 * The typed conveniences over arrays and dictionaries: pdf_dict_put_bool and
 * its siblings make a fresh object of the given value and put it with
 * pdf_dict_put; pdf_array_push_bool and its siblings push it with
 * pdf_array_push; the typed getters coerce what pdf_dict_get or
 * pdf_array_get finds with the matching pdf_to_* function, after resolving
 * it when it is an indirect reference, so they fail as silently as those do.
 *
 * A fresh scalar is bound to no document and a fresh container is bound to
 * the document of the object it is put into, so none of these can fail on a
 * document mismatch.
 */
module Typed {
  import opened Objects
  import opened Graph
  import opened Arrays
  import opened Dicts

  /** The handle of a boolean: PDF_TRUE or PDF_FALSE. */
  function BoolHandle(x: bool): (h: Handle)
    ensures IsBool(h) && ToBool(h) == x
  {
    if x then PdfTrue else PdfFalse
  }

  // ---------------------------------------------------------------- typed getters

  /** A name that no key of the dictionary spells finds nothing. */
  lemma AbsentFindsNull(d: Handle, key: Handle)
    ensures (forall j :: 0 <= j < DictLen(d) ==> ToName(DictGetKey(d, j)) != ToName(key)) ==> Get(d, key) == PdfNull
  {
    if IsDict(d) && forall j :: 0 <= j < DictLen(d) ==> ToName(DictGetKey(d, j)) != ToName(key) {
      forall j | 0 <= j < |d.o.entries| ensures KeyText(d.o.entries[j]) != ToName(key) {
        assert DictGetKey(d, j) == d.o.entries[j].k;
      }
    }
  }

  /** pdf_dict_get_bool: false unless the key finds PDF_TRUE, directly or through a reference. */
  function DictGetBool(d: Handle, key: Handle, xref: (int, int) -> Handle): (b: bool)
    reads Heap(d)
    ensures b ==> IsDict(d) && IsName(key)
    ensures (forall j :: 0 <= j < DictLen(d) ==> ToName(DictGetKey(d, j)) != ToName(key)) ==> !b
    ensures !IsIndirect(Get(d, key)) ==> (b <==> Get(d, key) == PdfTrue)
  {
    AbsentFindsNull(d, key);
    ToBool(Resolve(Get(d, key), xref))
  }

  /** pdf_dict_get_int: 0 unless the key finds a number, directly or through a reference. */
  function DictGetInt(d: Handle, key: Handle, xref: (int, int) -> Handle, round: bv32 -> Int64): (r: Int32)
    reads Heap(d), Heap(Resolve(Get(d, key), xref))
    ensures !IsDict(d) || !IsName(key) ==> r == 0
    ensures (forall j :: 0 <= j < DictLen(d) ==> ToName(DictGetKey(d, j)) != ToName(key)) ==> r == 0
    ensures var v := Resolve(Get(d, key), xref);
            IsInt(v) && -TwoTo31 <= v.o.intVal < TwoTo31 ==> r == v.o.intVal
  {
    AbsentFindsNull(d, key);
    ToInt(Resolve(Get(d, key), xref), round)
  }

  /**
   * pdf_dict_get_string: the bytes of the string the key finds, directly or
   * through a reference, and their count; nothing otherwise.
   */
  function DictGetString(d: Handle, key: Handle, xref: (int, int) -> Handle): (r: (seq<Byte>, int))
    reads Heap(d), Heap(Resolve(Get(d, key), xref))
    ensures r.1 == |r.0|
    ensures !IsDict(d) || !IsName(key) ==> r == ([], 0)
    ensures (forall j :: 0 <= j < DictLen(d) ==> ToName(DictGetKey(d, j)) != ToName(key)) ==> r == ([], 0)
    ensures var v := Resolve(Get(d, key), xref);
            IsString(v) ==> r == (v.o.bytes, |v.o.bytes|)
  {
    AbsentFindsNull(d, key);
    var v := Resolve(Get(d, key), xref);
    (ToStrBuf(v), ToStrLen(v))
  }

  /** pdf_array_get_bool: false unless item i is PDF_TRUE, directly or through a reference. */
  function ArrayGetBool(a: Handle, i: int, xref: (int, int) -> Handle): (b: bool)
    reads Heap(a)
    ensures b ==> IsArray(a) && 0 <= i < ArrayLen(a)
    ensures !IsIndirect(ArrayGet(a, i)) ==> (b <==> ArrayGet(a, i) == PdfTrue)
  {
    ToBool(Resolve(ArrayGet(a, i), xref))
  }

  /** pdf_array_get_int: 0 unless item i is a number, directly or through a reference. */
  function ArrayGetInt(a: Handle, i: int, xref: (int, int) -> Handle, round: bv32 -> Int64): (r: Int32)
    reads Heap(a), Heap(Resolve(ArrayGet(a, i), xref))
    ensures !(IsArray(a) && 0 <= i < ArrayLen(a)) ==> r == 0
    ensures var v := Resolve(ArrayGet(a, i), xref);
            IsInt(v) && -TwoTo31 <= v.o.intVal < TwoTo31 ==> r == v.o.intVal
  {
    ToInt(Resolve(ArrayGet(a, i), xref), round)
  }

  /**
   * The typed getters see through an indirect reference: a value that is a
   * reference reads as the object the document maps it to.
   */
  lemma GettersResolve(d: Handle, key: Handle, a: Handle, i: int, xref: (int, int) -> Handle, round: bv32 -> Int64)
    ensures var v := Get(d, key);
            IsIndirect(v) ==>
              && DictGetBool(d, key, xref) == ToBool(xref(ToNum(v), ToGen(v)))
              && DictGetInt(d, key, xref, round) == ToInt(xref(ToNum(v), ToGen(v)), round)
              && DictGetString(d, key, xref) == (ToStrBuf(xref(ToNum(v), ToGen(v))), ToStrLen(xref(ToNum(v), ToGen(v))))
    ensures var w := ArrayGet(a, i);
            IsIndirect(w) ==>
              && ArrayGetBool(a, i, xref) == ToBool(xref(ToNum(w), ToGen(w)))
              && ArrayGetInt(a, i, xref, round) == ToInt(xref(ToNum(w), ToGen(w)), round)
  {
  }

  // ---------------------------------------------------------------- typed puts

  /** pdf_dict_put_bool: afterwards pdf_dict_get_bool under the key reads x back. */
  method DictPutBool(d: Handle, key: Handle, x: bool) returns (st: Status)
    requires ValidHandle(d)
    modifies Heap(d)`entries, Heap(d)`flags
    ensures ValidHandle(d)
    ensures !IsDict(d) ==> st == Failed(NotADict)
    ensures IsDict(d) && !IsName(key) ==> st == Failed(KeyNotAName) && unchanged(Heap(d))
    ensures IsDict(d) && IsName(key) ==>
              && st.Done? && Get(d, key) == BoolHandle(x) && (forall xref :: DictGetBool(d, key, xref) == x)
              && (forall t :: t != ToName(key) ==> GetText(d, t) == old(GetText(d, t)))
  {
    st := DictPut(d, key, BoolHandle(x), {}, map[]);
  }

  /** pdf_dict_put_int: afterwards pdf_dict_get_int under the key reads x back, cut to 32 bits. */
  method DictPutInt(d: Handle, key: Handle, x: Int64) returns (st: Status)
    requires ValidHandle(d)
    modifies Heap(d)`entries, Heap(d)`flags
    ensures ValidHandle(d)
    ensures !IsDict(d) ==> st == Failed(NotADict)
    ensures IsDict(d) && !IsName(key) ==> st == Failed(KeyNotAName) && unchanged(Heap(d))
    ensures IsDict(d) && IsName(key) ==>
              && st.Done? && IsInt(Get(d, key)) && ToInt64(Get(d, key), _ => 0) == x
              && (forall xref, round :: DictGetInt(d, key, xref, round) == Wrap32(x))
              && (forall t :: t != ToName(key) ==> GetText(d, t) == old(GetText(d, t)))
  {
    var v := NewInt(x);
    st := DictPut(d, key, v, {v.o}, map[v.o := 0]);
  }

  /** pdf_dict_put_name: afterwards the key finds a name spelling x. */
  method DictPutName(d: Handle, key: Handle, x: string) returns (st: Status)
    requires ValidHandle(d)
    modifies Heap(d)`entries, Heap(d)`flags
    ensures ValidHandle(d)
    ensures !IsDict(d) ==> st == Failed(NotADict)
    ensures IsDict(d) && !IsName(key) ==> st == Failed(KeyNotAName) && unchanged(Heap(d))
    ensures IsDict(d) && IsName(key) ==>
              && st.Done? && IsName(Get(d, key)) && ToName(Get(d, key)) == x
              && (forall t :: t != ToName(key) ==> GetText(d, t) == old(GetText(d, t)))
  {
    var v := NewName(x);
    if v.Imm? {
      st := DictPut(d, key, v, {}, map[]);
    } else {
      st := DictPut(d, key, v, {v.o}, map[v.o := 0]);
    }
  }

  /** pdf_dict_put_string: afterwards pdf_dict_get_string under the key reads the bytes back. */
  method DictPutString(d: Handle, key: Handle, x: seq<Byte>) returns (st: Status)
    requires ValidHandle(d)
    modifies Heap(d)`entries, Heap(d)`flags
    ensures ValidHandle(d)
    ensures !IsDict(d) ==> st == Failed(NotADict)
    ensures IsDict(d) && !IsName(key) ==> st == Failed(KeyNotAName) && unchanged(Heap(d))
    ensures IsDict(d) && IsName(key) ==>
              && st.Done? && IsString(Get(d, key)) && (forall xref :: DictGetString(d, key, xref) == (x, |x|))
              && (forall t :: t != ToName(key) ==> GetText(d, t) == old(GetText(d, t)))
  {
    var v := NewString(x);
    st := DictPut(d, key, v, {v.o}, map[v.o := 0]);
  }

  /**
   * pdf_dict_put_array: a fresh empty array, bound to the dictionary's
   * document and stamped with its parent number, is put under the key and
   * returned.
   */
  method DictPutArray(d: Handle, key: Handle, initial: Int32) returns (st: Status, obj: Handle)
    requires ValidHandle(d)
    modifies Heap(d)`entries, Heap(d)`flags
    ensures ValidHandle(d)
    ensures !IsDict(d) ==> st == Failed(NotADict)
    ensures IsDict(d) && !IsName(key) ==> st == Failed(KeyNotAName) && unchanged(Heap(d))
    ensures IsDict(d) && IsName(key) ==>
              && st.Done? && IsArray(obj) && fresh(obj.o) && ArrayLen(obj) == 0
              && Get(d, key) == obj
              && BoundDocument(obj) == BoundDocument(d) && ObjParentNum(obj) == ObjParentNum(d)
              && (forall t :: t != ToName(key) ==> GetText(d, t) == old(GetText(d, t)))
  {
    obj := NewArray(BoundDocument(d), initial);
    st := DictPut(d, key, obj, {obj.o}, map[obj.o := 0]);
  }

  /**
   * pdf_dict_put_dict: a fresh empty dictionary, bound to the dictionary's
   * document and stamped with its parent number, is put under the key and
   * returned.
   */
  method DictPutDict(d: Handle, key: Handle, initial: Int32) returns (st: Status, obj: Handle)
    requires ValidHandle(d)
    modifies Heap(d)`entries, Heap(d)`flags
    ensures ValidHandle(d)
    ensures !IsDict(d) ==> st == Failed(NotADict)
    ensures IsDict(d) && !IsName(key) ==> st == Failed(KeyNotAName) && unchanged(Heap(d))
    ensures IsDict(d) && IsName(key) ==>
              && st.Done? && IsDict(obj) && fresh(obj.o) && DictLen(obj) == 0
              && Get(d, key) == obj
              && BoundDocument(obj) == BoundDocument(d) && ObjParentNum(obj) == ObjParentNum(d)
              && (forall t :: t != ToName(key) ==> GetText(d, t) == old(GetText(d, t)))
  {
    obj := NewDict(BoundDocument(d), initial);
    st := DictPut(d, key, obj, {obj.o}, map[obj.o := 0]);
  }

  // ---------------------------------------------------------------- typed pushes

  /** pdf_array_push_bool: afterwards pdf_array_get_bool on the new last index reads x back. */
  method ArrayPushBool(a: Handle, x: bool) returns (st: Status)
    modifies Heap(a)`items, Heap(a)`flags
    ensures !IsArray(a) ==> st == Failed(NotAnArray)
    ensures IsArray(a) ==>
              && st.Done? && a.o.items == old(a.o.items) + [BoolHandle(x)]
              && (forall xref :: ArrayGetBool(a, old(ArrayLen(a)), xref) == x)
  {
    st := ArrayPush(a, BoolHandle(x), {}, map[]);
  }

  /** pdf_array_push_int: afterwards pdf_array_get_int on the new last index reads x back, cut to 32 bits. */
  method ArrayPushInt(a: Handle, x: Int64) returns (st: Status)
    modifies Heap(a)`items, Heap(a)`flags
    ensures !IsArray(a) ==> st == Failed(NotAnArray)
    ensures IsArray(a) ==>
              && st.Done? && |a.o.items| == old(|a.o.items|) + 1 && a.o.items[..old(|a.o.items|)] == old(a.o.items)
              && IsInt(ArrayGet(a, ArrayLen(a) - 1))
              && (forall xref, round :: ArrayGetInt(a, old(ArrayLen(a)), xref, round) == Wrap32(x))
  {
    var v := NewInt(x);
    st := ArrayPush(a, v, {v.o}, map[v.o := 0]);
  }

  /** pdf_array_push_name: the new last item is a name spelling x. */
  method ArrayPushName(a: Handle, x: string) returns (st: Status)
    modifies Heap(a)`items, Heap(a)`flags
    ensures !IsArray(a) ==> st == Failed(NotAnArray)
    ensures IsArray(a) ==>
              && st.Done? && |a.o.items| == old(|a.o.items|) + 1 && a.o.items[..old(|a.o.items|)] == old(a.o.items)
              && IsName(ArrayGet(a, ArrayLen(a) - 1)) && ToName(ArrayGet(a, ArrayLen(a) - 1)) == x
  {
    var v := NewName(x);
    if v.Imm? {
      st := ArrayPush(a, v, {}, map[]);
    } else {
      st := ArrayPush(a, v, {v.o}, map[v.o := 0]);
    }
  }

  /** pdf_array_push_string: the new last item is a string of the bytes x. */
  method ArrayPushString(a: Handle, x: seq<Byte>) returns (st: Status)
    modifies Heap(a)`items, Heap(a)`flags
    ensures !IsArray(a) ==> st == Failed(NotAnArray)
    ensures IsArray(a) ==>
              && st.Done? && |a.o.items| == old(|a.o.items|) + 1 && a.o.items[..old(|a.o.items|)] == old(a.o.items)
              && IsString(ArrayGet(a, ArrayLen(a) - 1)) && ToStrBuf(ArrayGet(a, ArrayLen(a) - 1)) == x
  {
    var v := NewString(x);
    st := ArrayPush(a, v, {v.o}, map[v.o := 0]);
  }

  /**
   * pdf_array_push_array: a fresh empty array, bound to the array's document
   * and stamped with its parent number, is pushed and returned.
   */
  method ArrayPushArray(a: Handle, initial: Int32) returns (st: Status, obj: Handle)
    modifies Heap(a)`items, Heap(a)`flags
    ensures !IsArray(a) ==> st == Failed(NotAnArray)
    ensures IsArray(a) ==>
              && st.Done? && IsArray(obj) && fresh(obj.o) && ArrayLen(obj) == 0
              && a.o.items == old(a.o.items) + [obj]
              && BoundDocument(obj) == BoundDocument(a) && ObjParentNum(obj) == ObjParentNum(a)
  {
    obj := NewArray(BoundDocument(a), initial);
    st := ArrayPush(a, obj, {obj.o}, map[obj.o := 0]);
  }

  /**
   * pdf_array_push_dict: a fresh empty dictionary, bound to the array's
   * document and stamped with its parent number, is pushed and returned.
   */
  method ArrayPushDict(a: Handle, initial: Int32) returns (st: Status, obj: Handle)
    modifies Heap(a)`items, Heap(a)`flags
    ensures !IsArray(a) ==> st == Failed(NotAnArray)
    ensures IsArray(a) ==>
              && st.Done? && IsDict(obj) && fresh(obj.o) && DictLen(obj) == 0
              && a.o.items == old(a.o.items) + [obj]
              && BoundDocument(obj) == BoundDocument(a) && ObjParentNum(obj) == ObjParentNum(a)
  {
    obj := NewDict(BoundDocument(a), initial);
    st := ArrayPush(a, obj, {obj.o}, map[obj.o := 0]);
  }
}
