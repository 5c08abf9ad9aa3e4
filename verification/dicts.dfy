/**
 * The dictionary operations of the interface (pdf_dict_*).
 *
 * A key is looked up by its text. A dictionary flagged sorted is searched by
 * binary search and keeps new keys at their sorted place; an unsorted one is
 * scanned from the front, and a built-in key is compared there by handle
 * identity, which interning makes the same as comparing texts.
 */
module Dicts {
  import opened Names
  import opened Flags
  import opened Objects
  import opened Graph
  import opened DictSpec

  /** pdf_dict_put sorts an unsorted dictionary first once it has more entries than this. */
  const SortThreshold: nat := 100

  // ---------------------------------------------------------------- reads

  /** pdf_dict_len: the number of entries; 0 for anything that is not a dictionary. */
  function DictLen(d: Handle): (n: nat)
    reads Heap(d)
    ensures !IsDict(d) ==> n == 0
    ensures IsDict(d) ==> n == |d.o.entries|
  {
    if IsDict(d) then |d.o.entries| else 0
  }

  /** pdf_dict_get_key: the key of entry i, PDF_NULL when i is out of range or d is not a dictionary. */
  function DictGetKey(d: Handle, i: int): (k: Handle)
    reads Heap(d)
    ensures !(0 <= i < DictLen(d)) ==> k == PdfNull
    ensures 0 <= i < DictLen(d) ==> k == d.o.entries[i].k
  {
    if IsDict(d) && 0 <= i < |d.o.entries| then d.o.entries[i].k else PdfNull
  }

  /** pdf_dict_get_val: the value of entry i, PDF_NULL when i is out of range or d is not a dictionary. */
  function DictGetVal(d: Handle, i: int): (v: Handle)
    reads Heap(d)
    ensures !(0 <= i < DictLen(d)) ==> v == PdfNull
    ensures 0 <= i < DictLen(d) ==> v == d.o.entries[i].v
  {
    if IsDict(d) && 0 <= i < |d.o.entries| then d.o.entries[i].v else PdfNull
  }

  /** What pdf_dict_gets returns: the value under text s, PDF_NULL when absent or d is not a dictionary. */
  function GetText(d: Handle, s: string): (v: Handle)
    reads Heap(d)
    ensures !IsDict(d) ==> v == PdfNull
  {
    if IsDict(d) then Lookup(d.o.entries, s) else PdfNull
  }

  /** What pdf_dict_get returns: a key that is not a name finds nothing. */
  function Get(d: Handle, key: Handle): (v: Handle)
    reads Heap(d)
    ensures !IsName(key) || !IsDict(d) ==> v == PdfNull
  {
    if IsName(key) then GetText(d, ToName(key)) else PdfNull
  }

  /**
   * Walking the entries by index meets exactly what lookup by key finds:
   * every key is a name, and looking it up yields the value beside it.
   */
  lemma EnumerationAgreesWithLookup(d: Handle, i: int)
    requires ValidHandle(d) && 0 <= i < DictLen(d)
    ensures IsName(DictGetKey(d, i))
    ensures Get(d, DictGetKey(d, i)) == DictGetVal(d, i)
  {
    IndexOfKeyUnique(d.o.entries, KeyText(d.o.entries[i]), i);
  }

  // ---------------------------------------------------------------- searching

  /**
   * The binary search pdf_dict_finds runs over the keys of a sorted,
   * non-empty dictionary: the index of the key s, or -1 together with the
   * place that splits the keys below s from the keys above it. The last key
   * is tried first, so that appending in order costs no search.
   */
  method SearchKeys(ks: seq<string>, s: string) returns (idx: int, loc: nat)
    requires |ks| > 0
    requires forall i, j :: 0 <= i < j < |ks| ==> StrLess(ks[i], ks[j])
    ensures -1 <= idx < |ks| && loc <= |ks|
    ensures idx >= 0 ==> ks[idx] == s
    ensures idx < 0 ==> forall j :: 0 <= j < loc ==> StrLess(ks[j], s)
    ensures idx < 0 ==> forall j :: loc <= j < |ks| ==> StrLess(s, ks[j])
  {
    var n := |ks|;
    var l, r := 0, n - 1;
    if StrLess(ks[r], s) {
      forall j | 0 <= j < r ensures StrLess(ks[j], s) {
        StrLessTransitive(ks[j], ks[r], s);
      }
      return -1, n;
    }
    loc := 0;
    while l <= r
      invariant 0 <= l <= r + 1 <= n
      invariant loc == l
      invariant forall j :: 0 <= j < l ==> StrLess(ks[j], s)
      invariant forall j :: r < j < n ==> StrLess(s, ks[j])
    {
      var m := (l + r) / 2;
      if StrLess(s, ks[m]) {
        forall j | m < j < n ensures StrLess(s, ks[j]) {
          StrLessTransitive(s, ks[m], ks[j]);
        }
        r := m - 1;
      } else if StrLess(ks[m], s) {
        forall j | 0 <= j < m ensures StrLess(ks[j], s) {
          StrLessTransitive(ks[j], ks[m], s);
        }
        l := m + 1;
      } else {
        StrLessTotal(s, ks[m]);
        return m, loc;
      }
      loc := l;
    }
    idx := -1;
  }

  /** pdf_dict_finds on a sorted, non-empty dictionary: the binary search over its keys. */
  method SortedSearch(d: PdfObj, s: string) returns (idx: int, loc: nat)
    requires d.kind == DictKind && d.Valid() && IsSorted(d.flags) && |d.entries| > 0
    ensures idx == IndexOfKey(d.entries, s)
    ensures idx < 0 ==> loc == InsertionPoint(d.entries, s)
  {
    var ks := Keys(d.entries);
    idx, loc := SearchKeys(ks, s);
    SearchOutcome(d.entries, s, idx, loc);
  }

  /**
   * pdf_dict_finds: the index of the key spelling s, or -1; when absent, loc
   * is where pdf_dict_put inserts s (its sorted place, or the end).
   */
  method Finds(d: PdfObj, s: string) returns (idx: int, loc: nat)
    requires d.kind == DictKind && d.Valid()
    ensures idx == IndexOfKey(d.entries, s)
    ensures idx < 0 ==> loc == if IsSorted(d.flags) then InsertionPoint(d.entries, s) else |d.entries|
  {
    if IsSorted(d.flags) && |d.entries| > 0 {
      idx, loc := SortedSearch(d, s);
      return;
    }
    var i := 0;
    while i < |d.entries|
      invariant 0 <= i <= |d.entries|
      invariant forall j :: 0 <= j < i ==> KeyText(d.entries[j]) != s
    {
      if KeyText(d.entries[i]) == s {
        return i, 0;
      }
      i := i + 1;
    }
    idx, loc := -1, |d.entries|;
  }

  /**
   * pdf_dict_find, used for a built-in key: as pdf_dict_finds, except that
   * the scan of an unsorted dictionary compares handles instead of texts.
   */
  method FindBuiltinKey(d: PdfObj, key: Handle) returns (idx: int, loc: nat)
    requires d.kind == DictKind && d.Valid()
    requires key.Imm? && IsName(key)
    ensures idx == IndexOfKey(d.entries, ToName(key))
    ensures idx < 0 ==> loc == if IsSorted(d.flags) then InsertionPoint(d.entries, ToName(key)) else |d.entries|
  {
    if IsSorted(d.flags) && |d.entries| > 0 {
      idx, loc := SortedSearch(d, ToName(key));
      return;
    }
    var i := 0;
    while i < |d.entries|
      invariant 0 <= i <= |d.entries|
      invariant forall j :: 0 <= j < i ==> KeyText(d.entries[j]) != ToName(key)
    {
      InternedNameIdentity(d.entries[i].k, key);
      if d.entries[i].k == key {
        return i, 0;
      }
      i := i + 1;
    }
    idx, loc := -1, |d.entries|;
  }

  /** The search pdf_dict_get, pdf_dict_put and friends pick for a name key. */
  method FindKey(d: PdfObj, key: Handle) returns (idx: int, loc: nat)
    requires d.kind == DictKind && d.Valid() && IsName(key)
    ensures idx == IndexOfKey(d.entries, ToName(key))
    ensures idx < 0 ==> loc == if IsSorted(d.flags) then InsertionPoint(d.entries, ToName(key)) else |d.entries|
  {
    if key.Imm? {
      idx, loc := FindBuiltinKey(d, key);
    } else {
      idx, loc := Finds(d, ToName(key));
    }
  }

  // ---------------------------------------------------------------- lookups

  /** pdf_dict_get. */
  method DictGet(d: Handle, key: Handle) returns (v: Handle)
    requires ValidHandle(d)
    ensures v == Get(d, key)
  {
    if !IsName(key) || !IsDict(d) {
      return PdfNull;
    }
    var i, _ := FindKey(d.o, key);
    v := if i >= 0 then d.o.entries[i].v else PdfNull;
  }

  /** pdf_dict_gets: lookup by the text of the key. */
  method DictGets(d: Handle, s: string) returns (v: Handle)
    requires ValidHandle(d)
    ensures v == GetText(d, s)
  {
    if !IsDict(d) {
      return PdfNull;
    }
    var i, _ := Finds(d.o, s);
    v := if i >= 0 then d.o.entries[i].v else PdfNull;
  }

  /**
   * pdf_dict_geta: the value under key, or else the value under its
   * abbreviation; a key stored with value PDF_NULL counts as absent.
   */
  method DictGetA(d: Handle, key: Handle, abbrev: Handle) returns (v: Handle)
    requires ValidHandle(d)
    ensures Get(d, key) != PdfNull ==> v == Get(d, key)
    ensures Get(d, key) == PdfNull ==> v == Get(d, abbrev)
  {
    v := DictGet(d, key);
    if v == PdfNull {
      v := DictGet(d, abbrev);
    }
  }

  /** pdf_dict_getsa: pdf_dict_geta on key texts. */
  method DictGetsA(d: Handle, s: string, abbrev: string) returns (v: Handle)
    requires ValidHandle(d)
    ensures GetText(d, s) != PdfNull ==> v == GetText(d, s)
    ensures GetText(d, s) == PdfNull ==> v == GetText(d, abbrev)
  {
    v := DictGets(d, s);
    if v == PdfNull {
      v := DictGets(d, abbrev);
    }
  }

  // ---------------------------------------------------------------- sorting

  /** The entries pdf_dict_put works on: sorted first once an unsorted dictionary has outgrown the threshold. */
  function PutBase(e: seq<KeyVal>, sorted: bool): seq<KeyVal> {
    if |e| > SortThreshold && !sorted then SortEntries(e) else e
  }

  /** The automatic sort keeps the dictionary well formed, its length, and every lookup. */
  lemma PutBaseSemantics(e: seq<KeyVal>, sorted: bool)
    requires WellFormedDict(e, sorted)
    ensures WellFormedDict(PutBase(e, sorted), sorted || |e| > SortThreshold)
    ensures |PutBase(e, sorted)| == |e|
    ensures forall t :: Lookup(PutBase(e, sorted), t) == Lookup(e, t)
    ensures forall t :: (IndexOfKey(PutBase(e, sorted), t) >= 0) == (IndexOfKey(e, t) >= 0)
  {
    if |e| > SortThreshold && !sorted {
      SortSemantics(e);
      forall t ensures Lookup(SortEntries(e), t) == Lookup(e, t)
                 && (IndexOfKey(SortEntries(e), t) >= 0) == (IndexOfKey(e, t) >= 0) {
        SortKeepsLookup(e, t);
      }
    }
  }

  /**
   * pdf_sort_dict: puts an unsorted dictionary's entries in key order and
   * flags it sorted; a sorted dictionary and anything that is not a
   * dictionary are left alone. Every lookup finds what it found before.
   */
  method SortDict(d: Handle)
    requires ValidHandle(d)
    modifies Heap(d)`entries, Heap(d)`flags
    ensures ValidHandle(d)
    ensures IsDict(d) && !old(IsSorted(d.o.flags)) ==>
              d.o.entries == SortEntries(old(d.o.entries)) && d.o.flags == SetBit(old(d.o.flags), Sorted)
    ensures !(IsDict(d) && !old(IsSorted(d.o.flags))) ==> unchanged(Heap(d))
    ensures IsDict(d) ==> IsSorted(d.o.flags) && StrictlySorted(d.o.entries)
    ensures forall t :: GetText(d, t) == old(GetText(d, t))
  {
    if IsDict(d) && !IsSorted(d.o.flags) {
      ghost var e := d.o.entries;
      forall t ensures Lookup(SortEntries(e), t) == Lookup(e, t) {
        SortKeepsLookup(e, t);
      }
      SortInPlace(d.o);
    }
  }

  /** The sort pdf_sort_dict performs on an unsorted dictionary object. */
  method SortInPlace(o: PdfObj)
    requires o.kind == DictKind && o.Valid() && !IsSorted(o.flags)
    modifies o`entries, o`flags
    ensures o.Valid() && StrictlySorted(o.entries)
    ensures o.entries == SortEntries(old(o.entries)) && o.flags == SetBit(old(o.flags), Sorted)
  {
    SortSemantics(o.entries);
    o.entries := SortEntries(o.entries);
    o.flags := SetBit(o.flags, Sorted);
  }

  // ---------------------------------------------------------------- insertion

  /**
   * pdf_dict_get_put_drop: find-or-insert of key with value val, handing
   * back the value it replaced (PDF_NULL when the key was new). The checks
   * come first: a non-dictionary and a key that is not a name are refused
   * and nothing changes. An unsorted dictionary past the threshold is then
   * sorted; a value bound to another document is refused after that. On
   * success the key finds val, every other key finds what it found before,
   * the length grows by one exactly when the key was new, val and its nested
   * containers carry the dictionary's parent number, and the dictionary is
   * dirty.
   *
   * U, closed under containment and ranked, holds what val reaches before
   * the put. The dictionary may lie in U and be reached from val, as in
   * pdf_dict_put(d, k, d): the put is accepted and closes a cycle.
   */
  method DictGetPut(d: Handle, key: Handle, val: Handle, ghost U: set<PdfObj>, ghost rank: map<PdfObj, nat>)
    returns (st: Status, oldVal: Handle)
    requires ValidHandle(d)
    requires Ranked(U, rank) && In(val, U)
    modifies Heap(d)`entries, Heap(d)`flags, U`parentNum
    ensures ValidHandle(d)
    ensures !IsDict(d) ==> st == Failed(NotADict)
    ensures IsDict(d) && !IsName(key) ==> st == Failed(KeyNotAName)
    ensures !(IsDict(d) && IsName(key)) ==>
              unchanged(Heap(d)) && forall p :: p in U ==> p.parentNum == old(p.parentNum)
    ensures IsDict(d) && IsName(key) ==>
              && (st == Done || st == Failed(DocumentMismatch))
              && (st.Failed? <==> DocMismatch(d.o, val))
              && d.o.flags == PutFlags(old(d.o.flags), old(|d.o.entries|), st.Done?)
    ensures st.Failed? ==> oldVal == PdfNull
    ensures IsDict(d) && IsName(key) && st.Failed? ==>
              && d.o.entries == PutBase(old(d.o.entries), old(IsSorted(d.o.flags)))
              && (forall p :: p in U ==> p.parentNum == old(p.parentNum))
    ensures st.Done? ==>
              && d.o.entries == PutEntries(PutBase(old(d.o.entries), old(IsSorted(d.o.flags))),
                                           key, val, IsSorted(d.o.flags))
              && oldVal == old(Get(d, key))
              && Get(d, key) == val
              && (forall t :: t != ToName(key) ==> GetText(d, t) == old(GetText(d, t)))
              && DictLen(d) == old(DictLen(d)) + (if IndexOfKey(old(d.o.entries), ToName(key)) < 0 then 1 else 0)
              && (forall p :: p in U ==>
                    p.parentNum == if old(Stamps(val, p, U, rank)) then old(d.o.parentNum) else old(p.parentNum))
  {
    oldVal := PdfNull;
    if !IsDict(d) {
      return Failed(NotADict), oldVal;
    }
    if !IsName(key) {
      return Failed(KeyNotAName), oldVal;
    }
    ghost var e0 := d.o.entries;
    PutAfterAutoSort(e0, IsSorted(d.o.flags), key, val);
    st, oldVal := PutInto(d.o, key, val, U, rank);
    if st.Done? {
      assert oldVal == old(Get(d, key));
      forall t | t != ToName(key) ensures GetText(d, t) == old(GetText(d, t)) {
        assert old(GetText(d, t)) == Lookup(e0, t);
      }
    }
  }

  /**
   * pdf_dict_put is find-or-insert, automatic sort included: the result is a
   * well-formed dictionary in which the key finds the value put and every
   * other key finds what it found before; the length grows by one exactly
   * when no key spelled the same; the replaced value is what the key found.
   */
  lemma PutAfterAutoSort(e: seq<KeyVal>, sorted: bool, key: Handle, val: Handle)
    requires WellFormedDict(e, sorted) && IsName(key)
    ensures var r := PutEntries(PutBase(e, sorted), key, val, sorted || |e| > SortThreshold);
            && WellFormedDict(r, sorted || |e| > SortThreshold)
            && Lookup(r, ToName(key)) == val
            && (forall t :: t != ToName(key) ==> Lookup(r, t) == Lookup(e, t))
            && |r| == |e| + (if IndexOfKey(e, ToName(key)) < 0 then 1 else 0)
    ensures Lookup(PutBase(e, sorted), ToName(key)) == Lookup(e, ToName(key))
  {
    PutBaseSemantics(e, sorted);
    PutSemantics(PutBase(e, sorted), sorted || |e| > SortThreshold, key, val);
  }

  /** The flag byte after pdf_dict_put: sorted by the automatic sort, dirty when the put went through. */
  function PutFlags(f: bv8, n: nat, done: bool): (g: bv8)
    ensures IsSorted(g) == (IsSorted(f) || n > SortThreshold)
    ensures IsDirty(g) == (done || IsDirty(f))
    ensures IsMarked(g) == IsMarked(f)
    ensures Memo(g, MemoBm) == Memo(f, MemoBm) && Memo(g, MemoOp) == Memo(f, MemoOp)
  {
    var sorted := if n > SortThreshold then f | Sorted else f;
    if done then sorted | Dirty else sorted
  }

  /** PutFlags is the automatic sort's flag update followed by the dirty bit of a completed put. */
  lemma PutFlagsSteps(f: bv8, n: nat, done: bool)
    ensures var g := if n > SortThreshold && !IsSorted(f) then SetBit(f, Sorted) else f;
            PutFlags(f, n, done) == if done then SetBit(g, Dirty) else g
  {
  }

  /** The first step of pdf_dict_put: an unsorted dictionary past the threshold is sorted. */
  method AutoSort(o: PdfObj)
    requires o.kind == DictKind && o.Valid()
    modifies o`entries, o`flags
    ensures o.Valid()
    ensures o.entries == PutBase(old(o.entries), old(IsSorted(o.flags)))
    ensures o.flags == if old(|o.entries|) > SortThreshold && !old(IsSorted(o.flags))
                       then SetBit(old(o.flags), Sorted) else old(o.flags)
  {
    if |o.entries| > SortThreshold && !IsSorted(o.flags) {
      SortInPlace(o);
    }
  }

  /**
   * The body of pdf_dict_get_put_drop once the dictionary and the key have
   * been checked: the automatic sort, the document check and stamping of
   * prepare_object_for_alteration, the search, and the store. The sort
   * rewrites only the order of the entries and the sorted bit, the stamping
   * only parent numbers and the dirty bit, and the walk reads only which
   * values a dictionary holds, not their order; so the two steps commute, and
   * the model stamps first, on the dictionary as the caller handed it over.
   * The dictionary may lie in U and be reached from val: the put then closes
   * a cycle.
   */
  method PutInto(o: PdfObj, key: Handle, val: Handle, ghost U: set<PdfObj>, ghost rank: map<PdfObj, nat>)
    returns (st: Status, oldVal: Handle)
    requires o.kind == DictKind && o.Valid() && IsName(key)
    requires Ranked(U, rank) && In(val, U)
    modifies o`entries, o`flags, U`parentNum
    ensures o.Valid() && o.parentNum == old(o.parentNum)
    ensures st == Done || st == Failed(DocumentMismatch)
    ensures st.Failed? <==> DocMismatch(o, val)
    ensures o.flags == PutFlags(old(o.flags), old(|o.entries|), st.Done?)
    ensures st.Failed? ==>
              && oldVal == PdfNull
              && o.entries == PutBase(old(o.entries), old(IsSorted(o.flags)))
              && (forall p :: p in U ==> p.parentNum == old(p.parentNum))
    ensures st.Done? ==>
              && o.entries == PutEntries(PutBase(old(o.entries), old(IsSorted(o.flags))), key, val, IsSorted(o.flags))
              && oldVal == Lookup(PutBase(old(o.entries), old(IsSorted(o.flags))), ToName(key))
              && (forall p :: p in U ==>
                    p.parentNum == if old(Stamps(val, p, U, rank)) then old(o.parentNum) else old(p.parentNum))
  {
    PutFlagsSteps(o.flags, |o.entries|, true);
    PutFlagsSteps(o.flags, |o.entries|, false);
    st := PrepareForLink(o, val, U, rank);
    AutoSort(o);
    if st.Failed? {
      oldVal := PdfNull;
      return;
    }
    var idx, loc := FindKey(o, key);
    oldVal := StoreEntry(o, key, val, idx, loc);
  }

  /**
   * The store at the end of pdf_dict_put, given what the search found: the
   * value of an existing entry is replaced in its slot, a new entry goes in
   * at loc. The replaced value (PDF_NULL for a new key) is handed back.
   */
  method StoreEntry(o: PdfObj, key: Handle, val: Handle, idx: int, loc: nat) returns (oldVal: Handle)
    requires o.kind == DictKind && o.Valid() && IsName(key)
    requires idx == IndexOfKey(o.entries, ToName(key))
    requires idx < 0 ==> loc == if IsSorted(o.flags) then InsertionPoint(o.entries, ToName(key)) else |o.entries|
    modifies o`entries
    ensures o.entries == PutEntries(old(o.entries), key, val, IsSorted(o.flags))
    ensures oldVal == Lookup(old(o.entries), ToName(key))
    ensures o.Valid()
  {
    PutSemantics(o.entries, IsSorted(o.flags), key, val);
    if idx >= 0 {
      oldVal := o.entries[idx].v;
      o.entries := o.entries[idx := KeyVal(o.entries[idx].k, val)];
    } else {
      oldVal := PdfNull;
      InsertAtFacts(o.entries, loc, KeyVal(key, val));
      o.entries := InsertAt(o.entries, loc, KeyVal(key, val));
      assert !IsSorted(o.flags) ==> o.entries == old(o.entries) + [KeyVal(key, val)];
    }
  }

  /** pdf_dict_put: pdf_dict_get_put_drop without the replaced value. */
  method DictPut(d: Handle, key: Handle, val: Handle, ghost U: set<PdfObj>, ghost rank: map<PdfObj, nat>)
    returns (st: Status)
    requires ValidHandle(d)
    requires Ranked(U, rank) && In(val, U)
    modifies Heap(d)`entries, Heap(d)`flags, U`parentNum
    ensures ValidHandle(d)
    ensures !IsDict(d) ==> st == Failed(NotADict)
    ensures IsDict(d) && !IsName(key) ==> st == Failed(KeyNotAName)
    ensures !(IsDict(d) && IsName(key)) ==> unchanged(Heap(d))
    ensures IsDict(d) && IsName(key) ==> (st.Failed? <==> DocMismatch(d.o, val))
    ensures st.Failed? ==> forall p :: p in U ==> p.parentNum == old(p.parentNum)
    ensures st.Failed? ==> forall t :: GetText(d, t) == old(GetText(d, t))
    ensures st.Done? ==>
              && Get(d, key) == val
              && (forall t :: t != ToName(key) ==> GetText(d, t) == old(GetText(d, t)))
              && DictLen(d) == old(DictLen(d)) + (if IndexOfKey(old(d.o.entries), ToName(key)) < 0 then 1 else 0)
              && ObjIsDirty(d)
              && (forall p :: p in U ==>
                    p.parentNum == if old(Stamps(val, p, U, rank)) then old(d.o.parentNum) else old(p.parentNum))
  {
    ghost var e0, s0 := if IsDict(d) then d.o.entries else [], IsDict(d) && IsSorted(d.o.flags);
    if IsDict(d) {
      PutBaseSemantics(e0, s0);
    }
    var replaced;
    st, replaced := DictGetPut(d, key, val, U, rank);
  }

  /** pdf_dict_puts: pdf_dict_put under a key made by pdf_new_name from the text s. */
  method DictPuts(d: Handle, s: string, val: Handle, ghost U: set<PdfObj>, ghost rank: map<PdfObj, nat>)
    returns (st: Status)
    requires ValidHandle(d)
    requires Ranked(U, rank) && In(val, U)
    modifies Heap(d)`entries, Heap(d)`flags, U`parentNum
    ensures ValidHandle(d)
    ensures !IsDict(d) ==> st == Failed(NotADict) && unchanged(Heap(d))
    ensures IsDict(d) ==> (st.Failed? <==> DocMismatch(d.o, val))
    ensures st.Failed? ==> forall p :: p in U ==> p.parentNum == old(p.parentNum)
    ensures st.Failed? ==> forall t :: GetText(d, t) == old(GetText(d, t))
    ensures st.Done? ==>
              && GetText(d, s) == val
              && (forall t :: t != s ==> GetText(d, t) == old(GetText(d, t)))
              && DictLen(d) == old(DictLen(d)) + (if IndexOfKey(old(d.o.entries), s) < 0 then 1 else 0)
              && ObjIsDirty(d)
              && (forall p :: p in U ==>
                    p.parentNum == if old(Stamps(val, p, U, rank)) then old(d.o.parentNum) else old(p.parentNum))
  {
    if !IsDict(d) {
      return Failed(NotADict);
    }
    var key := NewName(s);
    st := DictPut(d, key, val, U, rank);
  }

  // ---------------------------------------------------------------- removal

  /**
   * pdf_dict_dels: removes the entry spelling s by moving the last entry
   * into its slot, which clears the sorted flag. The dictionary is flagged
   * dirty even when s is absent.
   */
  method DictDels(d: Handle, s: string) returns (st: Status)
    requires ValidHandle(d)
    modifies Heap(d)`entries, Heap(d)`flags
    ensures ValidHandle(d)
    ensures !IsDict(d) ==> st == Failed(NotADict) && unchanged(Heap(d))
    ensures IsDict(d) ==> st == Done
    ensures IsDict(d) ==>
              && d.o.entries == DelEntries(old(d.o.entries), s)
              && IsSorted(d.o.flags) == (old(IsSorted(d.o.flags)) && IndexOfKey(old(d.o.entries), s) < 0)
              && IsDirty(d.o.flags)
              && IsMarked(d.o.flags) == old(IsMarked(d.o.flags))
              && Memo(d.o.flags, MemoBm) == old(Memo(d.o.flags, MemoBm))
              && Memo(d.o.flags, MemoOp) == old(Memo(d.o.flags, MemoOp))
    ensures IsDict(d) ==>
              && GetText(d, s) == PdfNull
              && (forall t :: t != s ==> GetText(d, t) == old(GetText(d, t)))
              && DictLen(d) == old(DictLen(d)) - (if IndexOfKey(old(d.o.entries), s) >= 0 then 1 else 0)
  {
    if !IsDict(d) {
      return Failed(NotADict);
    }
    var o := d.o;
    ghost var e0 := o.entries;
    DelSemantics(e0, IsSorted(o.flags), s);
    o.flags := SetBit(o.flags, Dirty);
    var i, _ := Finds(o, s);
    if i >= 0 {
      o.flags := ClearBit(o.flags, Sorted);
      o.entries := MoveLast(o.entries, i);
    }
    assert o.entries == DelEntries(e0, s);
    forall t | t != s ensures GetText(d, t) == old(GetText(d, t)) {
      assert old(GetText(d, t)) == Lookup(e0, t);
    }
    st := Done;
  }

  /** pdf_dict_del: a key that is not a name is refused before anything else is looked at. */
  method DictDel(d: Handle, key: Handle) returns (st: Status)
    requires ValidHandle(d)
    modifies Heap(d)`entries, Heap(d)`flags
    ensures ValidHandle(d)
    ensures !IsName(key) ==> st == Failed(KeyNotAName) && unchanged(Heap(d))
    ensures IsName(key) && !IsDict(d) ==> st == Failed(NotADict) && unchanged(Heap(d))
    ensures IsName(key) && IsDict(d) ==>
              && st == Done
              && d.o.entries == DelEntries(old(d.o.entries), ToName(key))
              && Get(d, key) == PdfNull
              && (forall t :: t != ToName(key) ==> GetText(d, t) == old(GetText(d, t)))
              && ObjIsDirty(d)
  {
    if !IsName(key) {
      return Failed(KeyNotAName);
    }
    st := DictDels(d, ToName(key));
  }
}
