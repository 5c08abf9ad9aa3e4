# MuPDF PDF object model in Dafny

This project models the PDF object model of MuPDF, as declared in
`include/mupdf/pdf/object.h`, and proves properties of it.

A `pdf_obj *` is a `Handle` (module `Objects`). It is one of two things:

- an immediate constant below `PDF_LIMIT`: `PDF_NULL` = 0, `PDF_TRUE` = 1, `PDF_FALSE` = 2, or a built-in `PDF_NAME(X)`;
- a reference to a heap object, a `PdfObj`.

Heap objects are shared by reference and changed in place, so `PdfObj` is a class:

- what creation fixes is a `const`: kind, name text, real bits, reference numbers and the owning document;
- what the mutators rewrite is a `var`: integer value, string bytes, array items, dictionary entries, the flag byte, and the parent number.

The flag byte holds the mark bit, the sorted bit, the dirty bit and two memo slots (module `Flags`).

The header declares the interface but holds no function bodies. Behaviour the header does not fix follows this model's reading of MuPDF's `pdf-object.c`. That file is not part of this model, so the points below are that reading, not statements checked against its text. They cover:

- the error each operation throws, and the order of its checks;
- the sorted-dictionary binary search, and the automatic sort of an unsorted dictionary of more than 100 entries on put;
- `pdf_dict_del` moving the last entry into the freed slot;
- the document check and parent stamping done before a value is linked into a container;
- `pdf_copy_array` and `pdf_copy_dict` filling a new container through push and put;
- `pdf_objcmp` finding null, true and false different from every other handle;
- `pdf_array_put` at an index equal to the length appending the item, as `pdf_array_push` does.

Where the specification of the object model describes something else, the model follows the implementation:

- `pdf_objcmp` compares dictionaries slot by slot, keys and values in order, not as unordered key sets.
- `pdf_objcmp` finds objects of different kinds different, so the integer 1 and the real 1.0 differ. The specification compares an integer with a real as reals.
- Dictionary entries are not kept in insertion order. A put into a dictionary flagged sorted inserts the new key at its sorted position. A put into an unsorted dictionary of more than 100 entries sorts it first. A delete moves the last entry into the freed slot. Each of these changes which entry `pdf_dict_get_key(d, i)` and `pdf_dict_get_val(d, i)` report. The specification lists entries in insertion order, with put appending.
- `pdf_set_obj_parent` stamps every array and dictionary it reaches, without skipping ones already stamped.
- `pdf_array_get` out of range, or on a non-array, returns `PDF_NULL` instead of throwing.
- Lookup in a sorted dictionary is a binary search. Its result equals the linear scan's, which the model proves.

Throwing is modelled as a `Status` or `Result` carrying an `Error`. Nothing changes when an operation fails before it writes.

`pdf_objcmp`, `pdf_set_obj_parent` and the copies follow containment without a cycle guard. They are modelled over a ghost universe `U` with a ranking (module `Graph`): containment inside `U` is acyclic, which is what a caller of those functions must ensure. Mutators that link a value into a container need `U` ranked only before the link. The container may lie in `U` and be reached from the value, as in `pdf_array_push(a, a)` or `pdf_dict_put(d, k, d)`. The walk then stamps what the value reached before the link, and the link closes a cycle. Their contracts state the stamping on the structure as it was before the call, and show what every object in `U` holds afterwards.

Modules:

- `Names`: the interned-name table and strcmp order.
- `Flags`: the flag byte.
- `Objects`: handles, constructors, kind queries, coercions and flag operations.
- `Graph`: the ranked universe, parent stamping, and the link step.
- `Compare`: `pdf_objcmp` and `pdf_name_eq`.
- `Arrays`: array operations and `pdf_copy_array`.
- `DictSpec`: dictionary entry sequences as values, with lookup, put, delete and sort proved on them.
- `Dicts`: the dictionary methods on objects.
- `DictCopy`: `pdf_copy_dict`.
- `Typed`: typed puts, pushes and gets.

## Model

| member | source | states |
|---|---|---|
| Objects.NewInt | include/mupdf/pdf/object.h:18 | a fresh integer object whose pdf_to_int64 is the given value, with a zero flag byte (unmarked, unsorted, clean, no memo) and parent number 0 |
| Objects.NewReal | include/mupdf/pdf/object.h:19 | a fresh real object that keeps the float's bit pattern |
| Objects.NewName | include/mupdf/pdf/object.h:20 | the result is a name spelling the text; it is the immediate built-in handle exactly when the text is in the name table, and a fresh heap name otherwise |
| Names.FindBuiltin | include/mupdf/pdf/object.h:20 | the interning lookup finds the table index of the text, or -1 exactly when the text is not a built-in name |
| Objects.NewString | include/mupdf/pdf/object.h:21 | a fresh string whose bytes and length are those given |
| Objects.NewIndirect | include/mupdf/pdf/object.h:23 | fails exactly when the object number lies outside [0, PDF_MAX_OBJECT_NUMBER]; otherwise pdf_to_num, pdf_to_gen and the indirect document read back what was given |
| Objects.NewArray | include/mupdf/pdf/object.h:24 | a fresh empty array bound to the document, clean and with parent number 0 |
| Objects.NewDict | include/mupdf/pdf/object.h:25 | a fresh empty, unsorted, well-formed dictionary bound to the document |
| Arrays.CopyArray | include/mupdf/pdf/object.h:28 | fails (not an array, or document mismatch) exactly when the original is not an array or some item is bound to another document; otherwise a fresh array with the same item handles in the same order, the same document, parent number 0, dirty iff non-empty, and every object the items reach is stamped with 0 while everything else keeps its parent number |
| Arrays.PushAll | include/mupdf/pdf/object.h:28 | the loop of pdf_copy_array: succeeds exactly when every item agrees with the document, and then the copy holds all items and their subtrees are stamped |
| Arrays.CopyItem | include/mupdf/pdf/object.h:28 | one round of the copy loop: fails exactly when the item is bound to another document; otherwise the copy holds one more item and that item's subtree is stamped with 0 |
| DictCopy.CopyDict | include/mupdf/pdf/object.h:29 | fails exactly when the original is not a dictionary or some value is bound to another document; otherwise a fresh well-formed dictionary of the same document, parent number 0, under which every name looks up the same value as in the original; the values' subtrees are stamped with 0 and nothing else changes |
| DictCopy.PutAll | include/mupdf/pdf/object.h:29 | the loop of pdf_copy_dict: succeeds exactly when every value agrees with the document, and then each key of the original looks up its value in the copy and every other name looks up null |
| DictCopy.CopyEntry | include/mupdf/pdf/object.h:29 | one round of the copy loop: fails exactly when the value is bound to another document; otherwise the copy looks up one more entry of the original, and the objects stamped with 0 are those of the values put so far |
| DictCopy.PutEntry | include/mupdf/pdf/object.h:29 | the put of one round: fails exactly when the value is bound to another document; otherwise the copy looks up one more entry of the original and exactly that value's subtree is stamped with 0 |
| DictCopy.CopiedNext | include/mupdf/pdf/object.h:29 | putting a key distinct from the keys before it, into entries holding those keys, gives entries holding one more key while every other name keeps looking up null |
| DictCopy.Values | include/mupdf/pdf/object.h:29 | the values of the entries, in entry order |
| DictCopy.CopiedAll | include/mupdf/pdf/object.h:29 | a copy holding every entry of a well-formed dictionary looks up exactly what the original looks up |
| Objects.ExactlyOneKind | include/mupdf/pdf/object.h:35-45 | every handle, as given, satisfies exactly one of the kind tests; immediates are null, bool or name |
| Objects.ResolvedKinds | include/mupdf/pdf/object.h:35-45 | the library's kind tests, which resolve first (all but pdf_is_indirect): exactly one of the eight non-reference kinds holds of what a handle resolves to, so a reference passes pdf_is_indirect and the test of its target's kind |
| Objects.Resolve | include/mupdf/pdf/object.h:48 | anything but an indirect reference resolves to itself; an indirect reference resolves to what the document maps its (num, gen) to |
| Compare.ObjCmp | include/mupdf/pdf/object.h:49 | the result is "equal" exactly when the two handles are structurally equal: same handle; never when one is null, true or false and the other is a different handle; a heap name matching a built-in name's text; or same kind and same value, arrays item by item, dictionaries key and value slot by slot |
| Compare.ObjEqSymmetric | include/mupdf/pdf/object.h:49 | pdf_objcmp's equality does not depend on the order of its operands |
| Compare.ObjEqTransitive | include/mupdf/pdf/object.h:49 | pdf_objcmp's equality is transitive, so with symmetry it is an equivalence on an acyclic universe |
| Compare.ImmediateEqualsOnlyItself | include/mupdf/pdf/object.h:49 | null, true, false and every built-in name compare equal to themselves only, in either operand position |
| Compare.ItemsCmp | include/mupdf/pdf/object.h:49 | the array case of pdf_objcmp: equal exactly when the lengths agree and the items compare equal position by position |
| Compare.EntriesCmp | include/mupdf/pdf/object.h:49 | the dictionary case: equal exactly when the lengths agree and keys and values compare equal slot by slot |
| Compare.ObjEqNames | include/mupdf/pdf/object.h:49 | on two names pdf_objcmp finds them equal exactly when their texts are equal |
| Compare.ObjCmpResolve | include/mupdf/pdf/object.h:50 | pdf_objcmp_resolve equals pdf_objcmp on the resolved operands, and equals plain pdf_objcmp when neither operand is indirect |
| Compare.NameEq | include/mupdf/pdf/object.h:51 | pdf_name_eq holds only when both resolved operands are names |
| Compare.NameEqIsTextEq | include/mupdf/pdf/object.h:51 | on names, pdf_name_eq holds exactly when the texts are equal, and so agrees with pdf_objcmp; on a non-name, non-reference operand it is false |
| Objects.ObjMarked | include/mupdf/pdf/object.h:54 | only a heap object can be marked |
| Objects.MarkObj | include/mupdf/pdf/object.h:55 | returns whether the object was already marked; afterwards it is marked, and every other flag and memo is unchanged |
| Objects.UnmarkObj | include/mupdf/pdf/object.h:56 | afterwards the object is not marked, and every other flag and memo is unchanged |
| Flags.SetBit | include/mupdf/pdf/object.h:53-74 | setting the mark, sorted or dirty bit sets that bit and leaves every other flag and both memo slots as they were |
| Flags.ClearBit | include/mupdf/pdf/object.h:53-74 | clearing one of those bits clears it and leaves every other flag and both memo slots as they were |
| Flags.SetMemo | include/mupdf/pdf/object.h:62-69 | after setting memo slot b to m, slot b reports a memo with value m; the other slot and the mark, sorted and dirty bits are unchanged |
| Flags.FreshFlags | include/mupdf/pdf/object.h:58-69 | a fresh object is unmarked, unsorted and clean, and reports no memo in either slot |
| Objects.SetObjMemo | include/mupdf/pdf/object.h:68 | pdf_set_obj_memo then pdf_obj_memo on the same slot reports a memo with the value set; the other slot and the other flags are unchanged; an immediate never has a memo |
| Objects.ObjMemo | include/mupdf/pdf/object.h:69 | an immediate constant reports no memo |
| Objects.ObjIsDirty | include/mupdf/pdf/object.h:72 | only a heap object can be dirty |
| Objects.DirtyObj | include/mupdf/pdf/object.h:73 | afterwards a heap object is dirty, and every other flag and memo is unchanged |
| Objects.CleanObj | include/mupdf/pdf/object.h:74 | afterwards the object is not dirty, and every other flag and memo is unchanged |
| Objects.ToBool | include/mupdf/pdf/object.h:77 | true only for PDF_TRUE; false for every non-boolean |
| Objects.ToInt | include/mupdf/pdf/object.h:78 | 0 for a non-number; an integer's value when it fits 32 bits, and otherwise that value wrapped modulo 2^32 |
| Objects.Wrap32 | include/mupdf/pdf/object.h:78 | the C conversion to int: congruent modulo 2^32, and the identity on values that fit |
| Objects.ToInt64 | include/mupdf/pdf/object.h:79 | an integer's value, 0 for a non-number |
| Objects.ToName | include/mupdf/pdf/object.h:81 | "" for a non-name; an immediate name spells a table entry, a heap name never does |
| Objects.ToStrBuf | include/mupdf/pdf/object.h:82 | the empty byte string for a non-string |
| Objects.ToStrLen | include/mupdf/pdf/object.h:83 | the length of what pdf_to_str_buf returns; 0 for a non-string |
| Objects.ToNum | include/mupdf/pdf/object.h:84 | 0 for a non-reference; always within [0, PDF_MAX_OBJECT_NUMBER] |
| Objects.ToGen | include/mupdf/pdf/object.h:85 | 0 for a non-reference |
| Objects.SilentDefaults | include/mupdf/pdf/object.h:76-85 | every pdf_to_* coercion of a handle of the wrong kind returns its default (false, 0, "", empty) instead of failing, so only pdf_is_* tells a 0 value from a non-number |
| Arrays.ArrayLen | include/mupdf/pdf/object.h:87 | 0 for a non-array |
| Arrays.ArrayGet | include/mupdf/pdf/object.h:88 | null outside [0, length) and for a non-array |
| Arrays.ArrayPut | include/mupdf/pdf/object.h:89 | fails on a non-array, on an index outside [0, length], and exactly on a document mismatch, changing nothing; an index equal to the length appends; otherwise only slot i changes and the length stays; the array becomes dirty, the value's subtree is stamped with the array's parent number, and documents stay in agreement |
| Arrays.ArrayPush | include/mupdf/pdf/object.h:91 | fails on a non-array or exactly on a document mismatch; otherwise the length grows by one, earlier items are unchanged, the last item is the value, the array is dirty and the value's subtree, as it was before the push, is stamped with the array's parent number, even when that subtree holds the array itself |
| Arrays.PushSelf | include/mupdf/pdf/object.h:91 | pushing an array of the universe onto itself is accepted: the array's last item is then the array itself, and the array keeps its parent number |
| Arrays.ArrayInsert | include/mupdf/pdf/object.h:93 | fails on a non-array, on an index outside [0, length], and exactly on a document mismatch, changing nothing; otherwise items before the index are unchanged, the value sits at the index, later items shift up by one, the length grows by one, the array is dirty and the value's subtree, as it was before the insert, is stamped with the array's parent number |
| Arrays.ArrayDelete | include/mupdf/pdf/object.h:95 | fails on a non-array or an index outside [0, length), changing nothing; otherwise items before the index are unchanged, later items shift down by one, the length drops by one, and the array becomes dirty |
| Arrays.FirstMatch | include/mupdf/pdf/object.h:96 | the first index whose item pdf_objcmp-equals the argument, or -1 when none does |
| Arrays.ArrayFind | include/mupdf/pdf/object.h:96 | pdf_array_find returns the first index whose item compares equal, -1 when none does or on a non-array |
| Arrays.ArrayContains | include/mupdf/pdf/object.h:97 | holds exactly when some item compares equal, that is exactly when pdf_array_find returns an index |
| Dicts.DictLen | include/mupdf/pdf/object.h:99 | the number of entries; 0 for a non-dictionary |
| Dicts.DictGetKey | include/mupdf/pdf/object.h:100 | the key of entry i, null outside [0, length) |
| Dicts.DictGetVal | include/mupdf/pdf/object.h:101 | the value of entry i, null outside [0, length) |
| Dicts.EnumerationAgreesWithLookup | include/mupdf/pdf/object.h:99-102 | in a valid dictionary every enumerated key is a name, and looking it up yields the value at the same index |
| Dicts.Get | include/mupdf/pdf/object.h:102 | null for a non-dictionary or a key that is not a name |
| DictSpec.IndexOfKey | include/mupdf/pdf/object.h:102 | the first index whose key spells the name, or -1 when no key does |
| DictSpec.Lookup | include/mupdf/pdf/object.h:102 | a name that no key spells looks up null |
| DictSpec.LookupFound | include/mupdf/pdf/object.h:102 | in a well-formed dictionary, a name looks up the value beside the key that spells it |
| Dicts.FindKey | include/mupdf/pdf/object.h:102 | the key search (binary when the dictionary is sorted) finds the same index as the first-match linear scan; for an absent key it returns the sorted insertion point, or the end of an unsorted dictionary |
| Dicts.SortedSearch | include/mupdf/pdf/object.h:102 | on a sorted dictionary the binary search finds the index of the key or the position keeping the order |
| Dicts.DictGet | include/mupdf/pdf/object.h:102 | pdf_dict_get returns the lookup of the key's text |
| Dicts.GetText | include/mupdf/pdf/object.h:106 | looking up a text in a non-dictionary yields null |
| Dicts.SearchKeys | include/mupdf/pdf/object.h:102 | the binary search over strictly increasing keys finds the key's index, or a position with every smaller key before it and every greater key after it |
| Dicts.Finds | include/mupdf/pdf/object.h:102 | the search by text finds the first-match index, and for an absent text the sorted insertion point or the end of an unsorted dictionary |
| Dicts.FindBuiltinKey | include/mupdf/pdf/object.h:102 | a search for an immediate name key finds the same index as the search by its text |
| DictSpec.IndexOfKeyUnique | include/mupdf/pdf/object.h:102 | in a well-formed dictionary the position of a key is the only one that spells it |
| DictSpec.InsertionPoint | include/mupdf/pdf/object.h:102 | the insertion point has every smaller key before it and no smaller key at it |
| DictSpec.SearchOutcome | include/mupdf/pdf/object.h:102 | any search result with the binary search's properties is the first-match index, and for an absent key the insertion point |
| Dicts.DictGetA | include/mupdf/pdf/object.h:105 | the value under key when present, otherwise the value under abbrev |
| Dicts.DictGets | include/mupdf/pdf/object.h:106 | pdf_dict_gets returns the lookup of the text |
| Dicts.DictGetsA | include/mupdf/pdf/object.h:107 | the value under the text when present, otherwise under the abbreviation |
| Dicts.DictPut | include/mupdf/pdf/object.h:108 | fails on a non-dictionary, on a key that is not a name, and exactly on a document mismatch, then looking up nothing new; otherwise the key finds the value put, every other name finds what it found before, the length grows by one exactly when the key was new, the dictionary is dirty and stays well formed, and the value's subtree, as it was before the put, is stamped with the dictionary's parent number, even when that subtree holds the dictionary itself |
| DictSpec.PutSemantics | include/mupdf/pdf/object.h:108 | put on entry sequences keeps them well formed (and sorted when sorted), makes the key find the value, leaves every other lookup alone, and keeps the length when the key existed |
| DictSpec.PutExisting | include/mupdf/pdf/object.h:108 | putting an existing key replaces its value in place and keeps the length |
| DictSpec.PutSortedNew | include/mupdf/pdf/object.h:108 | a new key in a sorted dictionary is inserted at the point that keeps the keys strictly increasing |
| DictSpec.PutAppend | include/mupdf/pdf/object.h:108 | a new key in an unsorted dictionary is appended |
| Dicts.PutBaseSemantics | include/mupdf/pdf/object.h:108 | the automatic sort before a put of a large unsorted dictionary changes no lookup, no key presence and no length, and leaves the entries sorted |
| Dicts.PutAfterAutoSort | include/mupdf/pdf/object.h:108 | the automatic sort followed by the put has the put's lookup effect on the original entries |
| Dicts.PutFlags | include/mupdf/pdf/object.h:108 | a put sets the sorted bit when it sorted, sets the dirty bit when it linked the value, and leaves the mark bit and memos alone |
| Dicts.PutFlagsSteps | include/mupdf/pdf/object.h:108 | the flag effect of a put is the automatic sort's sorted bit followed by the dirty bit when the value was linked |
| Dicts.AutoSort | include/mupdf/pdf/object.h:108 | the step before a put: a valid dictionary of more than 100 unsorted entries is sorted and flagged sorted, anything else is left alone |
| Dicts.PutInto | include/mupdf/pdf/object.h:108 | a put on a dictionary object: the automatic sort, a document check that fails exactly on a mismatch, and stamping of the value's subtree as it was before the put (the sort and the stamping commute); then the key's value is replaced or the entry inserted, returning what the key found before |
| Dicts.StoreEntry | include/mupdf/pdf/object.h:108 | replaces the value of an existing key in place, or inserts a new entry at the found position, keeping the dictionary valid |
| DictSpec.InsertAtWellFormed | include/mupdf/pdf/object.h:108 | inserting a new name key between its smaller and greater neighbours keeps a sorted dictionary well formed |
| DictSpec.InsertAtKeepsLookup | include/mupdf/pdf/object.h:108 | inserting an entry changes no lookup of any other name |
| Graph.PrepareForLink | include/mupdf/pdf/object.h:89-118 | linking a value into a container fails exactly when both are bound to different documents, changing nothing; otherwise the container becomes dirty and exactly the value's subtree is stamped with the container's parent number, which the container keeps even when the subtree holds it |
| Dicts.DictGetPut | include/mupdf/pdf/object.h:110 | pdf_dict_get_put_drop behaves as pdf_dict_put and also returns what the key found before |
| Dicts.DictPuts | include/mupdf/pdf/object.h:111 | pdf_dict_put under the name spelling the text: fails exactly on a non-dictionary or a document mismatch, then changing no lookup and no parent number; otherwise the text finds the value, other names are unchanged, the length grows by one exactly for a new name, the dictionary is dirty and the value's subtree is stamped with its parent number |
| Dicts.DictDel | include/mupdf/pdf/object.h:117 | fails on a key that is not a name or a non-dictionary; otherwise the key finds null afterwards, every other name finds what it found before, and the dictionary is dirty |
| Dicts.DictDels | include/mupdf/pdf/object.h:118 | fails only on a non-dictionary; otherwise the text finds null afterwards, other names find what they found before, the length drops by one exactly when the text was a key, the dictionary is dirty, and the sorted bit stays set exactly when it was set and the text was not a key (the last entry moved into the hole breaks the order) |
| DictSpec.DelSemantics | include/mupdf/pdf/object.h:117-118 | delete on entry sequences keeps them well formed, makes the name find null, leaves every other lookup alone, and drops the length by one exactly when the name was a key |
| DictSpec.MoveLastKeepsLookup | include/mupdf/pdf/object.h:117-118 | moving the last entry into the freed slot changes no other name's lookup |
| DictSpec.MoveLastKeepsWellFormed | include/mupdf/pdf/object.h:117-118 | moving the last entry into the freed slot keeps the dictionary well formed and removes the deleted key |
| Dicts.SortDict | include/mupdf/pdf/object.h:119 | afterwards the dictionary is flagged sorted with strictly increasing keys, and every name looks up what it did before |
| Dicts.SortInPlace | include/mupdf/pdf/object.h:119 | sorting an unsorted valid dictionary leaves strictly increasing keys and sets the sorted bit |
| DictSpec.SortEntries | include/mupdf/pdf/object.h:119 | sorting keeps the length and is a permutation of the entries |
| DictSpec.SortSemantics | include/mupdf/pdf/object.h:119 | sorting a well-formed dictionary yields strictly increasing keys |
| DictSpec.SortKeepsLookup | include/mupdf/pdf/object.h:119 | sorting changes no lookup and no key presence |
| Typed.DictPutBool | include/mupdf/pdf/object.h:121 | on a dictionary and a name key it succeeds, and pdf_dict_get_bool reads the value back; other names are unchanged |
| Typed.BoolHandle | include/mupdf/pdf/object.h:121 | the boolean handle that pdf_to_bool reads back as the given value |
| Typed.DictPutInt | include/mupdf/pdf/object.h:122 | pdf_dict_get_int reads the value back cut to 32 bits; other names are unchanged |
| Typed.DictPutName | include/mupdf/pdf/object.h:124 | on a dictionary and a name key the key finds a name spelling the text; other names are unchanged |
| Typed.DictPutString | include/mupdf/pdf/object.h:125 | on a dictionary and a name key pdf_dict_get_string reads the bytes and their count back; other names are unchanged |
| Typed.DictPutArray | include/mupdf/pdf/object.h:129 | on a dictionary and a name key: the returned fresh empty array is what the key finds, bound to the dictionary's document and carrying its parent number; other names are unchanged |
| Typed.DictPutDict | include/mupdf/pdf/object.h:130 | on a dictionary and a name key: the returned fresh empty dictionary is what the key finds, bound to the dictionary's document and carrying its parent number; other names are unchanged |
| Typed.DictGetBool | include/mupdf/pdf/object.h:132 | true only on a dictionary and a name key; false when no key spells the name; a direct value reads true exactly when it is PDF_TRUE |
| Typed.AbsentFindsNull | include/mupdf/pdf/object.h:132-135 | a name that no key of the dictionary spells looks up null |
| Typed.DictGetInt | include/mupdf/pdf/object.h:133 | 0 on a non-dictionary, a non-name key, or a name no key spells; the value of the integer found, directly or through a reference, when it fits 32 bits |
| Typed.DictGetString | include/mupdf/pdf/object.h:135 | the reported size is the length of the bytes; nothing on a non-dictionary, a non-name key, or an absent key; the bytes of the string found, directly or through a reference |
| Typed.ArrayPushBool | include/mupdf/pdf/object.h:137 | fails only on a non-array; otherwise the boolean is appended after the unchanged items and pdf_array_get_bool reads it back at the new last index |
| Typed.ArrayPushInt | include/mupdf/pdf/object.h:138 | the length grows by one, earlier items are unchanged, and pdf_array_get_int reads the value back cut to 32 bits |
| Typed.ArrayPushName | include/mupdf/pdf/object.h:140 | on an array the length grows by one, earlier items are unchanged, and the new last item is a name spelling the text |
| Typed.ArrayPushString | include/mupdf/pdf/object.h:141 | on an array the length grows by one, earlier items are unchanged, and the new last item is a string of the given bytes |
| Typed.ArrayPushArray | include/mupdf/pdf/object.h:143 | on an array: a fresh empty array, bound to the array's document and carrying its parent number, is appended and returned |
| Typed.ArrayPushDict | include/mupdf/pdf/object.h:144 | on an array: a fresh empty dictionary, bound to the array's document and carrying its parent number, is appended and returned |
| Typed.ArrayGetBool | include/mupdf/pdf/object.h:146 | true only for an index inside an array; a direct item reads true exactly when it is PDF_TRUE |
| Typed.ArrayGetInt | include/mupdf/pdf/object.h:147 | 0 outside the array or on a non-array; the value of the integer item, directly or through a reference, when it fits 32 bits |
| Typed.GettersResolve | include/mupdf/pdf/object.h:132-147 | a value or item that is an indirect reference reads, through every typed getter, as the object the document maps it to |
| Graph.SetObjParent | include/mupdf/pdf/object.h:150-156 | every object of the universe that the walk reaches through array items and dictionary values (containers only; indirect references stop the walk) gets the number, and every other object keeps its parent number |
| Graph.SetItemsParent | include/mupdf/pdf/object.h:150-156 | the array case: the array and what each item's walk reaches get the number, nothing else changes |
| Graph.SetValuesParent | include/mupdf/pdf/object.h:150-156 | the dictionary case: the dictionary and what each value's walk reaches get the number, keys are not entered |
| Graph.StampsOnlyContainers | include/mupdf/pdf/object.h:150-156 | pdf_set_obj_parent writes only arrays and dictionaries of the universe |
| Objects.ObjParentNum | include/mupdf/pdf/object.h:160 | an indirect reference reports its own object number; scalars and immediates report 0 |
| Objects.IndirectDocument | include/mupdf/pdf/object.h:177 | only an indirect reference has an indirect document, and it is its bound document |
| Objects.BoundDocument | include/mupdf/pdf/object.h:178 | only arrays, dictionaries and indirect references are bound to a document |
| Objects.SetStrLen | include/mupdf/pdf/object.h:179 | a string is cut to the new length when that does not exceed its length; anything else is left alone |
| Objects.SetInt | include/mupdf/pdf/object.h:180 | an integer takes the new value; any other handle is left alone |
| Names.BuiltinName | include/mupdf/pdf/object.h:184-199 | the handle of built-in name i lies strictly between PDF_FALSE and PDF_LIMIT and spells table entry i |
| Names.BuiltinNamesDistinct | include/mupdf/pdf/object.h:184-199 | distinct built-in names have distinct handles and distinct texts |
| Names.TableSorted | include/mupdf/pdf/object.h:184-199 | the name table is in strictly increasing strcmp order |
| Names.TableDistinct | include/mupdf/pdf/object.h:184-199 | no built-in name is listed twice |
| Names.ImmText | include/mupdf/pdf/object.h:184-199 | the text of an immediate name handle is a table entry; null, true and false spell the empty text |
| Objects.InternedNameIdentity | include/mupdf/pdf/object.h:184-199 | a built-in name is the only name handle that spells its text |

## Left out

- `pdf_deep_copy_obj` (object.h:30): it allocates a whole new graph, one object per reachable container, and the model has no frame for that allocation.
- `pdf_new_text_string`, `pdf_new_rect`, `pdf_new_matrix`, `pdf_to_rect`, `pdf_to_matrix`, `pdf_to_real`, and the `_real`, `_rect`, `_matrix` and `_text_string` typed puts, pushes and gets: these are float arithmetic or text encoding. Reals are kept as an opaque 32-bit pattern.
- Objects.ToInt64: a real is converted by a caller-supplied rounding function. Float-to-integer conversion is outside the model, so the result for a real is not stated.
- Compare.ObjCmp: reals compare by bit pattern, not as floats, so +0 and -0 differ and a NaN equals itself. Float comparison is outside the model.
- Reference counting (`pdf_keep_obj`, `pdf_drop_obj`, `pdf_obj_refs`), and the `_drop` variants apart from their put or push: freeing memory is allocator behaviour.
- `pdf_dict_getp`, `pdf_dict_putp`, `pdf_dict_getl` and `pdf_dict_putl` (path and variadic access): these are compositions of get and put on nested dictionaries and are not modelled separately.
- Resolution of arguments: every kind test but `pdf_is_indirect`, every coercion but `pdf_to_num` and `pdf_to_gen`, and every container entry point resolve an indirect argument before inspecting it. The model's kind tests, coercions and container operations act on the handle they are given: the library's `pdf_is_int(h)` is `IsInt(Resolve(h, xref))`, and callers pass `Resolve(h, xref)`. `Objects.ResolvedKinds` states the library's view of the kind tests. The typed getters, which find their value themselves, do resolve it. The document's cross-reference table, including how it follows a chain of references, is the `xref` parameter.
- Objects.ExactlyOneKind: states the kind tests of the handle as given. Through the library's tests a reference is both indirect and of its target's kind; `Objects.ResolvedKinds` states that.
- Objects.SilentDefaults: states the coercions of the handle as given. Through the library's coercions a reference to a value of the right kind reads as that value, not as the default.
- Graph.PrepareForLink: in the library, changing a container whose parent number is not 0 also moves the whole containing object into the document's incremental xref section, which is why parent numbers are recorded. That document-side move is not modelled. The mutators that change a container are `Arrays.ArrayPut`, `Arrays.ArrayPush`, `Arrays.ArrayInsert`, `Arrays.ArrayDelete`, `Dicts.PutInto`, `Dicts.DictGetPut`, `Dicts.DictPut`, `Dicts.DictPuts`, `Dicts.DictDel` and `Dicts.DictDels`. The model records only the dirty bit and the parent-number stamps.
- Objects.ToInt: a real is converted by a caller-supplied rounding function and cut to 32 bits. C's float-to-integer conversion is undefined out of range, so only the integer case is stated.
- `pdf_is_stream` and `pdf_obj_num_is_stream`: these need the document's cross-reference table.
- The serializer `pdf_sprint_obj`, `pdf_print_obj`, the encrypting variants and `pdf_debug_obj`: these are output and encryption.
- `pdf_to_utf8`, `pdf_load_stream_as_utf8`, `pdf_load_stream_or_string_as_utf8` and `pdf_to_utf8_name`: these are text decoding and stream loading.
- Array and dictionary capacity and growth: capacity is an allocation hint and does not affect what the operations return.
- The real name table (name-table.h) is not part of this model. A short stand-in table in the same strcmp order is used, and the proofs rely on its order, not its size.
- Arrays.CopyArray: when a copy fails part-way, the objects stamped before the failure keep their new parent number. The contract does not state that partial state.
- DictCopy.CopyDict: when a copy fails part-way, the entries put before the failure stay stamped. The contract does not state that partial state.
