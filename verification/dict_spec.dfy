/**
 * What the dictionary operations do to a dictionary's entry sequence.
 *
 * A dictionary keeps its entries in insertion order; pdf_sort_dict sorts them
 * by key and flags the dictionary sorted, after which insertions go to their
 * sorted place. A key is found by its text, so a built-in immediate name and
 * a heap name find the same entry.
 */
module DictSpec {
  import opened Names
  import opened Objects

  /** The first index from k on whose key spells s, or -1. */
  function IndexFrom(e: seq<KeyVal>, s: string, k: nat): (i: int)
    requires k <= |e|
    ensures i == -1 || k <= i < |e|
    ensures i >= 0 ==> KeyText(e[i]) == s && forall j :: k <= j < i ==> KeyText(e[j]) != s
    ensures i < 0 ==> forall j :: k <= j < |e| ==> KeyText(e[j]) != s
    decreases |e| - k
  {
    if k == |e| then -1
    else if KeyText(e[k]) == s then k
    else IndexFrom(e, s, k + 1)
  }

  /** The first index whose key spells s, or -1. */
  function IndexOfKey(e: seq<KeyVal>, s: string): (i: int)
    ensures -1 <= i < |e|
    ensures i >= 0 ==> KeyText(e[i]) == s && forall j :: 0 <= j < i ==> KeyText(e[j]) != s
    ensures i < 0 ==> forall j :: 0 <= j < |e| ==> KeyText(e[j]) != s
  {
    IndexFrom(e, s, 0)
  }

  /** In a dictionary without repeated keys, the entry that spells s is the one found. */
  lemma IndexOfKeyUnique(e: seq<KeyVal>, s: string, j: int)
    requires WellFormedDict(e, false)
    requires 0 <= j < |e| && KeyText(e[j]) == s
    ensures IndexOfKey(e, s) == j
  {
  }

  /** pdf_dict_get on the entries: the value stored under s, or PDF_NULL. */
  function Lookup(e: seq<KeyVal>, s: string): (v: Handle)
    ensures (forall j :: 0 <= j < |e| ==> KeyText(e[j]) != s) ==> v == PdfNull
  {
    var i := IndexOfKey(e, s);
    if i >= 0 then e[i].v else PdfNull
  }

  /** In a dictionary without repeated keys, s finds the value of the entry that spells it. */
  lemma LookupFound(e: seq<KeyVal>, s: string, j: int)
    requires WellFormedDict(e, false)
    requires 0 <= j < |e| && KeyText(e[j]) == s
    ensures Lookup(e, s) == e[j].v
  {
    IndexOfKeyUnique(e, s, j);
  }

  /** s finds the value of the first entry that spells it, repeated keys or not. */
  lemma LookupFirst(e: seq<KeyVal>, s: string, j: int)
    requires 0 <= j < |e| && KeyText(e[j]) == s
    requires forall k :: 0 <= k < j ==> KeyText(e[k]) != s
    ensures Lookup(e, s) == e[j].v
  {
  }

  /** The first index from k on whose key is not below s (|e| when there is none). */
  function InsertionFrom(e: seq<KeyVal>, s: string, k: nat): (loc: nat)
    requires k <= |e|
    ensures k <= loc <= |e|
    ensures forall j :: k <= j < loc ==> StrLess(KeyText(e[j]), s)
    ensures loc < |e| ==> !StrLess(KeyText(e[loc]), s)
    decreases |e| - k
  {
    if k == |e| || !StrLess(KeyText(e[k]), s) then k
    else InsertionFrom(e, s, k + 1)
  }

  /** The number of leading keys strictly below s: where s goes in a sorted dictionary. */
  function InsertionPoint(e: seq<KeyVal>, s: string): (loc: nat)
    ensures loc <= |e|
    ensures forall j :: 0 <= j < loc ==> StrLess(KeyText(e[j]), s)
    ensures loc < |e| ==> !StrLess(KeyText(e[loc]), s)
  {
    InsertionFrom(e, s, 0)
  }

  predicate StrictlySorted(e: seq<KeyVal>) {
    forall i, j :: 0 <= i < j < |e| ==> StrLess(KeyText(e[i]), KeyText(e[j]))
  }

  /** Strict order rules out repeated keys. */
  lemma SortedIsUnique(e: seq<KeyVal>)
    requires StrictlySorted(e)
    ensures forall i, j :: 0 <= i < j < |e| ==> KeyText(e[i]) != KeyText(e[j])
  {
    forall i, j | 0 <= i < j < |e| ensures KeyText(e[i]) != KeyText(e[j]) {
      StrLessAsymmetric(KeyText(e[i]), KeyText(e[j]));
    }
  }

  /** In strictly sorted entries without s, every key from the insertion point on is above s. */
  lemma AboveInsertionPoint(e: seq<KeyVal>, s: string)
    requires StrictlySorted(e)
    requires forall j :: 0 <= j < |e| ==> KeyText(e[j]) != s
    ensures forall j :: InsertionPoint(e, s) <= j < |e| ==> StrLess(s, KeyText(e[j]))
  {
    var loc := InsertionPoint(e, s);
    if loc < |e| {
      StrLessTotal(s, KeyText(e[loc]));
      forall j | loc < j < |e| ensures StrLess(s, KeyText(e[j])) {
        StrLessTransitive(s, KeyText(e[loc]), KeyText(e[j]));
      }
    }
  }

  /**
   * The sorted place of s is the only index with every key before it below s
   * and every key from it on above s.
   */
  lemma InsertionPointUnique(e: seq<KeyVal>, s: string, lo: nat)
    requires lo <= |e|
    requires forall j :: 0 <= j < lo ==> StrLess(KeyText(e[j]), s)
    requires forall j :: lo <= j < |e| ==> StrLess(s, KeyText(e[j]))
    ensures InsertionPoint(e, s) == lo
  {
    var loc := InsertionPoint(e, s);
    if loc > lo {
      StrLessAsymmetric(KeyText(e[lo]), s);
    }
  }

  /**
   * What a search of a dictionary without repeated keys reports: an index
   * whose key spells s is the one IndexOfKey finds; a place with every key
   * before it below s and every key from it on above s means that s is
   * absent and that place is its insertion point.
   */
  lemma SearchOutcome(e: seq<KeyVal>, s: string, idx: int, loc: nat)
    requires WellFormedDict(e, false)
    requires -1 <= idx < |e| && loc <= |e|
    requires idx >= 0 ==> KeyText(e[idx]) == s
    requires idx < 0 ==> forall j :: 0 <= j < loc ==> StrLess(KeyText(e[j]), s)
    requires idx < 0 ==> forall j :: loc <= j < |e| ==> StrLess(s, KeyText(e[j]))
    ensures idx == IndexOfKey(e, s)
    ensures idx < 0 ==> loc == InsertionPoint(e, s)
  {
    if idx >= 0 {
      IndexOfKeyUnique(e, s, idx);
    } else {
      StrLessIrreflexive(s);
      InsertionPointUnique(e, s, loc);
    }
  }

  function InsertAt(e: seq<KeyVal>, loc: nat, x: KeyVal): (r: seq<KeyVal>)
    requires loc <= |e|
    ensures |r| == |e| + 1
  {
    e[..loc] + [x] + e[loc..]
  }

  /** Where every entry lands after InsertAt. */
  lemma InsertAtFacts(e: seq<KeyVal>, loc: nat, x: KeyVal)
    requires loc <= |e|
    ensures InsertAt(e, loc, x)[loc] == x
    ensures forall j :: 0 <= j < loc ==> InsertAt(e, loc, x)[j] == e[j]
    ensures forall j :: loc < j <= |e| ==> InsertAt(e, loc, x)[j] == e[j - 1]
    ensures multiset(InsertAt(e, loc, x)) == multiset(e) + multiset{x}
  {
    assert e == e[..loc] + e[loc..];
  }

  /** Where entry j of InsertAt comes from. */
  lemma InsertAtIndex(e: seq<KeyVal>, loc: nat, x: KeyVal, j: nat)
    requires loc <= |e| && j <= |e|
    ensures InsertAt(e, loc, x)[j] == if j < loc then e[j] else if j == loc then x else e[j - 1]
  {
  }

  /** The key texts of the entries, in order. */
  function Keys(e: seq<KeyVal>): (ks: seq<string>)
    ensures |ks| == |e| && forall i :: 0 <= i < |e| ==> ks[i] == KeyText(e[i])
  {
    seq(|e|, i requires 0 <= i < |e| => KeyText(e[i]))
  }

  /** Strictly sorted runs below and above x join around x into one strictly sorted run. */
  lemma SortedJoin(a: seq<KeyVal>, x: KeyVal, b: seq<KeyVal>)
    requires StrictlySorted(a) && StrictlySorted(b)
    requires forall j :: 0 <= j < |a| ==> StrLess(KeyText(a[j]), KeyText(x))
    requires forall j :: 0 <= j < |b| ==> StrLess(KeyText(x), KeyText(b[j]))
    ensures StrictlySorted(a + [x] + b)
  {
    var r := a + [x] + b;
    var n := |a|;
    assert forall k :: 0 <= k < |r| ==> r[k] == if k < n then a[k] else if k == n then x else b[k - n - 1];
    forall i, j | 0 <= i < j < |r| ensures StrLess(KeyText(r[i]), KeyText(r[j])) {
      if i < n && j > n {
        StrLessTransitive(KeyText(a[i]), KeyText(x), KeyText(b[j - n - 1]));
      }
    }
  }

  /** A new key placed between the keys below it and the keys above it keeps the entries strictly sorted. */
  lemma InsertBetween(e: seq<KeyVal>, loc: nat, x: KeyVal)
    requires StrictlySorted(e) && loc <= |e|
    requires forall j :: 0 <= j < loc ==> StrLess(KeyText(e[j]), KeyText(x))
    requires forall j :: loc <= j < |e| ==> StrLess(KeyText(x), KeyText(e[j]))
    ensures StrictlySorted(InsertAt(e, loc, x))
  {
    var a, b := e[..loc], e[loc..];
    assert forall j :: 0 <= j < |a| ==> a[j] == e[j];
    assert forall j :: 0 <= j < |b| ==> b[j] == e[loc + j];
    SortedJoin(a, x, b);
  }

  /**
   * pdf_dict_put on the entries: an existing key keeps its slot and gets the
   * new value; a new key is appended, or inserted at its sorted place when the
   * dictionary is flagged sorted.
   */
  function PutEntries(e: seq<KeyVal>, key: Handle, val: Handle, sorted: bool): seq<KeyVal> {
    var i := IndexOfKey(e, ToName(key));
    if i >= 0 then e[i := KeyVal(e[i].k, val)]
    else if sorted then InsertAt(e, InsertionPoint(e, ToName(key)), KeyVal(key, val))
    else e + [KeyVal(key, val)]
  }

  /** Overwriting the value of an existing key. */
  lemma PutExisting(e: seq<KeyVal>, sorted: bool, key: Handle, val: Handle)
    requires WellFormedDict(e, sorted) && IsName(key) && IndexOfKey(e, ToName(key)) >= 0
    ensures WellFormedDict(PutEntries(e, key, val, sorted), sorted)
    ensures Lookup(PutEntries(e, key, val, sorted), ToName(key)) == val
    ensures forall t :: t != ToName(key) ==> Lookup(PutEntries(e, key, val, sorted), t) == Lookup(e, t)
    ensures |PutEntries(e, key, val, sorted)| == |e|
  {
    var s := ToName(key);
    var i := IndexOfKey(e, s);
    var r := e[i := KeyVal(e[i].k, val)];
    assert forall j :: 0 <= j < |r| ==> KeyText(r[j]) == KeyText(e[j]);
    IndexOfKeyUnique(r, s, i);
    forall t | t != s ensures Lookup(r, t) == Lookup(e, t) {
      var a := IndexOfKey(e, t);
      if a >= 0 {
        IndexOfKeyUnique(r, t, a);
      }
    }
  }

  /** A name placed between the keys below it and the keys above it keeps a sorted dictionary well formed. */
  lemma InsertAtWellFormed(e: seq<KeyVal>, loc: nat, x: KeyVal)
    requires WellFormedDict(e, true) && IsName(x.k) && loc <= |e|
    requires forall j :: 0 <= j < loc ==> StrLess(KeyText(e[j]), KeyText(x))
    requires forall j :: loc <= j < |e| ==> StrLess(KeyText(x), KeyText(e[j]))
    ensures WellFormedDict(InsertAt(e, loc, x), true)
  {
    var r := InsertAt(e, loc, x);
    InsertAtFacts(e, loc, x);
    InsertBetween(e, loc, x);
    SortedIsUnique(r);
    forall j | 0 <= j < |r| ensures IsName(r[j].k) {
      if j < loc { assert r[j] == e[j]; }
      else if j > loc { assert r[j] == e[j - 1]; }
    }
  }

  /**
   * Inserting an entry leaves the lookup of every other name alone; r is
   * any sequence laid out as e with x inserted at loc.
   */
  lemma InsertAtKeepsLookup(e: seq<KeyVal>, loc: nat, x: KeyVal, r: seq<KeyVal>, t: string)
    requires loc <= |e| && |r| == |e| + 1 && t != KeyText(x)
    requires r[loc] == x
    requires forall j :: 0 <= j < loc ==> r[j] == e[j]
    requires forall j :: loc < j < |r| ==> r[j] == e[j - 1]
    requires WellFormedDict(e, false)
    ensures Lookup(r, t) == Lookup(e, t)
  {
    if a :| 0 <= a < |e| && KeyText(e[a]) == t {
      LookupFound(e, t, a);
      var b := if a < loc then a else a + 1;
      assert r[b] == e[a];
      forall k | 0 <= k < b ensures KeyText(r[k]) != t {
        if k < loc {
          assert r[k] == e[k];
        } else if k > loc {
          assert r[k] == e[k - 1];
        }
      }
      LookupFirst(r, t, b);
    } else {
      forall j | 0 <= j < |r| ensures KeyText(r[j]) != t {
        if j < loc { assert r[j] == e[j]; }
        else if j > loc { assert r[j] == e[j - 1]; }
      }
    }
  }

  /** Inserting a new key at its sorted place. */
  lemma PutSortedNew(e: seq<KeyVal>, key: Handle, val: Handle)
    requires WellFormedDict(e, true) && IsName(key) && IndexOfKey(e, ToName(key)) < 0
    ensures WellFormedDict(PutEntries(e, key, val, true), true)
    ensures Lookup(PutEntries(e, key, val, true), ToName(key)) == val
    ensures forall t :: t != ToName(key) ==> Lookup(PutEntries(e, key, val, true), t) == Lookup(e, t)
    ensures |PutEntries(e, key, val, true)| == |e| + 1
  {
    var s := ToName(key);
    var x := KeyVal(key, val);
    var loc := InsertionPoint(e, s);
    AboveInsertionPoint(e, s);
    InsertAtWellFormed(e, loc, x);
    var r := InsertAt(e, loc, x);
    InsertAtFacts(e, loc, x);
    LookupFound(r, s, loc);
    forall t | t != s ensures Lookup(r, t) == Lookup(e, t) {
      InsertAtKeepsLookup(e, loc, x, r, t);
    }
  }

  /** Appending a new key to an unsorted dictionary. */
  lemma PutAppend(e: seq<KeyVal>, key: Handle, val: Handle)
    requires WellFormedDict(e, false) && IsName(key) && IndexOfKey(e, ToName(key)) < 0
    ensures WellFormedDict(PutEntries(e, key, val, false), false)
    ensures Lookup(PutEntries(e, key, val, false), ToName(key)) == val
    ensures forall t :: t != ToName(key) ==> Lookup(PutEntries(e, key, val, false), t) == Lookup(e, t)
    ensures |PutEntries(e, key, val, false)| == |e| + 1
  {
    var s := ToName(key);
    var r := e + [KeyVal(key, val)];
    assert forall j :: 0 <= j < |e| ==> r[j] == e[j];
    IndexOfKeyUnique(r, s, |e|);
    forall t | t != s ensures Lookup(r, t) == Lookup(e, t) {
      var a := IndexOfKey(e, t);
      if a >= 0 {
        IndexOfKeyUnique(r, t, a);
      }
    }
  }

  /**
   * pdf_dict_put keeps a dictionary well formed; afterwards the key finds the
   * value just put, every other key finds what it found before, and the length
   * grows by one exactly when the key was new.
   */
  lemma PutSemantics(e: seq<KeyVal>, sorted: bool, key: Handle, val: Handle)
    requires WellFormedDict(e, sorted) && IsName(key)
    ensures WellFormedDict(PutEntries(e, key, val, sorted), sorted)
    ensures Lookup(PutEntries(e, key, val, sorted), ToName(key)) == val
    ensures forall t :: t != ToName(key) ==> Lookup(PutEntries(e, key, val, sorted), t) == Lookup(e, t)
    ensures |PutEntries(e, key, val, sorted)| == if IndexOfKey(e, ToName(key)) >= 0 then |e| else |e| + 1
  {
    if IndexOfKey(e, ToName(key)) >= 0 {
      PutExisting(e, sorted, key, val);
    } else if sorted {
      PutSortedNew(e, key, val);
    } else {
      PutAppend(e, key, val);
    }
  }

  /**
   * pdf_dict_del on the entries: the entry spelling s is overwritten by the
   * last entry and the sequence shrinks by one; nothing happens when no key
   * spells s.
   */
  function DelEntries(e: seq<KeyVal>, s: string): seq<KeyVal> {
    var i := IndexOfKey(e, s);
    if i < 0 then e else MoveLast(e, i)
  }

  /** The last entry overwrites slot i and the sequence loses its last slot. */
  function MoveLast(e: seq<KeyVal>, i: nat): (r: seq<KeyVal>)
    requires i < |e|
    ensures |r| == |e| - 1
    ensures forall j :: 0 <= j < |r| ==> r[j] == if j == i then e[|e| - 1] else e[j]
  {
    e[i := e[|e| - 1]][..|e| - 1]
  }

  /** Moving the last entry into slot i and dropping the last slot keeps the keys distinct names. */
  lemma MoveLastKeepsWellFormed(e: seq<KeyVal>, i: nat)
    requires WellFormedDict(e, false) && i < |e|
    ensures WellFormedDict(MoveLast(e, i), false)
    ensures forall j :: 0 <= j < |e| - 1 ==> KeyText(MoveLast(e, i)[j]) != KeyText(e[i])
  {
    var n := |e| - 1;
    var r := MoveLast(e, i);
    forall j, k | 0 <= j < k < n ensures KeyText(r[j]) != KeyText(r[k]) {
      if j == i {
        assert r[j] == e[n] && r[k] == e[k];
      } else if k == i {
        assert r[j] == e[j] && r[k] == e[n];
      } else {
        assert r[j] == e[j] && r[k] == e[k];
      }
    }
  }

  /**
   * Moving the last entry into slot i leaves the lookup of every name but
   * slot i's alone; r is any sequence laid out as that move makes it.
   */
  lemma MoveLastKeepsLookup(e: seq<KeyVal>, i: nat, r: seq<KeyVal>, t: string)
    requires i < |e| && |r| == |e| - 1 && t != KeyText(e[i])
    requires forall j :: 0 <= j < |r| ==> r[j] == if j == i then e[|e| - 1] else e[j]
    requires forall j :: 0 <= j < |e| - 1 ==> KeyText(e[j]) != KeyText(e[|e| - 1])
    ensures Lookup(r, t) == Lookup(e, t)
  {
    var n := |e| - 1;
    var a := IndexOfKey(e, t);
    if a >= 0 {
      var b := if a == n then i else a;
      assert r[b] == e[a];
      forall k | 0 <= k < b ensures KeyText(r[k]) != t {
        assert r[k] == if k == i then e[n] else e[k];
      }
      LookupFirst(r, t, b);
    } else {
      forall j | 0 <= j < n ensures KeyText(r[j]) != t {
        assert r[j] == if j == i then e[n] else e[j];
      }
    }
  }

  /**
   * pdf_dict_del removes the key and nothing else: afterwards the key finds
   * nothing, every other key finds what it found before, the length drops by
   * one exactly when the key was present, and the dictionary stays well formed
   * (unsorted, since the last entry moved).
   */
  lemma DelSemantics(e: seq<KeyVal>, sorted: bool, s: string)
    requires WellFormedDict(e, sorted)
    ensures WellFormedDict(DelEntries(e, s), false)
    ensures Lookup(DelEntries(e, s), s) == PdfNull
    ensures forall t :: t != s ==> Lookup(DelEntries(e, s), t) == Lookup(e, t)
    ensures |DelEntries(e, s)| == if IndexOfKey(e, s) >= 0 then |e| - 1 else |e|
  {
    var i := IndexOfKey(e, s);
    if i >= 0 {
      MoveLastKeepsWellFormed(e, i);
      var r := MoveLast(e, i);
      assert forall j :: 0 <= j < |e| - 1 ==> KeyText(e[j]) != KeyText(e[|e| - 1]);
      forall t | t != s ensures Lookup(r, t) == Lookup(e, t) {
        MoveLastKeepsLookup(e, i, r, t);
      }
    }
  }

  /** Insertion sort of the entries by key. */
  function SortEntries(e: seq<KeyVal>): (r: seq<KeyVal>)
    ensures |r| == |e|
    ensures multiset(r) == multiset(e)
    decreases |e|
  {
    if |e| == 0 then []
    else
      var rest := SortEntries(e[1..]);
      var loc := InsertionPoint(rest, KeyText(e[0]));
      InsertAtFacts(rest, loc, e[0]);
      assert multiset(e) == multiset(e[1..]) + multiset{e[0]} by {
        assert e == [e[0]] + e[1..];
      }
      InsertAt(rest, loc, e[0])
  }

  /**
   * pdf_sort_dict on the entries: a dictionary without repeated keys comes
   * out strictly sorted, with the same entries, and well formed as a sorted
   * dictionary.
   */
  lemma {:induction false} SortSemantics(e: seq<KeyVal>)
    requires WellFormedDict(e, false)
    ensures StrictlySorted(SortEntries(e))
    ensures WellFormedDict(SortEntries(e), true)
    decreases |e|
  {
    var r := SortEntries(e);
    if |e| > 0 {
      var tail := e[1..];
      assert WellFormedDict(tail, false) by {
        assert forall j :: 0 <= j < |tail| ==> tail[j] == e[j + 1];
      }
      SortSemantics(tail);
      var rest := SortEntries(tail);
      SortedTailAvoidsHead(e);
      var loc := InsertionPoint(rest, KeyText(e[0]));
      AboveInsertionPoint(rest, KeyText(e[0]));
      InsertAtWellFormed(rest, loc, e[0]);
    }
  }

  /** The sorted tail of a dictionary without repeated keys does not hold the head's key. */
  lemma SortedTailAvoidsHead(e: seq<KeyVal>)
    requires WellFormedDict(e, false) && |e| > 0
    ensures forall j :: 0 <= j < |e| - 1 ==> KeyText(SortEntries(e[1..])[j]) != KeyText(e[0])
  {
    var tail := e[1..];
    var rest := SortEntries(tail);
    forall j | 0 <= j < |rest| ensures KeyText(rest[j]) != KeyText(e[0]) {
      assert rest[j] in multiset(tail);
      var k :| 0 <= k < |tail| && tail[k] == rest[j];
      assert tail[k] == e[k + 1];
    }
  }

  /** Sorting changes where entries sit, never what a key finds. */
  lemma SortKeepsLookup(e: seq<KeyVal>, s: string)
    requires WellFormedDict(e, false)
    ensures Lookup(SortEntries(e), s) == Lookup(e, s)
    ensures (IndexOfKey(SortEntries(e), s) >= 0) == (IndexOfKey(e, s) >= 0)
  {
    var r := SortEntries(e);
    SortSemantics(e);
    var i := IndexOfKey(e, s);
    if i >= 0 {
      assert e[i] in multiset(r);
      var j :| 0 <= j < |r| && r[j] == e[i];
      IndexOfKeyUnique(r, s, j);
    } else {
      forall j | 0 <= j < |r| ensures KeyText(r[j]) != s {
        assert r[j] in multiset(e);
      }
    }
  }
}
