/**
 * The name interner.
 *
 * The three singleton values and every built-in PDF name are immediate
 * handles: small integers that are never heap objects. PDF_NULL, PDF_TRUE and
 * PDF_FALSE are 0, 1 and 2; the built-in name with table index i is 3 + i;
 * PDF_LIMIT is one past the last built-in name.
 *
 * The real table (name-table.h) is not part of this model. NameTable below is
 * a short stand-in of genuine PDF names kept in the same order as the real
 * one (byte-wise strcmp order); every property is proved from that order, not
 * from the table's size.
 */
module Names {

  const NameTable: seq<string> :=
    ["A", "Annots", "BBox", "Contents", "DP", "DecodeParms", "F", "Filter",
     "Kids", "Length", "Parent", "Root", "Subtype", "Type"]

  const NullId: nat := 0
  const TrueId: nat := 1
  const FalseId: nat := 2
  const FirstNameId: nat := 3
  const Limit: nat := FirstNameId + |NameTable|

  /** An immediate handle value: anything strictly below PDF_LIMIT. */
  type ImmId = n: nat | n < Limit

  /** A few PDF_NAME(X) constants used by the rest of the model. */
  const NameA: ImmId := 3
  const NameDP: ImmId := 7
  const NameDecodeParms: ImmId := 8
  const NameF: ImmId := 9
  const NameFilter: ImmId := 10
  const NameLength: ImmId := 12
  const NameType: ImmId := 16

  /** strcmp order on names: lexicographic on character codes, a proper prefix first. */
  predicate StrLess(a: string, b: string)
    decreases |a|
  {
    if |a| == 0 then |b| > 0
    else if |b| == 0 then false
    else if a[0] != b[0] then a[0] < b[0]
    else StrLess(a[1..], b[1..])
  }

  lemma {:induction false} StrLessIrreflexive(a: string)
    ensures !StrLess(a, a)
    decreases |a|
  {
    if |a| > 0 {
      StrLessIrreflexive(a[1..]);
    }
  }

  lemma {:induction false} StrLessTransitive(a: string, b: string, c: string)
    requires StrLess(a, b) && StrLess(b, c)
    ensures StrLess(a, c)
    decreases |a|
  {
    if |a| > 0 && |b| > 0 && |c| > 0 && a[0] == b[0] && b[0] == c[0] {
      StrLessTransitive(a[1..], b[1..], c[1..]);
    }
  }

  /** Two names are equal, or one of them is strcmp-smaller. */
  lemma {:induction false} StrLessTotal(a: string, b: string)
    ensures a == b || StrLess(a, b) || StrLess(b, a)
    decreases |a|
  {
    if |a| > 0 && |b| > 0 && a[0] == b[0] {
      StrLessTotal(a[1..], b[1..]);
      if a[1..] == b[1..] {
        assert a == [a[0]] + a[1..] && b == [b[0]] + b[1..];
      }
    }
  }

  lemma StrLessAsymmetric(a: string, b: string)
    requires StrLess(a, b)
    ensures !StrLess(b, a) && a != b
  {
    StrLessIrreflexive(a);
    if StrLess(b, a) {
      StrLessTransitive(a, b, a);
    }
  }

  predicate SortedStrict(t: seq<string>) {
    forall i, j :: 0 <= i < j < |t| ==> StrLess(t[i], t[j])
  }

  lemma {:induction false} SortedFromAdjacent(t: seq<string>)
    requires forall i :: 0 <= i < |t| - 1 ==> StrLess(t[i], t[i + 1])
    ensures SortedStrict(t)
    decreases |t|
  {
    if |t| > 1 {
      var u := t[1..];
      assert forall i :: 0 <= i < |u| - 1 ==> StrLess(u[i], u[i + 1]) by {
        forall i | 0 <= i < |u| - 1 ensures StrLess(u[i], u[i + 1]) {
          assert u[i] == t[i + 1] && u[i + 1] == t[i + 2];
        }
      }
      SortedFromAdjacent(u);
      forall i, j | 0 <= i < j < |t| ensures StrLess(t[i], t[j]) {
        if i == 0 {
          if j > 1 {
            assert StrLess(u[0], u[j - 1]);
            StrLessTransitive(t[0], t[1], t[j]);
          }
        } else {
          assert StrLess(u[i - 1], u[j - 1]);
        }
      }
    }
  }

  /** The built-in table is strictly sorted, as the interning search needs. */
  lemma TableSorted()
    ensures SortedStrict(NameTable)
  {
    var t := NameTable;
    assert StrLess(t[0], t[1]);
    assert StrLess(t[1], t[2]);
    assert StrLess(t[2], t[3]);
    assert StrLess(t[3], t[4]);
    assert StrLess(t[4], t[5]);
    assert StrLess(t[5], t[6]);
    assert StrLess(t[6], t[7]);
    assert StrLess(t[7], t[8]);
    assert StrLess(t[8], t[9]);
    assert StrLess(t[9], t[10]);
    assert StrLess(t[10], t[11]);
    assert StrLess(t[11], t[12]);
    assert StrLess(t[12], t[13]);
    SortedFromAdjacent(t);
  }

  /** No built-in name appears twice, so distinct immediate names spell distinct strings. */
  lemma TableDistinct(i: nat, j: nat)
    requires i < |NameTable| && j < |NameTable| && i != j
    ensures NameTable[i] != NameTable[j]
  {
    TableSorted();
    if i < j {
      StrLessAsymmetric(NameTable[i], NameTable[j]);
    } else {
      StrLessAsymmetric(NameTable[j], NameTable[i]);
    }
  }

  /** PDF_NAME_LIST: the text of an immediate handle ("" for null, true and false). */
  function ImmText(id: ImmId): (s: string)
    ensures id >= FirstNameId ==> s in NameTable
  {
    if id < FirstNameId then "" else NameTable[id - FirstNameId]
  }

  /** PDF_NAME(X) for the built-in name at table index i. */
  function BuiltinName(i: nat): (id: ImmId)
    requires i < |NameTable|
    ensures FalseId < id < Limit
    ensures ImmText(id) == NameTable[i]
  {
    FirstNameId + i
  }

  /** Distinct built-in names are distinct handles and spell distinct strings. */
  lemma BuiltinNamesDistinct(i: nat, j: nat)
    requires i < |NameTable| && j < |NameTable| && i != j
    ensures BuiltinName(i) != BuiltinName(j)
    ensures ImmText(BuiltinName(i)) != ImmText(BuiltinName(j))
  {
    TableDistinct(i, j);
  }

  /**
   * The search pdf_new_name does over the built-in table: the index of s, or
   * -1 when s is not a built-in name.
   */
  method FindBuiltin(s: string) returns (idx: int)
    ensures -1 <= idx < |NameTable|
    ensures idx >= 0 ==> NameTable[idx] == s
    ensures idx < 0 <==> s !in NameTable
  {
    TableSorted();
    var lo, hi := 0, |NameTable|;
    while lo < hi
      invariant 0 <= lo <= hi <= |NameTable|
      invariant forall i :: 0 <= i < lo ==> StrLess(NameTable[i], s)
      invariant forall i :: hi <= i < |NameTable| ==> StrLess(s, NameTable[i])
    {
      var mid := (lo + hi) / 2;
      if StrLess(NameTable[mid], s) {
        forall i | 0 <= i <= mid ensures StrLess(NameTable[i], s) {
          if i < mid {
            StrLessTransitive(NameTable[i], NameTable[mid], s);
          }
        }
        lo := mid + 1;
      } else if StrLess(s, NameTable[mid]) {
        forall i | mid <= i < |NameTable| ensures StrLess(s, NameTable[i]) {
          if i > mid {
            StrLessTransitive(s, NameTable[mid], NameTable[i]);
          }
        }
        hi := mid;
      } else {
        StrLessTotal(s, NameTable[mid]);
        return mid;
      }
    }
    forall i | 0 <= i < |NameTable| ensures NameTable[i] != s {
      if i < lo {
        StrLessAsymmetric(NameTable[i], s);
      } else {
        StrLessAsymmetric(s, NameTable[i]);
      }
    }
    idx := -1;
  }
}
