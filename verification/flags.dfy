/**
 * The per-object flag byte of a heap object: the mark bit (cycle guard), the
 * sorted bit of a dictionary, the dirty bit, and two memo slots. Memo slot b
 * (PDF_FLAGS_MEMO_BM = 0, PDF_FLAGS_MEMO_OP = 1) owns a "memo present" bit and
 * a "memo value" bit.
 */
module Flags {

  const Marked: bv8 := 1
  const Sorted: bv8 := 2
  const Dirty: bv8 := 4
  const MemoBase: bv8 := 8
  const MemoBaseBool: bv8 := 16

  const MemoBm: nat := 0
  const MemoOp: nat := 1

  type MemoBit = b: nat | b <= 1

  function PresentMask(bit: MemoBit): bv8 {
    if bit == 0 then MemoBase else MemoBase << 2
  }

  function ValueMask(bit: MemoBit): bv8 {
    if bit == 0 then MemoBaseBool else MemoBaseBool << 2
  }

  predicate IsMarked(f: bv8) { f & Marked != 0 }
  predicate IsSorted(f: bv8) { f & Sorted != 0 }
  predicate IsDirty(f: bv8) { f & Dirty != 0 }

  /** What pdf_obj_memo reports: no memo, or a memo and its value. */
  datatype MemoState = NoMemo | HasMemo(value: bool)

  /** pdf_obj_memo on the flag byte. */
  function Memo(f: bv8, bit: MemoBit): MemoState {
    if f & PresentMask(bit) == 0 then NoMemo else HasMemo(f & ValueMask(bit) != 0)
  }

  /** Every flag and memo slot other than the bit `mask` reads the same in f and g. */
  predicate OthersAgree(f: bv8, g: bv8, mask: bv8) {
    && (mask != Marked ==> IsMarked(g) == IsMarked(f))
    && (mask != Sorted ==> IsSorted(g) == IsSorted(f))
    && (mask != Dirty ==> IsDirty(g) == IsDirty(f))
    && Memo(g, MemoBm) == Memo(f, MemoBm)
    && Memo(g, MemoOp) == Memo(f, MemoOp)
  }

  /** Setting one flag bit: only that bit changes. */
  function SetBit(f: bv8, mask: bv8): (g: bv8)
    requires mask == Marked || mask == Sorted || mask == Dirty
    ensures g & mask != 0
    ensures OthersAgree(f, g, mask)
  {
    f | mask
  }

  /** Clearing one flag bit: only that bit changes. */
  function ClearBit(f: bv8, mask: bv8): (g: bv8)
    requires mask == Marked || mask == Sorted || mask == Dirty
    ensures g & mask == 0
    ensures OthersAgree(f, g, mask)
  {
    f & !mask
  }

  /**
   * pdf_set_obj_memo on the flag byte: afterwards slot `bit` reports the memo
   * `memo`; the other slot and the mark, sorted and dirty bits are untouched.
   */
  function SetMemo(f: bv8, bit: MemoBit, memo: bool): (g: bv8)
    ensures Memo(g, bit) == HasMemo(memo)
    ensures Memo(g, 1 - bit) == Memo(f, 1 - bit)
    ensures IsMarked(g) == IsMarked(f) && IsSorted(g) == IsSorted(f) && IsDirty(g) == IsDirty(f)
  {
    var h := f | PresentMask(bit);
    if memo then h | ValueMask(bit) else h & !ValueMask(bit)
  }

  /** A fresh object (flag byte 0) is unmarked, unsorted, clean and has no memo. */
  lemma FreshFlags()
    ensures !IsMarked(0) && !IsSorted(0) && !IsDirty(0)
    ensures forall bit: MemoBit :: Memo(0, bit) == NoMemo
  {
  }
}
