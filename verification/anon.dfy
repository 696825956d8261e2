/*******************************************************************************
 *  Anonymous pages (vm/anon.c): the swap table, one bit per page-sized
 *  slot of the swap disk, allocated first-fit on swap-out and released on
 *  swap-in; the anon initializer; and anon_destroy.
 *
 *  Only the bitmap logic is modelled; the sector transfers to and from the
 *  swap disk are not.
 *******************************************************************************/

module Anon {
  import opened Common
  import opened VmTypes

  /** The swap table: slot i is in use exactly when the bit is set. */
  type SwapTable = seq<bool>

  /**
   * vm_anon_init: one slot per page-sized run of SECTORS_PER_PAGE sectors,
   * all free; a partial run at the end of the disk gets no slot.
   */
  function SwapTableInit(diskSectors: nat): (t: SwapTable)
    ensures |t| * SECTORS_PER_PAGE <= diskSectors < (|t| + 1) * SECTORS_PER_PAGE
    ensures forall i :: 0 <= i < |t| ==> !t[i]
  {
    seq(diskSectors / SECTORS_PER_PAGE, _ => false)
  }

  /** Number of slots in use. */
  function UsedSlots(t: SwapTable): (n: nat)
    ensures n <= |t|
  {
    if |t| == 0 then 0 else (if t[|t| - 1] then 1 else 0) + UsedSlots(t[..|t| - 1])
  }

  /**
   * bitmap_scan (t, start, 1, false): the first free slot at or after
   * `start`, or None for BITMAP_ERROR.
   */
  function ScanFree(t: SwapTable, start: nat): (r: Option<nat>)
    ensures r.Some? ==> start <= r.value < |t| && !t[r.value]
    ensures r.Some? ==> forall j :: start <= j < r.value ==> t[j]
    ensures r.None? <==> forall j :: start <= j < |t| ==> t[j]
    decreases |t| - start
  {
    if start >= |t| then None
    else if !t[start] then Some(start)
    else ScanFree(t, start + 1)
  }

  /** Setting one clear bit adds exactly one used slot; clearing it again removes it. */
  lemma {:induction false} SetBitCountsOne(t: SwapTable, i: nat)
    requires i < |t| && !t[i]
    ensures UsedSlots(t[i := true]) == UsedSlots(t) + 1
  {
    var u := t[i := true];
    if i == |t| - 1 {
      assert u[..|u| - 1] == t[..|t| - 1];
    } else {
      assert u[..|u| - 1] == t[..|t| - 1][i := true];
      SetBitCountsOne(t[..|t| - 1], i);
    }
  }

  /** How anon_swap_out ends: a kernel panic, or the page and table after it. */
  datatype SwapOutResult = SwapPanic | SwappedOut(page: Page, table: SwapTable)

  /**
   * anon_swap_out: take the first free slot, record it in the page and mark
   * it used; PANIC when every slot is taken.
   */
  function AnonSwapOut(page: Page, t: SwapTable): (r: SwapOutResult)
    ensures r.SwapPanic? <==> forall j :: 0 <= j < |t| ==> t[j]
    ensures r.SwappedOut? ==> r.page.payload.Anon? && r.page.payload.swapSlot.Some?
    ensures r.SwappedOut? ==> var s := r.page.payload.swapSlot.value;
      s < |t| && !t[s] && (forall j :: 0 <= j < s ==> t[j]) && r.table == t[s := true]
    ensures r.SwappedOut? ==> r.page == page.(payload := r.page.payload)
  {
    match ScanFree(t, 0)
    case None => SwapPanic
    case Some(s) => SwappedOut(page.(payload := Anon(Some(s))), t[s := true])
  }

  /**
   * anon_swap_in: clear the page's recorded slot.  The page must hold an
   * anon payload whose slot was recorded, and bitmap_set asserts the index
   * is in range.
   */
  function AnonSwapIn(page: Page, t: SwapTable): (t': SwapTable)
    requires page.payload.Anon? && page.payload.swapSlot.Some?
    requires page.payload.swapSlot.value < |t|
    ensures |t'| == |t|
    ensures !t'[page.payload.swapSlot.value]
    ensures forall j :: 0 <= j < |t| && j != page.payload.swapSlot.value ==> t'[j] == t[j]
  {
    t[page.payload.swapSlot.value := false]
  }

  /** Swapping a page out and straight back in leaves the table as it was. */
  lemma SwapOutThenInRestores(page: Page, t: SwapTable)
    requires AnonSwapOut(page, t).SwappedOut?
    ensures var r := AnonSwapOut(page, t); AnonSwapIn(r.page, r.table) == t
  {
    var r := AnonSwapOut(page, t);
    var s := r.page.payload.swapSlot.value;
    assert AnonSwapIn(r.page, r.table) == t[s := true][s := false];
  }

  /** A successful swap-out uses exactly one more slot. */
  lemma {:induction false} SwapOutUsesOneSlot(page: Page, t: SwapTable)
    requires AnonSwapOut(page, t).SwappedOut?
    ensures UsedSlots(AnonSwapOut(page, t).table) == UsedSlots(t) + 1
  {
    var s := AnonSwapOut(page, t).page.payload.swapSlot.value;
    SetBitCountsOne(t, s);
  }

  /** Two pages swapped out one after the other get different slots. */
  lemma SuccessiveSwapOutsDiffer(p1: Page, p2: Page, t: SwapTable)
    requires AnonSwapOut(p1, t).SwappedOut?
    requires AnonSwapOut(p2, AnonSwapOut(p1, t).table).SwappedOut?
    ensures AnonSwapOut(p1, t).page.payload.swapSlot != AnonSwapOut(p2, AnonSwapOut(p1, t).table).page.payload.swapSlot
  {
  }

  /**
   * anon_initializer: install anon_ops.  The union keeps its bytes and is
   * now read as an anon page whose slot nobody has recorded yet.  (The C
   * function falls off its end without a return value, so no result is
   * modelled.)
   */
  function AnonInitializer(page: Page): (p: Page)
    ensures p.ops == Some(ANON_OPS)
    ensures p.payload == Anon(None)
    ensures p == page.(ops := p.ops, payload := p.payload)
  {
    page.(ops := Some(ANON_OPS), payload := Anon(None))
  }

  /** After anon_initializer the page reports VM_ANON whatever it was before. */
  lemma InitializedPageIsAnon(page: Page)
    ensures PageGetType(AnonInitializer(page)) == VM_ANON
  {
  }

  /**
   * anon_destroy: give the frame's kernel page back to palloc if the page
   * has a frame, and clear the page's pml4 mapping.  (Freeing the frame
   * and page structs themselves is not modelled.)
   */
  function AnonDestroy(page: Page, m: Machine): (m': Machine)
    ensures page.va !in m'.mapped
    ensures m'.mapped + {page.va} == m.mapped + {page.va}
    ensures page.frame.Some? ==> m'.freed == m.freed + {page.frame.value.kva}
    ensures page.frame.None? ==> m'.freed == m.freed
  {
    ReleaseFrame(page, m)
  }

  /** A page that never got a frame releases no memory: destroy only unmaps it. */
  lemma DestroyFramelessOnlyUnmaps(page: Page, m: Machine)
    requires page.frame.None?
    ensures AnonDestroy(page, m) == Machine(m.mapped - {page.va}, m.freed)
  {
  }
}
