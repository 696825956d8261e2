/*******************************************************************************
 *  The supplemental page table and the page-fault path of vm/vm.c.
 *
 *  The SPT is a hash of struct page keyed by `va` (vm_hash_func hashes the
 *  address, vm_less_func orders by it), modelled as a finite map from va
 *  to the page.  A page is identified by its va: operations that receive
 *  a page the SPT already holds take the va and update the entry, which is
 *  how the kernel's in-place writes through the shared pointer appear here.
 *
 *  Hardware page tables, palloc and the current thread are parameters:
 *  `kva` is what palloc_get_page returned (None when the pool is empty),
 *  `alreadyMapped` what pml4_get_page reported and `setPageOk` what
 *  pml4_set_page returned.
 *******************************************************************************/

module Vm {
  import opened Common
  import opened VmTypes

  /** struct supplemental_page_table. */
  type Spt = map<nat, Page>

  /** Every entry is stored under its own, page-aligned va. */
  ghost predicate SptWellKeyed(spt: Spt) {
    forall k :: k in spt ==> spt[k].va == k && k % PGSIZE == 0
  }

  /* ------------------------------------------------------------------------
   * The hash's key order and the table primitives
   * ------------------------------------------------------------------------ */

  /** vm_less_func: pages are ordered by their virtual address. */
  function VmLess(a: Page, b: Page): bool {
    a.va < b.va
  }

  /**
   * The hash treats two pages as the same key when neither is less than
   * the other, which is exactly when their addresses agree; and the order
   * is a strict total order on addresses.
   */
  lemma VmLessKeyEquality(a: Page, b: Page, c: Page)
    ensures (!VmLess(a, b) && !VmLess(b, a)) <==> a.va == b.va
    ensures !VmLess(a, a)
    ensures VmLess(a, b) && VmLess(b, c) ==> VmLess(a, c)
    ensures a.va != b.va ==> VmLess(a, b) || VmLess(b, a)
  {
  }

  /** spt_find_page: look up the page containing `va`; None is NULL. */
  function SptFind(spt: Spt, va: nat): (r: Option<Page>)
    ensures r.None? <==> PgRoundDown(va) !in spt
    ensures r.Some? ==> r.value == spt[PgRoundDown(va)]
  {
    var key := PgRoundDown(va);
    if key in spt then Some(spt[key]) else None
  }

  /** Any two addresses in the same page find the same entry. */
  lemma FindSamePage(spt: Spt, a: nat, b: nat)
    requires a / PGSIZE == b / PGSIZE
    ensures SptFind(spt, a) == SptFind(spt, b)
  {
    SamePageSameStart(a, b);
  }

  /**
   * spt_insert_page: hash_insert refuses a page whose va is already a key
   * and reports success otherwise.
   */
  function SptInsert(spt: Spt, page: Page): (r: (bool, Spt))
    ensures r.0 <==> page.va !in spt
    ensures r.0 ==> r.1 == spt[page.va := page]
    ensures !r.0 ==> r.1 == spt
  {
    if page.va in spt then (false, spt) else (true, spt[page.va := page])
  }

  /** After a successful insert of an aligned page, every address in it finds it. */
  lemma InsertThenFind(spt: Spt, page: Page, offset: nat)
    requires page.va % PGSIZE == 0 && offset < PGSIZE
    requires SptInsert(spt, page).0
    ensures SptFind(SptInsert(spt, page).1, page.va + offset) == Some(page)
  {
    assert PgRoundDown(page.va + offset) == page.va;
  }

  /** Inserting an aligned page keeps the table well keyed. */
  lemma InsertKeepsWellKeyed(spt: Spt, page: Page)
    requires SptWellKeyed(spt) && page.va % PGSIZE == 0
    ensures SptWellKeyed(SptInsert(spt, page).1)
  {
  }

  /** insert_vme: the same hash_insert, with its result turned around. */
  function InsertVme(spt: Spt, vme: Page): (r: (bool, Spt))
    ensures r.0 <==> vme.va !in spt
    ensures r.1 == (if r.0 then spt[vme.va := vme] else spt)
  {
    var existing := vme.va in spt;
    if existing then (false, spt) else (true, spt[vme.va := vme])
  }

  /** insert_vme and spt_insert_page agree on every input. */
  lemma InsertVmeIsSptInsert(spt: Spt, vme: Page)
    ensures InsertVme(spt, vme) == SptInsert(spt, vme)
  {
  }

  /** delete_vme: hash_delete removes the entry with the page's va, if any. */
  function DeleteVme(spt: Spt, vme: Page): (r: (bool, Spt))
    ensures r.0 <==> vme.va in spt
    ensures vme.va !in r.1
    ensures forall k :: k in r.1 <==> k in spt && k != vme.va
    ensures forall k :: k in r.1 ==> r.1[k] == spt[k]
  {
    (vme.va in spt, spt - {vme.va})
  }

  /** Deleting what a successful insert added restores the table. */
  lemma InsertThenDelete(spt: Spt, vme: Page)
    requires vme.va !in spt
    ensures DeleteVme(InsertVme(spt, vme).1, vme) == (true, spt)
  {
    assert InsertVme(spt, vme).1 - {vme.va} == spt;
  }

  /** A second delete of the same page finds nothing and changes nothing. */
  lemma DeleteTwice(spt: Spt, vme: Page)
    ensures DeleteVme(DeleteVme(spt, vme).1, vme) == (false, DeleteVme(spt, vme).1)
  {
    var once := DeleteVme(spt, vme).1;
    assert once - {vme.va} == once;
  }

  /* ------------------------------------------------------------------------
   * vm_alloc_page_with_initializer
   * ------------------------------------------------------------------------ */

  /**
   * The page object vm_alloc_page_with_initializer builds, as written: the
   * initializer is chosen by comparing the whole `type` with 1 and 2, and
   * for any other value the struct is left as malloc returned it (no
   * operations table, no payload).  Then aux's fields are copied, is_loaded
   * is cleared, and writable and va are set.
   */
  function NewPageAsWritten(t: VmType, upage: nat, writable: bool, init: Option<Loader>, aux: Option<Aux>): (p: Page)
    ensures p.va == PgRoundDown(upage) && p.writable == writable && !p.isLoaded && p.frame == None
    ensures t == VM_ANON ==> p.ops == Some(UNINIT_OPS) && p.payload == Uninit(UninitPage(init, t, aux, Some(AnonInitializer)))
    ensures t == VM_FILE ==> p.ops == Some(UNINIT_OPS) && p.payload == Uninit(UninitPage(init, t, aux, Some(FileBackedInitializer)))
    ensures t != VM_ANON && t != VM_FILE ==> p.ops == None && p.payload == Unset
    ensures aux.Some? ==> (p.vmfile == Some(aux.value.vmfile) && p.offset == aux.value.ofs
      && p.readBytes == aux.value.readBytes && p.zeroBytes == aux.value.zeroBytes)
  {
    var base :=
      if t == VM_ANON then
        UninitNew(PgRoundDown(upage), init, t, aux, AnonInitializer).(
          offset := upage - PgRoundDown(upage), writable := true, isLoaded := true)
      else if t == VM_FILE then
        UninitNew(upage, init, t, aux, FileBackedInitializer)
      else
        Page(None, upage, None, false, false, None, 0, 0, 0, Unset);
    FinishNewPage(base, upage, writable, aux)
  }

  /** The field writes after the type-specific construction. */
  function FinishNewPage(base: Page, upage: nat, writable: bool, aux: Option<Aux>): (p: Page)
    ensures p.ops == base.ops && p.payload == base.payload && p.frame == base.frame
    ensures p.va == PgRoundDown(upage) && p.writable == writable && !p.isLoaded
    ensures aux.Some? ==> (p.vmfile == Some(aux.value.vmfile) && p.offset == aux.value.ofs
      && p.readBytes == aux.value.readBytes && p.zeroBytes == aux.value.zeroBytes)
    ensures aux.None? ==> (p.vmfile == base.vmfile && p.offset == base.offset
      && p.readBytes == base.readBytes && p.zeroBytes == base.zeroBytes)
  {
    var withAux :=
      if aux.Some? then
        base.(vmfile := Some(aux.value.vmfile), offset := aux.value.ofs,
              readBytes := aux.value.readBytes, zeroBytes := aux.value.zeroBytes)
      else base;
    withAux.(isLoaded := false, writable := writable, va := PgRoundDown(upage))
  }

  /**
   * vm_alloc_page_with_initializer as written.  The caller must not ask for
   * VM_UNINIT (the function ASSERTs it).  An occupied page fails without a
   * change; otherwise the new page goes into the SPT, which cannot refuse
   * it because its key was just found absent.
   */
  function VmAllocPageWithInitializer(spt: Spt, t: VmType, upage: nat, writable: bool,
                                      init: Option<Loader>, aux: Option<Aux>): (r: (bool, Spt))
    requires VmTypeOf(t) != VM_UNINIT
    ensures r.0 <==> SptFind(spt, upage).None?
    ensures !r.0 ==> r.1 == spt
    ensures r.0 ==> r.1 == spt[PgRoundDown(upage) := NewPageAsWritten(t, upage, writable, init, aux)]
  {
    if SptFind(spt, upage).None? then
      SptInsert(spt, NewPageAsWritten(t, upage, writable, init, aux))
    else (false, spt)
  }

  /**
   * A marker bit on VM_ANON defeats the initializer choice: the page is
   * inserted with no operations table at all, although VM_TYPE says anon.
   */
  lemma MarkedAnonGetsNoOperations()
    ensures VmTypeOf(VM_ANON | VM_MARKER_0) == VM_ANON
    ensures VmAllocPageWithInitializer(map[], VM_ANON | VM_MARKER_0, 0, true, None, None).0
    ensures VmAllocPageWithInitializer(map[], VM_ANON | VM_MARKER_0, 0, true, None, None).1[0].ops == None
  {
  }

  /**
   * The page object with the initializer chosen by VM_TYPE(type), as the
   * enumeration's marker bits intend.  VM_PAGE_CACHE and the other values
   * still get no initializer, as in the code.
   */
  function NewPage(t: VmType, upage: nat, writable: bool, init: Option<Loader>, aux: Option<Aux>): (p: Page)
    ensures p.va == PgRoundDown(upage) && p.writable == writable && !p.isLoaded && p.frame == None
    ensures VmTypeOf(t) == VM_ANON ==> p.ops == Some(UNINIT_OPS) && p.payload == Uninit(UninitPage(init, t, aux, Some(AnonInitializer)))
    ensures VmTypeOf(t) == VM_FILE ==> p.ops == Some(UNINIT_OPS) && p.payload == Uninit(UninitPage(init, t, aux, Some(FileBackedInitializer)))
    ensures aux.Some? ==> (p.vmfile == Some(aux.value.vmfile) && p.offset == aux.value.ofs
      && p.readBytes == aux.value.readBytes && p.zeroBytes == aux.value.zeroBytes)
  {
    var base :=
      if VmTypeOf(t) == VM_ANON then
        UninitNew(PgRoundDown(upage), init, t, aux, AnonInitializer).(
          offset := upage - PgRoundDown(upage), writable := true, isLoaded := true)
      else if VmTypeOf(t) == VM_FILE then
        UninitNew(upage, init, t, aux, FileBackedInitializer)
      else
        Page(None, upage, None, false, false, None, 0, 0, 0, Unset);
    FinishNewPage(base, upage, writable, aux)
  }

  /** vm_alloc_page_with_initializer with the initializer chosen by VM_TYPE. */
  function VmAllocPage(spt: Spt, t: VmType, upage: nat, writable: bool,
                       init: Option<Loader>, aux: Option<Aux>): (r: (bool, Spt))
    requires VmTypeOf(t) != VM_UNINIT
    ensures r.0 <==> SptFind(spt, upage).None?
    ensures !r.0 ==> r.1 == spt
    ensures r.0 ==> r.1 == spt[PgRoundDown(upage) := NewPage(t, upage, writable, init, aux)]
  {
    if SptFind(spt, upage).None? then
      SptInsert(spt, NewPage(t, upage, writable, init, aux))
    else (false, spt)
  }

  /**
   * Every anon or file request, markers or not, yields an uninit page that
   * reports the requested VM_TYPE and carries the matching initializer.
   */
  lemma {:induction false} AllocatedPageReportsType(spt: Spt, t: VmType, upage: nat, writable: bool,
                                                    init: Option<Loader>, aux: Option<Aux>)
    requires VmTypeOf(t) == VM_ANON || VmTypeOf(t) == VM_FILE
    requires SptFind(spt, upage).None?
    ensures VmAllocPage(spt, t, upage, writable, init, aux).0
    ensures var p := VmAllocPage(spt, t, upage, writable, init, aux).1[PgRoundDown(upage)];
      p.ops.Some? && p.payload.Uninit? && PageGetType(p) == VmTypeOf(t)
      && p.payload.uninit.pageInitializer == Some(if VmTypeOf(t) == VM_ANON then AnonInitializer else FileBackedInitializer)
  {
    var p := VmAllocPage(spt, t, upage, writable, init, aux).1[PgRoundDown(upage)];
    assert p == NewPage(t, upage, writable, init, aux);
    assert VmTypeOf(p.ops.value.opsType) == VM_UNINIT;
  }

  /** For unmarked anon and file requests the code as written already does this. */
  lemma AsWrittenAgreesWithoutMarkers(spt: Spt, t: VmType, upage: nat, writable: bool,
                                      init: Option<Loader>, aux: Option<Aux>)
    requires t == VM_ANON || t == VM_FILE
    ensures VmAllocPageWithInitializer(spt, t, upage, writable, init, aux) == VmAllocPage(spt, t, upage, writable, init, aux)
  {
  }

  /** Allocation keeps the table well keyed and never disturbs another page. */
  lemma AllocKeepsOthers(spt: Spt, t: VmType, upage: nat, writable: bool,
                         init: Option<Loader>, aux: Option<Aux>)
    requires VmTypeOf(t) != VM_UNINIT
    requires SptWellKeyed(spt)
    ensures SptWellKeyed(VmAllocPage(spt, t, upage, writable, init, aux).1)
    ensures forall k :: k in spt ==> (k in VmAllocPage(spt, t, upage, writable, init, aux).1
      && VmAllocPage(spt, t, upage, writable, init, aux).1[k] == spt[k])
  {
  }

  /* ------------------------------------------------------------------------
   * Claiming a page and handling a fault
   * ------------------------------------------------------------------------ */

  /** What claiming can end in: vm_get_frame's PANIC, or a result and a new SPT. */
  datatype ClaimOutcome = FramePanic | Claimed(ok: bool, spt: Spt)

  /**
   * What swap_in (page, kva) did, through whatever table the page carries:
   * the table and union it left in the page, and its result.  On a page's
   * first fault this is uninit_initialize, which installs anon_ops or
   * file_ops and rewrites the union; those handlers live in their own
   * modules, so the claim takes their effect as a parameter.
   */
  datatype SwapInEffect = SwapInEffect(ops: Option<PageOperations>, payload: Payload, ok: bool)

  /**
   * The link step of vm_do_claim_page for the SPT's page at `va`: the new
   * frame points back to the page and the page to the frame, after which
   * the page is handed to spt_insert_page again.
   */
  function LinkFrame(spt: Spt, va: nat, kva: nat): (spt': Spt)
    requires va in spt
    ensures va in spt'
    ensures spt'[va] == spt[va].(frame := Some(Frame(kva, spt[va].va)))
    ensures spt'[va].frame.value.page == spt'[va].va
    ensures forall k :: k in spt && k != va && k != spt[va].va ==> k in spt' && spt'[k] == spt[k]
  {
    var linked := spt[va].(frame := Some(Frame(kva, spt[va].va)));
    var shared := spt[va := linked];
    SptInsert(shared, linked).1
  }

  /** In a well-keyed table the re-insert adds nothing: only the page at va changes. */
  lemma LinkFrameTouchesOnlyVa(spt: Spt, va: nat, kva: nat)
    requires va in spt && SptWellKeyed(spt)
    ensures LinkFrame(spt, va, kva).Keys == spt.Keys
    ensures SptWellKeyed(LinkFrame(spt, va, kva))
  {
  }

  /**
   * The page as a claim leaves it: linked to the frame at `kva`, and
   * carrying the table and union swap_in left; nothing else of it changes.
   */
  predicate ClaimedPage(before: Page, after: Page, kva: nat, s: SwapInEffect) {
    after == before.(frame := Some(Frame(kva, before.va)), ops := s.ops, payload := s.payload)
  }

  /** The SPT after the link step and swap_in, which both act on the one page at va. */
  function LinkAndSwapIn(spt: Spt, va: nat, kva: nat, s: SwapInEffect): (spt': Spt)
    requires va in spt
    ensures va in spt' && ClaimedPage(spt[va], spt'[va], kva, s)
    ensures spt'.Keys == LinkFrame(spt, va, kva).Keys
    ensures forall k :: k in spt && k != va && k != spt[va].va ==> k in spt' && spt'[k] == spt[k]
  {
    var linked := LinkFrame(spt, va, kva);
    linked[va := linked[va].(ops := s.ops, payload := s.payload)]
  }

  /**
   * vm_do_claim_page as written: the mapping's `success` is computed and
   * then ignored; swap_in runs whatever the mapping did, and its result is
   * the claim's.
   */
  function DoClaimPageAsWritten(spt: Spt, va: nat, kva: Option<nat>, alreadyMapped: bool,
                                setPageOk: bool, swapIn: SwapInEffect): (r: ClaimOutcome)
    requires va in spt
    ensures kva.None? <==> r.FramePanic?
    ensures r.Claimed? ==> r.ok == swapIn.ok
    ensures r.Claimed? ==> va in r.spt && ClaimedPage(spt[va], r.spt[va], kva.value, swapIn)
    ensures r.Claimed? ==> forall k :: k in spt && k != va && k != spt[va].va ==> k in r.spt && r.spt[k] == spt[k]
  {
    if kva.None? then FramePanic
    else
      var success := !alreadyMapped && setPageOk;
      Claimed(swapIn.ok, LinkAndSwapIn(spt, va, kva.value, swapIn))
  }

  /** A page whose address is already mapped is still reported as claimed. */
  lemma ClaimIgnoresMappingFailure()
    ensures var spt := map[0 := UninitNew(0, None, VM_ANON, None, AnonInitializer)];
      var r := DoClaimPageAsWritten(spt, 0, Some(4096), true, false, SwapInEffect(Some(ANON_OPS), Anon(None), true));
      r.Claimed? && r.ok
  {
  }

  /**
   * vm_do_claim_page with the mapping's outcome honoured: the claim
   * succeeds only when the address was unmapped, pml4_set_page succeeded
   * and swap_in loaded the page.
   */
  function DoClaimPage(spt: Spt, va: nat, kva: Option<nat>, alreadyMapped: bool,
                       setPageOk: bool, swapIn: SwapInEffect): (r: ClaimOutcome)
    requires va in spt
    ensures kva.None? <==> r.FramePanic?
    ensures r.Claimed? ==> (r.ok <==> !alreadyMapped && setPageOk && swapIn.ok)
    ensures r.Claimed? ==> va in r.spt && ClaimedPage(spt[va], r.spt[va], kva.value, swapIn)
    ensures r.Claimed? ==> forall k :: k in spt && k != va && k != spt[va].va ==> k in r.spt && r.spt[k] == spt[k]
  {
    if kva.None? then FramePanic
    else
      var success := !alreadyMapped && setPageOk;
      Claimed(success && swapIn.ok, LinkAndSwapIn(spt, va, kva.value, swapIn))
  }

  /** The corrected claim reports failure whenever the mapping failed. */
  lemma ClaimReportsMappingFailure(spt: Spt, va: nat, kva: nat, setPageOk: bool, swapIn: SwapInEffect)
    requires va in spt
    ensures !DoClaimPage(spt, va, Some(kva), true, setPageOk, swapIn).ok
    ensures !DoClaimPage(spt, va, Some(kva), false, false, swapIn).ok
  {
  }

  /**
   * vm_claim_page: find the page containing `va` and claim it with
   * vm_do_claim_page as written, so the result is swap_in's whatever the
   * mapping did.  The code writes page->va before any NULL check, so an
   * unmapped address is a NULL dereference; that outcome is None.
   */
  function VmClaimPage(spt: Spt, va: nat, kva: Option<nat>, alreadyMapped: bool,
                       setPageOk: bool, swapIn: SwapInEffect): (r: Option<ClaimOutcome>)
    ensures r.None? <==> SptFind(spt, va).None?
    ensures r.Some? ==> (r.value.FramePanic? <==> kva.None?)
    ensures r.Some? && r.value.Claimed? ==> (kva.Some? && PgRoundDown(va) in r.value.spt
      && ClaimedPage(spt[PgRoundDown(va)].(va := PgRoundDown(va)), r.value.spt[PgRoundDown(va)], kva.value, swapIn)
      && (r.value.ok <==> swapIn.ok))
  {
    var key := PgRoundDown(va);
    if key !in spt then None
    else
      var spt1 := spt[key := spt[key].(va := key)];
      Some(DoClaimPageAsWritten(spt1, key, kva, alreadyMapped, setPageOk, swapIn))
  }

  /**
   * vm_claim_page reports what the corrected claim would exactly when the
   * mapping succeeded or swap_in failed; it reports success over a failed
   * mapping otherwise.
   */
  lemma ClaimPageAgreesUnlessMappingFailed(spt: Spt, va: nat, kva: nat, alreadyMapped: bool,
                                           setPageOk: bool, swapIn: SwapInEffect)
    requires SptFind(spt, va).Some?
    ensures var r := VmClaimPage(spt, va, Some(kva), alreadyMapped, setPageOk, swapIn);
      var key := PgRoundDown(va);
      var c := DoClaimPage(spt[key := spt[key].(va := key)], key, Some(kva), alreadyMapped, setPageOk, swapIn);
      (r == Some(c) <==> (!alreadyMapped && setPageOk) || !swapIn.ok)
  {
  }

  /** How vm_try_handle_fault ends. */
  datatype FaultOutcome =
    | NotHandled                 // no SPT entry: return false, nothing changes
    | ProcessKilled              // present page, protection fault: vm_dealloc_page and process_exit
    | Handled(claim: ClaimOutcome)

  /**
   * vm_try_handle_fault: an address without an SPT entry is not handled;
   * a not-present fault claims the page with vm_do_claim_page as written,
   * so the page is linked to a frame and takes on what swap_in left in
   * it; any other fault on a present page kills the process.
   */
  function VmTryHandleFault(spt: Spt, addr: nat, notPresent: bool, kva: Option<nat>,
                            alreadyMapped: bool, setPageOk: bool, swapIn: SwapInEffect): (r: FaultOutcome)
    ensures r.NotHandled? <==> SptFind(spt, addr).None?
    ensures r.ProcessKilled? <==> SptFind(spt, addr).Some? && !notPresent
    ensures r.Handled? ==> (r.claim.FramePanic? <==> kva.None?)
    ensures r.Handled? && r.claim.Claimed? ==>
      && (r.claim.ok <==> swapIn.ok)
      && PgRoundDown(addr) in spt && PgRoundDown(addr) in r.claim.spt
      && ClaimedPage(spt[PgRoundDown(addr)], r.claim.spt[PgRoundDown(addr)], kva.value, swapIn)
  {
    match SptFind(spt, addr)
    case None => NotHandled
    case Some(_) =>
      if !notPresent then ProcessKilled
      else Handled(DoClaimPageAsWritten(spt, PgRoundDown(addr), kva, alreadyMapped, setPageOk, swapIn))
  }

  /**
   * A not-present fault over an address that is already mapped is still
   * reported as handled whenever swap_in succeeds.
   */
  lemma FaultOverMappedAddressSucceeds(spt: Spt, addr: nat, kva: nat, setPageOk: bool, swapIn: SwapInEffect)
    requires SptFind(spt, addr).Some? && swapIn.ok
    ensures var r := VmTryHandleFault(spt, addr, true, Some(kva), true, setPageOk, swapIn);
      r.Handled? && r.claim.Claimed? && r.claim.ok
    ensures !DoClaimPage(spt, PgRoundDown(addr), Some(kva), true, setPageOk, swapIn).ok
  {
  }

  /** With a successful mapping the fault path's claim is the corrected one. */
  lemma FaultClaimIsCorrectWhenMapped(spt: Spt, addr: nat, notPresent: bool, kva: Option<nat>, swapIn: SwapInEffect)
    requires SptFind(spt, addr).Some? && notPresent
    ensures VmTryHandleFault(spt, addr, notPresent, kva, false, true, swapIn)
      == Handled(DoClaimPage(spt, PgRoundDown(addr), kva, false, true, swapIn))
  {
  }

  /**
   * A handled not-present fault on a well-keyed table touches no page but
   * the faulting one: that page is linked to the frame and carries the
   * table and union swap_in left, and every other page is as it was.
   */
  lemma {:induction false} FaultTouchesOnlyFaultingPage(spt: Spt, addr: nat, kva: nat,
                                                        alreadyMapped: bool, setPageOk: bool, swapIn: SwapInEffect)
    requires SptWellKeyed(spt) && PgRoundDown(addr) in spt
    ensures var r := VmTryHandleFault(spt, addr, true, Some(kva), alreadyMapped, setPageOk, swapIn);
      r.Handled? && r.claim.Claimed?
      && r.claim.spt.Keys == spt.Keys
      && r.claim.spt[PgRoundDown(addr)]
         == spt[PgRoundDown(addr)].(frame := Some(Frame(kva, PgRoundDown(addr))), ops := swapIn.ops, payload := swapIn.payload)
      && (forall k :: k in spt && k != PgRoundDown(addr) ==> r.claim.spt[k] == spt[k])
  {
    var key := PgRoundDown(addr);
    LinkFrameTouchesOnlyVa(spt, key, kva);
    assert spt[key].va == key;
  }
}
