/*******************************************************************************
 *  Dispatch through a page's operations table (include/vm/vm.h): the
 *  swap_in, swap_out and destroy macros call whatever the installed
 *  page_operations table points to, and destroy skips a NULL entry.
 *  vm_dealloc_page (vm/vm.c) destroys a page this way before freeing it.
 *******************************************************************************/

module Dispatch {
  import opened Common
  import opened VmTypes
  import opened Vm
  import Anon
  import opened FileBacked

  /** swap_in (page, v): the installed table's swap_in. */
  function SwapInHandler(page: Page): (h: Handler)
    requires page.ops.Some?
    ensures page.ops == Some(UNINIT_OPS) ==> h == UninitInitialize
    ensures page.ops == Some(ANON_OPS) ==> h == AnonSwapIn
    ensures page.ops == Some(FILE_OPS) ==> h == FileBackedSwapIn
  {
    page.ops.value.swapIn
  }

  /** swap_out (page): the installed table's swap_out; None is a call through NULL. */
  function SwapOutHandler(page: Page): (h: Option<Handler>)
    requires page.ops.Some?
    ensures page.ops == Some(UNINIT_OPS) ==> h.None?
    ensures page.ops == Some(ANON_OPS) ==> h == Some(AnonSwapOut)
    ensures page.ops == Some(FILE_OPS) ==> h == Some(FileBackedSwapOut)
  {
    page.ops.value.swapOut
  }

  /** destroy (page): the installed table's destroy, skipped when NULL. */
  function DestroyHandler(page: Page): (h: Option<Handler>)
    requires page.ops.Some?
    ensures page.ops == Some(UNINIT_OPS) ==> h == Some(UninitDestroy)
    ensures page.ops == Some(ANON_OPS) ==> h == Some(Handler.AnonDestroy)
    ensures page.ops == Some(FILE_OPS) ==> h == Some(Handler.FileBackedDestroy)
  {
    page.ops.value.destroy
  }

  /** The three tables a page can carry. */
  predicate KnownTable(page: Page) {
    page.ops == Some(UNINIT_OPS) || page.ops == Some(ANON_OPS) || page.ops == Some(FILE_OPS)
  }

  /**
   * With one of the three tables installed, swap_in reaches the anon or
   * file handler exactly when the page reports that type, and the uninit
   * initializer otherwise; only an uninit page has no swap_out.
   */
  lemma HandlersFollowType(page: Page)
    requires KnownTable(page)
    requires page.ops == Some(UNINIT_OPS) ==> page.payload.Uninit?
    ensures SwapInHandler(page) == AnonSwapIn <==> page.ops.value.opsType == VM_ANON
    ensures SwapInHandler(page) == FileBackedSwapIn <==> page.ops.value.opsType == VM_FILE
    ensures SwapInHandler(page) == UninitInitialize <==> page.ops.value.opsType == VM_UNINIT
    ensures SwapOutHandler(page).None? <==> page.ops.value.opsType == VM_UNINIT
    ensures page.ops.value.opsType != VM_UNINIT ==> PageGetType(page) == page.ops.value.opsType
  {
  }

  /** What destroying a page touches: the mapped file, the dirty bits, user memory and the machine. */
  datatype DestroyEnv = DestroyEnv(content: seq<byte>, dirty: set<nat>, mem: Memory, machine: Machine)

  /**
   * The effect of vm_dealloc_page: destroy (page) through the table
   * (freeing the page struct itself is not modelled).  None is a NULL
   * dereference: a page with no table, or do_munmap finding no page at
   * the destroyed page's address.  uninit_destroy is the skeleton's empty
   * body.  `content` is the file mapped at the page's address.
   */
  function VmDeallocPage(spt: Spt, page: Page, env: DestroyEnv): (r: Option<DestroyEnv>)
    ensures page.ops.None? ==> r.None?
    ensures page.ops.Some? && DestroyHandler(page) in {None, Some(UninitDestroy)} ==> r == Some(env)
    ensures page.ops.Some? && DestroyHandler(page) == Some(Handler.AnonDestroy) ==>
      r == Some(env.(machine := ReleaseFrame(page, env.machine)))
    ensures page.ops.Some? && DestroyHandler(page) == Some(Handler.FileBackedDestroy) ==>
      (r.None? <==> SptFind(spt, page.va).None?)
  {
    if page.ops.None? then None
    else
      match DestroyHandler(page)
      case None => Some(env)
      case Some(h) =>
        match h
        case AnonDestroy => Some(env.(machine := Anon.AnonDestroy(page, env.machine)))
        case FileBackedDestroy() =>
          (match FileBacked.FileBackedDestroy(spt, page, env.content, env.dirty, env.mem, env.machine)
           case None => None
           case Some(d) => Some(DestroyEnv(d.writeBack.content, d.writeBack.dirty, env.mem, d.machine)))
        case _ => Some(env)
  }

  /**
   * Deallocating a page that never left its uninit state changes nothing
   * (so its aux and any frame stay where they were); an anon page gives
   * back its frame and mapping and touches no file.
   */
  lemma DeallocByType(spt: Spt, page: Page, env: DestroyEnv)
    requires page.ops == Some(UNINIT_OPS) || page.ops == Some(ANON_OPS)
    ensures page.ops == Some(UNINIT_OPS) ==> VmDeallocPage(spt, page, env) == Some(env)
    ensures page.ops == Some(ANON_OPS) ==> VmDeallocPage(spt, page, env) == Some(env.(machine := Anon.AnonDestroy(page, env.machine)))
    ensures page.ops == Some(ANON_OPS) && page.frame.Some? ==>
      page.frame.value.kva in VmDeallocPage(spt, page, env).value.machine.freed
  {
  }

  /**
   * Deallocating a file page of the SPT unmaps its address, clears its
   * dirty bit, gives back its frame, and leaves the file alone when no
   * page of the walk is dirty.
   */
  lemma DeallocFilePage(spt: Spt, page: Page, env: DestroyEnv)
    requires page.ops == Some(FILE_OPS) && page.payload.File?
    requires page.va % PGSIZE == 0 && page.va in spt && spt[page.va] == page
    ensures var r := VmDeallocPage(spt, page, env);
      r.Some? && page.va !in r.value.dirty && page.va !in r.value.machine.mapped
      && |r.value.content| == |env.content|
      && (page.frame.Some? ==> page.frame.value.kva in r.value.machine.freed)
    ensures var ws := Walked(spt, page.va, page.payload.filePage.file);
      (forall i :: 0 <= i < |ws| ==> ws[i] !in env.dirty) ==>
      VmDeallocPage(spt, page, env).value.content == env.content
  {
    DestroyClearsDirtyAndKeepsCleanFile(spt, page, env.content, env.dirty, env.mem, env.machine);
  }

  /** An mmap page that has not been faulted in yet: an uninit page set up by do_mmap. */
  predicate LazyMmapPage(page: Page) {
    && page.ops == Some(UNINIT_OPS)
    && page.payload.Uninit? && page.payload.uninit.aux.Some?
    && page.payload.uninit.init == Some(Loader.LazyLoadFile)
    && page.payload.uninit.pageInitializer == Some(Initializer.FileBackedInitializer)
    && page.payload.uninit.aux.value.readBytes + page.payload.uninit.aux.value.zeroBytes <= PGSIZE
  }

  /**
   * The first fault on an mmap page: swap_in is uninit_initialize, which
   * turns the page into a file page of the mapped file.  Before the fault
   * do_munmap stops at the page without writing anything; after it, the
   * walk covers the page and clears its dirty bit.
   */
  lemma FirstFaultMakesFilePage(spt: Spt, addr: nat, kva: nat, file: seq<byte>, frame: seq<byte>,
                                                   content: seq<byte>, dirty: set<nat>, mem: Memory)
    requires PgRoundDown(addr) in spt && LazyMmapPage(spt[PgRoundDown(addr)]) && |frame| == PGSIZE
    requires UninitInitializeFile(spt[PgRoundDown(addr)], file, frame).Loaded?
    ensures SwapInHandler(spt[PgRoundDown(addr)]) == UninitInitialize
    ensures DoMunmap(spt, addr, content, dirty, mem) == Some(WriteBack(content, dirty))
    ensures var key := PgRoundDown(addr);
      var aux := spt[key].payload.uninit.aux.value;
      var loaded := UninitInitializeFile(spt[key], file, frame).page;
      var r := VmTryHandleFault(spt, addr, true, Some(kva), false, true, SwapInEffect(loaded.ops, loaded.payload, true));
      && r.Handled? && r.claim.Claimed? && r.claim.ok
      && key in r.claim.spt && r.claim.spt[key].frame == Some(Frame(kva, spt[key].va))
      && PageGetType(r.claim.spt[key]) == VM_FILE
      && FileOf(r.claim.spt[key]) == Some(aux.vmfile)
      && DoMunmap(r.claim.spt, addr, content, dirty, mem).Some?
      && key !in DoMunmap(r.claim.spt, addr, content, dirty, mem).value.dirty
  {
  }
}
