/*******************************************************************************
 *  The page vocabulary of the virtual-memory layer: the vm_type enumeration
 *  and its VM_TYPE mask, the page and frame records, the per-type payloads
 *  that share one union, and the three page_operations tables through which
 *  every page dispatches swap_in, swap_out and destroy.
 *
 *  Function pointers become names (Handler, Loader, Initializer); a NULL
 *  pointer becomes None.  A struct field C leaves uninitialised is given a
 *  fixed value here, and the records say so where it matters.
 *******************************************************************************/

module VmTypes {
  import opened Common

  /** enum vm_type: the low three bits name a type, higher bits are markers. */
  type VmType = bv32

  const VM_UNINIT: VmType := 0
  const VM_ANON: VmType := 1
  const VM_FILE: VmType := 2
  const VM_PAGE_CACHE: VmType := 3
  const VM_MARKER_0: VmType := 1 << 3
  const VM_MARKER_1: VmType := 1 << 4

  /** VM_TYPE(type): the type with every marker bit masked off. */
  function VmTypeOf(t: VmType): (r: VmType)
    ensures r < 8
    ensures (t - r) % 8 == 0
  {
    t & 7
  }

  /** Or-ing in a marker never changes what VM_TYPE reports. */
  lemma MarkersDoNotChangeType(t: VmType)
    ensures VmTypeOf(t | VM_MARKER_0) == VmTypeOf(t)
    ensures VmTypeOf(t | VM_MARKER_1) == VmTypeOf(t)
    ensures VmTypeOf(t | VM_MARKER_0 | VM_MARKER_1) == VmTypeOf(t)
  {
  }

  /** The four base types are distinct and each is its own VM_TYPE. */
  lemma BaseTypesAreFixedPoints()
    ensures VmTypeOf(VM_UNINIT) == VM_UNINIT && VmTypeOf(VM_ANON) == VM_ANON
    ensures VmTypeOf(VM_FILE) == VM_FILE && VmTypeOf(VM_PAGE_CACHE) == VM_PAGE_CACHE
    ensures VM_UNINIT as int == 0 && VM_ANON as int == 1 && VM_FILE as int == 2 && VM_PAGE_CACHE as int == 3
  {
  }

  /** Identifies an open file (struct file *). */
  type FileId = nat

  /** The functions a page_operations table can point to. */
  datatype Handler =
    | UninitInitialize | UninitDestroy
    | AnonSwapIn | AnonSwapOut | AnonDestroy
    | FileBackedSwapIn | FileBackedSwapOut | FileBackedDestroy

  /** struct page_operations: a NULL swap_out or destroy is None. */
  datatype PageOperations = PageOperations(
    swapIn: Handler,
    swapOut: Option<Handler>,
    destroy: Option<Handler>,
    opsType: VmType)

  /**
   * uninit_ops as the pintos skeleton of vm/uninit.c defines it (that file
   * is not part of this model): no swap_out, and type VM_UNINIT.
   */
  const UNINIT_OPS := PageOperations(UninitInitialize, None, Some(UninitDestroy), VM_UNINIT)

  /** anon_ops. */
  const ANON_OPS := PageOperations(AnonSwapIn, Some(AnonSwapOut), Some(AnonDestroy), VM_ANON)

  /** file_ops. */
  const FILE_OPS := PageOperations(FileBackedSwapIn, Some(FileBackedSwapOut), Some(FileBackedDestroy), VM_FILE)

  /** struct aux_struct, the lazy-load descriptor handed to an initializer. */
  datatype Aux = Aux(
    vmfile: FileId,
    ofs: nat,
    readBytes: u32,
    zeroBytes: u32,
    writable: bool,
    upage: nat)

  /** The content loader (vm_initializer *) stored in an uninit page. */
  datatype Loader = LazyLoadFile | OtherLoader(id: nat)

  /** The type-specific initializer stored in an uninit page. */
  datatype Initializer = AnonInitializer | FileBackedInitializer

  /** struct uninit_page. */
  datatype UninitPage = UninitPage(
    init: Option<Loader>,
    uninitType: VmType,
    aux: Option<Aux>,
    pageInitializer: Option<Initializer>)

  /** struct file_page (its unused type and swap_slot fields are dropped). */
  datatype FilePage = FilePage(readByte: u32, zeroByte: u32, file: FileId, offset: nat)

  /**
   * The union of struct page.  Anon's slot is None until anon_swap_out
   * records one.  Unset stands for a page whose union nobody wrote.
   */
  datatype Payload =
    | Uninit(uninit: UninitPage)
    | Anon(swapSlot: Option<nat>)
    | File(filePage: FilePage)
    | Unset

  /**
   * What destroying a page does to the machine: the user addresses that
   * still have a pml4 mapping, and the kernel pages handed back to palloc.
   */
  datatype Machine = Machine(mapped: set<nat>, freed: set<nat>)

  /**
   * What anon_destroy and file_backed_destroy both do at the end: hand the
   * frame's kernel page back to palloc if the page has a frame, and clear
   * the page's pml4 mapping.
   */
  function ReleaseFrame(page: Page, m: Machine): (m': Machine)
    ensures page.va !in m'.mapped
    ensures m'.mapped + {page.va} == m.mapped + {page.va}
    ensures page.frame.Some? ==> m'.freed == m.freed + {page.frame.value.kva}
    ensures page.frame.None? ==> m'.freed == m.freed
  {
    var freed := if page.frame.Some? then m.freed + {page.frame.value.kva} else m.freed;
    Machine(m.mapped - {page.va}, freed)
  }

  /** struct frame: the kernel address and the back reference to its page (by va). */
  datatype Frame = Frame(kva: nat, page: nat)

  /**
   * struct page.  `ops` is None when no operations table was ever
   * installed.  vmfile, offset, readBytes and zeroBytes are the generic
   * bookkeeping fields vm_alloc_page_with_initializer copies from aux.
   */
  datatype Page = Page(
    ops: Option<PageOperations>,
    va: nat,
    frame: Option<Frame>,
    writable: bool,
    isLoaded: bool,
    vmfile: Option<FileId>,
    offset: nat,
    readBytes: nat,
    zeroBytes: nat,
    payload: Payload)

  /**
   * uninit_new (vm/uninit.c, not part of this model; its skeleton is
   * assumed): the whole struct is overwritten with a compound literal, so
   * every field it does not name becomes zero or NULL.
   */
  function UninitNew(va: nat, init: Option<Loader>, t: VmType, aux: Option<Aux>, initializer: Initializer): (p: Page)
    ensures p.ops == Some(UNINIT_OPS) && p.va == va && p.frame == None
    ensures p.payload == Uninit(UninitPage(init, t, aux, Some(initializer)))
    ensures !p.writable && !p.isLoaded && p.vmfile == None
    ensures p.offset == 0 && p.readBytes == 0 && p.zeroBytes == 0
  {
    Page(Some(UNINIT_OPS), va, None, false, false, None, 0, 0, 0,
         Uninit(UninitPage(init, t, aux, Some(initializer))))
  }

  /**
   * page_get_type: VM_TYPE of the operations' type, except that an uninit
   * page reports VM_TYPE of the type it will become.  It reads the union
   * as an uninit page exactly when the operations say VM_UNINIT, so it
   * needs the page to carry an operations table and, in that case, an
   * uninit payload.
   */
  function PageGetType(page: Page): (t: VmType)
    requires page.ops.Some?
    requires VmTypeOf(page.ops.value.opsType) == VM_UNINIT ==> page.payload.Uninit?
    ensures t < 8
    ensures VmTypeOf(page.ops.value.opsType) != VM_UNINIT ==> t == VmTypeOf(page.ops.value.opsType)
    ensures VmTypeOf(page.ops.value.opsType) == VM_UNINIT ==> t == VmTypeOf(page.payload.uninit.uninitType)
  {
    var ty := VmTypeOf(page.ops.value.opsType);
    if ty == VM_UNINIT then VmTypeOf(page.payload.uninit.uninitType) else ty
  }

  /** A page fresh from uninit_new already reports the type it will become. */
  lemma {:induction false} UninitPageReportsFutureType(va: nat, init: Option<Loader>, t: VmType, aux: Option<Aux>, i: Initializer)
    ensures PageGetType(UninitNew(va, init, t, aux, i)) == VmTypeOf(t)
  {
    var p := UninitNew(va, init, t, aux, i);
    assert VmTypeOf(p.ops.value.opsType) == VM_UNINIT;
  }

  /** Installing anon_ops or file_ops makes the page report that table's type. */
  lemma InstalledTableDecidesType(page: Page)
    requires page.ops == Some(ANON_OPS) || page.ops == Some(FILE_OPS)
    ensures PageGetType(page) == page.ops.value.opsType
    ensures PageGetType(page) != VM_UNINIT
  {
  }
}
