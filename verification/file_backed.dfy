/*******************************************************************************
 *  File-backed pages and memory-mapped files (vm/file.c).
 *
 *  A file is its contents, `seq<byte>`.  file_read_at returns the bytes
 *  that exist from the offset on, and file_write_at overwrites in place
 *  without growing the file (the base file system's inode_write_at stops
 *  at end of file).  User memory is a function from address to byte, and
 *  the pml4 dirty bits are the set of page addresses whose bit is set.
 *******************************************************************************/

module FileBacked {
  import opened Common
  import opened VmTypes
  import opened Vm

  /* ------------------------------------------------------------------------
   * File access
   * ------------------------------------------------------------------------ */

  /** file_read_at: up to `n` bytes from `ofs`, fewer near the end of the file. */
  function FileReadAt(file: seq<byte>, ofs: nat, n: nat): (r: seq<byte>)
    ensures |r| == if ofs >= |file| then 0 else Min(n, |file| - ofs)
    ensures forall i :: 0 <= i < |r| ==> r[i] == file[ofs + i]
  {
    if ofs >= |file| then [] else file[ofs .. ofs + Min(n, |file| - ofs)]
  }

  /** A read returns everything asked for exactly when the range lies in the file. */
  lemma FullReadIffInFile(file: seq<byte>, ofs: nat, n: nat)
    ensures |FileReadAt(file, ofs, n)| == n <==> (n == 0 || ofs + n <= |file|)
  {
  }

  /** file_write_at: overwrite from `ofs`, dropping whatever would pass the end. */
  function FileWriteAt(file: seq<byte>, ofs: nat, data: seq<byte>): (f: seq<byte>)
    ensures |f| == |file|
    ensures forall i :: 0 <= i < |file| ==> f[i] == if ofs <= i < ofs + |data| then data[i - ofs] else file[i]
  {
    if ofs >= |file| then file
    else
      var k := Min(|data|, |file| - ofs);
      file[..ofs] + data[..k] + file[ofs + k..]
  }

  /** Writing back what was just read changes nothing. */
  lemma WriteBackOfReadIsIdentity(file: seq<byte>, ofs: nat, n: nat)
    ensures FileWriteAt(file, ofs, FileReadAt(file, ofs, n)) == file
  {
    var f := FileWriteAt(file, ofs, FileReadAt(file, ofs, n));
    assert forall i :: 0 <= i < |file| ==> f[i] == file[i];
  }

  /* ------------------------------------------------------------------------
   * Loading a page
   * ------------------------------------------------------------------------ */

  /**
   * lazy_load_file: read aux's bytes into the page's frame and zero the
   * following zero_bytes.  A short read fails (and frees the frame's
   * kernel page), which is None here.
   */
  function LazyLoadFile(file: seq<byte>, frame: seq<byte>, aux: Aux): (r: Option<seq<byte>>)
    requires |frame| == PGSIZE
    requires aux.readBytes + aux.zeroBytes <= PGSIZE
    ensures r.None? <==> aux.readBytes > 0 && aux.ofs + aux.readBytes > |file|
    ensures r.Some? ==> |r.value| == PGSIZE
    ensures r.Some? ==> forall i :: 0 <= i < aux.readBytes ==> r.value[i] == file[aux.ofs + i]
    ensures r.Some? ==> forall i :: aux.readBytes <= i < aux.readBytes + aux.zeroBytes ==> r.value[i] == 0
    ensures r.Some? ==> forall i :: aux.readBytes + aux.zeroBytes <= i < PGSIZE ==> r.value[i] == frame[i]
  {
    var got := FileReadAt(file, aux.ofs, aux.readBytes);
    if |got| != aux.readBytes then None
    else Some(got + Zeros(aux.zeroBytes) + frame[aux.readBytes + aux.zeroBytes..])
  }

  /** What file_backed_initializer leaves behind. */
  datatype InitResult = InitResult(ok: bool, page: Page, frame: seq<byte>)

  /**
   * file_backed_initializer: install file_ops, copy the descriptor from
   * the uninit page's aux into the file payload (aux is read before the
   * union is overwritten), and read the bytes into the frame; a short read
   * reports failure.
   */
  function FileBackedInitializer(page: Page, file: seq<byte>, frame: seq<byte>): (r: InitResult)
    requires page.payload.Uninit? && page.payload.uninit.aux.Some?
    requires |frame| == PGSIZE && page.payload.uninit.aux.value.readBytes <= PGSIZE
    ensures var aux := page.payload.uninit.aux.value;
      r.page == page.(ops := Some(FILE_OPS), payload := File(FilePage(aux.readBytes, aux.zeroBytes, aux.vmfile, aux.ofs)))
    ensures var aux := page.payload.uninit.aux.value;
      r.ok <==> (aux.readBytes == 0 || aux.ofs + aux.readBytes <= |file|)
    ensures |r.frame| == PGSIZE
  {
    var aux := page.payload.uninit.aux.value;
    var p := page.(ops := Some(FILE_OPS), payload := File(FilePage(aux.readBytes, aux.zeroBytes, aux.vmfile, aux.ofs)));
    var got := FileReadAt(file, aux.ofs, aux.readBytes);
    FullReadIffInFile(file, aux.ofs, aux.readBytes);
    InitResult(|got| == aux.readBytes, p, got + frame[|got|..])
  }

  /** How a file page's first fault ends. */
  datatype LoadResult = Loaded(page: Page, frame: seq<byte>) | LoadFailed

  /**
   * uninit_initialize for a file-backed page (vm/uninit.c is not part of
   * this model; the pintos skeleton is assumed): run the page initializer,
   * and only if it succeeds the content loader, lazy_load_file, with the
   * page's aux.
   */
  function UninitInitializeFile(page: Page, file: seq<byte>, frame: seq<byte>): (r: LoadResult)
    requires page.payload.Uninit? && page.payload.uninit.aux.Some?
    requires page.payload.uninit.init == Some(Loader.LazyLoadFile)
    requires page.payload.uninit.pageInitializer == Some(Initializer.FileBackedInitializer)
    requires |frame| == PGSIZE
    requires page.payload.uninit.aux.value.readBytes + page.payload.uninit.aux.value.zeroBytes <= PGSIZE
    ensures var aux := page.payload.uninit.aux.value;
      r.Loaded? <==> (aux.readBytes == 0 || aux.ofs + aux.readBytes <= |file|)
    ensures r.Loaded? ==> var aux := page.payload.uninit.aux.value;
      r.page.ops == Some(FILE_OPS)
      && r.page.payload == File(FilePage(aux.readBytes, aux.zeroBytes, aux.vmfile, aux.ofs))
      && |r.frame| == PGSIZE
      && (forall i :: 0 <= i < aux.readBytes ==> r.frame[i] == file[aux.ofs + i])
      && (forall i :: aux.readBytes <= i < aux.readBytes + aux.zeroBytes ==> r.frame[i] == 0)
  {
    var aux := page.payload.uninit.aux.value;
    var init := FileBackedInitializer(page, file, frame);
    if !init.ok then LoadFailed
    else
      match LazyLoadFile(file, init.frame, aux)
      case None => LoadFailed
      case Some(f) => Loaded(init.page, f)
  }

  /* ------------------------------------------------------------------------
   * do_mmap: the page layout
   * ------------------------------------------------------------------------ */

  /** One page do_mmap describes: where it goes and which bytes it reads. */
  datatype MmapPage = MmapPage(va: nat, ofs: nat, readBytes: nat, zeroBytes: nat)

  /**
   * The pages do_mmap's loop describes for `readSize` bytes starting at
   * file offset `ofs`, placed from `va` on: each reads min(PGSIZE, what is
   * left) and zeroes the rest of its page.
   */
  function Layout(readSize: nat, va: nat, ofs: nat): seq<MmapPage>
    decreases readSize
  {
    if readSize == 0 then []
    else
      var rb := if readSize > PGSIZE then PGSIZE else readSize;
      [MmapPage(va, ofs, rb, PGSIZE - rb)] + Layout(readSize - rb, va + PGSIZE, ofs + rb)
  }

  /** Sum of the read sizes of a run of pages. */
  function SumRead(pages: seq<MmapPage>): nat {
    if |pages| == 0 then 0 else pages[0].readBytes + SumRead(pages[1..])
  }

  /** The closed form of the layout: page k sits k pages on, in memory and in the file. */
  predicate PageAt(pages: seq<MmapPage>, k: nat, n: nat, va: nat, ofs: nat)
    requires k < |pages|
  {
    && pages[k].va == va + k * PGSIZE
    && pages[k].ofs == ofs + k * PGSIZE
    && pages[k].readBytes == Min(PGSIZE, n - k * PGSIZE)
    && pages[k].zeroBytes == PGSIZE - pages[k].readBytes
  }

  /**
   * ceil(readSize / PGSIZE) pages; page k at va + k*PGSIZE reading
   * min(PGSIZE, readSize - k*PGSIZE) bytes from ofs + k*PGSIZE, so that
   * every page's read and zero counts fill exactly one page and the reads
   * add up to readSize.
   */
  lemma {:induction false} LayoutShape(n: nat, va: nat, ofs: nat)
    ensures |Layout(n, va, ofs)| == (n + PGSIZE - 1) / PGSIZE
    ensures forall k :: 0 <= k < |Layout(n, va, ofs)| ==> PageAt(Layout(n, va, ofs), k, n, va, ofs)
    ensures forall k :: 0 <= k < |Layout(n, va, ofs)| ==>
      Layout(n, va, ofs)[k].readBytes + Layout(n, va, ofs)[k].zeroBytes == PGSIZE
    ensures SumRead(Layout(n, va, ofs)) == n
    decreases n
  {
    if n > 0 {
      var rb := if n > PGSIZE then PGSIZE else n;
      var rest := Layout(n - rb, va + PGSIZE, ofs + rb);
      LayoutShape(n - rb, va + PGSIZE, ofs + rb);
      var pages := Layout(n, va, ofs);
      assert pages == [MmapPage(va, ofs, rb, PGSIZE - rb)] + rest;
      assert pages[1..] == rest;
      forall k | 1 <= k < |pages|
        ensures PageAt(pages, k, n, va, ofs)
      {
        assert PageAt(rest, k - 1, n - rb, va + PGSIZE, ofs + rb);
        assert rb == PGSIZE;
        ShiftOnePage(k);
      }
      assert PageAt(pages, 0, n, va, ofs);
    }
  }

  lemma ShiftOnePage(k: nat)
    requires k >= 1
    ensures PGSIZE + (k - 1) * PGSIZE == k * PGSIZE
  {
  }

  /** Every page of a layout reads inside [ofs, ofs + n). */
  lemma {:induction false} LayoutReadsWithin(n: nat, va: nat, ofs: nat)
    ensures forall k :: 0 <= k < |Layout(n, va, ofs)| ==>
      ofs <= Layout(n, va, ofs)[k].ofs && Layout(n, va, ofs)[k].ofs + Layout(n, va, ofs)[k].readBytes <= ofs + n
    decreases n
  {
    if n > 0 {
      var rb := if n > PGSIZE then PGSIZE else n;
      LayoutReadsWithin(n - rb, va + PGSIZE, ofs + rb);
      assert Layout(n, va, ofs)[1..] == Layout(n - rb, va + PGSIZE, ofs + rb);
    }
  }

  /** The pages of a layout lie at distinct, increasing addresses. */
  lemma {:induction false} LayoutAddressesIncrease(n: nat, va: nat, ofs: nat)
    ensures forall k :: 0 <= k < |Layout(n, va, ofs)| ==> Layout(n, va, ofs)[k].va >= va
    ensures forall i, j :: 0 <= i < j < |Layout(n, va, ofs)| ==>
      Layout(n, va, ofs)[i].va + PGSIZE <= Layout(n, va, ofs)[j].va
    decreases n
  {
    if n > 0 {
      var rb := if n > PGSIZE then PGSIZE else n;
      LayoutAddressesIncrease(n - rb, va + PGSIZE, ofs + rb);
      assert Layout(n, va, ofs)[1..] == Layout(n - rb, va + PGSIZE, ofs + rb);
    }
  }

  /** The aux_struct do_mmap hands to vm_alloc_page_with_initializer for a page. */
  function AuxOf(p: MmapPage, file: FileId, writable: bool): (a: Aux)
    requires p.readBytes < U32_LIMIT && p.zeroBytes < U32_LIMIT
    ensures a.vmfile == file && a.ofs == p.ofs && a.readBytes == p.readBytes
    ensures a.zeroBytes == p.zeroBytes && a.upage == p.va && a.writable == writable
  {
    Aux(file, p.ofs, p.readBytes, p.zeroBytes, writable, p.va)
  }

  /** Every page fits in a page (so its counts fit in 32 bits). */
  ghost predicate PageSized(pages: seq<MmapPage>) {
    forall k :: 0 <= k < |pages| ==> pages[k].readBytes + pages[k].zeroBytes == PGSIZE
  }

  /** The uninit page do_mmap requests for one described page. */
  function MmapEntry(p: MmapPage, file: FileId, writable: bool): (page: Page)
    requires p.readBytes + p.zeroBytes == PGSIZE
    ensures page.va == PgRoundDown(p.va) && page.writable == writable && !page.isLoaded
    ensures page.payload == Uninit(UninitPage(Some(Loader.LazyLoadFile), VM_FILE, Some(AuxOf(p, file, writable)), Some(Initializer.FileBackedInitializer)))
  {
    NewPage(VM_FILE, p.va, writable, Some(Loader.LazyLoadFile), Some(AuxOf(p, file, writable)))
  }

  /**
   * The SPT after allocating the described pages in order, stopping at the
   * first refusal; the flag says whether every allocation succeeded.
   */
  function AllocPages(spt: Spt, pages: seq<MmapPage>, file: FileId, writable: bool): (r: (bool, Spt))
    requires PageSized(pages)
    decreases |pages|
  {
    if |pages| == 0 then (true, spt)
    else
      var res := VmAllocPage(spt, VM_FILE, pages[0].va, writable, Some(Loader.LazyLoadFile),
                             Some(AuxOf(pages[0], file, writable)));
      if !res.0 then (false, res.1)
      else AllocPages(res.1, pages[1..], file, writable)
  }

  /** Allocation never drops or changes an entry that was already there. */
  lemma {:induction false} AllocPagesExtends(spt: Spt, pages: seq<MmapPage>, file: FileId, writable: bool)
    requires PageSized(pages)
    ensures forall k :: k in spt ==>
      (k in AllocPages(spt, pages, file, writable).1 && AllocPages(spt, pages, file, writable).1[k] == spt[k])
    decreases |pages|
  {
    if |pages| > 0 {
      var res := VmAllocPage(spt, VM_FILE, pages[0].va, writable, Some(Loader.LazyLoadFile),
                             Some(AuxOf(pages[0], file, writable)));
      if res.0 {
        AllocPagesExtends(res.1, pages[1..], file, writable);
      }
    }
  }

  /** No two described pages share a page of memory. */
  ghost predicate DistinctPages(pages: seq<MmapPage>) {
    forall i, j :: 0 <= i < j < |pages| ==> PgRoundDown(pages[i].va) != PgRoundDown(pages[j].va)
  }

  /** None of the described pages is in the table yet. */
  ghost predicate AllFree(spt: Spt, pages: seq<MmapPage>) {
    forall k :: 0 <= k < |pages| ==> PgRoundDown(pages[k].va) !in spt
  }

  /**
   * For pages on distinct memory pages, allocation succeeds exactly when
   * none of them is in the table yet.
   */
  lemma {:induction false} AllocPagesSucceedsIffFree(spt: Spt, pages: seq<MmapPage>, file: FileId, writable: bool)
    requires PageSized(pages) && DistinctPages(pages)
    ensures AllocPages(spt, pages, file, writable).0 <==> AllFree(spt, pages)
    decreases |pages|
  {
    if |pages| > 0 {
      var p := pages[0];
      var res := VmAllocPage(spt, VM_FILE, p.va, writable, Some(Loader.LazyLoadFile), Some(AuxOf(p, file, writable)));
      var tail := pages[1..];
      if res.0 {
        AllocPagesSucceedsIffFree(res.1, tail, file, writable);
        forall k | 0 <= k < |tail|
          ensures PgRoundDown(tail[k].va) != PgRoundDown(p.va)
        {
          assert tail[k] == pages[k + 1];
        }
        assert AllFree(res.1, tail) <==> AllFree(spt, tail);
        if AllFree(spt, tail) {
          forall k | 0 <= k < |pages|
            ensures PgRoundDown(pages[k].va) !in spt
          {
            if k > 0 {
              assert pages[k] == tail[k - 1];
            }
          }
        }
      }
    }
  }

  /** A complete allocation puts each described page's uninit entry at its page. */
  lemma {:induction false} AllocPagesInstalls(spt: Spt, pages: seq<MmapPage>, file: FileId, writable: bool)
    requires PageSized(pages) && DistinctPages(pages)
    requires AllocPages(spt, pages, file, writable).0
    ensures forall k :: 0 <= k < |pages| ==>
      (PgRoundDown(pages[k].va) in AllocPages(spt, pages, file, writable).1
       && AllocPages(spt, pages, file, writable).1[PgRoundDown(pages[k].va)] == MmapEntry(pages[k], file, writable))
    decreases |pages|
  {
    if |pages| > 0 {
      var p := pages[0];
      var res := VmAllocPage(spt, VM_FILE, p.va, writable, Some(Loader.LazyLoadFile), Some(AuxOf(p, file, writable)));
      var tail := pages[1..];
      var out := AllocPages(spt, pages, file, writable).1;
      assert res.1 == spt[PgRoundDown(p.va) := MmapEntry(p, file, writable)];
      AllocPagesInstalls(res.1, tail, file, writable);
      AllocPagesExtends(res.1, tail, file, writable);
      forall k | 0 <= k < |pages|
        ensures PgRoundDown(pages[k].va) in out && out[PgRoundDown(pages[k].va)] == MmapEntry(pages[k], file, writable)
      {
        if k > 0 {
          assert pages[k] == tail[k - 1];
        }
      }
    }
  }

  /** A complete allocation adds the described pages' keys and no others. */
  lemma {:induction false} AllocPagesKeys(spt: Spt, pages: seq<MmapPage>, file: FileId, writable: bool)
    requires PageSized(pages)
    requires AllocPages(spt, pages, file, writable).0
    ensures forall key :: key in AllocPages(spt, pages, file, writable).1 <==>
      (key in spt || exists k :: 0 <= k < |pages| && key == PgRoundDown(pages[k].va))
    decreases |pages|
  {
    if |pages| > 0 {
      var p := pages[0];
      var res := VmAllocPage(spt, VM_FILE, p.va, writable, Some(Loader.LazyLoadFile), Some(AuxOf(p, file, writable)));
      var tail := pages[1..];
      var out := AllocPages(spt, pages, file, writable).1;
      AllocPagesKeys(res.1, tail, file, writable);
      forall key
        ensures key in out <==> (key in spt || exists k :: 0 <= k < |pages| && key == PgRoundDown(pages[k].va))
      {
        if key == PgRoundDown(p.va) {
          assert key == PgRoundDown(pages[0].va);
        }
        if exists k :: 0 <= k < |pages| && key == PgRoundDown(pages[k].va) {
          var k :| 0 <= k < |pages| && key == PgRoundDown(pages[k].va);
          if k > 0 {
            assert key == PgRoundDown(tail[k - 1].va);
          }
        }
        if exists k :: 0 <= k < |tail| && key == PgRoundDown(tail[k].va) {
          var k :| 0 <= k < |tail| && key == PgRoundDown(tail[k].va);
          assert key == PgRoundDown(pages[k + 1].va);
        }
      }
    }
  }

  /** Consecutive layout pages from an aligned address occupy distinct memory pages. */
  lemma LayoutPagesDistinct(n: nat, va: nat, ofs: nat)
    requires va % PGSIZE == 0
    ensures PageSized(Layout(n, va, ofs))
    ensures DistinctPages(Layout(n, va, ofs))
  {
    LayoutShape(n, va, ofs);
    LayoutAddressesIncrease(n, va, ofs);
    var pages := Layout(n, va, ofs);
    forall i, j | 0 <= i < j < |pages|
      ensures PgRoundDown(pages[i].va) != PgRoundDown(pages[j].va)
    {
      assert pages[i].va < PgRoundDown(pages[i].va) + PGSIZE;
    }
  }

  /**
   * do_mmap's loop over `readSize` bytes: one vm_alloc_page_with_initializer
   * per page, returning at the first refusal with the pages already made
   * left in the table.
   */
  method MmapPages(spt: Spt, addr: nat, readSize: nat, writable: bool, file: FileId, offset: nat)
    returns (ok: bool, spt': Spt)
    ensures PageSized(Layout(readSize, addr, offset))
    ensures (ok, spt') == AllocPages(spt, Layout(readSize, addr, offset), file, writable)
  {
    LayoutShape(readSize, addr, offset);
    var left: nat := readSize;
    var va: nat := addr;
    var ofs: nat := offset;
    spt' := spt;
    LayoutShape(left, va, ofs);
    while 0 < left
      invariant PageSized(Layout(left, va, ofs))
      invariant AllocPages(spt, Layout(readSize, addr, offset), file, writable)
             == AllocPages(spt', Layout(left, va, ofs), file, writable)
      decreases left
    {
      var readBytes := if left > PGSIZE then PGSIZE else left;
      var page := MmapPage(va, ofs, readBytes, PGSIZE - readBytes);
      assert Layout(left, va, ofs) == [page] + Layout(left - readBytes, va + PGSIZE, ofs + readBytes);
      assert Layout(left, va, ofs)[1..] == Layout(left - readBytes, va + PGSIZE, ofs + readBytes);
      var res := VmAllocPage(spt', VM_FILE, va, writable, Some(Loader.LazyLoadFile), Some(AuxOf(page, file, writable)));
      if !res.0 {
        return false, spt';
      }
      spt' := res.1;
      left := left - readBytes;
      va := va + PGSIZE;
      ofs := ofs + readBytes;
    }
    ok := true;
  }

  /**
   * do_mmap as written: maps file_length bytes from `offset`, whatever
   * `length` is and however far `offset` already is into the file, and
   * returns `addr` unless an allocation was refused.
   */
  function DoMmapAsWritten(spt: Spt, addr: nat, length: nat, writable: bool, file: FileId,
                           fileLength: nat, offset: nat): (r: (Option<nat>, Spt))
    ensures PageSized(Layout(fileLength, addr, offset))
    ensures r.0.Some? ==> r.0.value == addr
    ensures r.0.Some? <==> AllocPages(spt, Layout(fileLength, addr, offset), file, writable).0
    ensures r.1 == AllocPages(spt, Layout(fileLength, addr, offset), file, writable).1
  {
    LayoutShape(fileLength, addr, offset);
    var res := AllocPages(spt, Layout(fileLength, addr, offset), file, writable);
    (if res.0 then Some(addr) else None, res.1)
  }

  /**
   * A zero `length` is accepted, and a non-zero offset makes the last
   * page read past the end of the file, so its first fault fails.
   */
  lemma MmapAsWrittenMisuses(frame: seq<byte>)
    requires |frame| == PGSIZE
    ensures DoMmapAsWritten(map[], PGSIZE, 0, true, 7, 100, 0).0 == Some(PGSIZE)
    ensures var pages := Layout(PGSIZE, PGSIZE, PGSIZE);
      |pages| == 1 && pages[0] == MmapPage(PGSIZE, PGSIZE, PGSIZE, 0)
      && LazyLoadFile(Zeros(PGSIZE), frame, AuxOf(pages[0], 7, true)).None?
  {
    LayoutPagesDistinct(100, PGSIZE, 0);
    AllocPagesSucceedsIffFree(map[], Layout(100, PGSIZE, 0), 7, true);
    var pages := Layout(PGSIZE, PGSIZE, PGSIZE);
    assert Layout(0, 2 * PGSIZE, 2 * PGSIZE) == [];
  }

  /**
   * The bytes of the file a mapping of `length` bytes at `offset` can
   * show: none past the end of the file, and never more than `length`.
   */
  function MmapWindow(length: nat, fileLength: nat, offset: nat): (n: nat)
    ensures n <= length
    ensures offset + n <= fileLength || n == 0
  {
    if offset >= fileLength then 0 else Min(length, fileLength - offset)
  }

  /**
   * do_mmap as its comment describes it: fail for a NULL `addr` or a zero
   * `length`, and otherwise map the window of the file that `length` and
   * `offset` select.
   */
  function DoMmap(spt: Spt, addr: nat, length: nat, writable: bool, file: FileId,
                  fileLength: nat, offset: nat): (r: (Option<nat>, Spt))
    ensures addr == 0 || length == 0 ==> r == (None, spt)
    ensures addr != 0 && length != 0 ==> PageSized(Layout(MmapWindow(length, fileLength, offset), addr, offset))
    ensures addr != 0 && length != 0 ==>
      r.1 == AllocPages(spt, Layout(MmapWindow(length, fileLength, offset), addr, offset), file, writable).1
      && (r.0.Some? <==> AllocPages(spt, Layout(MmapWindow(length, fileLength, offset), addr, offset), file, writable).0)
    ensures r.0.Some? ==> r.0.value == addr
  {
    if addr == 0 || length == 0 then (None, spt)
    else
      var n := MmapWindow(length, fileLength, offset);
      LayoutShape(n, addr, offset);
      var res := AllocPages(spt, Layout(n, addr, offset), file, writable);
      (if res.0 then Some(addr) else None, res.1)
  }

  /**
   * Every page the corrected do_mmap describes reads only bytes that
   * exist, so its first fault loads it: the frame holds the page's file
   * bytes followed by zeros.
   */
  lemma {:induction false} MmapPagesLoad(file: seq<byte>, length: nat, addr: nat, offset: nat,
                                         k: nat, fid: FileId, writable: bool, frame: seq<byte>)
    requires |frame| == PGSIZE
    requires k < |Layout(MmapWindow(length, |file|, offset), addr, offset)|
    ensures var p := Layout(MmapWindow(length, |file|, offset), addr, offset)[k];
      p.readBytes + p.zeroBytes == PGSIZE && p.ofs + p.readBytes <= |file|
      && LazyLoadFile(file, frame, AuxOf(p, fid, writable)).Some?
  {
    var n := MmapWindow(length, |file|, offset);
    LayoutShape(n, addr, offset);
    LayoutReadsWithin(n, addr, offset);
  }

  /**
   * A page do_mmap allocated, faulted in with its file, becomes a file page
   * whose frame holds file[ofs .. ofs+readBytes] and then zeros to the end.
   */
  lemma {:induction false} MmapEntryFaultsIn(p: MmapPage, fid: FileId, writable: bool, file: seq<byte>, frame: seq<byte>)
    requires p.readBytes + p.zeroBytes == PGSIZE && |frame| == PGSIZE
    requires p.ofs + p.readBytes <= |file|
    ensures var r := UninitInitializeFile(MmapEntry(p, fid, writable), file, frame);
      r.Loaded?
      && r.page.payload == File(FilePage(p.readBytes, p.zeroBytes, fid, p.ofs))
      && r.frame == file[p.ofs .. p.ofs + p.readBytes] + Zeros(p.zeroBytes)
  {
    var r := UninitInitializeFile(MmapEntry(p, fid, writable), file, frame);
    assert r.frame == file[p.ofs .. p.ofs + p.readBytes] + Zeros(p.zeroBytes);
  }

  /**
   * With `addr` page-aligned and non-zero and `length` non-zero, the
   * corrected do_mmap succeeds exactly when none of the window's pages is
   * mapped yet, and then installs one lazily loaded file page per page of
   * the window, adding no other entry.
   */
  lemma MmapMapsWindow(spt: Spt, addr: nat, length: nat, writable: bool, file: FileId,
                       fileLength: nat, offset: nat)
    requires addr != 0 && length != 0 && addr % PGSIZE == 0
    ensures var pages := Layout(MmapWindow(length, fileLength, offset), addr, offset);
      PageSized(pages)
      && (DoMmap(spt, addr, length, writable, file, fileLength, offset).0.Some? <==> AllFree(spt, pages))
    ensures var pages := Layout(MmapWindow(length, fileLength, offset), addr, offset);
      var r := DoMmap(spt, addr, length, writable, file, fileLength, offset);
      r.0.Some? ==>
        (forall k :: 0 <= k < |pages| ==>
          (PgRoundDown(pages[k].va) in r.1 && r.1[PgRoundDown(pages[k].va)] == MmapEntry(pages[k], file, writable)))
        && (forall key :: key in r.1 <==> (key in spt || exists k :: 0 <= k < |pages| && key == PgRoundDown(pages[k].va)))
  {
    var n := MmapWindow(length, fileLength, offset);
    var pages := Layout(n, addr, offset);
    LayoutPagesDistinct(n, addr, offset);
    AllocPagesSucceedsIffFree(spt, pages, file, writable);
    if AllocPages(spt, pages, file, writable).0 {
      AllocPagesInstalls(spt, pages, file, writable);
      AllocPagesKeys(spt, pages, file, writable);
    }
  }

  /* ------------------------------------------------------------------------
   * do_munmap
   * ------------------------------------------------------------------------ */

  /** User memory: the byte at each user address. */
  type Memory = nat -> byte

  /** `n` bytes of user memory from `addr`. */
  function UserBytes(mem: Memory, addr: nat, n: nat): (b: seq<byte>)
    ensures |b| == n
    ensures forall i :: 0 <= i < n ==> b[i] == mem(addr + i)
  {
    seq(n, i requires 0 <= i < n => mem(addr + i))
  }

  /** The file a page maps, if the page is a file page. */
  function FileOf(page: Page): (f: Option<FileId>)
    ensures f.Some? <==> page.payload.File?
    ensures f.Some? ==> f.value == page.payload.filePage.file
  {
    if page.payload.File? then Some(page.payload.filePage.file) else None
  }

  /** SPT keys at or above `a`; the walk's termination measure. */
  function KeysFrom(spt: Spt, a: nat): set<nat> {
    set k | k in spt && k >= a
  }

  lemma KeysShrink(spt: Spt, addr: nat)
    requires PgRoundDown(addr) in spt
    ensures |KeysFrom(spt, PgRoundDown(addr + PGSIZE))| < |KeysFrom(spt, PgRoundDown(addr))|
  {
    RoundDownNextPage(addr);
    var big := KeysFrom(spt, PgRoundDown(addr));
    var small := KeysFrom(spt, PgRoundDown(addr + PGSIZE));
    assert small <= big;
    assert PgRoundDown(addr) in big - small;
    assert big == small + (big - small);
    assert |big| == |small| + |big - small|;
  }

  /** What the munmap walk leaves: the file's contents and the dirty bits. */
  datatype WriteBack = WriteBack(content: seq<byte>, dirty: set<nat>)

  /**
   * The do_munmap loop from `addr` on: while the page at addr is a page of
   * `file`, write a dirty page's read_byte bytes of memory back at its
   * offset and clear its dirty bit, then move one page on.
   */
  function MunmapFrom(spt: Spt, addr: nat, file: FileId, w: WriteBack, mem: Memory): (r: WriteBack)
    ensures |r.content| == |w.content|
    ensures r.dirty <= w.dirty
    ensures forall key :: key in w.dirty && key < PgRoundDown(addr) ==> key in r.dirty
    decreases |KeysFrom(spt, PgRoundDown(addr))|
  {
    match SptFind(spt, addr)
    case None => w
    case Some(page) =>
      if FileOf(page) != Some(file) then w
      else
        var fp := page.payload.filePage;
        var key := PgRoundDown(addr);
        var next :=
          if key in w.dirty then WriteBack(FileWriteAt(w.content, fp.offset, UserBytes(mem, addr, fp.readByte)), w.dirty - {key})
          else w;
        KeysShrink(spt, addr);
        RoundDownNextPage(addr);
        MunmapFrom(spt, addr + PGSIZE, file, next, mem)
  }

  /** The pages the walk visits, in order. */
  function Walked(spt: Spt, addr: nat, file: FileId): (ks: seq<nat>)
    ensures forall i :: 0 <= i < |ks| ==> ks[i] == PgRoundDown(addr) + i * PGSIZE && ks[i] in spt
    decreases |KeysFrom(spt, PgRoundDown(addr))|
  {
    match SptFind(spt, addr)
    case None => []
    case Some(page) =>
      if FileOf(page) != Some(file) then []
      else
        KeysShrink(spt, addr);
        RoundDownNextPage(addr);
        [PgRoundDown(addr)] + Walked(spt, addr + PGSIZE, file)
  }

  /**
   * The walk clears exactly the dirty bits of the pages it visits, and it
   * writes to the file only when one of those pages was dirty.
   */
  lemma {:induction false} MunmapClearsWalked(spt: Spt, addr: nat, file: FileId, w: WriteBack, mem: Memory)
    ensures forall key :: key in MunmapFrom(spt, addr, file, w, mem).dirty <==>
      key in w.dirty && key !in Walked(spt, addr, file)
    ensures (forall i :: 0 <= i < |Walked(spt, addr, file)| ==> Walked(spt, addr, file)[i] !in w.dirty) ==>
      MunmapFrom(spt, addr, file, w, mem).content == w.content
    decreases |KeysFrom(spt, PgRoundDown(addr))|
  {
    match SptFind(spt, addr)
    case None =>
    case Some(page) =>
      if FileOf(page) == Some(file) {
        var fp := page.payload.filePage;
        var key := PgRoundDown(addr);
        var next :=
          if key in w.dirty then WriteBack(FileWriteAt(w.content, fp.offset, UserBytes(mem, addr, fp.readByte)), w.dirty - {key})
          else w;
        KeysShrink(spt, addr);
        RoundDownNextPage(addr);
        MunmapClearsWalked(spt, addr + PGSIZE, file, next, mem);
        var rest := Walked(spt, addr + PGSIZE, file);
        assert Walked(spt, addr, file) == [key] + rest;
        assert key !in rest;
      }
  }

  /**
   * do_munmap: the page at `addr` fixes the file; a missing page is a NULL
   * dereference (None).  A page that is not (yet) a file page ends the
   * walk at once: its union holds no file.  The SPT itself is unchanged.
   */
  function DoMunmap(spt: Spt, addr: nat, content: seq<byte>, dirty: set<nat>, mem: Memory): (r: Option<WriteBack>)
    ensures r.None? <==> SptFind(spt, addr).None?
    ensures r.Some? ==> |r.value.content| == |content| && r.value.dirty <= dirty
    ensures SptFind(spt, addr).Some? && FileOf(SptFind(spt, addr).value).None? ==>
      r == Some(WriteBack(content, dirty))
    ensures SptFind(spt, addr).Some? && FileOf(SptFind(spt, addr).value).Some? ==>
      var file := FileOf(SptFind(spt, addr).value).value;
      && r == Some(MunmapFrom(spt, addr, file, WriteBack(content, dirty), mem))
      && PgRoundDown(addr) in Walked(spt, addr, file)
      && (forall key :: key in r.value.dirty <==> key in dirty && key !in Walked(spt, addr, file))
      && ((forall i :: 0 <= i < |Walked(spt, addr, file)| ==> Walked(spt, addr, file)[i] !in dirty) ==>
            r.value.content == content)
  {
    match SptFind(spt, addr)
    case None => None
    case Some(page) =>
      match FileOf(page)
      case None => Some(WriteBack(content, dirty))
      case Some(file) =>
        MunmapClearsWalked(spt, addr, file, WriteBack(content, dirty), mem);
        Some(MunmapFrom(spt, addr, file, WriteBack(content, dirty), mem))
  }

  /** The pages of a layout, each already faulted in as a file page of `file`. */
  ghost predicate FaultedIn(spt: Spt, pages: seq<MmapPage>, file: FileId) {
    forall k :: 0 <= k < |pages| ==>
      (PgRoundDown(pages[k].va) in spt && HoldsFilePage(spt[PgRoundDown(pages[k].va)], pages[k], file))
  }

  /** The page is a file page of `file` carrying the described page's counts and offset. */
  predicate HoldsFilePage(page: Page, p: MmapPage, file: FileId) {
    && page.payload.File?
    && page.payload.filePage.readByte == p.readBytes
    && page.payload.filePage.zeroByte == p.zeroBytes
    && page.payload.filePage.file == file
    && page.payload.filePage.offset == p.ofs
  }

  /** The page at `a` is not a page of `file`, so the walk stops there. */
  predicate EndsWalk(spt: Spt, a: nat, file: FileId) {
    SptFind(spt, a).None? || FileOf(SptFind(spt, a).value) != Some(file)
  }

  /** One dirty page of `file` at an aligned `va`: the walk writes it back and moves on. */
  lemma MunmapStepDirty(spt: Spt, va: nat, file: FileId, w: WriteBack, mem: Memory)
    requires va % PGSIZE == 0 && va in spt && va in w.dirty
    requires spt[va].payload.File? && spt[va].payload.filePage.file == file
    ensures var fp := spt[va].payload.filePage;
      MunmapFrom(spt, va, file, w, mem)
      == MunmapFrom(spt, va + PGSIZE, file,
                    WriteBack(FileWriteAt(w.content, fp.offset, UserBytes(mem, va, fp.readByte)), w.dirty - {va}), mem)
  {
    RoundDownOfAligned(va, 0);
    assert SptFind(spt, va) == Some(spt[va]);
  }

  /** The rest of a faulted-in layout is faulted in, and still dirty once its first page is cleaned. */
  lemma LayoutTail(spt: Spt, n: nat, va: nat, ofs: nat, file: FileId, dirty: set<nat>)
    requires n > 0 && va % PGSIZE == 0
    requires FaultedIn(spt, Layout(n, va, ofs), file)
    requires forall k :: 0 <= k < |Layout(n, va, ofs)| ==> Layout(n, va, ofs)[k].va in dirty
    ensures var rb := if n > PGSIZE then PGSIZE else n;
      var tail := Layout(n - rb, va + PGSIZE, ofs + rb);
      && Layout(n, va, ofs) == [MmapPage(va, ofs, rb, PGSIZE - rb)] + tail
      && FaultedIn(spt, tail, file)
      && (forall k :: 0 <= k < |tail| ==> tail[k].va in dirty - {va})
      && va + PGSIZE + |tail| * PGSIZE == va + |Layout(n, va, ofs)| * PGSIZE
  {
    var rb := if n > PGSIZE then PGSIZE else n;
    var pages := Layout(n, va, ofs);
    var tail := Layout(n - rb, va + PGSIZE, ofs + rb);
    assert pages == [MmapPage(va, ofs, rb, PGSIZE - rb)] + tail;
    LayoutAddressesIncrease(n, va, ofs);
    forall k | 0 <= k < |tail|
      ensures PgRoundDown(tail[k].va) in spt && HoldsFilePage(spt[PgRoundDown(tail[k].va)], tail[k], file)
      ensures tail[k].va in dirty - {va}
    {
      assert tail[k] == pages[k + 1];
      assert pages[0].va == va;
    }
    ShiftOnePage(|pages|);
  }

  /** Writing one page's worth and then the rest equals writing the whole window. */
  lemma CombineWrites(content: seq<byte>, c: seq<byte>, n: nat, rb: nat, va: nat, ofs: nat, mem: Memory)
    requires rb <= n && (rb == PGSIZE || rb == n) && ofs + n <= |content|
    requires |c| == |content|
    requires var next := FileWriteAt(content, ofs, UserBytes(mem, va, rb));
      forall i :: 0 <= i < |c| ==>
        c[i] == if ofs + rb <= i < ofs + n then mem(va + PGSIZE + (i - (ofs + rb))) else next[i]
    ensures forall i :: 0 <= i < |content| ==> c[i] == if ofs <= i < ofs + n then mem(va + (i - ofs)) else content[i]
  {
  }

  /**
   * Unmapping a mapping whose pages were all faulted in and all written
   * stores user memory back: the file's bytes in [ofs, ofs + n) become the
   * memory at va, va+1, ..., and every other byte of the file is kept.
   */
  lemma {:induction false} MunmapWritesBack(spt: Spt, n: nat, va: nat, ofs: nat, file: FileId,
                                            w: WriteBack, mem: Memory)
    requires va % PGSIZE == 0
    requires FaultedIn(spt, Layout(n, va, ofs), file)
    requires EndsWalk(spt, va + |Layout(n, va, ofs)| * PGSIZE, file)
    requires forall k :: 0 <= k < |Layout(n, va, ofs)| ==> Layout(n, va, ofs)[k].va in w.dirty
    requires ofs + n <= |w.content|
    ensures var c := MunmapFrom(spt, va, file, w, mem).content;
      forall i :: 0 <= i < |w.content| ==> c[i] == if ofs <= i < ofs + n then mem(va + (i - ofs)) else w.content[i]
    decreases n
  {
    if n == 0 {
      assert va + |Layout(n, va, ofs)| * PGSIZE == va;
    } else {
      var rb := if n > PGSIZE then PGSIZE else n;
      LayoutTail(spt, n, va, ofs, file, w.dirty);
      RoundDownOfAligned(va, 0);
      assert Layout(n, va, ofs)[0].va == va && PgRoundDown(va) == va;
      assert HoldsFilePage(spt[va], Layout(n, va, ofs)[0], file);
      var next := WriteBack(FileWriteAt(w.content, ofs, UserBytes(mem, va, rb)), w.dirty - {va});
      MunmapStepDirty(spt, va, file, w, mem);
      MunmapWritesBack(spt, n - rb, va + PGSIZE, ofs + rb, file, next, mem);
      CombineWrites(w.content, MunmapFrom(spt, va, file, w, mem).content, n, rb, va, ofs, mem);
    }
  }

  /** What file_backed_destroy leaves: the file, the dirty bits and the machine. */
  datatype FileDestroyResult = FileDestroyResult(writeBack: WriteBack, machine: Machine)

  /**
   * file_backed_destroy: unmap the mapping from this page on with
   * do_munmap (a page no longer in the SPT is a NULL dereference there,
   * None here), then release the frame and clear the pml4 mapping.
   */
  function FileBackedDestroy(spt: Spt, page: Page, content: seq<byte>, dirty: set<nat>,
                             mem: Memory, m: Machine): (r: Option<FileDestroyResult>)
    ensures r.None? <==> SptFind(spt, page.va).None?
    ensures r.Some? ==> r.value.machine == ReleaseFrame(page, m)
    ensures r.Some? ==> DoMunmap(spt, page.va, content, dirty, mem) == Some(r.value.writeBack)
  {
    match DoMunmap(spt, page.va, content, dirty, mem)
    case None => None
    case Some(wb) => Some(FileDestroyResult(wb, ReleaseFrame(page, m)))
  }

  /**
   * Destroying a file page that is the SPT's page at its address clears
   * its dirty bit, and when none of the pages its walk visits is dirty the
   * file is left exactly as it was.
   */
  lemma DestroyClearsDirtyAndKeepsCleanFile(spt: Spt, page: Page, content: seq<byte>, dirty: set<nat>,
                                            mem: Memory, m: Machine)
    requires page.va % PGSIZE == 0 && page.va in spt && spt[page.va] == page && page.payload.File?
    ensures var r := FileBackedDestroy(spt, page, content, dirty, mem, m);
      r.Some? && page.va !in r.value.writeBack.dirty && page.va !in r.value.machine.mapped
    ensures var ws := Walked(spt, page.va, page.payload.filePage.file);
      (forall i :: 0 <= i < |ws| ==> ws[i] !in dirty) ==>
      FileBackedDestroy(spt, page, content, dirty, mem, m).value.writeBack.content == content
  {
    RoundDownOfAligned(page.va, 0);
    var file := page.payload.filePage.file;
    MunmapClearsWalked(spt, page.va, file, WriteBack(content, dirty), mem);
    assert SptFind(spt, page.va) == Some(page);
    RoundDownNextPage(page.va);
    KeysShrink(spt, page.va);
    assert Walked(spt, page.va, file)[0] == page.va;
  }
}
