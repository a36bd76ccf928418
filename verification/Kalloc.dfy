/** Physical memory of WeensyOS and its page allocator (`kalloc`, `kalloc_physical_page`). */
module Kalloc {
  import opened Options
  import opened PageFormat

  const MEMSIZE_PHYSICAL: nat := 0x200000
  const NPAGES: nat := 512
  const KERNEL_START_ADDR: nat := 0x40000
  const KERNEL_STACK_TOP: nat := 0x80000
  const IOPHYSMEM: nat := 0xA0000
  const EXTPHYSMEM: nat := 0x100000

  predicate Reserved(pa: nat) {
    pa < PAGESIZE || IOPHYSMEM <= pa < EXTPHYSMEM
  }

  function RoundUp(x: nat, m: nat): nat
    requires m > 0
  {
    (x + m - 1) / m * m
  }

  /** `kernelTop` is the linker's `kernel_end` symbol, rounded up to a page. */
  predicate Allocatable(pa: nat, kernelTop: nat) {
    && !Reserved(pa)
    && (pa < KERNEL_START_ADDR || pa >= kernelTop)
    && (pa < KERNEL_STACK_TOP - PAGESIZE || pa >= KERNEL_STACK_TOP)
    && pa < MEMSIZE_PHYSICAL
  }

  // ---------------------------------------------------------------------
  // Specification: the allocator as a function on its bookkeeping

  datatype Pool = Pool(owner: seq<nat>, next: nat, kernelTop: nat)
  {
    predicate Shaped() { |owner| == NPAGES && next % PAGESIZE == 0 }

    predicate Free(f: nat)
      requires |owner| == NPAGES
    {
      f < NPAGES && Allocatable(f * PAGESIZE, kernelTop) && owner[f] == 0
    }

    /** Every allocatable page below the cursor is owned. */
    ghost predicate Swept()
      requires |owner| == NPAGES
    {
      forall f: nat | f < NPAGES && f * PAGESIZE < next :: !Free(f)
    }
  }

  /** A step of the allocator that hands out frame `got` (or fails), as a relation. */
  ghost predicate Hands(p: Pool, q: Pool, got: Option<nat>, owner: nat)
    requires p.Shaped() && q.Shaped()
  {
    && q.kernelTop == p.kernelTop
    && match got
       case None => q.owner == p.owner
       case Some(f) => p.Free(f) && q.owner == p.owner[f := owner]
  }

  datatype Request = Any(sz: nat) | At(pa: nat, owner: nat)

  /** What `kalloc` and `kalloc_physical_page` ask of their callers, and a visible owner mark:
      `owner` is stored in a byte, so a multiple of 256 would mark the page as free again. */
  predicate Proper(r: Request) {
    r.At? ==> r.pa % PAGESIZE == 0 && r.owner % 256 != 0
  }

  /** First free frame at or after `f`, or NPAGES. */
  function FirstFree(p: Pool, f: nat): (r: nat)
    requires p.Shaped() && f <= NPAGES
    ensures f <= r <= NPAGES
    ensures forall g: nat | f <= g < r :: !p.Free(g)
    ensures r < NPAGES ==> p.Free(r)
    decreases NPAGES - f
  {
    if f == NPAGES || p.Free(f) then f else FirstFree(p, f + 1)
  }

  function Serve(p: Pool, r: Request): (res: (Pool, Option<nat>))
    requires p.Shaped()
    ensures res.0.Shaped()
  {
    match r
    case Any(sz) =>
      if sz > PAGESIZE || p.next >= MEMSIZE_PHYSICAL then (p, None)
      else
        var f := FirstFree(p, p.next / PAGESIZE);
        if f == NPAGES then (p.(next := MEMSIZE_PHYSICAL), None)
        else (p.(owner := p.owner[f := 255], next := (f + 1) * PAGESIZE), Some(f))
    case At(pa, owner) =>
      if Allocatable(pa, p.kernelTop) && p.owner[pa / PAGESIZE] == 0
      then (p.(owner := p.owner[pa / PAGESIZE := owner % 256]), Some(pa / PAGESIZE))
      else (p, None)
  }

  /** One request: what is handed out was free and becomes owned; nothing else changes hands;
      the swept region stays swept; and `kalloc` of at most a page hands out the lowest free page, and
      fails only when no page is free. */
  lemma ServeIsSafe(p: Pool, r: Request)
    requires p.Shaped() && p.Swept() && Proper(r)
    ensures var (q, got) := Serve(p, r);
            && q.Swept()
            && Hands(p, q, got, if r.Any? then 255 else r.owner % 256)
            && (r.Any? ==> (got.None? <==> r.sz > PAGESIZE || forall f: nat :: !p.Free(f)))
            && (r.Any? && got.Some? ==> forall f: nat | p.Free(f) :: got.value <= f)
            && (r.At? ==> (got.Some? <==> p.Free(r.pa / PAGESIZE)))
            && (r.At? && got.Some? ==> got.value * PAGESIZE == r.pa)
  {
    var (q, got) := Serve(p, r);
    forall f: nat | q.Free(f) ensures p.Free(f) {}
    if r.Any? && r.sz <= PAGESIZE && p.next < MEMSIZE_PHYSICAL {
      var first := p.next / PAGESIZE;
      assert forall g: nat | g < first :: g * PAGESIZE < p.next;
      forall g: nat | g < FirstFree(p, first) ensures !p.Free(g) {
        if g >= first { assert !p.Free(g); }
      }
    }
  }

  function ServeAll(p: Pool, rs: seq<Request>): (res: (Pool, seq<nat>))
    requires p.Shaped()
    ensures res.0.Shaped()
    decreases |rs|
  {
    if rs == [] then (p, [])
    else
      var (q, got) := Serve(p, rs[0]);
      var (end, later) := ServeAll(q, rs[1..]);
      (end, (if got.Some? then [got.value] else []) + later)
  }

  /** Over any run no page is handed out twice, and every page handed out was free (so
      allocatable and unowned) when the run began and is owned when it ends. */
  lemma {:induction false} NoPageTwice(p: Pool, rs: seq<Request>)
    requires p.Shaped() && p.Swept() && forall r | r in rs :: Proper(r)
    ensures var (end, out) := ServeAll(p, rs);
            && end.Swept() && end.kernelTop == p.kernelTop
            && (forall f | f in out :: p.Free(f) && !end.Free(f))
            && (forall i, j | 0 <= i < j < |out| :: out[i] != out[j])
            && (forall f: nat :: end.Free(f) <==> p.Free(f) && f !in out)
    decreases |rs|
  {
    if rs != [] {
      ServeIsSafe(p, rs[0]);
      var (q, got) := Serve(p, rs[0]);
      NoPageTwice(q, rs[1..]);
    }
  }

  /** The page-sized piece of memory of frame `f` and the bytes from `from` up to `to` overlap. */
  predicate Overlaps(f: nat, from: nat, to: nat) { f * 0x1000 < to && from < f * 0x1000 + 0x1000 }

  /** Nothing in frame `f` is kept back: the page at 0, the I/O and BIOS area, the kernel, its stack. */
  predicate Usable(f: nat, kernelEnd: nat) {
    && f < 512 && f != 0 && !Overlaps(f, 0xA0000, 0x100000)
    && !Overlaps(f, 0x40000, kernelEnd) && !Overlaps(f, 0x7F000, 0x80000)
  }

  function NewPool(kernelEnd: nat): Pool {
    Pool(seq(NPAGES, _ => 0), 0, RoundUp(kernelEnd, PAGESIZE))
  }

  lemma UsablePages(kernelEnd: nat, f: nat)
    ensures NewPool(kernelEnd).Free(f) <==> Usable(f, kernelEnd)
  {
    var top := RoundUp(kernelEnd, PAGESIZE);
    assert kernelEnd <= top < kernelEnd + PAGESIZE && top % PAGESIZE == 0;
    assert f * PAGESIZE % PAGESIZE == 0;
  }

  /** From the start of the kernel on, only usable pages are handed out, and when `kalloc` of at most
      a page fails they have all been handed out. */
  lemma OnlyUsable(kernelEnd: nat, rs: seq<Request>, sz: nat)
    requires forall r | r in rs :: Proper(r)
    ensures var (end, out) := ServeAll(NewPool(kernelEnd), rs);
            && (forall f | f in out :: Usable(f, kernelEnd))
            && (sz <= PAGESIZE && Serve(end, Any(sz)).1 == None ==> forall f: nat | Usable(f, kernelEnd) :: f in out)
  {
    var p := NewPool(kernelEnd);
    NoPageTwice(p, rs);
    ServeIsSafe(ServeAll(p, rs).0, Any(sz));
    forall f: nat ensures p.Free(f) <==> Usable(f, kernelEnd) {
      UsablePages(kernelEnd, f);
    }
  }

  /** `kalloc`'s cursor has gone from where it stood in `p` to `pa` without finding a free page. */
  ghost predicate Scanned(p: Pool, pa: nat) {
    && p.Shaped() && pa % PAGESIZE == 0
    && if p.next >= MEMSIZE_PHYSICAL then pa == p.next
       else pa / PAGESIZE <= NPAGES && FirstFree(p, p.next / PAGESIZE) == FirstFree(p, pa / PAGESIZE)
  }

  lemma ScanStep(p: Pool, pa: nat, sz: nat)
    requires Scanned(p, pa) && pa < MEMSIZE_PHYSICAL && sz <= PAGESIZE
    ensures if Allocatable(pa, p.kernelTop) && p.owner[pa / PAGESIZE] == 0
            then Serve(p, Any(sz)) == (p.(owner := p.owner[pa / PAGESIZE := 255], next := pa + PAGESIZE),
                                       Some(pa / PAGESIZE))
            else Scanned(p, pa + PAGESIZE)
  {
    assert pa / PAGESIZE * PAGESIZE == pa;
    assert (pa + PAGESIZE) / PAGESIZE == pa / PAGESIZE + 1;
  }

  lemma ScanBegins(p: Pool)
    requires p.Shaped()
    ensures Scanned(p, p.next)
  {
  }

  lemma ScanEnds(p: Pool, pa: nat, sz: nat)
    requires Scanned(p, pa) && pa >= MEMSIZE_PHYSICAL && sz <= PAGESIZE
    ensures Serve(p, Any(sz)) == (p.(next := pa), None)
  {
    assert pa / PAGESIZE * PAGESIZE == pa;
  }

  // ---------------------------------------------------------------------
  // The allocator as the kernel keeps it

  class PhysicalMemory {
    const kernelTop: nat
    const owner: array<nat>        // pages[i].owner
    var nextAllocPa: nat
    var pages: seq<Page>           // contents, one 512-entry page per frame

    ghost predicate Valid()
      reads this, owner
    {
      |pages| == NPAGES && owner.Length == NPAGES && Books().Shaped()
    }

    ghost function Books(): Pool
      reads this, owner
    {
      Pool(owner[..], nextAllocPa, kernelTop)
    }

    constructor (kernelEnd: nat)
      ensures Valid() && fresh(owner)
      ensures Books() == NewPool(kernelEnd) && Books().Swept()
    {
      kernelTop := RoundUp(kernelEnd, PAGESIZE);
      owner := new nat[NPAGES](_ => 0);
      nextAllocPa := 0;
      pages := seq(NPAGES, _ => ZeroPage());
    }

    /** Marks a page as owned and clears it. */
    method Claim(pa: nat, mark: nat)
      requires Valid() && pa < MEMSIZE_PHYSICAL
      modifies this`pages, owner
      ensures Valid()
      ensures Books() == old(Books()).(owner := old(owner[..])[pa / PAGESIZE := mark])
      ensures pages == old(pages)[pa / PAGESIZE := ZeroPage()]
    {
      owner[pa / PAGESIZE] := mark;
      pages := pages[pa / PAGESIZE := ZeroPage()];
      assert owner[..] == old(owner[..])[pa / PAGESIZE := mark];
    }

    method Kalloc(sz: nat) returns (got: Option<nat>)
      requires Valid()
      modifies this`nextAllocPa, this`pages, owner
      ensures Valid()
      ensures (Books(), got) == Serve(old(Books()), Any(sz))
      ensures pages == if got.Some? then old(pages)[got.value := ZeroPage()] else old(pages)
    {
      if sz > PAGESIZE {
        return None;
      }
      hide Serve, Scanned, FirstFree, Allocatable;
      ghost var before := Books();
      ScanBegins(before);
      while nextAllocPa < MEMSIZE_PHYSICAL
        invariant Valid() && Books() == before.(next := nextAllocPa) && pages == old(pages)
        invariant Scanned(before, nextAllocPa)
      {
        var pa := nextAllocPa;
        nextAllocPa := nextAllocPa + PAGESIZE;
        ScanStep(before, pa, sz);
        if Allocatable(pa, kernelTop) && owner[pa / PAGESIZE] == 0 {
          Claim(pa, 255);
          return Some(pa / PAGESIZE);
        }
      }
      ScanEnds(before, nextAllocPa, sz);
      return None;
    }

    method KallocPhysicalPage(pa: nat, newOwner: nat) returns (got: Option<nat>)
      requires Valid() && pa % PAGESIZE == 0
      modifies this`pages, owner
      ensures Valid()
      ensures (Books(), got) == Serve(old(Books()), At(pa, newOwner))
      ensures pages == if got.Some? then old(pages)[got.value := ZeroPage()] else old(pages)
    {
      if Allocatable(pa, kernelTop) && owner[pa / PAGESIZE] == 0 {
        Claim(pa, newOwner % 256);
        return Some(pa / PAGESIZE);
      }
      return None;
    }
  }
}
