/** `vmiter`: a cached position in a page table that moves incrementally and grows the table. */
module VmIter {
  import opened Kalloc
  import opened Options
  import opened PageFormat
  import opened PageTable

  // ---------------------------------------------------------------------
  // Facts about moving

  /** A cached stop stays on the path of every address with the same bits above its level. */
  lemma SharedPrefixPath(m: Memory, t: Tables, root: nat, a: nat, b: nat, level: nat)
    requires Forest(m, t) && Root(t, root) && level <= TOP
    requires Prefix(a, level + 1) == Prefix(b, level + 1)
    ensures PathTo(m, t, root, RouteOf(a), level) == PathTo(m, t, root, RouteOf(b), level)
  {
    PrefixIndexes(a, b, level + 1);
    SharedPath(m, t, root, RouteOf(a), RouteOf(b), level);
  }

  lemma SameOffset(a: nat, b: nat, level: nat)
    requires level <= TOP && Prefix(a, level) == Prefix(b, level)
    ensures Offset(b, level) - b == Offset(a, level) - a
  {
    PrefixIs(a);
    PrefixIs(b);
  }

  /** All addresses of the span that the final entry covers share that entry, its permissions,
      and the distance from virtual to physical address. */
  lemma SpanShares(m: Memory, t: Tables, root: nat, a: nat, b: nat)
    requires Forest(m, t) && Root(t, root)
    requires var l := FreshWalk(m, t, root, RouteOf(a)).level; Prefix(a, l) == Prefix(b, l)
    ensures FreshWalk(m, t, root, RouteOf(b)) == FreshWalk(m, t, root, RouteOf(a))
    ensures Final(m, t, root, RouteOf(b)) == Final(m, t, root, RouteOf(a))
    ensures var s, e := FreshWalk(m, t, root, RouteOf(a)), Final(m, t, root, RouteOf(a));
            Present(e) ==> PhysicalAddress(e, s.level, b) - b == PhysicalAddress(e, s.level, a) - a
  {
    var s := FreshWalk(m, t, root, RouteOf(a));
    FreshWalkIff(m, t, root, RouteOf(a), s);
    PrefixIndexes(a, b, s.level);
    SameOffset(a, b, s.level);
    SharedPath(m, t, root, RouteOf(a), RouteOf(b), s.level);
    assert RouteOf(a)[s.level] == RouteOf(b)[s.level];
    FreshWalkIff(m, t, root, RouteOf(b), s);
  }

  /** The entries of the pages between an address and the one that `next` moves to are absent. */
  lemma SkippedAbsent(m: Memory, t: Tables, root: nat, va: nat, level: nat, a: nat)
    requires Forest(m, t) && Root(t, root)
    requires level == 0 || (level == FreshWalk(m, t, root, RouteOf(va)).level
                            && !Present(Final(m, t, root, RouteOf(va))))
    requires level <= TOP && va / PAGESIZE < a / PAGESIZE && a < NextSpan(va, level)
    ensures !Present(Final(m, t, root, RouteOf(a))) && HardwareWalk(m, root, a) == Fault
  {
    InSpan(va, level, a);
    SpanShares(m, t, root, va, a);
    WalksAgree(m, t, root, a);
  }

  /** Where `next` moves to: the next page, or past the whole span of an absent entry. */
  ghost function NextTarget(m: Memory, t: Tables, root: nat, va: nat): nat
    requires Forest(m, t) && Root(t, root)
  {
    var s := FreshWalk(m, t, root, RouteOf(va));
    NextSpan(va, if s.level > 0 && !Present(Final(m, t, root, RouteOf(va))) then s.level else 0)
  }

  /** `next` moves up, to a page boundary, and never skips a present page. */
  lemma NextSkipsAbsent(m: Memory, t: Tables, root: nat, va: nat)
    requires Forest(m, t) && Root(t, root) && va < ADDRESS_END
    ensures va < NextTarget(m, t, root, va) <= ADDRESS_END && NextTarget(m, t, root, va) % PAGESIZE == 0
    ensures forall a: nat | va / PAGESIZE < a / PAGESIZE && a < NextTarget(m, t, root, va) ::
              !Present(Final(m, t, root, RouteOf(a))) && HardwareWalk(m, root, a) == Fault
  {
    var s := FreshWalk(m, t, root, RouteOf(va));
    var l := if s.level > 0 && !Present(Final(m, t, root, RouteOf(va))) then s.level else 0;
    SpanBounds(va, l);
    forall a: nat | va / PAGESIZE < a / PAGESIZE && a < NextTarget(m, t, root, va)
      ensures !Present(Final(m, t, root, RouteOf(a))) && HardwareWalk(m, root, a) == Fault
    {
      SkippedAbsent(m, t, root, va, l, a);
    }
  }

  // ---------------------------------------------------------------------
  // How far the iterator moves

  /** The entry at which the walk to an address ends. */
  datatype Slot = Slot(level: nat, frame: nat, index: nat)

  ghost function SlotOf(m: Memory, t: Tables, root: nat, a: nat): (r: Slot)
    requires Forest(m, t) && Root(t, root)
    ensures r.level <= TOP && r.frame < |m| && r.index < FANOUT
  {
    var s := FreshWalk(m, t, root, RouteOf(a));
    Slot(s.level, s.frame, RouteOf(a)[s.level])
  }

  /** From `va` up to `end` all walks end at the entry where that of `va` ends, and at `end` another
      entry, or the end of the address space, begins. */
  ghost predicate SlotEnds(m: Memory, t: Tables, root: nat, va: nat, end: nat)
    requires Forest(m, t) && Root(t, root)
  {
    && (forall a: nat | va <= a < end :: SlotOf(m, t, root, a) == SlotOf(m, t, root, va))
    && va < end <= ADDRESS_END && (end == ADDRESS_END || SlotOf(m, t, root, end) != SlotOf(m, t, root, va))
  }

  /** What a step of `next` is: from a present page to the next page, and from an absent entry past
      all of its addresses, to the first one of another entry. */
  ghost predicate NextFrom(m: Memory, t: Tables, root: nat, va: nat, target: nat)
    requires Forest(m, t) && Root(t, root)
  {
    var slot := SlotOf(m, t, root, va);
    if P in m[slot.frame][slot.index].flags then target == va / 0x1000 * 0x1000 + 0x1000
    else SlotEnds(m, t, root, va, target)
  }

  /** The span of the final entry is the addresses whose walks end there. */
  lemma SpanEnds(m: Memory, t: Tables, root: nat, va: nat)
    requires Forest(m, t) && Root(t, root) && va < ADDRESS_END
    ensures SlotEnds(m, t, root, va, NextSpan(va, FreshWalk(m, t, root, RouteOf(va)).level))
  {
    var level := FreshWalk(m, t, root, RouteOf(va)).level;
    var end := NextSpan(va, level);
    SpanBounds(va, level);
    IndexAfterSpan(va, level);
    hide FreshWalk, RouteOf, Forest;
    forall a: nat | va <= a < end ensures SlotOf(m, t, root, a) == SlotOf(m, t, root, va) {
      InSpan(va, level, a);
      PrefixIndexes(a, va, level);
      SpanShares(m, t, root, va, a);
    }
  }

  lemma IndexAfterSpan(va: nat, level: nat)
    requires level <= TOP
    ensures Index(NextSpan(va, level), level) != Index(va, level)
  {
    var end := NextSpan(va, level);
    PrefixIs(va);
    PrefixIs(end);
    assert Prefix(end, level) == Prefix(va, level) + 1 by {
      match level
      case 0 =>
      case 1 =>
      case 2 =>
      case 3 =>
    }
  }

  lemma NextTargetIs(m: Memory, t: Tables, root: nat, va: nat)
    requires Forest(m, t) && Root(t, root) && va < ADDRESS_END
    ensures va < NextTarget(m, t, root, va) <= ADDRESS_END
    ensures NextFrom(m, t, root, va, NextTarget(m, t, root, va))
  {
    NextSkipsAbsent(m, t, root, va);
    SpanEnds(m, t, root, va);
  }

  // ---------------------------------------------------------------------
  // The iterator

  /** The memory holds a forest of page tables, none of whose pages `kalloc` could hand out. */
  ghost predicate SoundTables(books: Pool, m: Memory, t: Tables, root: nat) {
    && books.Shaped() && books.Swept()
    && Forest(m, t) && Root(t, root)
    && (forall f | f in t :: !books.Free(f))
  }

  /** The end of a fresh walk to `va`. */
  ghost function Located(books: Pool, m: Memory, t: Tables, root: nat, va: nat): (s: Option<Stop>)
    ensures s.Some? ==> s.value.level <= TOP && s.value.frame < |m|
  {
    if SoundTables(books, m, t, root) then Some(FreshWalk(m, t, root, RouteOf(va))) else None
  }

  /** The stop at `level` of the walk to `va`. */
  ghost function Passing(books: Pool, m: Memory, t: Tables, root: nat, va: nat, level: nat): (s: Option<Stop>)
    ensures s.Some? ==> level <= TOP && s.value.level == level && s.value.frame < |m|
  {
    if SoundTables(books, m, t, root) && level <= TOP then PathTo(m, t, root, RouteOf(va), level) else None
  }

  /** A walk's end is a stop of the walk. */
  lemma LocatedPasses(books: Pool, m: Memory, t: Tables, root: nat, va: nat, s: Stop)
    requires Located(books, m, t, root, va) == Some(s)
    ensures Passing(books, m, t, root, va, s.level) == Some(s)
  {
    FreshWalkIff(m, t, root, RouteOf(va), s);
  }

  /** Every address space of `t` translates every address in `n` as it does in `m`. */
  ghost predicate SameTranslations(m: Memory, t: Tables, n: Memory) {
    forall r, b: nat | Root(t, r) :: HardwareWalk(n, r, b) == HardwareWalk(m, r, b)
  }

  /** One turn of `map`'s loop: a page from `kalloc` is cleared and hung into the absent entry. */
  lemma GrowStep(books: Pool, m: Memory, t: Tables, root: nat, va: nat, s: Stop, p: nat)
    requires Located(books, m, t, root, va) == Some(s) && |m| == NPAGES
    requires s.level > 0 && !Present(m[s.frame][RouteOf(va)[s.level]])
    requires Serve(books, Any(PAGESIZE)).1 == Some(p)
    ensures var f, i := s.frame, RouteOf(va)[s.level];
            && CanGrow(m, t, f, i, p)
            && var n, u, left := Grown(m, f, i, p), GrownTables(t, f, i, p), Serve(books, Any(PAGESIZE)).0;
               && Passing(left, n, u, root, va, s.level) == Some(s)
               && Located(left, n, u, root, va) == Some(Stop(s.level - 1, p, s.perm * PTE_PWU))
               && n[p] == ZeroPage()
               && SameTranslations(m, t, n)
  {
    ServeIsSafe(books, Any(PAGESIZE));
    var ix := RouteOf(va);
    var f, i := s.frame, ix[s.level];
    GrowForest(m, t, f, i, p);
    GrowWalk(m, t, f, i, p, root, ix);
    FreshWalkIff(m, t, root, ix, s);
    PathPreserved(m, t, Grown(m, f, i, p), GrownTables(t, f, i, p), root, ix, s.level);
    forall r, b: nat | Root(t, r) ensures HardwareWalk(Grown(m, f, i, p), r, b) == HardwareWalk(m, r, b) {
      GrowTranslatesSame(m, t, f, i, p, r, b);
    }
  }

  lemma GrowFails(books: Pool, m: Memory, t: Tables, root: nat, va: nat)
    requires Located(books, m, t, root, va).Some? && Serve(books, Any(PAGESIZE)).1 == None
    ensures forall f: nat :: !Serve(books, Any(PAGESIZE)).0.Free(f)
    ensures Located(Serve(books, Any(PAGESIZE)).0, m, t, root, va) == Located(books, m, t, root, va)
    ensures SameTranslations(m, t, m)
  {
    ServeIsSafe(books, Any(PAGESIZE));
  }

  ghost predicate GrowsFrom(t: Tables, u: Tables) {
    forall f | f in t :: f in u && u[f] == t[f]
  }

  /** The page of `va` translates to frame `pa` with the P, W and U bits of `perm`, and every other
      page of every address space of `t` as it does in `m`. */
  ghost predicate Remapped(m: Memory, t: Tables, n: Memory, root: nat, va: nat, pa: nat, perm: Flags) {
    && (forall b: nat | SamePage(va, b) :: HardwareWalk(n, root, b) ==
          if P in perm then Mapped(pa * PAGESIZE + b % PAGESIZE, perm * PTE_PWU) else Fault)
    && (forall q, b: nat | Root(t, q) && (q != root || !SamePage(va, b)) ::
          HardwareWalk(n, q, b) == HardwareWalk(m, q, b))
  }

  lemma RemappedSince(m: Memory, t: Tables, grown: Memory, u: Tables, n: Memory,
                      root: nat, va: nat, pa: nat, perm: Flags)
    requires SameTranslations(m, t, grown) && GrowsFrom(t, u) && Remapped(grown, u, n, root, va, pa, perm)
    ensures Remapped(m, t, n, root, va, pa, perm)
  {
  }

  /** The last step of `map` at level 0. */
  lemma SetLeafStep(m: Memory, t: Tables, root: nat, va: nat, pa: Entry, perm: Flags)
    requires Forest(m, t) && Root(t, root)
    requires FreshWalk(m, t, root, RouteOf(va)).level == 0
    requires perm * PTE_PWU <= FreshWalk(m, t, root, RouteOf(va)).perm
    requires if P in perm then pa.flags == {} else P !in pa.flags
    ensures var s := FreshWalk(m, t, root, RouteOf(va));
            var n := Write(m, s.frame, RouteOf(va)[0], Entry(pa.frame, pa.flags + perm));
            Forest(n, t) && FreshWalk(n, t, root, RouteOf(va)) == s && Remapped(m, t, n, root, va, pa.frame, perm)
  {
    var s, e := FreshWalk(m, t, root, RouteOf(va)), Entry(pa.frame, pa.flags + perm);
    var n := Write(m, s.frame, RouteOf(va)[0], e);
    LeafWalk(m, t, s.frame, RouteOf(va)[0], e, root, RouteOf(va));
    forall b: nat | SamePage(va, b) ensures HardwareWalk(n, root, b) ==
      if P in perm then Mapped(pa.frame * PAGESIZE + b % PAGESIZE, perm * PTE_PWU) else Fault
    {
      LeafTranslates(m, t, root, va, e, b);
      if P in perm {
        assert e.flags * s.perm * PTE_PWU == perm * PTE_PWU;
      }
    }
    forall q, b: nat | Root(t, q) && (q != root || !SamePage(va, b))
      ensures HardwareWalk(n, q, b) == HardwareWalk(m, q, b)
    {
      LeafTranslatesOthersSame(m, t, root, va, e, q, b);
    }
  }

  /** One turn of `down`: the next stop is on the path, and the walk from it ends at the same place. */
  lemma DescendStep(m: Memory, t: Tables, root: nat, ix: Route, s: Stop)
    requires Forest(m, t) && Root(t, root) && 0 < s.level <= TOP && PathTo(m, t, root, ix, s.level) == Some(s)
    requires Points(m[s.frame][ix[s.level]])
    ensures var e := m[s.frame][ix[s.level]];
            var next := Stop(s.level - 1, e.frame, s.perm * e.flags);
            && next.frame in t && t[next.frame].level == next.level
            && PathTo(m, t, root, ix, next.level) == Some(next) && Walk(m, t, s, ix) == Walk(m, t, next, ix)
  {
  }

  lemma DescendEnds(m: Memory, t: Tables, s: Stop, ix: Route)
    requires Forest(m, t) && s.frame in t && t[s.frame].level == s.level
    requires s.level == 0 || !Points(m[s.frame][ix[s.level]])
    ensures Walk(m, t, s, ix) == s
  {
  }

  class VmIter {
    const mem: PhysicalMemory
    const root: nat                // pt_
    ghost var tables: Tables
    var frame: nat                 // pep_ points to entry `index` of page `frame`
    var index: nat
    var level: nat
    var perm: Flags
    var va: nat

    /** The cached page and permissions are those of a walk that has come down to `level`. */
    ghost predicate Placed()
      reads this, mem, mem.owner
    {
      && mem.Valid() && va < ADDRESS_END && index < FANOUT
      && Passing(mem.Books(), mem.pages, tables, root, va, level) == Some(Stop(level, frame, perm))
    }

    /** The cached level, entry and permissions are those of a fresh walk from the root. */
    ghost predicate Valid()
      reads this, mem, mem.owner
    {
      && mem.Valid() && va < ADDRESS_END
      && Located(mem.Books(), mem.pages, tables, root, va) == Some(Stop(level, frame, perm))
      && index == RouteOf(va)[level]
    }

    /** *pep_ */
    function Here(): Entry
      requires frame < |mem.pages| && index < FANOUT
      reads this, mem
    {
      mem.pages[frame][index]
    }

    function Pa(): nat
      requires frame < |mem.pages| && index < FANOUT && level <= TOP
      reads this, mem
    {
      PhysicalAddress(Here(), level, va)
    }

    function Perm(): Flags
      requires frame < |mem.pages| && index < FANOUT
      reads this, mem
    {
      Permissions(Here(), perm)
    }

    predicate User()
      requires frame < |mem.pages| && index < FANOUT
      reads this, mem
    {
      {P, U} <= Here().flags * perm
    }

    function LastVa(): nat
      requires level <= TOP
      reads this
    {
      NextSpan(va, level) % ADDRESS_END
    }

    /** `pa()` and `perm()` are what the processor computes, and `perm()` is empty exactly when the
        entry is absent. */
    lemma AgreesWithProcessor()
      requires Valid()
      ensures match HardwareWalk(mem.pages, root, va)
              case Mapped(pa, rights) => Pa() == pa && P in rights && Perm() * PTE_PWU == rights
              case Fault => Perm() == {} || !ReservedZero(Here(), level)
      ensures Perm() == {} <==> !Present(Here())
      ensures Perm() == {} ==> Pa() == 0
      ensures User() <==> {P, U} <= Perm()
    {
      WalksAgree(mem.pages, tables, root, va);
      FreshWalkIff(mem.pages, tables, root, RouteOf(va), Stop(level, frame, perm));
      PathKeepsPresent(mem.pages, tables, root, RouteOf(va), level);
      assert Present(Here()) ==> P in Perm();
    }

    constructor (mem: PhysicalMemory, root: nat, ghost tables: Tables, va: nat)
      requires mem.Valid() && SoundTables(mem.Books(), mem.pages, tables, root) && va < ADDRESS_END
      ensures Valid() && this.va == va && this.mem == mem && this.root == root && this.tables == tables
    {
      this.mem := mem;
      this.root := root;
      this.tables := tables;
      frame, index, level, perm, this.va := root, 0, TOP, ALL_FLAGS, 0;
      new;
      RealFind(va);
    }

    method Down()
      requires Placed() && index == RouteOf(va)[level]
      modifies this`frame, this`index, this`level, this`perm
      ensures Valid()
      ensures Stop(level, frame, perm) ==
              Walk(mem.pages, tables, old(Stop(level, frame, perm)), RouteOf(va))
    {
      hide PathTo, Walk, Points, RouteOf;
      ghost var t, ix := tables, RouteOf(va);
      ghost var start := Stop(level, frame, perm);
      while level > 0 && Points(mem.pages[frame][index])
        invariant level <= TOP && frame in t && t[frame].level == level && index == ix[level]
        invariant PathTo(mem.pages, t, root, ix, level) == Some(Stop(level, frame, perm))
        invariant Walk(mem.pages, t, start, ix) == Walk(mem.pages, t, Stop(level, frame, perm), ix)
        decreases level
      {
        var e := mem.pages[frame][index];
        DescendStep(mem.pages, t, root, ix, Stop(level, frame, perm));
        perm := perm * e.flags;
        level := level - 1;
        frame, index := e.frame, Index(va, level);
      }
      DescendEnds(mem.pages, t, Stop(level, frame, perm), ix);
      FreshWalkIff(mem.pages, t, root, ix, Stop(level, frame, perm));
    }

    method RealFind(newVa: nat)
      requires Placed() && newVa < ADDRESS_END
      modifies this`frame, this`index, this`level, this`perm, this`va
      ensures Valid() && va == newVa
    {
      if Prefix(va, level + 1) != Prefix(newVa, level + 1) {
        level := TOP;
        frame, index := root, Index(newVa, level);
        perm := ALL_FLAGS;
      } else {
        SharedPrefixPath(mem.pages, tables, root, va, newVa, level);
        var curidx := index;
        index := index + (Index(newVa, level) - curidx);
      }
      va := newVa;
      Down();
    }

    method Find(newVa: nat)
      requires Valid() && newVa < ADDRESS_END
      modifies this`frame, this`index, this`level, this`perm, this`va
      ensures Valid() && va == newVa
    {
      LocatedPasses(mem.Books(), mem.pages, tables, root, va, Stop(level, frame, perm));
      RealFind(newVa);
    }

    /** `operator+=`; `operator-=` is `Advance(-delta)`. Addresses wrap at 64 bits. */
    method Advance(delta: int)
      requires Valid()
      modifies this`frame, this`index, this`level, this`perm, this`va
      ensures Valid() && va == (old(va) + delta) % ADDRESS_END
    {
      Find((va + delta) % ADDRESS_END);
    }

    lemma TargetIsSpan()
      requires Valid()
      ensures NextTarget(mem.pages, tables, root, va) == NextSpan(va, if level > 0 && Perm() == {} then level else 0)
    {
      AgreesWithProcessor();
    }

    method Next()
      requires Valid()
      modifies this`frame, this`index, this`level, this`perm, this`va
      ensures Valid()
      ensures va == NextTarget(mem.pages, tables, root, old(va)) % ADDRESS_END
      ensures NextFrom(mem.pages, tables, root, old(va), if va == 0 then ADDRESS_END else va)
    {
      hide NextTarget, NextFrom, NextSpan, FreshWalk;
      TargetIsSpan();
      NextTargetIs(mem.pages, tables, root, va);
      var l := 0;
      if level > 0 && Perm() == {} {
        l := level;
      }
      Find(NextSpan(va, l) % ADDRESS_END);
    }

    /** One turn of `map`'s loop. */
    method AddTable() returns (ok: bool)
      requires Valid() && level > 0 && !Present(Here())
      modifies this`frame, this`index, this`level, this`perm, this`tables,
               mem`nextAllocPa, mem`pages, mem.owner
      ensures Valid() && GrowsFrom(old(tables), tables)
      ensures SameTranslations(old(mem.pages), old(tables), mem.pages)
      ensures if ok then level == old(level) - 1 && perm == old(perm) * PTE_PWU && Here() == ZERO_ENTRY
              else forall f: nat :: !mem.Books().Free(f)
    {
      hide SoundTables, SameTranslations, Located, Serve, Passing;
      ghost var m, t := mem.pages, tables;
      ghost var books := mem.Books();
      var pt := mem.Kalloc(PAGESIZE);
      if pt == None {
        GrowFails(books, m, t, root, va);
        return false;
      }
      GrowStep(books, m, t, root, va, Stop(level, frame, perm), pt.value);
      mem.pages := mem.pages[pt.value := ZeroPage()];
      mem.pages := Write(mem.pages, frame, index, Entry(pt.value, PTE_PWU));
      tables := GrownTables(t, frame, index, pt.value);
      assert mem.pages == Grown(m, frame, index, pt.value);
      Down();
      return true;
    }

    /** Maps the current page: `-1` when memory runs out, with no translation changed anywhere;
        otherwise `0`, and then this page translates to exactly `pa` with exactly the P, W and U
        bits of `newPerm`, and no other page of any address space changes. With an empty `newPerm`
        the tables are never grown: above level 0 nothing happens. */
    method Map(pa: Entry, newPerm: Flags) returns (r: int)
      requires Valid() && va % PAGESIZE == 0
      requires if P in newPerm then pa.flags == {} else P !in pa.flags
      requires newPerm * PTE_PWU <= perm
      requires level > 0 && newPerm != {} ==> !Present(Here())
      modifies this`frame, this`index, this`level, this`perm, this`tables,
               mem`nextAllocPa, mem`pages, mem.owner
      ensures Valid() && GrowsFrom(old(tables), tables) && (r == 0 || r == -1)
      ensures r == -1 ==> SameTranslations(old(mem.pages), old(tables), mem.pages)
                          && forall f: nat :: !mem.Books().Free(f)
      ensures r == 0 && (newPerm != {} || old(level) == 0) ==>
                && level == 0 && Here() == Entry(pa.frame, pa.flags + newPerm)
                && Remapped(old(mem.pages), old(tables), mem.pages, root, va, pa.frame, newPerm)
      ensures newPerm == {} && old(level) > 0 ==> r == 0 && mem.pages == old(mem.pages)
    {
      while level > 0 && newPerm != {}
        invariant Valid() && newPerm * PTE_PWU <= perm && GrowsFrom(old(tables), tables)
        invariant level > 0 && newPerm != {} ==> !Present(Here())
        invariant SameTranslations(old(mem.pages), old(tables), mem.pages)
        invariant newPerm == {} ==> mem.pages == old(mem.pages) && level == old(level)
        decreases level
      {
        var ok := AddTable();
        if !ok {
          return -1;
        }
      }
      if level == 0 {
        ghost var grown := mem.pages;
        SetLeafStep(grown, tables, root, va, pa, newPerm);
        mem.pages := Write(mem.pages, frame, index, Entry(pa.frame, pa.flags + newPerm));
        RemappedSince(old(mem.pages), old(tables), grown, tables, mem.pages, root, va, pa.frame, newPerm);
      }
      return 0;
    }

    lemma LastVaEnds()
      requires Valid()
      ensures SlotEnds(mem.pages, tables, root, va, if LastVa() == 0 then ADDRESS_END else LastVa())
    {
      hide SlotEnds;
      SpanBounds(va, level);
      SpanEnds(mem.pages, tables, root, va);
    }

    method Step()
      requires Valid()
      modifies this`frame, this`index, this`level, this`perm, this`va
      ensures Valid() && va == old(LastVa())
      ensures SlotEnds(mem.pages, tables, root, old(va), if va == 0 then ADDRESS_END else va)
    {
      hide SlotEnds, NextSpan, FreshWalk;
      LastVaEnds();
      Find(LastVa());
    }

    /** Every address from the current one up to `last_va()` translates through the same entry,
        with the same permissions and the same distance from virtual to physical address. */
    lemma SharedUpToLastVa(a: nat)
      requires Valid() && va <= a < if LastVa() == 0 then ADDRESS_END else LastVa()
      ensures Final(mem.pages, tables, root, RouteOf(a)) == Here()
      ensures FreshWalk(mem.pages, tables, root, RouteOf(a)).perm == perm
      ensures match HardwareWalk(mem.pages, root, a)
              case Mapped(pa, rights) => pa - a == Pa() - va && Perm() * PTE_PWU == rights
              case Fault => Perm() == {} || !ReservedZero(Here(), level)
    {
      SpanBounds(va, level);
      InSpan(va, level, a);
      SpanShares(mem.pages, tables, root, va, a);
      WalksAgree(mem.pages, tables, root, a);
    }
  }

  // ---------------------------------------------------------------------
  // The loop over the low half of the address space

  lemma NextStaysLow(m: Memory, t: Tables, root: nat, va: nat)
    requires Forest(m, t) && Root(t, root) && va < VA_LOWEND
    ensures va < NextTarget(m, t, root, va) <= VA_LOWEND && NextTarget(m, t, root, va) % PAGESIZE == 0
    ensures NextTarget(m, t, root, va) % ADDRESS_END == NextTarget(m, t, root, va)
  {
    NextSkipsAbsent(m, t, root, va);
    LowSpan(va, if NextTarget(m, t, root, va) == NextSpan(va, 0) then 0 else FreshWalk(m, t, root, RouteOf(va)).level);
  }

  lemma LowSpan(va: nat, level: nat)
    requires level <= TOP && va < VA_LOWEND
    ensures NextSpan(va, level) <= VA_LOWEND < ADDRESS_END
    ensures NextSpan(va, level) % ADDRESS_END == NextSpan(va, level)
  {
    PrefixIs(va);
    assert Prefix(va, 0) == va / PAGESIZE;
    hide Prefix;
    assert NextSpan(va, level) <= VA_LOWEND;
    hide NextSpan;
  }

  /** Unprivileged code may use the page of `a`, as `user()` tells. */
  ghost predicate UserAt(m: Memory, t: Tables, root: nat, a: nat)
    requires Forest(m, t) && Root(t, root)
  {
    {P, U} <= Final(m, t, root, RouteOf(a)).flags * FreshWalk(m, t, root, RouteOf(a)).perm
  }

  ghost function AddressAt(m: Memory, t: Tables, root: nat, a: nat): nat
    requires Forest(m, t) && Root(t, root)
  {
    PhysicalAddress(Final(m, t, root, RouteOf(a)), FreshWalk(m, t, root, RouteOf(a)).level, a)
  }

  /** Each position but the first is one step of `next` after the one before. */
  ghost predicate ByNext(m: Memory, t: Tables, root: nat, positions: seq<nat>)
    requires Forest(m, t) && Root(t, root)
  {
    positions != [] && positions[0] == 0
    && forall i | 0 < i < |positions| :: NextFrom(m, t, root, positions[i - 1], positions[i])
  }

  /** What the loop has done when it stands at `va`: it came by steps of `next`, in ascending order, to
      every present page below `va`, and marked exactly the user-accessible pages it came to, with
      their addresses. */
  ghost predicate ScannedBelow(m: Memory, t: Tables, root: nat, visited: seq<nat>, marks: seq<(nat, nat)>, va: nat)
    requires Forest(m, t) && Root(t, root)
  {
    && (forall i, j | 0 <= i < j < |visited| :: visited[i] < visited[j])
    && (forall i | 0 <= i < |visited| :: visited[i] < va)
    && ByNext(m, t, root, visited + [va])
    && (forall a: nat | a < va && a % PAGESIZE == 0 && Present(Final(m, t, root, RouteOf(a))) :: a in visited)
    && (forall x: (nat, nat) :: x in marks <==>
          x.0 in visited && UserAt(m, t, root, x.0) && x.1 == AddressAt(m, t, root, x.0))
  }

  lemma OneMoreStep(m: Memory, t: Tables, root: nat, visited: seq<nat>, va: nat, end: nat)
    requires Forest(m, t) && Root(t, root) && ByNext(m, t, root, visited + [va]) && NextFrom(m, t, root, va, end)
    ensures ByNext(m, t, root, visited + [va] + [end])
  {
    hide NextFrom;
    var s, r := visited + [va], visited + [va] + [end];
    forall i | 0 < i < |r| ensures NextFrom(m, t, root, r[i - 1], r[i]) {
      assert r[i - 1] == s[i - 1];
    }
  }

  lemma ScanTurn(m: Memory, t: Tables, root: nat, visited: seq<nat>, marks: seq<(nat, nat)>, va: nat)
    requires Forest(m, t) && Root(t, root) && va < ADDRESS_END && va % PAGESIZE == 0
    requires ScannedBelow(m, t, root, visited, marks, va)
    ensures var now := if UserAt(m, t, root, va) then marks + [(va, AddressAt(m, t, root, va))] else marks;
            ScannedBelow(m, t, root, visited + [va], now, NextTarget(m, t, root, va))
  {
    NextSkipsAbsent(m, t, root, va);
    NextTargetIs(m, t, root, va);
    var end := NextTarget(m, t, root, va);
    OneMoreStep(m, t, root, visited, va, end);
    var now := if UserAt(m, t, root, va) then marks + [(va, AddressAt(m, t, root, va))] else marks;
    hide UserAt, AddressAt, NextTarget, NextFrom, ByNext, Forest, FreshWalk;
    forall a: nat | a < end && a % PAGESIZE == 0 && Present(Final(m, t, root, RouteOf(a))) ensures a in visited + [va] {
      assert a / PAGESIZE <= va / PAGESIZE;
      assert a <= va;
    }
    forall x: (nat, nat)
      ensures x in now <==> x.0 in visited + [va] && UserAt(m, t, root, x.0) && x.1 == AddressAt(m, t, root, x.0)
    {
      assert x in now <==> x in marks || (UserAt(m, t, root, va) && x == (va, AddressAt(m, t, root, va)));
      assert x.0 in visited + [va] <==> x.0 in visited || x.0 == va;
    }
  }

  /** So a scan has marked every page that the processor lets unprivileged code use, with the address
      that it translates to; and a marked page is such a page, unless its entry has a reserved bit set. */
  lemma ScanFindsUserPages(m: Memory, t: Tables, root: nat, visited: seq<nat>, marks: seq<(nat, nat)>, va: nat, a: nat)
    requires Forest(m, t) && Root(t, root) && ScannedBelow(m, t, root, visited, marks, va)
    requires a < va && a % PAGESIZE == 0
    ensures match HardwareWalk(m, root, a)
            case Mapped(pa, rights) => a in visited && (U in rights <==> (a, pa) in marks)
            case Fault => forall pa: nat | (a, pa) in marks ::
                            !ReservedZero(Final(m, t, root, RouteOf(a)), FreshWalk(m, t, root, RouteOf(a)).level)
  {
    hide ByNext;
    WalksAgree(m, t, root, a);
    var s := FreshWalk(m, t, root, RouteOf(a));
    FreshWalkIff(m, t, root, RouteOf(a), s);
    PathKeepsPresent(m, t, root, RouteOf(a), s.level);
  }

  /** The loop over the low half with `next`, marking the physical address of every page for which
      `user` holds. It ends, having scanned the whole low half. */
  method MarkUserPages(mem: PhysicalMemory, root: nat, ghost t: Tables)
    returns (visited: seq<nat>, marks: seq<(nat, nat)>)
    requires mem.Valid() && SoundTables(mem.Books(), mem.pages, t, root)
    ensures ScannedBelow(mem.pages, t, root, visited, marks, VA_LOWEND)
  {
    hide NextFrom;
    ghost var m := mem.pages;
    var it := new VmIter(mem, root, t, 0);
    visited, marks := [], [];
    while it.va < VA_LOWEND
      invariant it.Valid() && fresh(it) && it.mem == mem && it.root == root && it.tables == t
      invariant it.va % PAGESIZE == 0 && it.va <= VA_LOWEND
      invariant ScannedBelow(m, t, root, visited, marks, it.va)
      decreases VA_LOWEND - it.va
    {
      ghost var target := NextTarget(m, t, root, it.va);
      NextStaysLow(m, t, root, it.va);
      ScanTurn(m, t, root, visited, marks, it.va);
      visited := visited + [it.va];
      if it.User() {
        marks := marks + [(it.va, it.Pa())];
      }
      it.Next();
      assert it.va == target;
    }
  }
}
