/** Page tables as a forest in physical memory, the walk that `vmiter` performs from the root,
    and an independent walk as the processor performs it. */
module PageTable {
  import opened Arithmetic
  import opened Options
  import opened PageFormat

  type Memory = seq<Page>
  /** The place of a page-table page: its level, and the one pointer that leads to it (entry
      `slot` of page `up`; of no meaning for a root). */
  datatype Place = Place(level: nat, up: nat, slot: nat)
  type Tables = map<nat, Place>

  /** The page-table pages form a forest: every pointer leads one level down, to a page-table
      page that has this pointer, and so no other, as its place. */
  ghost predicate Forest(m: Memory, t: Tables) {
    && (forall f | f in t :: f < |m| && t[f].level <= TOP)
    && (forall f, i: nat | f in t && t[f].level > 0 && i < FANOUT && Points(m[f][i]) ::
          m[f][i].frame in t && t[m[f][i].frame] == Place(t[f].level - 1, f, i))
  }

  ghost predicate Root(t: Tables, root: nat) { root in t && t[root].level == TOP }

  // ---------------------------------------------------------------------
  // Arithmetic of page indexes

  lemma PrefixIs(va: nat)
    ensures Prefix(va, 1) == va / 0x20_0000 && Prefix(va, 2) == va / 0x4000_0000
    ensures Prefix(va, 3) == va / 0x80_0000_0000 && Prefix(va, 4) == va / 0x1_0000_0000_0000
  {
    DivDiv(va, 0x1000, 512);
    DivDiv(va, 0x20_0000, 512);
    DivDiv(va, 0x4000_0000, 512);
    DivDiv(va, 0x80_0000_0000, 512);
  }

  lemma PrefixStep(va: nat, level: nat)
    requires level <= TOP
    ensures Prefix(va, level) == Prefix(va, level + 1) * FANOUT + Index(va, level)
  {
  }

  lemma SpanBounds(va: nat, level: nat)
    requires level <= TOP && va < ADDRESS_END
    ensures va < NextSpan(va, level) <= ADDRESS_END && NextSpan(va, level) % PAGESIZE == 0
  {
    PrefixIs(va);
    match level
    case 0 => AddMultiple(Prefix(va, 0) + 1, PAGESIZE, 0);
    case 1 => AddMultiple((Prefix(va, 1) + 1) * 0x200, PAGESIZE, 0);
    case 2 => AddMultiple((Prefix(va, 2) + 1) * 0x4_0000, PAGESIZE, 0);
    case 3 => AddMultiple((Prefix(va, 3) + 1) * 0x800_0000, PAGESIZE, 0);
  }

  lemma InSpan(va: nat, level: nat, a: nat)
    requires level <= TOP && va <= a < NextSpan(va, level)
    ensures Prefix(a, level) == Prefix(va, level)
  {
    PrefixIs(va);
    PrefixIs(a);
  }

  /** Addresses with a common prefix have the same indexes above it. */
  lemma {:induction false} PrefixIndexes(a: nat, b: nat, level: nat)
    requires level <= TOP + 1 && Prefix(a, level) == Prefix(b, level)
    ensures forall j: nat | level <= j <= TOP :: Index(a, j) == Index(b, j)
    decreases TOP + 1 - level
  {
    if level <= TOP {
      PrefixStep(a, level);
      PrefixStep(b, level);
      PrefixIndexes(a, b, level + 1);
    }
  }

  /** The part of an address that the tables translate: 48 bits. */
  function Low48(va: nat): nat { va % 0x1_0000_0000_0000 }

  /** The two addresses lie in one page of the 48-bit space that the tables translate. */
  predicate SamePage(a: nat, b: nat) {
    Prefix(Low48(a), 0) == Prefix(Low48(b), 0)
  }

  lemma HighBitsOf(q: nat, k: nat, s: nat, r: nat)
    requires s > 0
    ensures (q * k * 512 * s + r) / s % 512 == r / s % 512
  {
    AddMultiple(q * k * 512, s, r);
    AddMultiple(q * k, 512, r / s);
  }

  /** Indexes do not depend on the sixteen bits above the translated address. */
  lemma HighBits(va: nat, level: nat)
    requires level <= TOP
    ensures Index(Low48(va), level) == Index(va, level)
  {
    var q, r := va / 0x1_0000_0000_0000, Low48(va);
    PrefixIs(va);
    PrefixIs(r);
    match level
    case 0 => HighBitsOf(q, 0x800_0000, 0x1000, r);
    case 1 => HighBitsOf(q, 0x4_0000, 0x20_0000, r);
    case 2 => HighBitsOf(q, 0x200, 0x4000_0000, r);
    case 3 => HighBitsOf(q, 1, 0x80_0000_0000, r);
  }

  lemma {:induction false} IndexesPrefix(a: nat, b: nat, level: nat)
    requires level <= TOP + 1
    requires forall j: nat | level <= j <= TOP :: Index(a, j) == Index(b, j)
    ensures Prefix(Low48(a), level) == Prefix(Low48(b), level)
    decreases TOP + 1 - level
  {
    if level <= TOP {
      IndexesPrefix(a, b, level + 1);
      HighBits(a, level);
      HighBits(b, level);
      PrefixStep(Low48(a), level);
      PrefixStep(Low48(b), level);
    } else {
      PrefixIs(Low48(a));
      PrefixIs(Low48(b));
    }
  }

  lemma SamePageIndexes(a: nat, b: nat)
    ensures SamePage(a, b) <==> forall j: nat | j <= TOP :: Index(a, j) == Index(b, j)
  {
    if SamePage(a, b) {
      PrefixIndexes(Low48(a), Low48(b), 0);
      forall j: nat | j <= TOP ensures Index(a, j) == Index(b, j) {
        HighBits(a, j);
        HighBits(b, j);
      }
    }
    if forall j: nat | j <= TOP :: Index(a, j) == Index(b, j) {
      IndexesPrefix(a, b, 0);
    }
  }

  // ---------------------------------------------------------------------
  // The walk from the root

  /** Where a walk stands: in page-table page `frame` at `level`, with the flags of the
      entries passed so far ANDed together. */
  datatype Stop = Stop(level: nat, frame: nat, perm: Flags)

  /** The page-table page that the walk along `ix` uses at `level`, if the tables go that deep. */
  ghost function PathTo(m: Memory, t: Tables, root: nat, ix: Route, level: nat): (r: Option<Stop>)
    requires Forest(m, t) && Root(t, root) && level <= TOP
    ensures r.Some? ==> r.value.level == level && r.value.frame in t && t[r.value.frame].level == level
    decreases TOP - level
  {
    if level == TOP then Some(Stop(TOP, root, ALL_FLAGS))
    else
      match PathTo(m, t, root, ix, level + 1)
      case None => None
      case Some(up) =>
        var e := m[up.frame][ix[level + 1]];
        if Points(e) then Some(Stop(level, e.frame, up.perm * e.flags)) else None
  }

  /** The flags at a stop are those that all entries passed on the way have in common. */
  lemma {:induction false} PathFlags(m: Memory, t: Tables, root: nat, ix: Route, level: nat, x: Flag)
    requires Forest(m, t) && Root(t, root) && level <= TOP && PathTo(m, t, root, ix, level).Some?
    ensures forall j: nat | level < j <= TOP :: PathTo(m, t, root, ix, j).Some?
    ensures x in PathTo(m, t, root, ix, level).value.perm <==>
            forall j: nat | level < j <= TOP :: x in m[PathTo(m, t, root, ix, j).value.frame][ix[j]].flags
    decreases TOP - level
  {
    if level < TOP {
      PathFlags(m, t, root, ix, level + 1, x);
    }
  }

  /** A fresh walk along `ix`, continued from `s` down to the entry that ends it. */
  ghost function Walk(m: Memory, t: Tables, s: Stop, ix: Route): (r: Stop)
    requires Forest(m, t) && s.frame in t && t[s.frame].level == s.level
    ensures r.frame in t && t[r.frame].level == r.level <= s.level
    ensures r.level > 0 ==> !Points(m[r.frame][ix[r.level]])
    decreases s.level
  {
    var e := m[s.frame][ix[s.level]];
    if s.level > 0 && Points(e)
    then Walk(m, t, Stop(s.level - 1, e.frame, s.perm * e.flags), ix)
    else s
  }

  ghost function FreshWalk(m: Memory, t: Tables, root: nat, ix: Route): Stop
    requires Forest(m, t) && Root(t, root)
  {
    Walk(m, t, Stop(TOP, root, ALL_FLAGS), ix)
  }

  /** The entry that ends the walk along `ix`. */
  ghost function Final(m: Memory, t: Tables, root: nat, ix: Route): Entry
    requires Forest(m, t) && Root(t, root)
  {
    var s := FreshWalk(m, t, root, ix);
    m[s.frame][ix[s.level]]
  }

  /** The fresh walk passes through every stop on the path. */
  lemma {:induction false} WalkFromPath(m: Memory, t: Tables, root: nat, ix: Route, level: nat)
    requires Forest(m, t) && Root(t, root) && level <= TOP
    requires PathTo(m, t, root, ix, level).Some?
    ensures FreshWalk(m, t, root, ix) == Walk(m, t, PathTo(m, t, root, ix, level).value, ix)
    decreases TOP - level
  {
    if level < TOP {
      WalkFromPath(m, t, root, ix, level + 1);
    }
  }

  /** A walk that continues from a stop on the path ends at a stop on the path. */
  lemma {:induction false} WalkOnPath(m: Memory, t: Tables, root: nat, ix: Route, s: Stop)
    requires Forest(m, t) && Root(t, root) && s.level <= TOP
    requires PathTo(m, t, root, ix, s.level) == Some(s)
    ensures var r := Walk(m, t, s, ix);
            r.level <= s.level && PathTo(m, t, root, ix, r.level) == Some(r)
    decreases s.level
  {
    var e := m[s.frame][ix[s.level]];
    if s.level > 0 && Points(e) {
      var next := Stop(s.level - 1, e.frame, s.perm * e.flags);
      assert PathTo(m, t, root, ix, next.level) == Some(next);
      WalkOnPath(m, t, root, ix, next);
      assert Walk(m, t, s, ix) == Walk(m, t, next, ix);
    }
  }

  /** A stop of the path that no pointer continues is where the fresh walk ends, and back. */
  lemma FreshWalkIff(m: Memory, t: Tables, root: nat, ix: Route, s: Stop)
    requires Forest(m, t) && Root(t, root)
    ensures s == FreshWalk(m, t, root, ix) <==>
            && s.level <= TOP
            && PathTo(m, t, root, ix, s.level) == Some(s)
            && (s.level == 0 || !Points(m[s.frame][ix[s.level]]))
  {
    WalkOnPath(m, t, root, ix, Stop(TOP, root, ALL_FLAGS));
    if s.level <= TOP && PathTo(m, t, root, ix, s.level) == Some(s) {
      WalkFromPath(m, t, root, ix, s.level);
    }
  }

  /** Addresses with the same indexes above `level` share the path down to `level`. */
  lemma {:induction false} SharedPath(m: Memory, t: Tables, root: nat, a: Route, b: Route, level: nat)
    requires Forest(m, t) && Root(t, root) && level <= TOP
    requires forall j: nat | level < j <= TOP :: a[j] == b[j]
    ensures PathTo(m, t, root, a, level) == PathTo(m, t, root, b, level)
    decreases TOP - level
  {
    if level < TOP {
      SharedPath(m, t, root, a, b, level + 1);
    }
  }

  /** No page is shared: a page-table page is on the path of one root and one prefix only. */
  lemma {:induction false} UniquePath(m: Memory, t: Tables, r1: nat, a: Route, r2: nat, b: Route, level: nat)
    requires Forest(m, t) && Root(t, r1) && Root(t, r2) && level <= TOP
    requires PathTo(m, t, r1, a, level).Some? && PathTo(m, t, r2, b, level).Some?
    requires PathTo(m, t, r1, a, level).value.frame == PathTo(m, t, r2, b, level).value.frame
    ensures r1 == r2
    ensures forall j: nat | level < j <= TOP :: a[j] == b[j]
    decreases TOP - level
  {
    if level < TOP {
      var p := PathTo(m, t, r1, a, level + 1).value;
      var q := PathTo(m, t, r2, b, level + 1).value;
      assert p.frame == q.frame && a[level + 1] == b[level + 1];
      UniquePath(m, t, r1, a, r2, b, level + 1);
    }
  }

  /** Every entry passed is present, so the accumulated permissions keep the P bit. */
  lemma {:induction false} PathKeepsPresent(m: Memory, t: Tables, root: nat, ix: Route, level: nat)
    requires Forest(m, t) && Root(t, root) && level <= TOP
    requires PathTo(m, t, root, ix, level).Some?
    ensures P in PathTo(m, t, root, ix, level).value.perm
    decreases TOP - level
  {
    if level < TOP {
      PathKeepsPresent(m, t, root, ix, level + 1);
    }
  }

  // ---------------------------------------------------------------------
  // The processor's walk (Intel SDM volume 3A, sections 4.5 and 4.6)

  datatype Translation = Fault | Mapped(pa: nat, rights: Flags)

  function Lookup(m: Memory, frame: nat, i: nat): Entry
    requires i < FANOUT
  {
    if frame < |m| then m[frame][i] else ZERO_ENTRY
  }

  /** Four named lookups with literal shifts. A reserved bit that is set (the page-size bit of a
      PML4 entry, address bits below the size of a large page other than the PAT bit) faults.
      `rights` is the AND of the P, W and U bits of the entries used. */
  function HardwareWalk(m: Memory, cr3: nat, va: nat): Translation {
    var pml4e := Lookup(m, cr3, va / 0x80_0000_0000 % 512);
    if P !in pml4e.flags || PS in pml4e.flags then Fault else
    var pdpte := Lookup(m, pml4e.frame, va / 0x4000_0000 % 512);
    if P !in pdpte.flags then Fault else
    var r2 := pml4e.flags * pdpte.flags * {P, W, U};
    if PS in pdpte.flags then
      if pdpte.frame % 0x4_0000 <= 1
      then Mapped(pdpte.frame / 0x4_0000 * 0x4000_0000 + va % 0x4000_0000, r2) else Fault
    else
    var pde := Lookup(m, pdpte.frame, va / 0x20_0000 % 512);
    if P !in pde.flags then Fault else
    var r1 := r2 * pde.flags;
    if PS in pde.flags then
      if pde.frame % 0x200 <= 1
      then Mapped(pde.frame / 0x200 * 0x20_0000 + va % 0x20_0000, r1) else Fault
    else
    var pte := Lookup(m, pde.frame, va / 0x1000 % 512);
    if P !in pte.flags then Fault
    else Mapped(pte.frame * 0x1000 + va % 0x1000, r1 * pte.flags)
  }

  /** `vmiter::pa()` for an iterator that stands at `e`. */
  function PhysicalAddress(e: Entry, level: nat, va: nat): nat
    requires level <= TOP
  {
    if Present(e) then
      (if level > 0 then e.frame - e.frame % 2 else e.frame) * PAGESIZE + Offset(va, level)
    else 0
  }

  /** `vmiter::perm()`. */
  function Permissions(e: Entry, perm: Flags): Flags {
    if Present(e) then e.flags * perm else {}
  }

  /** No reserved bit is set in an entry that ends a walk at `level`. */
  predicate ReservedZero(e: Entry, level: nat) {
    match level
    case 0 => true
    case 1 => e.frame % 0x200 <= 1
    case 2 => e.frame % 0x4_0000 <= 1
    case _ => false
  }

  /** What the processor does with a walk that ends at `e`. */
  function Outcome(e: Entry, s: Stop, va: nat): Translation
    requires s.level <= TOP
  {
    if Present(e) && ReservedZero(e, s.level)
    then Mapped(PhysicalAddress(e, s.level, va), e.flags * s.perm * PTE_PWU)
    else Fault
  }

  /** Clearing the PAT bit of a large page's frame number leaves a multiple of the page size. */
  lemma LargePage(frame: nat, k: nat)
    requires k > 0 && k % 2 == 0 && frame % k <= 1
    ensures frame / k * k == frame - frame % 2
  {
    var h := k / 2;
    assert frame == frame / k * k + frame % k;
    assert frame / k * k == 2 * (frame / k * h);
  }

  /** The iterator's walk and the processor's walk agree: the processor faults exactly when the
      final entry is not present or has a reserved bit set, and otherwise computes the
      iterator's physical address and its P, W and U permissions. */
  lemma WalksAgree(m: Memory, t: Tables, root: nat, va: nat)
    requires Forest(m, t) && Root(t, root)
    ensures HardwareWalk(m, root, va) ==
            Outcome(Final(m, t, root, RouteOf(va)), FreshWalk(m, t, root, RouteOf(va)), va)
  {
    var ix := RouteOf(va);
    PrefixIs(va);
    var s3 := Stop(TOP, root, ALL_FLAGS);
    var e3 := m[root][ix[3]];
    var e := Final(m, t, root, ix);
    if e.frame % 0x200 <= 1 {
      LargePage(e.frame, 0x200);
    }
    if e.frame % 0x4_0000 <= 1 {
      LargePage(e.frame, 0x4_0000);
    }
    assert Lookup(m, root, va / 0x80_0000_0000 % 512) == e3;
    if Points(e3) {
      var s2 := Stop(2, e3.frame, ALL_FLAGS * e3.flags);
      assert Walk(m, t, s3, ix) == Walk(m, t, s2, ix);
      var e2 := m[s2.frame][ix[2]];
      assert Lookup(m, e3.frame, va / 0x4000_0000 % 512) == e2;
      if Points(e2) {
        var s1 := Stop(1, e2.frame, s2.perm * e2.flags);
        assert Walk(m, t, s2, ix) == Walk(m, t, s1, ix);
        var e1 := m[s1.frame][ix[1]];
        assert Lookup(m, e2.frame, va / 0x20_0000 % 512) == e1;
        if Points(e1) {
          var s0 := Stop(0, e1.frame, s1.perm * e1.flags);
          assert Walk(m, t, s1, ix) == Walk(m, t, s0, ix) == s0;
          assert Lookup(m, e1.frame, va / 0x1000 % 512) == m[s0.frame][ix[0]];
        }
      }
    }
  }

  // ---------------------------------------------------------------------
  // Writes

  /** Every pointer of the tables of `m` is still there in `n`, whose tables may be larger. */
  ghost predicate Extends(m: Memory, t: Tables, n: Memory, u: Tables)
    requires Forest(m, t) && Forest(n, u)
  {
    && (forall f | f in t :: f in u && u[f] == t[f])
    && (forall f, i: nat | f in t && t[f].level > 0 && i < FANOUT && Points(m[f][i]) :: n[f][i] == m[f][i])
  }

  lemma {:induction false} PathPreserved(m: Memory, t: Tables, n: Memory, u: Tables, root: nat, ix: Route, level: nat)
    requires Forest(m, t) && Forest(n, u) && Extends(m, t, n, u) && Root(t, root) && level <= TOP
    requires PathTo(m, t, root, ix, level).Some?
    ensures PathTo(n, u, root, ix, level) == PathTo(m, t, root, ix, level)
    decreases TOP - level
  {
    if level < TOP {
      PathPreserved(m, t, n, u, root, ix, level + 1);
    }
  }

  function Write(m: Memory, f: nat, i: nat, e: Entry): Memory
    requires f < |m| && i < FANOUT
  {
    m[f := m[f][i := e]]
  }

  /** An empty page-table page `p` is hung into the absent entry `i` of `f`. */
  ghost predicate CanGrow(m: Memory, t: Tables, f: nat, i: nat, p: nat) {
    && Forest(m, t)
    && f in t && t[f].level > 0 && i < FANOUT && !Present(m[f][i])
    && p < |m| && p !in t
  }

  function Grown(m: Memory, f: nat, i: nat, p: nat): Memory
    requires f < |m| && p < |m| && i < FANOUT
  {
    Write(m[p := ZeroPage()], f, i, Entry(p, PTE_PWU))
  }

  function GrownTables(t: Tables, f: nat, i: nat, p: nat): Tables
    requires f in t && t[f].level > 0
  {
    t[p := Place(t[f].level - 1, f, i)]
  }

  lemma GrowForest(m: Memory, t: Tables, f: nat, i: nat, p: nat)
    requires CanGrow(m, t, f, i, p)
    ensures Forest(Grown(m, f, i, p), GrownTables(t, f, i, p))
    ensures Extends(m, t, Grown(m, f, i, p), GrownTables(t, f, i, p))
  {
  }

  /** The one walk that growing changes goes one level further, to the empty page. */
  lemma GrowWalk(m: Memory, t: Tables, f: nat, i: nat, p: nat, root: nat, ix: Route)
    requires CanGrow(m, t, f, i, p) && Root(t, root)
    ensures Forest(Grown(m, f, i, p), GrownTables(t, f, i, p))
    ensures var s := FreshWalk(m, t, root, ix);
            FreshWalk(Grown(m, f, i, p), GrownTables(t, f, i, p), root, ix) ==
            if s.frame == f && ix[s.level] == i then Stop(s.level - 1, p, s.perm * PTE_PWU) else s
  {
    GrowForest(m, t, f, i, p);
    var n, u := Grown(m, f, i, p), GrownTables(t, f, i, p);
    var s := FreshWalk(m, t, root, ix);
    FreshWalkIff(m, t, root, ix, s);
    PathPreserved(m, t, n, u, root, ix, s.level);
    if s.frame == f && ix[s.level] == i {
      var s' := Stop(s.level - 1, p, s.perm * PTE_PWU);
      assert PathTo(n, u, root, ix, s'.level) == Some(s');
      FreshWalkIff(n, u, root, ix, s');
    } else {
      FreshWalkIff(n, u, root, ix, s);
    }
  }

  /** Growing the tables changes no translation, in any address space. */
  lemma GrowTranslatesSame(m: Memory, t: Tables, f: nat, i: nat, p: nat, root: nat, va: nat)
    requires CanGrow(m, t, f, i, p) && Root(t, root)
    ensures HardwareWalk(Grown(m, f, i, p), root, va) == HardwareWalk(m, root, va)
  {
    GrowWalk(m, t, f, i, p, root, RouteOf(va));
    WalksAgree(m, t, root, va);
    WalksAgree(Grown(m, f, i, p), GrownTables(t, f, i, p), root, va);
  }

  /** Writing a level-0 entry leaves every walk where it was. */
  lemma LeafWalk(m: Memory, t: Tables, f: nat, i: nat, e: Entry, root: nat, ix: Route)
    requires Forest(m, t) && f in t && t[f].level == 0 && i < FANOUT && Root(t, root)
    ensures Forest(Write(m, f, i, e), t)
    ensures FreshWalk(Write(m, f, i, e), t, root, ix) == FreshWalk(m, t, root, ix)
  {
    var n := Write(m, f, i, e);
    var s := FreshWalk(m, t, root, ix);
    FreshWalkIff(m, t, root, ix, s);
    PathPreserved(m, t, n, t, root, ix, s.level);
    FreshWalkIff(n, t, root, ix, s);
  }

  /** Writing the level-0 entry of one page changes no other page's translation. */
  lemma LeafTranslatesOthersSame(m: Memory, t: Tables, root: nat, va: nat, e: Entry, r2: nat, b: nat)
    requires Forest(m, t) && Root(t, root) && Root(t, r2)
    requires FreshWalk(m, t, root, RouteOf(va)).level == 0
    requires r2 != root || !SamePage(va, b)
    ensures var s := FreshWalk(m, t, root, RouteOf(va));
            HardwareWalk(Write(m, s.frame, RouteOf(va)[0], e), r2, b) == HardwareWalk(m, r2, b)
  {
    var ix, jx := RouteOf(va), RouteOf(b);
    var s, s2 := FreshWalk(m, t, root, ix), FreshWalk(m, t, r2, jx);
    FreshWalkIff(m, t, root, ix, s);
    FreshWalkIff(m, t, r2, jx, s2);
    if s2.frame == s.frame && jx[0] == ix[0] {
      UniquePath(m, t, root, ix, r2, jx, 0);
      SamePageIndexes(va, b);
      assert false;
    }
    LeafWalk(m, t, s.frame, ix[0], e, r2, jx);
    WalksAgree(m, t, r2, b);
    WalksAgree(Write(m, s.frame, ix[0], e), t, r2, b);
  }

  /** After the level-0 entry at the end of a walk is set to `e`, its page translates as `e` says. */
  lemma LeafTranslates(m: Memory, t: Tables, root: nat, va: nat, e: Entry, b: nat)
    requires Forest(m, t) && Root(t, root) && SamePage(va, b)
    requires FreshWalk(m, t, root, RouteOf(va)).level == 0
    ensures var s := FreshWalk(m, t, root, RouteOf(va));
            HardwareWalk(Write(m, s.frame, RouteOf(va)[0], e), root, b) ==
            if Present(e) then Mapped(e.frame * PAGESIZE + b % PAGESIZE, e.flags * s.perm * PTE_PWU) else Fault
  {
    var ix := RouteOf(va);
    SamePageIndexes(va, b);
    assert RouteOf(b) == ix;
    var s := FreshWalk(m, t, root, ix);
    LeafWalk(m, t, s.frame, ix[0], e, root, ix);
    WalksAgree(Write(m, s.frame, ix[0], e), t, root, b);
  }
}
