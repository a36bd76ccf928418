/** Formats of 4-level x86-64 paging: page-table entries and parts of a virtual address.

    A 64-bit entry is kept as its 39-bit frame number (PTE_PAMASK) and its low twelve flag bits.
    Bit operations on addresses are written as the divisions they compute; in particular
    `(a ^ b) & ~pageoffmask(l)` is zero exactly when `Prefix(a, l) == Prefix(b, l)`. */
module PageFormat {
  const PAGESIZE: nat := 4096
  const FANOUT: nat := 512
  const TOP: nat := 3                              // level of the root page-table page
  const ADDRESS_END: nat := 0x1_0000_0000_0000_0000
  const VA_LOWEND: nat := 0x8000_0000_0000
  const VA_NONCANONMAX: nat := 0xFFFF_FFFF_FFFF

  /** The twelve low bits of an entry; a flag word is the set of its bits that are on, so that
      `&` is intersection and `|` is union. */
  datatype Flag = P | W | U | PWT | PCD | A | D | PS | G | OS1 | OS2 | OS3
  type Flags = set<Flag>
  const PTE_PWU: Flags := {P, W, U}
  const ALL_FLAGS: Flags := {P, W, U, PWT, PCD, A, D, PS, G, OS1, OS2, OS3}

  datatype Entry = Entry(frame: nat, flags: Flags)
  const ZERO_ENTRY: Entry := Entry(0, {})

  type Page = s: seq<Entry> | |s| == FANOUT witness seq(FANOUT, _ => ZERO_ENTRY)

  function ZeroPage(): (p: Page)
    ensures forall i | 0 <= i < FANOUT :: p[i] == ZERO_ENTRY
  {
    seq(FANOUT, _ => ZERO_ENTRY)
  }

  predicate Present(e: Entry) { P in e.flags }

  /** The entry is present and not a large page: above level 0 it points to a page-table page. */
  predicate Points(e: Entry) { P in e.flags && PS !in e.flags }

  /** The bits of an address above those that one entry at `level` covers: `va >> (12 + 9 * level)`. */
  function Prefix(va: nat, level: nat): nat
  {
    if level == 0 then va / PAGESIZE else Prefix(va, level - 1) / FANOUT
  }

  /** `pageoffset`: the address bits below `Prefix`. */
  function Offset(va: nat, level: nat): nat
    requires level <= TOP
  {
    match level
    case 0 => va % 0x1000
    case 1 => va % 0x20_0000
    case 2 => va % 0x4000_0000
    case 3 => va % 0x80_0000_0000
  }

  /** `(va | pageoffmask(level)) + 1`: the first address whose prefix is one larger. */
  function NextSpan(va: nat, level: nat): nat
    requires level <= TOP
  {
    match level
    case 0 => (Prefix(va, 0) + 1) * 0x1000
    case 1 => (Prefix(va, 1) + 1) * 0x20_0000
    case 2 => (Prefix(va, 2) + 1) * 0x4000_0000
    case 3 => (Prefix(va, 3) + 1) * 0x80_0000_0000
  }

  /** `pageindex` */
  function Index(va: nat, level: nat): (i: nat)
    requires level <= TOP
    ensures i < FANOUT
  {
    Prefix(va, level) % FANOUT
  }

  /** The four indexes of an address, by level. */
  type Route = s: seq<nat> | |s| == TOP + 1 && forall i | 0 <= i < |s| :: s[i] < FANOUT witness [0, 0, 0, 0]

  function RouteOf(va: nat): (r: Route)
    ensures forall j: nat | j <= TOP :: r[j] == Index(va, j)
  {
    [Index(va, 0), Index(va, 1), Index(va, 2), Index(va, 3)]
  }
}
