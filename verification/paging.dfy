/**
 What the processor does with page tables: the two-level walk of 32-bit paging, section 4.3 of
 volume 3A of the Intel 64 and IA-32 Architectures Software Developer's Manual.
 Memory is a row of 32-bit words; the word at byte address p has index p / 4.
 */
module PageWalk {
  import opened Words

  const PAGE: nat := 0x1000
  const REGION: nat := 0x40_0000
  const ENTRIES: nat := 1024

  predicate Present(entry: uint32) {
    entry % 2 == 1
  }

  /** Bit 1: writes go through. */
  predicate Writable(entry: uint32) {
    entry / 2 % 2 == 1
  }

  /** An entry an access can pass: sections 4.3 and 4.6 of the same volume, for the supervisor with CR0.WP set. */
  predicate Passes(entry: uint32, write: bool) {
    Present(entry) && (write ==> Writable(entry))
  }

  /** Bit 7 of a directory entry: a 4-MB page, when CR4.PSE is set. */
  predicate Large(entry: uint32) {
    entry / 0x80 % 2 == 1
  }

  function Frame(entry: uint32): (r: uint32)
    ensures r <= entry && r % PAGE == 0
  {
    entry - entry % PAGE
  }

  function Region(va: uint32): (id: nat)
    ensures id < ENTRIES
  {
    va / REGION
  }

  function Page(va: uint32): (i: nat)
    ensures i < ENTRIES
  {
    va / PAGE % ENTRIES
  }

  /** The index of the word at byte address `p`. */
  function Cell(p: nat): nat {
    p / 4
  }

  /** The word at address `p`; what lies outside the memory reads as a missing entry. */
  function WordAt(m: seq<uint32>, p: nat): uint32 {
    if Cell(p) < |m| then m[Cell(p)] else 0
  }

  /** Word `i` of a page. */
  lemma CellOf(p: nat, i: nat)
    requires p % PAGE == 0
    ensures Cell(p + 4 * i) == Cell(p) + i
  {}

  lemma CellsApart(p: nat, q: nat)
    requires p % PAGE == 0 && q % PAGE == 0 && p < q
    ensures Cell(p) + ENTRIES <= Cell(q)
  {
    assert PAGE <= q - p;
  }

  /** The physical address of `va`, or none if the walk ends in a page fault. */
  function Walk(m: seq<uint32>, cr3: uint32, pse: bool, write: bool, va: uint32): Option<int> {
    var pde := WordAt(m, Frame(cr3) + 4 * Region(va));
    if !Passes(pde, write) then None
    else if pse && Large(pde) then Some(pde - pde % REGION + va % REGION)
    else
      var pte := WordAt(m, Frame(pde) + 4 * Page(va));
      if !Passes(pte, write) then None else Some(Frame(pte) + va % PAGE)
  }

  /** A virtual address is its region, its page in the region, and its offset in the page. */
  lemma Parts(va: uint32)
    ensures va == Region(va) * REGION + Page(va) * PAGE + va % PAGE
  {}
}

/** The tables of src/memory/paging.c. */
module Paging {
  import opened Words
  import opened PageWalk

  const DIRECTORY: uint32 := 0x40_0000
  const FIRST_TABLE: uint32 := 0x40_4000

  /** The pointer to the next table is a word pointer, so adding 4096 to it skips four pages. */
  const STRIDE: nat := 4 * 4096

  /** `x | 3`: present and writable. */
  function Entry(x: uint32): (r: uint32)
    ensures Present(r) && Frame(r) == Frame(x)
  {
    x - x % 4 + 3
  }

  lemma Even(q: nat)
    ensures (4 * q + 3) / 2 % 2 == 1
  {
    assert (4 * q + 3) / 2 == 2 * q + 1;
  }

  lemma EntryWritable(x: uint32)
    ensures Writable(Entry(x))
  {
    var q := x / 4;
    assert Entry(x) == 4 * q + 3;
    Even(q);
  }

  function Advance(p: uint32, d: nat): uint32 {
    (p + d) % TWO_32
  }

  function TableAt(k: nat): (p: uint32)
    requires k <= ENTRIES
    ensures p % PAGE == 0
  {
    FIRST_TABLE + STRIDE * k
  }

  lemma PageNumber(p: uint32) returns (a: nat)
    requires p % PAGE == 0
    ensures p == PAGE * a
  {
    a := p / PAGE;
  }

  lemma EntryOfPage(p: uint32)
    requires p % PAGE == 0
    ensures Entry(p) == p + 3
  {}

  lemma SevenBits(a: nat)
    ensures (0x80 * (2 * a) + 3) / 0x80 == 2 * a
  {}

  lemma EvenPart(a: nat)
    ensures 2 * a % 2 == 0
  {}

  /** The entry for a page has bit 7 clear. */
  lemma EntryNotLarge(p: uint32)
    requires p % PAGE == 0
    ensures !Large(Entry(p))
  {
    hide Entry;
    var a := PageNumber(p);
    EntryOfPage(p);
    SevenBits(16 * a);
    EvenPart(16 * a);
  }

  lemma NotLarge(k: nat)
    requires k < ENTRIES
    ensures !Large(Entry(TableAt(k)))
  {
    hide Large, Entry;
    EntryNotLarge(TableAt(k));
  }

  /**
   The 1024 tables and the directory are page-aligned and share no byte, a directory entry never
   looks like a 4-MB page, and the tables reach from 4 MB to just above 20 MB.
   */
  lemma TablesAreApart(i: nat, j: nat)
    requires i < j < ENTRIES
    ensures TableAt(i) % PAGE == 0 && DIRECTORY % PAGE == 0
    ensures DIRECTORY + PAGE <= TableAt(i) && TableAt(i) + PAGE <= TableAt(j) && TableAt(j) + PAGE <= 0x140_1000
    ensures !Large(Entry(TableAt(i))) && !Large(Entry(TableAt(j)))
    ensures TableAt(ENTRIES - 1) + PAGE == 0x140_1000
  {
    hide Large, Entry;
    NotLarge(i);
    NotLarge(j);
  }

  /** The word at index `k` after one table for `phys` and its directory entry have been written. */
  function MappedWord(m: seq<uint32>, dir: uint32, table: uint32, virt: uint32, phys: uint32, k: nat): uint32
    requires k < |m|
  {
    if k == Cell(dir) + Region(virt) then Entry(table)
    else if Cell(table) <= k < Cell(table) + ENTRIES then Entry(Advance(phys, PAGE * (k - Cell(table))))
    else m[k]
  }

  function Mapped(m: seq<uint32>, dir: uint32, table: uint32, virt: uint32, phys: uint32): (r: seq<uint32>)
    ensures |r| == |m|
  {
    seq(|m|, k requires 0 <= k < |m| => MappedWord(m, dir, table, virt, phys, k))
  }

  /** Where a table may go: page-aligned, inside the memory, off the directory. */
  predicate Placed(m: seq<uint32>, dir: uint32, table: uint32) {
    && dir % PAGE == 0 && table % PAGE == 0
    && Cell(dir) + ENTRIES <= |m| && Cell(table) + ENTRIES <= |m|
    && (dir + PAGE <= table || table + PAGE <= dir)
  }

  lemma MappedWords(m: seq<uint32>, dir: uint32, table: uint32, virt: uint32, phys: uint32, i: nat)
    requires Placed(m, dir, table) && i < ENTRIES
    ensures var r := Mapped(m, dir, table, virt, phys);
      WordAt(r, dir + 4 * Region(virt)) == Entry(table) && WordAt(r, table + 4 * i) == Entry(Advance(phys, PAGE * i))
  {
    hide Cell, Entry, Advance, Region;
    CellOf(dir, Region(virt));
    CellOf(table, i);
    if dir < table {
      CellsApart(dir, table);
    } else {
      CellsApart(table, dir);
    }
  }

  lemma FrameOfPage(p: uint32)
    requires p % PAGE == 0
    ensures Frame(p) == p
  {}

  /** The whole 4-MB region of `virt` leads to the pages that start at the page of `phys`. */
  lemma MapTranslates(m: seq<uint32>, dir: uint32, table: uint32, virt: uint32, phys: uint32, pse: bool, write: bool, va: uint32)
    requires Placed(m, dir, table) && Region(va) == Region(virt) && !Large(Entry(table))
    ensures Walk(Mapped(m, dir, table, virt, phys), dir, pse, write, va) ==
            Some(Frame(Advance(phys, PAGE * Page(va))) + va % PAGE)
  {
    hide Cell, WordAt, Entry, Advance, Region, Page, Present, Writable, Large, Mapped;
    FrameOfPage(dir);
    FrameOfPage(table);
    MappedWords(m, dir, table, virt, phys, Page(va));
    EntryWritable(table);
    EntryWritable(Advance(phys, PAGE * Page(va)));
  }

  /** A word of one page is no word of another. */
  lemma OtherPage(p: uint32, q: uint32, i: nat)
    requires p % PAGE == 0 && q % PAGE == 0 && p != q && i < ENTRIES
    ensures Cell(p + 4 * i) < Cell(q) || Cell(q) + ENTRIES <= Cell(p + 4 * i)
  {
    hide Cell;
    CellOf(p, i);
    if p < q {
      CellsApart(p, q);
    } else {
      CellsApart(q, p);
    }
  }

  lemma SameWord(m: seq<uint32>, dir: uint32, table: uint32, virt: uint32, phys: uint32, p: nat)
    requires Placed(m, dir, table) && Cell(p) != Cell(dir) + Region(virt)
    requires Cell(p) < Cell(table) || Cell(table) + ENTRIES <= Cell(p)
    ensures WordAt(Mapped(m, dir, table, virt, phys), p) == WordAt(m, p)
  {
    hide Cell, Entry, Advance, Region;
  }

  /** Every other region keeps its translation, as long as its table is not the one overwritten. */
  lemma MapSparesOthers(m: seq<uint32>, dir: uint32, table: uint32, virt: uint32, phys: uint32, pse: bool, write: bool, va: uint32)
    requires Placed(m, dir, table) && Region(va) != Region(virt)
    requires var pde := WordAt(m, dir + 4 * Region(va));
      Present(pde) ==> Frame(pde) != table && Frame(pde) != dir
    ensures Walk(Mapped(m, dir, table, virt, phys), dir, pse, write, va) == Walk(m, dir, pse, write, va)
    ensures WordAt(Mapped(m, dir, table, virt, phys), dir + 4 * Region(va)) == WordAt(m, dir + 4 * Region(va))
  {
    hide Cell, WordAt, Region, Page, Mapped, Frame, Present, Writable, Large;
    FrameOfPage(dir);
    CellOf(dir, Region(va));
    OtherPage(dir, table, Region(va));
    SameWord(m, dir, table, virt, phys, dir + 4 * Region(va));
    var pde := WordAt(m, dir + 4 * Region(va));
    if Present(pde) {
      OtherPage(Frame(pde), dir, Page(va));
      OtherPage(Frame(pde), table, Page(va));
      SameWord(m, dir, table, virt, phys, Frame(pde) + 4 * Page(va));
    }
  }

  // ---------- the identity map, region by region ----------

  /** The first `k` regions translate to themselves; the others fault. */
  ghost predicate IdentityBelow(m: seq<uint32>, k: nat) {
    forall va: uint32, pse: bool, write: bool :: Walk(m, DIRECTORY, pse, write, va) == if Region(va) < k then Some(va) else None
  }

  function DirWord(m: seq<uint32>, id: nat): uint32 {
    WordAt(m, DIRECTORY + 4 * id)
  }

  /** The directory after `k` regions. */
  ghost predicate DirectoryIs(m: seq<uint32>, k: nat)
    requires k <= ENTRIES
  {
    forall id :: 0 <= id < ENTRIES ==> DirWord(m, id) == if id < k then Entry(TableAt(id)) else 2
  }

  lemma EmptyDirectory(m: seq<uint32>)
    requires |m| >= 0x140_1000 / 4 && forall k :: DIRECTORY / 4 <= k < DIRECTORY / 4 + ENTRIES ==> m[k] == 2
    ensures DirectoryIs(m, 0) && IdentityBelow(m, 0)
  {
    forall id | 0 <= id < ENTRIES
      ensures DirWord(m, id) == 2
    {
      CellOf(DIRECTORY, id);
      assert m[DIRECTORY / 4 + id] == 2;
    }
    forall va: uint32, pse: bool, write: bool
      ensures Walk(m, DIRECTORY, pse, write, va) == None
    {
      assert DirWord(m, Region(va)) == 2;
    }
  }

  /** The address the loop of `paging_init` passes in round `k`. */
  function RegionStart(k: nat): uint32
    requires k < ENTRIES
  {
    k * REGION
  }

  lemma OtherTable(m: seq<uint32>, k: nat, id: nat)
    requires k < ENTRIES && id < ENTRIES && id != k && DirectoryIs(m, k)
    ensures var pde := WordAt(m, DIRECTORY + 4 * id);
      Present(pde) ==> Frame(pde) != TableAt(k) && Frame(pde) != DIRECTORY
  {
    assert DirWord(m, id) == if id < k then Entry(TableAt(id)) else 2;
    if id < k {
      TablesAreApart(id, k);
      assert Frame(Entry(TableAt(id))) == TableAt(id);
    }
  }

  lemma Identity(k: nat, va: uint32)
    requires k < ENTRIES && Region(va) == k
    ensures Frame(Advance(RegionStart(k), PAGE * Page(va))) + va % PAGE == va
  {
    Parts(va);
    var p := RegionStart(k) + PAGE * Page(va);
    assert p < TWO_32;
    assert p % PAGE == 0;
  }

  /** The tables of the regions lie in the memory, and one call moves on to the next one. */
  lemma RegionTable(m: seq<uint32>, k: nat)
    requires k < ENTRIES && |m| >= 0x140_1000 / 4
    ensures Placed(m, DIRECTORY, TableAt(k)) && Region(RegionStart(k)) == k
    ensures Frame(DIRECTORY) == DIRECTORY && Advance(TableAt(k), STRIDE) == TableAt(k + 1)
  {}

  /** Only the tables are written. */
  lemma RegionElsewhere(m: seq<uint32>, k: nat, j: nat)
    requires k < ENTRIES && |m| >= 0x140_1000 / 4
    requires j < |m| && !(DIRECTORY / 4 <= j < 0x140_1000 / 4)
    ensures Mapped(m, DIRECTORY, TableAt(k), RegionStart(k), RegionStart(k))[j] == m[j]
  {
    hide Entry, Advance, Region, RegionStart;
  }

  lemma NextRegion(m: seq<uint32>, k: nat)
    requires k < ENTRIES && |m| >= 0x140_1000 / 4 && DirectoryIs(m, k) && IdentityBelow(m, k)
    ensures var r := Mapped(m, DIRECTORY, TableAt(k), RegionStart(k), RegionStart(k));
      DirectoryIs(r, k + 1) && IdentityBelow(r, k + 1)
  {
    hide Walk, WordAt, Cell, Entry, Advance, Region, Page, Mapped, Large, Present, Writable, Frame;
    var s := RegionStart(k);
    var r := Mapped(m, DIRECTORY, TableAt(k), s, s);
    RegionTable(m, k);
    forall va: uint32, pse: bool, write: bool
      ensures Walk(r, DIRECTORY, pse, write, va) == if Region(va) < k + 1 then Some(va) else None
    {
      if Region(va) == k {
        NotLarge(k);
        MapTranslates(m, DIRECTORY, TableAt(k), s, s, pse, write, va);
        Identity(k, va);
      } else {
        OtherTable(m, k, Region(va));
        MapSparesOthers(m, DIRECTORY, TableAt(k), s, s, pse, write, va);
      }
    }
    forall id | 0 <= id < ENTRIES
      ensures DirWord(r, id) == if id < k + 1 then Entry(TableAt(id)) else 2
    {
      if id == k {
        MappedWords(m, DIRECTORY, TableAt(k), s, s, 0);
      } else {
        CellOf(DIRECTORY, id);
        OtherPage(DIRECTORY, TableAt(k), id);
        SameWord(m, DIRECTORY, TableAt(k), s, s, DIRECTORY + 4 * id);
        assert DirWord(m, id) == if id < k then Entry(TableAt(id)) else 2;
      }
    }
  }

  lemma EveryRegion(m: seq<uint32>)
    requires IdentityBelow(m, ENTRIES)
    ensures forall va: uint32, pse: bool, write: bool :: Walk(m, DIRECTORY, pse, write, va) == Some(va)
  {
    hide Walk;
  }

  lemma AdvanceNone(p: uint32)
    ensures Advance(p, 0) == p
  {}

  lemma AdvanceTwice(p: uint32, d: nat, e: nat)
    ensures Advance(Advance(p, d), e) == Advance(p, d + e)
  {
    var q := (p + d) / TWO_32;
    assert p + d + e == Advance(p, d) + e + q * TWO_32;
  }

  class PageTables {
    const mem: array<uint32>
    var pageDirectory: uint32
    var lastPage: uint32

    /** The memory the kernel finds itself in. */
    constructor (mem: array<uint32>)
      ensures this.mem == mem
    {
      this.mem := mem;
      pageDirectory, lastPage := 0, 0;
    }

    /** `paging_map_virtual_to_phys`. */
    method MapVirtualToPhys(virt: uint32, phys: uint32)
      requires Placed(mem[..], pageDirectory, lastPage)
      modifies mem, this`lastPage
      ensures mem[..] == Mapped(old(mem[..]), pageDirectory, old(lastPage), virt, phys)
      ensures lastPage == Advance(old(lastPage), STRIDE)
    {
      hide Entry, Advance;
      AdvanceNone(phys);
      var id := virt / REGION;
      var p := phys;
      ghost var m := mem[..];
      var table, dir := lastPage, pageDirectory;
      for i := 0 to ENTRIES
        invariant lastPage == table && p == Advance(phys, PAGE * i)
        invariant forall k :: 0 <= k < mem.Length ==>
                    mem[k] == if Cell(table) <= k < Cell(table) + i then Entry(Advance(phys, PAGE * (k - Cell(table)))) else m[k]
      {
        mem[table / 4 + i] := Entry(p);
        AdvanceTwice(phys, PAGE * i, PAGE);
        p := Advance(p, PAGE);
      }
      mem[dir / 4 + id] := Entry(table);
      lastPage := Advance(lastPage, STRIDE);
    }

    /**
     `paging_init`: every 32-bit virtual address is mapped to itself, for reading and writing, with or
     without CR4.PSE, and memory outside the tables is as it was.
     */
    method Init() returns (pageDirLoc: uint32)
      requires mem.Length >= 0x140_1000 / 4
      modifies this, mem
      ensures forall va: uint32, pse: bool, write: bool :: Walk(mem[..], pageDirLoc, pse, write, va) == Some(va)
      ensures DirectoryIs(mem[..], ENTRIES) && pageDirectory == pageDirLoc == DIRECTORY && lastPage == TableAt(ENTRIES)
      ensures forall k :: 0 <= k < mem.Length && !(DIRECTORY / 4 <= k < 0x140_1000 / 4) ==> mem[k] == old(mem[k])
    {
      hide Cell, WordAt, Walk, Entry, Advance, Region, Mapped, MappedWord, DirWord, Placed, IdentityBelow;
      pageDirectory := DIRECTORY;
      pageDirLoc := pageDirectory;
      lastPage := FIRST_TABLE;
      for i := 0 to ENTRIES
        invariant pageDirectory == DIRECTORY && lastPage == FIRST_TABLE
        invariant forall k :: DIRECTORY / 4 <= k < DIRECTORY / 4 + i ==> mem[k] == 2
        invariant forall k :: 0 <= k < mem.Length && !(DIRECTORY / 4 <= k < DIRECTORY / 4 + i) ==> mem[k] == old(mem[k])
      {
        mem[pageDirectory / 4 + i] := 2;
      }
      EmptyDirectory(mem[..]);
      for i := 0 to ENTRIES
        invariant pageDirectory == DIRECTORY && lastPage == TableAt(i)
        invariant DirectoryIs(mem[..], i) && IdentityBelow(mem[..], i)
        invariant forall k :: 0 <= k < mem.Length && !(DIRECTORY / 4 <= k < 0x140_1000 / 4) ==> mem[k] == old(mem[k])
      {
        ghost var m := mem[..];
        RegionTable(m, i);
        NextRegion(m, i);
        forall k | 0 <= k < mem.Length && !(DIRECTORY / 4 <= k < 0x140_1000 / 4)
          ensures Mapped(m, DIRECTORY, TableAt(i), RegionStart(i), RegionStart(i))[k] == m[k]
        {
          RegionElsewhere(m, i, k);
        }
        MapVirtualToPhys(RegionStart(i), RegionStart(i));
      }
      EveryRegion(mem[..]);
    }
  }
}
