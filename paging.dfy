/**
 * The dvm guest memory: a sparse table of 4 KiB pages keyed by page base
 * address, read and written a 32-bit word at a time.
 *
 * The pure part states what a memory holds as a `PageTable` value (page base
 * to 4096 bytes) and defines the word read and write on it; the class
 * `Memory` is the engine's object, a map from page base to a byte array that
 * its methods update in place, proved against the pure definitions.
 *
 * A page absent from the table reads as zeros and is allocated, zero-filled,
 * the first time an address in it is read or written.
 */
module Paging {
  import opened Bits

  /** Bytes in a page. */
  const PageSize: nat := 4096

  /** Page base address (`table_address`) to the page's bytes. */
  type PageTable = map<nat, seq<bv8>>

  /** The base address of the page holding `a` (`address & ~0xfff`). */
  function PageBase(a: bv32): bv32
  {
    a & !0xfff
  }

  /** The page base as a table key. */
  function TableAddress(a: bv32): nat
  {
    PageBase(a) as int
  }

  /** Two addresses have the same table key exactly when they lie in the same page. */
  lemma TableAddressSame(a: bv32, b: bv32)
    ensures TableAddress(a) == TableAddress(b) <==> PageBase(a) == PageBase(b)
  {
    WordRoundTrip(PageBase(a));
    WordRoundTrip(PageBase(b));
  }

  lemma WordRoundTrip(x: bv32)
    ensures (x as int) as bv32 == x
  {
  }

  /** Which of the page's 1024 words holds `a` (bits 2..11 of the address). */
  function WordIndex(a: bv32): bv10
  {
    ((a & 0xffc) >> 2) as bv10
  }

  /** The byte offset in its page of the word holding `a` (`address & 0xffc`). */
  function WordOffset(a: bv32): (off: nat)
    ensures off % 4 == 0 && off + 4 <= PageSize
  {
    4 * (WordIndex(a) as int)
  }

  /** Both addresses fall in the same word of the same page. */
  predicate SameWord(a: bv32, b: bv32)
  {
    TableAddress(a) == TableAddress(b) && WordOffset(a) == WordOffset(b)
  }

  /** Two addresses share a word exactly when they agree once their two low bits are cleared. */
  lemma SameWordAligned(a: bv32, b: bv32)
    ensures SameWord(a, b) <==> a & !3 == b & !3
  {
    TableAddressSame(a, b);
    if SameWord(a, b) {
      IndexRoundTrip(WordIndex(a));
      IndexRoundTrip(WordIndex(b));
      assert WordIndex(a) == WordIndex(b);
      AddressParts(a);
      AddressParts(b);
    }
    if a & !3 == b & !3 {
      AddressParts(a);
      AddressParts(b);
      assert WordIndex(a) == WordIndex(b);
    }
  }

  lemma AddressParts(a: bv32)
    ensures a & !3 == PageBase(a) | ((WordIndex(a) as bv32) << 2)
    ensures PageBase(a & !3) == PageBase(a) && WordIndex(a & !3) == WordIndex(a)
  {
  }

  lemma IndexRoundTrip(x: bv10)
    ensures (x as int) as bv10 == x
  {
  }

  /** Every page holds `PageSize` bytes. */
  predicate WellFormed(t: PageTable)
  {
    forall b | b in t :: |t[b]| == PageSize
  }

  /** A freshly allocated page. */
  function ZeroPage(): (p: seq<bv8>)
    ensures |p| == PageSize
    ensures forall j | 0 <= j < |p| :: p[j] == 0
  {
    seq(PageSize, _ => 0)
  }

  /** The page holding `a`; a page not yet allocated reads as zeros. */
  function PageOf(t: PageTable, a: bv32): (p: seq<bv8>)
    requires WellFormed(t)
    ensures |p| == PageSize
  {
    if TableAddress(a) in t then t[TableAddress(a)] else ZeroPage()
  }

  /** The four bytes of a word in memory order: least significant first. */
  function LeBytes(v: bv32): (r: seq<bv8>)
    ensures |r| == 4
  {
    [ByteOf(v, 0), ByteOf(v, 1), ByteOf(v, 2), ByteOf(v, 3)]
  }

  /** The word stored little-endian at byte offset `off` of a page. */
  function WordAt(p: seq<bv8>, off: nat): bv32
    requires off + 4 <= |p|
  {
    Le32(p[off], p[off + 1], p[off + 2], p[off + 3])
  }

  /** The page with the word `v` stored little-endian at byte offset `off`. */
  function PutWord(p: seq<bv8>, off: nat, v: bv32): (r: seq<bv8>)
    requires off + 4 <= |p|
    ensures |r| == |p|
    ensures forall j | 0 <= j < |r| :: r[j] == if off <= j < off + 4 then LeBytes(v)[j - off] else p[j]
  {
    p[..off] + LeBytes(v) + p[off + 4..]
  }

  /** A word put at an offset is read back from it. */
  lemma WordAtPutWord(p: seq<bv8>, off: nat, v: bv32)
    requires off + 4 <= |p|
    ensures WordAt(PutWord(p, off, v), off) == v
  {
    Le32OfBytes(v);
  }

  /** Putting a word leaves every other aligned word of the page as it was. */
  lemma WordAtPutOther(p: seq<bv8>, off: nat, other: nat, v: bv32)
    requires off + 4 <= |p| && other + 4 <= |p|
    requires off % 4 == 0 && other % 4 == 0 && off != other
    ensures WordAt(PutWord(p, off, v), other) == WordAt(p, other)
  {
    var r := PutWord(p, off, v);
    assert r[other] == p[other] && r[other + 1] == p[other + 1];
    assert r[other + 2] == p[other + 2] && r[other + 3] == p[other + 3];
  }

  /** The table once the page holding `a` is allocated: a zero page is added if it was absent. */
  function Touch(t: PageTable, a: bv32): (r: PageTable)
    requires WellFormed(t)
    ensures WellFormed(r)
    ensures r.Keys == t.Keys + {TableAddress(a)}
    ensures forall b | b in t :: r[b] == t[b]
  {
    if TableAddress(a) in t then t else t[TableAddress(a) := ZeroPage()]
  }

  /** The word holding address `a` (its two low bits are ignored). */
  function ReadWord(t: PageTable, a: bv32): bv32
    requires WellFormed(t)
  {
    WordAt(PageOf(t, a), WordOffset(a))
  }

  /** The table after storing `v` in the word holding address `a`, allocating its page if needed. */
  function WriteWord(t: PageTable, a: bv32, v: bv32): (r: PageTable)
    requires WellFormed(t)
    ensures WellFormed(r)
    ensures r.Keys == t.Keys + {TableAddress(a)}
  {
    t[TableAddress(a) := PutWord(PageOf(t, a), WordOffset(a), v)]
  }

  /** A memory with no pages reads zero everywhere. */
  lemma ReadEmpty(a: bv32)
    ensures ReadWord(map[], a) == 0
  {
    var z := ZeroPage();
    var off := WordOffset(a);
    assert z[off] == 0 && z[off + 1] == 0 && z[off + 2] == 0 && z[off + 3] == 0;
  }

  /** A word written is read back. */
  lemma ReadAfterWrite(t: PageTable, a: bv32, v: bv32)
    requires WellFormed(t)
    ensures ReadWord(WriteWord(t, a, v), a) == v
  {
    WordAtPutWord(PageOf(t, a), WordOffset(a), v);
  }

  /** Writing a word leaves every other word as it was. */
  lemma ReadOtherWord(t: PageTable, a: bv32, b: bv32, v: bv32)
    requires WellFormed(t)
    requires a & !3 != b & !3
    ensures ReadWord(WriteWord(t, a, v), b) == ReadWord(t, b)
  {
    SameWordAligned(a, b);
    if TableAddress(a) == TableAddress(b) {
      WordAtPutOther(PageOf(t, a), WordOffset(a), WordOffset(b), v);
    }
  }

  /** Two addresses in the same word read the same word. */
  lemma ReadSameWord(t: PageTable, a: bv32, b: bv32)
    requires WellFormed(t)
    requires a & !3 == b & !3
    ensures ReadWord(t, a) == ReadWord(t, b)
  {
    SameWordAligned(a, b);
  }

  /** Allocating a page changes no word anybody can read. */
  lemma ReadTouch(t: PageTable, a: bv32, b: bv32)
    requires WellFormed(t)
    ensures ReadWord(Touch(t, a), b) == ReadWord(t, b)
  {
  }

  /** Allocating an allocated page does nothing. */
  lemma TouchIdempotent(t: PageTable, a: bv32)
    requires WellFormed(t)
    ensures Touch(Touch(t, a), a) == Touch(t, a)
  {
  }

  /** A write allocates the page it writes to, so allocating first makes no difference. */
  lemma WriteAfterTouch(t: PageTable, a: bv32, v: bv32)
    requires WellFormed(t)
    ensures WriteWord(Touch(t, a), a, v) == WriteWord(t, a, v)
  {
  }

  /** Of two writes to the same word, the second wins. */
  lemma WriteTwice(t: PageTable, a: bv32, v: bv32, u: bv32)
    requires WellFormed(t)
    ensures WriteWord(WriteWord(t, a, v), a, u) == WriteWord(t, a, u)
  {
    var p := PageOf(t, a);
    var off := WordOffset(a);
    assert PutWord(PutWord(p, off, v), off, u) == PutWord(p, off, u);
  }

  // The page lookup of `Memory::read` and `Memory::write` as the engine
  // writes it: the presence test is inverted, so a page that is present is
  // replaced by a fresh one and a page that is absent is dereferenced through
  // the null pointer `operator[]` inserts. The engine's `new Page` leaves the
  // fresh page's bytes uninitialised; here they are zero.

  datatype Option<T> = None | Some(value: T)

  /** `Memory::read` as written: `None` stands for the null dereference. */
  function ReadAsWritten(t: PageTable, a: bv32): (r: Option<(PageTable, bv32)>)
    requires WellFormed(t)
    ensures r.Some? <==> TableAddress(a) in t
  {
    if TableAddress(a) !in t then None
    else Some((t[TableAddress(a) := ZeroPage()], WordAt(ZeroPage(), WordOffset(a))))
  }

  /** `Memory::write` as written: `None` stands for the null dereference. */
  function WriteAsWritten(t: PageTable, a: bv32, v: bv32): (r: Option<PageTable>)
    requires WellFormed(t)
    ensures r.Some? <==> TableAddress(a) in t
    ensures r.Some? ==> WellFormed(r.value)
  {
    if TableAddress(a) !in t then None
    else Some(t[TableAddress(a) := PutWord(ZeroPage(), WordOffset(a), v)])
  }

  /**
   * As written, the first write to a page dereferences a null page, and a
   * word written to a present page is lost by the next read, which replaces
   * the page: storing 1 at address 0 and reading it back yields the contents
   * of a fresh, uninitialised page instead of the 1 written (0 here, where a
   * fresh page is zero-filled).
   */
  lemma AsWrittenLosesWrite()
    ensures WriteAsWritten(map[], 0, 1).None?
    ensures var t := map[0 := ZeroPage()];
      var written := WriteAsWritten(t, 0, 1).value;
      ReadAsWritten(written, 0).value.1 == 0
  {
    var z := ZeroPage();
    assert z[0] == 0 && z[1] == 0 && z[2] == 0 && z[3] == 0;
  }

  /**
   * The engine's memory object: a map from page base to a 4096-byte array.
   * The ghost field `pages` is what it holds as a `PageTable`. `Valid` says
   * every array is a whole page and no two keys share an array, so that
   * writing one page leaves the others alone.
   */
  class Memory {
    var pageTable: map<nat, array<bv8>>
    /** What the memory holds, as a page table. */
    ghost var pages: PageTable

    /** Every array is a whole page, no two keys share one, and `pages` holds their bytes. */
    ghost predicate Valid()
      reads this, pageTable.Values
    {
      && (forall b | b in pageTable :: pageTable[b].Length == PageSize)
      && (forall b, c | b in pageTable && c in pageTable && b != c :: pageTable[b] != pageTable[c])
      && pages.Keys == pageTable.Keys
      && (forall b | b in pageTable :: pages[b] == pageTable[b][..])
      && WellFormed(pages)
    }

    /** A memory with no pages allocated. */
    constructor()
      ensures Valid() && pages == map[]
    {
      pageTable := map[];
      pages := map[];
    }

    /** `get4Bytes`: gathers the four bytes at `fourAlignedAddress` into a word, least significant first. */
    method Get4Bytes(tableData: array<bv8>, fourAlignedAddress: nat) returns (w: bv32)
      requires fourAlignedAddress + 4 <= tableData.Length
      ensures w == WordAt(tableData[..], fourAlignedAddress)
    {
      var converter := new bv8[4];
      for i := 0 to 4
        invariant forall j | 0 <= j < i :: converter[j] == tableData[fourAlignedAddress + j]
      {
        converter[i] := tableData[fourAlignedAddress + i];
      }
      w := Le32(converter[0], converter[1], converter[2], converter[3]);
    }

    /** `set4Bytes`: scatters the four bytes of `value` to `fourAlignedAddress`, least significant first. */
    method Set4Bytes(tableData: array<bv8>, fourAlignedAddress: nat, value: bv32)
      requires fourAlignedAddress + 4 <= tableData.Length
      modifies tableData
      ensures tableData[..] == PutWord(old(tableData[..]), fourAlignedAddress, value)
    {
      var converter := LeBytes(value);
      for i := 0 to 4
        invariant forall j | 0 <= j < tableData.Length ::
          tableData[j] == if fourAlignedAddress <= j < fourAlignedAddress + i
            then converter[j - fourAlignedAddress] else old(tableData[j])
      {
        tableData[fourAlignedAddress + i] := converter[i];
      }
    }

    /** The page holding `address`, allocated zero-filled if it was absent. */
    method PageFor(address: bv32) returns (tableData: array<bv8>)
      requires Valid()
      modifies this
      ensures Valid()
      ensures pages == Touch(old(pages), address)
      ensures TableAddress(address) in pageTable && tableData == pageTable[TableAddress(address)]
      ensures forall b | b in old(pageTable) :: b in pageTable && pageTable[b] == old(pageTable[b])
      ensures fresh(tableData) || tableData in old(pageTable.Values)
      ensures forall p | p in pageTable.Values :: p in old(pageTable.Values) || fresh(p)
    {
      var tableAddress := TableAddress(address);
      if tableAddress !in pageTable {
        tableData := new bv8[PageSize](_ => 0);
        pageTable := pageTable[tableAddress := tableData];
        assert tableData[..] == ZeroPage();
        pages := Touch(pages, address);
      } else {
        tableData := pageTable[tableAddress];
      }
    }

    /** `read`: the word holding `address`; the page is allocated if it was absent. */
    method Read(address: bv32) returns (w: bv32)
      requires Valid()
      modifies this
      ensures Valid()
      ensures pages == Touch(old(pages), address)
      ensures WellFormed(old(pages)) && w == ReadWord(old(pages), address)
      ensures forall p | p in pageTable.Values :: p in old(pageTable.Values) || fresh(p)
    {
      var fourAlignedAddress := WordOffset(address);
      var tableData := PageFor(address);
      w := Get4Bytes(tableData, fourAlignedAddress);
      ReadTouch(old(pages), address, address);
    }

    /** `write`: stores `value` in the word holding `address`; the page is allocated if it was absent. */
    method Write(address: bv32, value: bv32)
      requires Valid()
      modifies this, pageTable.Values
      ensures Valid()
      ensures WellFormed(old(pages)) && pages == WriteWord(old(pages), address, value)
      ensures forall p | p in pageTable.Values :: p in old(pageTable.Values) || fresh(p)
    {
      var tableData := PageFor(address);
      StoreInPage(tableData, address, value);
      WriteAfterTouch(old(pages), address, value);
    }

    /** Stores `value` in the word holding `address` of its page `tableData`, which is already allocated. */
    method StoreInPage(tableData: array<bv8>, address: bv32, value: bv32)
      requires Valid()
      requires TableAddress(address) in pageTable && tableData == pageTable[TableAddress(address)]
      modifies this`pages, tableData
      ensures Valid()
      ensures pages == old(pages)[TableAddress(address) := PutWord(old(pages)[TableAddress(address)], WordOffset(address), value)]
    {
      Set4Bytes(tableData, WordOffset(address), value);
      pages := pages[TableAddress(address) := tableData[..]];
    }
  }
}
