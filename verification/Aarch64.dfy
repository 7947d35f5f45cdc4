/** The aarch64 encoding of page table entries and attributes, bit by bit. */
module Aarch64 {
  import opened PageTree

  type Word = bv64
  type Mode = bv32

  const PTE_VALID: Word := 1
  const PTE_LEVEL0_BLOCK: Word := 2
  const PTE_TABLE: Word := 2
  const STAGE2_SW_OWNED: Word := 0x0080_0000_0000_0000
  const STAGE2_SW_EXCLUSIVE: Word := 0x0100_0000_0000_0000

  /** Bits 12 to 47, and every other bit except bit 1. */
  const PTE_ADDR_MASK: Word := 0x0000_FFFF_FFFF_F000
  const PTE_ATTR_MASK: Word := 0xFFFF_0000_0000_0FFD

  const MODE_R: Mode := 1
  const MODE_W: Mode := 2
  const MODE_X: Mode := 4
  const MODE_D: Mode := 8
  const MODE_INVALID: Mode := 0x10
  const MODE_UNOWNED: Mode := 0x20
  const MODE_SHARED: Mode := 0x40
  const MODE_UNMAPPED: Mode := 0x30
  const MODE_ALL: Mode := 0x7F

  // ---------------------------------------------------------------- entries

  function AbsentPte(): Word { 0 }

  function TablePte(pa: Word): Word { pa | PTE_TABLE | PTE_VALID }

  /** A level 0 block is a page entry. */
  function PageEntry(pa: Word, attrs: Word): Word { pa | attrs | PTE_LEVEL0_BLOCK }

  function LargeEntry(pa: Word, attrs: Word): Word { pa | attrs }

  function BlockPte(level: nat, pa: Word, attrs: Word): Word {
    if level == 0 then PageEntry(pa, attrs) else LargeEntry(pa, attrs)
  }

  predicate PteIsValid(pte: Word) { pte & PTE_VALID != 0 }

  predicate PteIsPresent(pte: Word) { PteIsValid(pte) || pte & STAGE2_SW_OWNED != 0 }

  predicate PteIsTable(pte: Word, level: nat) { level != 0 && PteIsValid(pte) && pte & PTE_TABLE != 0 }

  predicate PteIsBlock(pte: Word, level: nat) {
    level <= MAX_BLOCK_LEVEL &&
    if level == 0 then pte & PTE_LEVEL0_BLOCK != 0 else PteIsPresent(pte) && !PteIsTable(pte, level)
  }

  function PteAddr(pte: Word): Word { pte & PTE_ADDR_MASK }

  function PteAttrs(pte: Word): Word { pte & PTE_ATTR_MASK }

  /** The address bits of a word; every page frame address is of this form. */
  function ClearPa(pa: Word): Word { pa & PTE_ADDR_MASK }

  /** Attribute words with which a present entry can be built. */
  predicate IsPresentAttrs(attrs: Word) {
    attrs & PTE_ATTR_MASK == attrs && (attrs & PTE_VALID != 0 || attrs & STAGE2_SW_OWNED != 0)
  }

  /** What is recognised in any word, built by the manager or not: bit 0 is valid,
      bits 0 and 1 a table, and bit 55 present although not valid. */
  lemma TableBits(w: Word, level: nat)
    ensures PteIsValid(w) <==> w & 1 != 0
    ensures PteIsTable(w, level) <==> level > 0 && w & 1 != 0 && w & 2 != 0
  {
  }

  lemma BlockBits(w: Word, level: nat)
    ensures PteIsBlock(w, level) ==
            if level == 0 then w & 2 != 0
            else level <= 2 && (w & 1 != 0 || w & 0x0080_0000_0000_0000 != 0) && !(w & 1 != 0 && w & 2 != 0)
  {
    if level == 0 {
    } else if level <= 2 {
      assert PteIsBlock(w, level) == (PteIsPresent(w) && !PteIsTable(w, level));
      TableBits(w, level);
    } else {
    }
  }

  lemma PageAddrBack(p: Word, a: Word)
    ensures PageEntry(p & PTE_ADDR_MASK, a & PTE_ATTR_MASK) & PTE_ADDR_MASK == p & PTE_ADDR_MASK
  {
  }

  lemma PageAttrsBack(p: Word, a: Word)
    ensures PageEntry(p & PTE_ADDR_MASK, a & PTE_ATTR_MASK) & PTE_ATTR_MASK == a & PTE_ATTR_MASK
  {
  }

  lemma LargeAddrBack(p: Word, a: Word)
    ensures LargeEntry(p & PTE_ADDR_MASK, a & PTE_ATTR_MASK) & PTE_ADDR_MASK == p & PTE_ADDR_MASK
  {
  }

  lemma LargeAttrsBack(p: Word, a: Word)
    ensures LargeEntry(p & PTE_ADDR_MASK, a & PTE_ATTR_MASK) & PTE_ATTR_MASK == a & PTE_ATTR_MASK
  {
  }

  /** The encoded entry is the sum of its address and its other bits. Adding
      the size of an entry to the word, as splitting a block does, therefore
      moves the address and nothing else. */
  lemma PageIsSum(p: Word, a: Word)
    ensures PageEntry(p & PTE_ADDR_MASK,
        a & PTE_ATTR_MASK) == (p & PTE_ADDR_MASK) + ((a & PTE_ATTR_MASK) + PTE_LEVEL0_BLOCK)
  {
  }

  lemma LargeIsSum(p: Word, a: Word)
    ensures LargeEntry(p & PTE_ADDR_MASK, a & PTE_ATTR_MASK) == (p & PTE_ADDR_MASK) + (a & PTE_ATTR_MASK)
  {
  }

  /** Adding to the word of an entry adds to its address, and changes no other
      bit, as long as the sum is an address. */
  lemma PageMoves(p: Word, q: Word, inc: Word, a: Word)
    requires p & PTE_ADDR_MASK == p && q & PTE_ADDR_MASK == q && a & PTE_ATTR_MASK == a && q == p + inc
    ensures PageEntry(p, a) + inc == PageEntry(q, a)
  {
    PageIsSum(p, a);
    PageIsSum(q, a);
    SumMoves(PageEntry(p, a), PageEntry(q, a), p, q, a + PTE_LEVEL0_BLOCK, inc);
  }

  lemma LargeMoves(p: Word, q: Word, inc: Word, a: Word)
    requires p & PTE_ADDR_MASK == p && q & PTE_ADDR_MASK == q && a & PTE_ATTR_MASK == a && q == p + inc
    ensures LargeEntry(p, a) + inc == LargeEntry(q, a)
  {
    LargeIsSum(p, a);
    LargeIsSum(q, a);
    SumMoves(LargeEntry(p, a), LargeEntry(q, a), p, q, a, inc);
  }

  lemma SumMoves(e: Word, f: Word, p: Word, q: Word, a: Word, inc: Word)
    requires e == p + a && f == q + a && q == p + inc
    ensures e + inc == f
  {
    calc {
      e + inc;
      p + a + inc;
      { Regroup(p, a, inc); }
      p + inc + a;
      q + a;
      f;
    }
  }

  lemma Regroup(p: Word, a: Word, inc: Word)
    ensures p + a + inc == p + inc + a
  {
  }

  lemma BlockPresentBit(level: nat, p: Word, a: Word)
    ensures PteIsPresent(BlockPte(level, ClearPa(p), a & PTE_ATTR_MASK)) <==>
            a & PTE_VALID != 0 || a & STAGE2_SW_OWNED != 0
  {
  }

  lemma BlockTableBit(level: nat, p: Word, a: Word)
    ensures BlockPte(level, ClearPa(p), a & PTE_ATTR_MASK) & PTE_TABLE != 0 <==> level == 0
  {
  }

  /** A block entry is recognised as a block and as nothing else. */
  lemma BlockRecognised(level: nat, p: Word, a: Word)
    requires level <= MAX_BLOCK_LEVEL && (a & PTE_VALID != 0 || a & STAGE2_SW_OWNED != 0)
    ensures var pte := BlockPte(level, ClearPa(p), a & PTE_ATTR_MASK);
            PteIsBlock(pte, level) && PteIsPresent(pte) && !PteIsTable(pte, level)
  {
    BlockTableBit(level, p, a);
    BlockPresentBit(level, p, a);
  }

  lemma TableRoundTrip(level: nat, p: Word)
    requires level > 0
    ensures var pte := TablePte(ClearPa(p));
            && PteIsTable(pte, level) && PteIsPresent(pte) && PteIsValid(pte) && !PteIsBlock(pte, level)
            && PteAddr(pte) == ClearPa(p) && PteAttrs(pte) == PTE_VALID
  {
  }

  lemma AbsentRoundTrip(level: nat)
    ensures var pte := AbsentPte();
            !PteIsPresent(pte) && !PteIsTable(pte, level) && !PteIsBlock(pte, level) && PteAttrs(pte) == 0
  {
  }

  /** What an entry stands for, with addresses as words. */
  datatype Entry = NoEntry | BlockEntry(addr: Word, attrs: Word) | TableEntry(addr: Word)

  /** Entries that the page-table manager builds at a level. */
  predicate CanEncode(e: Entry, level: nat) {
    match e
    case NoEntry => true
    case BlockEntry(p, a) => level <= MAX_BLOCK_LEVEL && p & PTE_ADDR_MASK == p && IsPresentAttrs(a)
    case TableEntry(p) => level > 0 && p & PTE_ADDR_MASK == p
  }

  function Encode(e: Entry, level: nat): (w: Word) {
    match e
    case NoEntry => AbsentPte()
    case BlockEntry(p, a) => BlockPte(level, p, a)
    case TableEntry(p) => TablePte(p)
  }

  function Decode(w: Word, level: nat): (e: Entry) {
    if PteIsBlock(w, level) then BlockEntry(PteAddr(w), PteAttrs(w))
    else if PteIsTable(w, level) then TableEntry(PteAddr(w))
    else NoEntry
  }

  lemma PageDecodes(p: Word, a: Word)
    requires p & PTE_ADDR_MASK == p && IsPresentAttrs(a)
    ensures Decode(PageEntry(p, a), 0) == BlockEntry(p, a)
  {
    PageAddrBack(p, a);
    PageAttrsBack(p, a);
  }

  lemma LargeDecodes(p: Word, a: Word, level: nat)
    requires p & PTE_ADDR_MASK == p && IsPresentAttrs(a) && 0 < level <= MAX_BLOCK_LEVEL
    ensures Decode(LargeEntry(p, a), level) == BlockEntry(p, a)
  {
    BlockRecognised(level, p, a);
    LargeAddrBack(p, a);
    LargeAttrsBack(p, a);
  }

  /** Every entry is read back as it was written, at every level. */
  lemma EncodeRoundTrip(e: Entry, level: nat)
    requires CanEncode(e, level)
    ensures Decode(Encode(e, level), level) == e
  {
    match e
    case NoEntry => AbsentRoundTrip(level);
    case BlockEntry(p, a) =>
      if level == 0 {
        PageDecodes(p, a);
      } else {
        LargeDecodes(p, a, level);
      }
    case TableEntry(p) => TableRoundTrip(level, p);
  }

  /** What the hardware makes of the words: bits 1 and 0 are 3 for a table, and for
      a page or a large block that is valid 3 and 1; the address is in bits 12 to
      47, and all other bits are the attributes. */
  lemma TableWord(p: Word)
    ensures var w := TablePte(p & PTE_ADDR_MASK);
            && w & 3 == 3 && w & 0x0000_FFFF_FFFF_F000 == p & 0x0000_FFFF_FFFF_F000
            && w & 0xFFFF_0000_0000_0FFC == 0
  {
  }

  lemma PageWord(p: Word, a: Word)
    ensures var w := PageEntry(p & PTE_ADDR_MASK, a & PTE_ATTR_MASK);
            && w & 3 == (a & 1) | 2 && w & 0x0000_FFFF_FFFF_F000 == p & 0x0000_FFFF_FFFF_F000
            && w & 0xFFFF_0000_0000_0FFC == a & 0xFFFF_0000_0000_0FFC
  {
  }

  lemma LargeWord(p: Word, a: Word)
    ensures var w := LargeEntry(p & PTE_ADDR_MASK, a & PTE_ATTR_MASK);
            && w & 3 == a & 1 && w & 0x0000_FFFF_FFFF_F000 == p & 0x0000_FFFF_FFFF_F000
            && w & 0xFFFF_0000_0000_0FFC == a & 0xFFFF_0000_0000_0FFC
  {
  }

  // ---------------------------------------------------------------- modes and attributes

  /** Stage-1 attributes; `bti` says whether code pages are guarded. */
  function ModeToStage1Attrs(mode: Mode, bti: bool): Word {
    0x700
    | (if mode & MODE_X == 0 then 0x0040_0000_0000_0000 else if bti then 0x0004_0000_0000_0000 else 0)
    | (if mode & MODE_W != 0 then 0 else 0x80)
    | (if mode & MODE_D != 0 then 0 else 4)
    | (if mode & MODE_INVALID == 0 then PTE_VALID else 0)
  }

  function ModeToStage2Attrs(mode: Mode): Word {
    0x400
    | (if mode & MODE_R != 0 then 0x40 else 0)
    | (if mode & MODE_W != 0 then 0x80 else 0)
    | (if mode & MODE_X != 0 then 0 else 0x0040_0000_0000_0000)
    | (if mode & MODE_D != 0 then 0xC else 0x3C)
    | (if mode & MODE_UNOWNED == 0 then STAGE2_SW_OWNED else 0)
    | (if mode & MODE_SHARED == 0 then STAGE2_SW_EXCLUSIVE else 0)
    | (if mode & MODE_INVALID == 0 then PTE_VALID else 0)
  }

  function Stage2AttrsToMode(attrs: Word): Mode {
    (if attrs & 0x40 != 0 then MODE_R else 0)
    | (if attrs & 0x80 != 0 then MODE_W else 0)
    | (if attrs & 0x0060_0000_0000_0000 == 0 then MODE_X else 0)
    | (if attrs & 0x30 == 0 then MODE_D else 0)
    | (if attrs & STAGE2_SW_OWNED == 0 then MODE_UNOWNED else 0)
    | (if attrs & STAGE2_SW_EXCLUSIVE == 0 then MODE_SHARED else 0)
    | (if attrs & PTE_VALID == 0 then MODE_INVALID else 0)
  }

  /** The mode that stands for no mapping at all. */
  predicate IsUnmapped(mode: Mode) { mode & MODE_UNMAPPED == MODE_UNMAPPED }

  /** The mode comes back from the attributes, whatever its bits. */
  lemma ModeRoundTrip(mode: Mode)
    ensures Stage2AttrsToMode(ModeToStage2Attrs(mode)) == mode & MODE_ALL
  {
  }

  /** What the hardware reads from the attributes of stage 2. Bits 5 to 2: write-back
      memory, outer and inner, or device memory with gathering, reordering and early
      acknowledgement. Bits 6 and 7: reads and writes. Bits 9 and 8: the shareability
      is that of stage 1. Bit 10: no fault on the first access. Bits 54 and 53: no
      execution. Bits 55 and 56 are for software. Modes are R 1, W 2, X 4, D 8,
      invalid 16, unowned 32, shared 64. */
  lemma Stage2Fields(mode: Mode)
    ensures var w := ModeToStage2Attrs(mode);
            && (w & 1 != 0 <==> mode & 16 == 0)
            && (w >> 2) & 15 == (if mode & 8 != 0 then 3 else 15)
            && ((w >> 6) & 1 == 1 <==> mode & 1 != 0) && ((w >> 7) & 1 == 1 <==> mode & 2 != 0)
            && (w >> 8) & 3 == 0 && (w >> 10) & 1 == 1
            && (w >> 53) & 3 == (if mode & 4 != 0 then 0 else 2)
            && ((w >> 55) & 1 == 1 <==> mode & 32 == 0) && ((w >> 56) & 1 == 1 <==> mode & 64 == 0)
            && w & 0xFE1F_FFFF_FFFF_F802 == 0
  {
  }

  /** And from those of stage 1. Bits 4 to 2: which of the two memory types. Bits 7
      and 6: read-only, or also writes; nothing is ever unreadable. Bits 9 and 8:
      inner shareable. Bit 54: no execution. Bit 50: guarded code. */
  lemma Stage1Fields(mode: Mode, bti: bool)
    ensures var w := ModeToStage1Attrs(mode, bti);
            && (w & 1 != 0 <==> mode & 16 == 0)
            && (w >> 2) & 7 == (if mode & 8 != 0 then 0 else 1)
            && (w >> 6) & 3 == (if mode & 2 != 0 then 0 else 2)
            && (w >> 8) & 3 == 3 && (w >> 10) & 1 == 1
            && ((w >> 54) & 1 == 1 <==> mode & 4 == 0) && ((w >> 50) & 1 == 1 <==> mode & 4 != 0 && bti)
            && w & 0xFFBB_FFFF_FFFF_F822 == 0
  {
  }

  /** The mode that is read from any attributes: the same fields, where any limit
      on execution is one, and only the outer of the two memory types counts. */
  lemma ModeFields(w: Word)
    ensures var mode := Stage2AttrsToMode(w);
            && (mode & 1 != 0 <==> (w >> 6) & 1 == 1) && (mode & 2 != 0 <==> (w >> 7) & 1 == 1)
            && (mode & 4 != 0 <==> (w >> 53) & 3 == 0) && (mode & 8 != 0 <==> (w >> 4) & 3 == 0)
            && (mode & 16 != 0 <==> w & 1 == 0)
            && (mode & 32 != 0 <==> (w >> 55) & 1 == 0) && (mode & 64 != 0 <==> (w >> 56) & 1 == 0)
            && mode & 0xFFFF_FF80 == 0
  {
  }

  /** Every set of attributes has a bit that no table has. */
  lemma Stage1AttrsPresent(mode: Mode, bti: bool)
    ensures ModeToStage1Attrs(mode, bti) & PTE_ATTR_MASK == ModeToStage1Attrs(mode, bti)
    ensures ModeToStage1Attrs(mode, bti) & 0x400 != 0
    ensures IsPresentAttrs(ModeToStage1Attrs(mode, bti)) <==> mode & MODE_INVALID == 0
  {
  }

  lemma Stage2AttrsPresent(mode: Mode)
    ensures ModeToStage2Attrs(mode) & PTE_ATTR_MASK == ModeToStage2Attrs(mode)
    ensures ModeToStage2Attrs(mode) & 0x400 != 0
    ensures IsPresentAttrs(ModeToStage2Attrs(mode)) <==> !IsUnmapped(mode)
  {
  }

  /** Attributes of a table never change those of the block that replaces it,
      because no table is ever given any. */
  function CombineTableEntryAttrs(tableAttrs: Word, blockAttrs: Word): Word {
    var b0 := if tableAttrs & 0x8000_0000_0000_0000 != 0 then blockAttrs | 0x20 else blockAttrs;
    var b1 := if tableAttrs & 0x4000_0000_0000_0000 != 0 then b0 | 0x80 else b0;
    var b2 := if tableAttrs & 0x2000_0000_0000_0000 != 0 then b1 & !(0x40 as Word) else b1;
    var b3 := if tableAttrs & 0x1000_0000_0000_0000 != 0 then b2 | 0x0040_0000_0000_0000 else b2;
    if tableAttrs & 0x0800_0000_0000_0000 != 0 then b3 | 0x0020_0000_0000_0000 else b3
  }

  /** What a table restricts is restricted in the block too: bit 63 for bit 5, 62
      for bit 7, 60 for bit 54 and 59 for bit 53; bit 61 takes bit 6 away. No other
      bit changes. */
  lemma CombineFields(t: Word, b: Word)
    ensures var w := CombineTableEntryAttrs(t, b);
            && w & 0x20 == (if t & 0x8000_0000_0000_0000 != 0 then 0x20 else b & 0x20)
            && w & 0x80 == (if t & 0x4000_0000_0000_0000 != 0 then 0x80 else b & 0x80)
            && w & 0x40 == (if t & 0x2000_0000_0000_0000 != 0 then 0 else b & 0x40)
            && w & 0x0040_0000_0000_0000 ==
               (if t & 0x1000_0000_0000_0000 != 0 then 0x0040_0000_0000_0000 else b & 0x0040_0000_0000_0000)
            && w & 0x0020_0000_0000_0000 ==
               (if t & 0x0800_0000_0000_0000 != 0 then 0x0020_0000_0000_0000 else b & 0x0020_0000_0000_0000)
            && w & 0xFF9F_FFFF_FFFF_FF1F == b & 0xFF9F_FFFF_FFFF_FF1F
  {
    CombineBit5(t, b);
    CombineBit7(t, b);
    CombineBit6(t, b);
    CombineBit54(t, b);
    CombineBit53(t, b);
    CombineRest(t, b);
  }

  lemma CombineBit5(t: Word, b: Word)
    ensures CombineTableEntryAttrs(t, b) & 0x20 == if t & 0x8000_0000_0000_0000 != 0 then 0x20 else b & 0x20
  {
  }

  lemma CombineBit7(t: Word, b: Word)
    ensures CombineTableEntryAttrs(t, b) & 0x80 == if t & 0x4000_0000_0000_0000 != 0 then 0x80 else b & 0x80
  {
  }

  lemma CombineBit6(t: Word, b: Word)
    ensures CombineTableEntryAttrs(t, b) & 0x40 == if t & 0x2000_0000_0000_0000 != 0 then 0 else b & 0x40
  {
  }

  lemma CombineBit54(t: Word, b: Word)
    ensures CombineTableEntryAttrs(t, b) & 0x0040_0000_0000_0000 ==
            if t & 0x1000_0000_0000_0000 != 0 then 0x0040_0000_0000_0000 else b & 0x0040_0000_0000_0000
  {
  }

  lemma CombineBit53(t: Word, b: Word)
    ensures CombineTableEntryAttrs(t, b) & 0x0020_0000_0000_0000 ==
            if t & 0x0800_0000_0000_0000 != 0 then 0x0020_0000_0000_0000 else b & 0x0020_0000_0000_0000
  {
  }

  lemma CombineRest(t: Word, b: Word)
    ensures CombineTableEntryAttrs(t, b) & 0xFF9F_FFFF_FFFF_FF1F == b & 0xFF9F_FFFF_FFFF_FF1F
  {
    RestStays(b, t & 0x8000_0000_0000_0000 != 0, t & 0x4000_0000_0000_0000 != 0, t & 0x2000_0000_0000_0000 != 0,
        t & 0x1000_0000_0000_0000 != 0, t & 0x0800_0000_0000_0000 != 0);
  }

  lemma RestStays(b: Word, ns: bool, ap1: bool, ap0: bool, xn: bool, pxn: bool)
    ensures var b0 := if ns then b | 0x20 else b;
            var b1 := if ap1 then b0 | 0x80 else b0;
            var b2 := if ap0 then b1 & !(0x40 as Word) else b1;
            var b3 := if xn then b2 | 0x0040_0000_0000_0000 else b2;
            var b4 := if pxn then b3 | 0x0020_0000_0000_0000 else b3;
            b4 & 0xFF9F_FFFF_FFFF_FF1F == b & 0xFF9F_FFFF_FFFF_FF1F
  {
  }

  lemma CombineKeepsBlockAttrs(p: Word, blockAttrs: Word)
    ensures CombineTableEntryAttrs(PteAttrs(TablePte(ClearPa(p))), blockAttrs) == blockAttrs
  {
  }

  // ---------------------------------------------------------------- the attributes of the tree model

  function ToAttrs(w: Word): Attrs {
    Attrs(w & PTE_VALID != 0, w & STAGE2_SW_OWNED != 0, w)
  }

  /** The attributes of an absent entry, of a table and of a mapped mode, as the
      tree model has them. */
  lemma AttrsFaithful(mode: Mode, bti: bool, p: Word)
    ensures ToAttrs(PteAttrs(AbsentPte())) == NO_ATTRS
    ensures ToAttrs(PteAttrs(TablePte(ClearPa(p)))) == TABLE_ATTRS
    ensures GoodAttrs(ToAttrs(ModeToStage2Attrs(mode))) <==> !IsUnmapped(mode)
    ensures GoodAttrs(ToAttrs(ModeToStage1Attrs(mode, bti))) <==> mode & MODE_INVALID == 0
  {
    TableRoundTrip(1, p);
    Stage1AttrsPresent(mode, bti);
    Stage2AttrsPresent(mode);
  }
}
