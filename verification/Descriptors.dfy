/**
 VMSAv8-64 translation descriptors as the page-table code packs and unpacks them
 (Arm Architecture Reference Manual DDI 0487, section D8.3).

 A 64-bit word is represented by the three fields that the code's masks cut it into:
 bits 63..48, the page frame number in bits 47..12, and bits 11..0.  The lemmas at the
 end show that on the assembled 64-bit word the masks select exactly these fields.
 */
module Descriptors {
  datatype Descriptor = Descriptor(high: bv16, frame: nat, low: bv12)

  const EMPTY := Descriptor(0, 0, 0)
  const FRAMES: nat := 0x10_0000_0000

  const DESC_VALID: bv12 := 0x001
  const DESC_TABLE: bv12 := 0x002
  const DESC_PAGE: bv12 := 0x002
  const DESC_BLOCK: bv12 := 0x000
  const AP_RW_EL1: bv12 := 0x000
  const AP_RW_EL0_EL1: bv12 := 0x040
  const AP_RO_EL1: bv12 := 0x080
  const AP_RO_EL0_EL1: bv12 := 0x0C0
  const AF: bv12 := 0x400
  const SH_INNER: bv12 := 0x300
  const MAIR_DEV: bv12 := 0x000
  const MAIR_MEM: bv12 := 0x004
  const UXN: bv16 := 0x0040
  const PXN: bv16 := 0x0020

  datatype MapPermission = KernelRW | KernelRO | KernelRWDevice | UserRW | UserRO | UserRX | UserRWX

  function ApBits(perm: MapPermission): bv12 {
    match perm
    case KernelRW => AP_RW_EL1
    case KernelRO => AP_RO_EL1
    case KernelRWDevice => AP_RW_EL1
    case UserRW => AP_RW_EL0_EL1
    case UserRO => AP_RO_EL0_EL1
    case UserRX => AP_RO_EL0_EL1
    case UserRWX => AP_RW_EL0_EL1
  }

  function XnBits(perm: MapPermission): bv16 {
    match perm
    case UserRX | UserRWX => 0
    case UserRO | UserRW => UXN | PXN
    case KernelRWDevice => UXN | PXN
    case KernelRO | KernelRW => UXN
  }

  predicate IsValid(d: Descriptor) { d.low & DESC_VALID != 0 }

  /** The descriptor's table bit; at level 3 the same bit marks a page. */
  predicate IsTable(d: Descriptor) { d.low & DESC_TABLE != 0 }

  function TableDescriptor(frame: nat): Descriptor {
    Descriptor(0, frame, DESC_VALID | DESC_TABLE)
  }

  /** The level-3 word that map_range writes. */
  function PageDescriptor(frame: nat, perm: MapPermission): Descriptor {
    var attr := if perm == KernelRWDevice then MAIR_DEV else MAIR_MEM;
    var sh := if perm == KernelRWDevice then 0 else SH_INNER;
    Descriptor(XnBits(perm), frame, DESC_VALID | DESC_PAGE | attr | AF | sh | ApBits(perm))
  }

  /** The level-2 block that init writes for normal memory. */
  function KernelBlock(frame: nat): Descriptor {
    Descriptor(0, frame, DESC_VALID | DESC_BLOCK | MAIR_MEM | AF | AP_RW_EL1)
  }

  /** The frame field of a 2 MB block, bits 47..21 of the word. */
  function BlockFrame(d: Descriptor): nat { d.frame / 512 * 512 }

  /** Word `p` of the level-3 table that replaces block `d` when it is split. */
  function SplitPage(d: Descriptor, p: nat): Descriptor {
    Descriptor(d.high, BlockFrame(d) + p, DESC_VALID | DESC_PAGE | (d.low & !DESC_TABLE))
  }

  /** What a translation yields: no mapping, or a frame with the descriptor's attribute bits. */
  datatype Mapping = Unmapped | Mapped(frame: nat, attrs: Attributes)

  datatype Attributes = Attributes(high: bv16, low: bv12)

  function AttributesOf(d: Descriptor): Attributes {
    Attributes(d.high, d.low & !(DESC_VALID | DESC_TABLE))
  }

  /** How the hardware reads a level-3 word. */
  function PageMapping(d: Descriptor): Mapping {
    if IsValid(d) && IsTable(d) then Mapped(d.frame, AttributesOf(d)) else Unmapped
  }

  /** How the hardware reads a level-2 block for the page with index `i3` inside it. */
  function BlockMapping(d: Descriptor, i3: nat): Mapping {
    Mapped(BlockFrame(d) + i3, AttributesOf(d))
  }

  /** Splitting a block does not change what any of its 512 pages translates to. */
  lemma {:induction false} SplitKeepsMapping(d: Descriptor, p: nat)
    requires IsValid(d) && !IsTable(d)
    ensures PageMapping(SplitPage(d, p)) == BlockMapping(d, p)
  {
    SplitFlags(d.low);
  }

  lemma {:induction false} SplitFlags(low: bv12)
    ensures (DESC_VALID | DESC_PAGE | (low & !DESC_TABLE)) & !(DESC_VALID | DESC_TABLE) ==
            low & !(DESC_VALID | DESC_TABLE)
  {
  }

  function PermAttributes(perm: MapPermission): Attributes {
    AttributesOf(PageDescriptor(0, perm))
  }

  lemma {:induction false} PageDescriptorMapping(frame: nat, perm: MapPermission)
    ensures PageMapping(PageDescriptor(frame, perm)) == Mapped(frame, PermAttributes(perm))
  {
  }

  // --- What the attribute bits mean to the hardware (stage 1, EL1&0 regime). ---

  predicate El0MayRead(a: Attributes) { a.low & 0x040 != 0 }
  predicate El0MayWrite(a: Attributes) { a.low & 0x040 != 0 && a.low & 0x080 == 0 }
  predicate El1MayWrite(a: Attributes) { a.low & 0x080 == 0 }
  predicate El0MayExecute(a: Attributes) { a.high & 0x0040 == 0 }
  predicate El1MayExecute(a: Attributes) { a.high & 0x0020 == 0 }
  predicate IsDevice(a: Attributes) { a.low & 0x01C == 0 }

  /**
   What each permission grants.  The kernel permissions set UXN only, so kernel memory
   stays executable at EL1, although the comment beside XnBits in the original says that
   they are non-executable.
   */
  lemma {:induction false} PermissionMeaning(perm: MapPermission)
    ensures var a := PermAttributes(perm);
      && (El0MayRead(a) <==> perm in {UserRW, UserRO, UserRX, UserRWX})
      && (El0MayWrite(a) <==> perm in {UserRW, UserRWX})
      && (El1MayWrite(a) <==> perm in {KernelRW, KernelRWDevice, UserRW, UserRWX})
      && (El0MayExecute(a) <==> perm in {UserRX, UserRWX})
      && (El1MayExecute(a) <==> perm in {KernelRW, KernelRO, UserRX, UserRWX})
      && (IsDevice(a) <==> perm == KernelRWDevice)
  {
  }

  // --- The fields on the assembled 64-bit word. ---

  const TABLE_ADDR_MASK: bv64 := 0x0000_FFFF_FFFF_F000
  const BLOCK_ADDR_MASK: bv64 := 0x0000_FFFF_FFE0_0000

  function Assemble(high: bv16, frame: bv36, low: bv12): bv64 {
    ((high as bv64) << 48) | ((frame as bv64) << 12) | (low as bv64)
  }

  lemma {:induction false} TableMaskSelectsFrame(high: bv16, frame: bv36, low: bv12)
    ensures Assemble(high, frame, low) & TABLE_ADDR_MASK == Assemble(0, frame, 0)
  {
  }

  lemma {:induction false} TableMaskComplementSelectsFlags(high: bv16, frame: bv36, low: bv12)
    ensures Assemble(high, frame, low) & !TABLE_ADDR_MASK == Assemble(high, 0, low)
  {
  }

  lemma {:induction false} BlockMaskClearsPageBits(high: bv16, frame: bv36, low: bv12)
    ensures Assemble(high, frame, low) & BLOCK_ADDR_MASK == Assemble(0, frame & 0xF_FFFF_FE00, 0)
  {
  }

  lemma {:induction false} OrActsOnFlags(high: bv16, frame: bv36, low: bv12, high': bv16, low': bv12)
    ensures Assemble(high, frame, low) | Assemble(high', 0, low') == Assemble(high | high', frame, low | low')
  {
  }

  lemma {:induction false} NextPageIsNextFrame(frame: bv36)
    requires frame < 0xF_FFFF_FFFF
    ensures Assemble(0, frame, 0) + 0x1000 == Assemble(0, frame + 1, 0)
  {
  }

  // --- The 64-bit expressions of the original. ---

  const WORD_VALID: bv64 := 1 << 0
  const WORD_TABLE: bv64 := 1 << 1
  const WORD_PAGE: bv64 := 1 << 1
  const WORD_BLOCK: bv64 := 0 << 1
  const WORD_AF: bv64 := 1 << 10
  const WORD_SH_INNER: bv64 := 3 << 8
  const WORD_MAIR_DEV: bv64 := 0 << 2
  const WORD_MAIR_MEM: bv64 := 1 << 2
  const WORD_UXN: bv64 := 1 << 54
  const WORD_PXN: bv64 := 1 << 53

  function WordAp(perm: MapPermission): bv64 {
    match perm
    case KernelRW | KernelRWDevice => 0 << 6
    case KernelRO => 2 << 6
    case UserRW | UserRWX => 1 << 6
    case UserRO | UserRX => 3 << 6
  }

  function WordXn(perm: MapPermission): bv64 {
    match perm
    case UserRX | UserRWX => 0
    case UserRO | UserRW | KernelRWDevice => WORD_UXN | WORD_PXN
    case KernelRO | KernelRW => WORD_UXN
  }

  /** The word that map_range writes for a page. */
  function PageWord(paddr: bv64, perm: MapPermission): bv64 {
    var device := perm == KernelRWDevice;
    var attr := if device then WORD_MAIR_DEV else WORD_MAIR_MEM;
    var sh := if device then 0 else WORD_SH_INNER;
    paddr | WORD_VALID | WORD_PAGE | attr | WORD_AF | sh | WordAp(perm) | WordXn(perm)
  }

  /** The word that it writes for page `p` of a block that is split. */
  function SplitWord(entry: bv64, p: bv64): bv64 {
    ((entry & BLOCK_ADDR_MASK) + p * 0x1000) | WORD_VALID | WORD_PAGE | ((entry & !TABLE_ADDR_MASK) & !WORD_TABLE)
  }

  lemma {:induction false} OrFlags(p: bv64, a: bv64, b: bv64, c: bv64, d: bv64)
    ensures p | WORD_VALID | WORD_PAGE | a | WORD_AF | b | c | d ==
            p | (WORD_VALID | WORD_PAGE | a | WORD_AF | b | c | d)
  {
  }

  function FlagsWord(perm: MapPermission): bv64 {
    var device := perm == KernelRWDevice;
    var attr := if device then WORD_MAIR_DEV else WORD_MAIR_MEM;
    var sh := if device then 0 else WORD_SH_INNER;
    WORD_VALID | WORD_PAGE | attr | WORD_AF | sh | WordAp(perm) | WordXn(perm)
  }

  lemma {:induction false} FlagsWordIs(perm: MapPermission, number: nat)
    ensures var d := PageDescriptor(number, perm); FlagsWord(perm) == Assemble(d.high, 0, d.low)
  {
  }

  /** The fields of PageDescriptor, assembled, are the original's word. */
  lemma {:induction false} PageWordIs(frame: bv36, perm: MapPermission, number: nat)
    ensures var d := PageDescriptor(number, perm);
            PageWord(Assemble(0, frame, 0), perm) == Assemble(d.high, frame, d.low)
  {
    var d, device := PageDescriptor(number, perm), perm == KernelRWDevice;
    FlagsWordIs(perm, number);
    OrFlags(Assemble(0, frame, 0), if device then WORD_MAIR_DEV else WORD_MAIR_MEM, if device then 0 else WORD_SH_INNER,
            WordAp(perm), WordXn(perm));
    OrActsOnFlags(0, frame, 0, d.high, d.low);
  }

  /** And those of SplitPage; clearing the low nine bits of the frame and adding p < 512 is BlockFrame + p. */
  lemma {:induction false} SplitWordIs(high: bv16, frame: bv36, low: bv12, p: bv36, number: nat, page: nat)
    requires p < 512
    ensures var d := SplitPage(Descriptor(high, number, low), page);
            SplitWord(Assemble(high, frame, low), p as bv64) == Assemble(d.high, (frame & 0xF_FFFF_FE00) + p, d.low)
  {
  }

  lemma {:induction false} TableWordIs(frame: bv36, number: nat)
    ensures var d := TableDescriptor(number);
            Assemble(0, frame, 0) | WORD_VALID | WORD_TABLE == Assemble(d.high, frame, d.low)
  {
  }

  lemma {:induction false} BlockWordIs(frame: bv36, number: nat)
    ensures var d := KernelBlock(number);
            Assemble(0, frame, 0) | WORD_VALID | WORD_BLOCK | WORD_MAIR_MEM | WORD_AF | 0 ==
            Assemble(d.high, frame, d.low)
  {
  }

  lemma {:induction false} PageWordFlags(paddr: bv64, perm: MapPermission)
    ensures PageWord(paddr, perm) == paddr | FlagsWord(perm)
  {
    var device := perm == KernelRWDevice;
    OrFlags(paddr, if device then WORD_MAIR_DEV else WORD_MAIR_MEM, if device then 0 else WORD_SH_INNER,
            WordAp(perm), WordXn(perm));
  }

  /** The flags of the words of each permission, of blocks and of tables, as numbers. */
  lemma {:induction false} LiteralFlags()
    ensures FlagsWord(KernelRW) == 0x0040_0000_0000_0707 && FlagsWord(KernelRO) == 0x0040_0000_0000_0787
    ensures FlagsWord(KernelRWDevice) == 0x0060_0000_0000_0403 && FlagsWord(UserRW) == 0x0060_0000_0000_0747
    ensures FlagsWord(UserRO) == 0x0060_0000_0000_07C7 && FlagsWord(UserRX) == 0x07C7 && FlagsWord(UserRWX) == 0x0747
    ensures WORD_VALID | WORD_BLOCK | WORD_MAIR_MEM | WORD_AF == 0x0405 && WORD_VALID | WORD_TABLE == 0x0003
  {
  }

  /** Bit 0 of a word makes it valid; bit 1 makes it a table, or at level 3 a page. */
  lemma {:induction false} ValidAndTableBits(high: bv16, frame: bv36, low: bv12, number: nat)
    ensures IsValid(Descriptor(high, number, low)) <==> Assemble(high, frame, low) & 0x1 != 0
    ensures IsTable(Descriptor(high, number, low)) <==> Assemble(high, frame, low) & 0x2 != 0
  {
  }
}
