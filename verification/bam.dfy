/** Classification of Block Allocation Map entries (`Unit.parse_BamItem`). */
module Bam {
  import opened Wrappers
  import opened Bytes

  /** What a 32-bit BAM entry says about its physical sector slot. */
  datatype BamEntry =
    | Free                  // 0xFFFFFFFF
    | Deleted               // 0x00000000 or 0xFFFFFFFE
    | Control               // 0x00000030
    | Bad                   // 0x00000070
    | DataOrMap(addr: u32)  // low byte 0x40; the logical address is the entry with its low byte cleared
    | ReplacementMap        // low byte 0x60; recognised but not decoded by the program
    | Unrecognised          // anything else

  /** The program's test order: the fixed values first, then the low-byte tags. */
  function Classify(v: u32): (e: BamEntry)
    ensures e.DataOrMap? <==> v % 0x100 == 0x40
    ensures e.DataOrMap? ==> e.addr % 0x100 == 0 && e.addr / 0x100 == v / 0x100
  {
    if v == 0xFFFF_FFFF then Free
    else if v == 0 || v == 0xFFFF_FFFE then Deleted
    else if v == 0x30 then Control
    else if v == 0x70 then Bad
    else if v % 0x100 == 0x40 then DataOrMap(v - v % 0x100)   // v & 0xFFFFFF00
    else if v % 0x100 == 0x60 then ReplacementMap
    else Unrecognised
  }

  /** `parse_BamItem(v)`: the logical address a slot holds, if any. The address is
      `v & 0xFFFFFF00`: the entry with its low byte cleared, so it stays below 2^32. */
  function ParseBamItem(v: u32): (r: Option<u32>)
    ensures r.Some? <==> v % 0x100 == 0x40
    ensures r.Some? ==> r.value % 0x100 == 0 && r.value / 0x100 == v / 0x100 && r.value <= v
  {
    match Classify(v)
    case DataOrMap(a) => Some(a)
    case _ => None
  }

  /** Free, Deleted, Control, Bad and Replacement Map entries yield no address. */
  lemma NonDataEntriesYieldNothing(v: u32)
    requires v in {0xFFFF_FFFF, 0, 0xFFFF_FFFE, 0x30, 0x70} || v % 0x100 == 0x60
    ensures ParseBamItem(v) == None
  {
  }
}
