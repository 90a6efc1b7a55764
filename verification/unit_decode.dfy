/** A physical erase unit (`Unit`): its raw bytes, its header, and the map from
    logical address to sector bytes recovered by walking its BAM (`Unit.parse`). */
module UnitDecode {
  import opened Wrappers
  import opened Bytes
  import opened UnitHeaderCodec
  import opened Bam

  function Pow2(n: nat): (r: nat)
    ensures r >= 1
  {
    if n == 0 then 1 else 2 * Pow2(n - 1)
  }

  lemma {:induction false} Pow2Add(a: nat, b: nat)
    ensures Pow2(a + b) == Pow2(a) * Pow2(b)
    decreases b
  {
    if b > 0 {
      Pow2Add(a, b - 1);
      assert Pow2(a + b) == 2 * Pow2(a + (b - 1));
    }
  }

  lemma {:induction false} Pow2Monotone(a: nat, b: nat)
    requires a < b
    ensures Pow2(a) < Pow2(b)
    decreases b
  {
    if a < b - 1 {
      Pow2Monotone(a, b - 1);
    }
  }

  /** `int(unitSize / sectorSize)`: the number of sector slots in a unit and of
      entries in its BAM. Both sizes are powers of two, so the quotient is a power of
      two, or 0 when the sector is larger than the unit. */
  function SlotCount(h: UnitHeader): nat {
    if h.log2SectorSize <= h.log2UnitSize then Pow2(h.log2UnitSize - h.log2SectorSize) else 0
  }

  /** `SlotCount` is the truncated quotient `unitSize / sectorSize`. */
  lemma SlotCountIsQuotient(h: UnitHeader)
    ensures SlotCount(h) * Pow2(h.log2SectorSize) <= Pow2(h.log2UnitSize)
    ensures Pow2(h.log2UnitSize) < (SlotCount(h) + 1) * Pow2(h.log2SectorSize)
  {
    var s, u := h.log2SectorSize as nat, h.log2UnitSize as nat;
    if s <= u {
      Pow2Add(s, u - s);
      assert Pow2(u) == Pow2(u - s) * Pow2(s);
    } else {
      Pow2Monotone(u, s);
    }
  }

  /** A 4-byte BAM entry for `idx` lies inside the unit's bytes. */
  predicate EntryInBounds(unitLength: nat, boff: nat, idx: nat) {
    boff + 4 * idx + 4 <= unitLength
  }

  /** Some slot of the header's BAM runs past the end of a unit `unitLength` bytes long. */
  predicate BamOverruns(unitLength: nat, uh: UnitHeader) {
    exists idx: nat :: idx < SlotCount(uh) && !EntryInBounds(unitLength, uh.BAMoffset, idx)
  }

  /** `unitData[idx * sectorSize : (idx + 1) * sectorSize]`, clamped by slicing. */
  function SectorBytes(unitData: seq<u8>, sectorSize: nat, idx: nat): seq<u8> {
    Slice(unitData, idx * sectorSize, (idx + 1) * sectorSize)
  }

  /** The addresses the first `n` BAM entries decode to: entry `idx` is the
      little-endian word at `boff + 4 * idx`. */
  function SlotAddresses(unitData: seq<u8>, boff: nat, n: nat): (slots: seq<Option<u32>>)
    requires n == 0 || boff + 4 * n <= |unitData|
    ensures |slots| == n
    ensures forall idx :: 0 <= idx < n ==> slots[idx] == ParseBamItem(Le32(unitData, boff + 4 * idx))
  {
    seq(n, idx requires 0 <= idx < n => ParseBamItem(Le32(unitData, boff + 4 * idx)))
  }

  /** Slot `idx` is the highest slot decoding to its address. */
  ghost predicate LastSlot(slots: seq<Option<u32>>, idx: int) {
    0 <= idx < |slots| && slots[idx].Some? && forall j :: idx < j < |slots| ==> slots[j] != slots[idx]
  }

  /** `m` is what a BAM whose slots decode to `slots` yields: its addresses are exactly
      those some slot decodes to, and each holds the sector of the highest slot that
      decodes to it. */
  ghost predicate RecoveredFrom(slots: seq<Option<u32>>, unitData: seq<u8>, sectorSize: nat, m: map<u32, seq<u8>>) {
    && (forall a :: a in m <==> Some(a) in slots)
    && (forall idx :: LastSlot(slots, idx) ==> m[slots[idx].value] == SectorBytes(unitData, sectorSize, idx))
  }

  /** The loop of `Unit.parse` over the decoded slots: each slot that decodes to an
      address stores its sector under that address, overwriting earlier slots. */
  function ParseSlots(slots: seq<Option<u32>>, unitData: seq<u8>, sectorSize: nat): (m: map<u32, seq<u8>>)
    ensures forall a :: a in m <==> Some(a) in slots
    ensures forall idx :: LastSlot(slots, idx) ==> m[slots[idx].value] == SectorBytes(unitData, sectorSize, idx)
  {
    if slots == [] then map[]
    else
      var init := slots[..|slots| - 1];
      var prev := ParseSlots(init, unitData, sectorSize);
      var idx := |slots| - 1;
      var m := match slots[idx]
        case Some(a) => prev[a := SectorBytes(unitData, sectorSize, idx)]
        case None => prev;
      ParseSlotsDomain(slots, prev, m);
      ParseSlotsValues(slots, unitData, sectorSize, prev, m);
      m
  }

  lemma ParseSlotsDomain(slots: seq<Option<u32>>, prev: map<u32, seq<u8>>, m: map<u32, seq<u8>>)
    requires slots != []
    requires forall a :: a in prev <==> Some(a) in slots[..|slots| - 1]
    requires m.Keys == if slots[|slots| - 1].Some? then prev.Keys + {slots[|slots| - 1].value} else prev.Keys
    ensures forall a :: a in m <==> Some(a) in slots
  {
    assert slots == slots[..|slots| - 1] + [slots[|slots| - 1]];
  }

  lemma ParseSlotsValues(slots: seq<Option<u32>>, unitData: seq<u8>, sectorSize: nat,
                         prev: map<u32, seq<u8>>, m: map<u32, seq<u8>>)
    requires slots != []
    requires forall a :: a in prev <==> Some(a) in slots[..|slots| - 1]
    requires forall idx :: LastSlot(slots[..|slots| - 1], idx) ==>
      prev[slots[idx].value] == SectorBytes(unitData, sectorSize, idx)
    requires m == match slots[|slots| - 1]
        case Some(a) => prev[a := SectorBytes(unitData, sectorSize, |slots| - 1)]
        case None => prev
    ensures forall idx :: LastSlot(slots, idx) ==>
      slots[idx].value in m && m[slots[idx].value] == SectorBytes(unitData, sectorSize, idx)
  {
    var init := slots[..|slots| - 1];
    forall idx | LastSlot(slots, idx)
      ensures slots[idx].value in m && m[slots[idx].value] == SectorBytes(unitData, sectorSize, idx)
    {
      if idx < |slots| - 1 {
        assert LastSlot(init, idx);
        assert init[idx] == slots[idx];
        assert Some(slots[idx].value) in init;
      }
    }
  }

  /** The first slot whose BAM entry would run past the end of the unit's bytes. */
  function FirstShortSlot(unitLength: nat, boff: nat): (idx: nat)
    ensures !EntryInBounds(unitLength, boff, idx)
    ensures forall j: nat :: j < idx ==> EntryInBounds(unitLength, boff, j)
  {
    if unitLength <= boff then 0
    else
      var idx := (unitLength - boff) / 4;
      assert 4 * idx <= unitLength - boff < 4 * idx + 4;
      idx
  }

  /** One erase unit as the program's `Unit` object holds it. */
  datatype Unit = Unit(
    unitData: seq<u8>,
    uh: UnitHeader,
    unitNo: u16,
    unitSize: nat,
    sectorSize: nat,
    mappedData: map<u32, seq<u8>>)

  /** `Unit(data, uh)`, whose constructor runs `parse`. Reading a BAM entry that is
      not four bytes long raises in `struct.unpack`; that aborts the whole run, so the
      first such slot is reported instead of a unit. */
  function ParseUnit(unitData: seq<u8>, uh: UnitHeader): (r: Result<Unit, Fault>)
    ensures r.Failure? <==> BamOverruns(|unitData|, uh)
    ensures r.Failure? ==> r.error.ShortBamEntry? && r.error.slot < SlotCount(uh)
    ensures r.Failure? ==>
      && !EntryInBounds(|unitData|, uh.BAMoffset, r.error.slot)
      && forall j: nat :: j < r.error.slot ==> EntryInBounds(|unitData|, uh.BAMoffset, j)
    ensures r.Success? ==>
      var u := r.value;
      && u.unitData == unitData && u.uh == uh && u.unitNo == uh.logicalUnitNo
      && u.unitSize == Pow2(uh.log2UnitSize) && u.sectorSize == Pow2(uh.log2SectorSize)
    ensures r.Success? ==> SlotCount(uh) == 0 || uh.BAMoffset + 4 * SlotCount(uh) <= |unitData|
    ensures r.Success? ==>
      RecoveredFrom(SlotAddresses(unitData, uh.BAMoffset, SlotCount(uh)), unitData,
                    Pow2(uh.log2SectorSize), r.value.mappedData)
  {
    var n := SlotCount(uh);
    if n == 0 || uh.BAMoffset as nat + 4 * n <= |unitData| then
      var sectorSize := Pow2(uh.log2SectorSize);
      Success(Unit(unitData, uh, uh.logicalUnitNo, Pow2(uh.log2UnitSize), sectorSize,
                   ParseSlots(SlotAddresses(unitData, uh.BAMoffset, n), unitData, sectorSize)))
    else
      var idx := FirstShortSlot(|unitData|, uh.BAMoffset);
      Failure(ShortBamEntry(idx))
  }

  /** A BAM with a single data slot `i`, decoding to `a`, yields exactly `a` mapped to
      sector `i`. */
  lemma SingleDataSlot(slots: seq<Option<u32>>, unitData: seq<u8>, sectorSize: nat,
                       m: map<u32, seq<u8>>, i: nat, a: u32)
    requires RecoveredFrom(slots, unitData, sectorSize, m)
    requires i < |slots| && slots[i] == Some(a)
    requires forall j :: 0 <= j < |slots| && j != i ==> slots[j] == None
    ensures m == map[a := SectorBytes(unitData, sectorSize, i)]
  {
    assert LastSlot(slots, i);
    forall b | Some(b) in slots
      ensures b == a
    {
      var j :| 0 <= j < |slots| && slots[j] == Some(b);
    }
    assert m.Keys == {a};
  }

  /** A unit whose BAM has a single data entry, at slot `i` with address `a`, maps
      exactly `a` to the bytes of sector `i`. */
  lemma SingleDataEntry(unitData: seq<u8>, uh: UnitHeader, i: nat, a: u32)
    requires ParseUnit(unitData, uh).Success?
    requires i < SlotCount(uh)
    requires var slots := SlotAddresses(unitData, uh.BAMoffset, SlotCount(uh));
      slots[i] == Some(a) && forall j :: 0 <= j < |slots| && j != i ==> slots[j] == None
    ensures ParseUnit(unitData, uh).value.mappedData
      == map[a := SectorBytes(unitData, Pow2(uh.log2SectorSize), i)]
  {
    SingleDataSlot(SlotAddresses(unitData, uh.BAMoffset, SlotCount(uh)), unitData,
                   Pow2(uh.log2SectorSize), ParseUnit(unitData, uh).value.mappedData, i, a);
  }
}
