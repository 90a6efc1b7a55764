# FTL volume extractor — Dafny model

`ftl_extractor.py` recovers the logical volume of a NAND flash device managed by a
Flash Translation Layer from a raw physical dump. It scans the dump for erase-unit
headers (a card-information-structure signature `13 03 'C' 'I' 'S' 'F'` followed by a
TPL_LINK byte `0xFF` and the identifier `00 'FTL100' 00`), decodes each 68-byte
little-endian unit header, walks the unit's Block Allocation Map (BAM) to find which
physical sector holds which logical address, collects the units in a volume keyed by
logical unit number, merges their address maps, and writes every recovered sector at
its logical address into a zero-filled image of `virtualMediumSize` bytes.

The model is a set of pure functions over byte sequences, one module per part of the
program:

| module | file | models |
|---|---|---|
| `Wrappers` | `wrappers.dfy` | `Option`, `Result`, and `Fault`: the exceptions that abort a run |
| `Bytes` | `bytes.dfy` | bytes, Python slicing, little-endian fields, `f.seek` + `f.write` |
| `HeaderScan` | `header_scan.dfy` | `find_unitHeader` |
| `UnitHeaderCodec` | `unit_header.dfy` | the `UnitHeader` record: decoder and encoder |
| `Bam` | `bam.dfy` | `Unit.parse_BamItem` |
| `UnitDecode` | `unit_decode.dfy` | `Unit.__init__` and `Unit.parse` |
| `Volume` | `volume.dfy` | `Vol`: `add_unit`, `__len__`, `gen_mapped_data` |
| `Image` | `image.dfy` | the output loop of `main` |
| `Extractor` | `extractor.dfy` | the scan loop of `main` and the whole run |

Integers are unbounded. Header fields are typed `u8`, `u16` and `u32`, ranges of `int`,
so their widths are kept. `1 << n` is `Pow2(n)`, and Python's
`int(unitSize / sectorSize)` of two powers of two is `SlotCount`. Python slices clamp
at the end of a sequence, and so does `Bytes.Slice`. A Python dict keeps every key at
the position where it was first inserted; `Volume.Vol` therefore stores the unit
numbers in insertion order next to the map.

The image is characterised by `Image.IsImageOf`:
- it is at least `mediumSize` bytes long, and longer only as far as a written payload reaches;
- each byte holds the payload of the highest address that covers it;
- every other byte is zero.

`Image.ImageUnique` shows that this description determines the image.

### Behaviour of the code that the model keeps

- **Output length.** The payloads are written into a file of `mediumSize` zero bytes.
  A payload that starts at or below `mediumSize` and runs past it extends the file;
  nothing truncates it. `Image.IsImageOf` states this longer length.
- **Aborting faults.** The code raises in three places on bad data, and each one
  aborts the run:
  - an `IndexError` when a signature ends at the last byte, so the link byte is
    missing (line 33);
  - a construct error on a header cut short by the end of the dump (line 130);
  - a `struct.error` on a BAM entry shorter than four bytes (line 87).

  These are the `Fault` values `LinkByteOutOfRange`, `ShortHeader` and
  `ShortBamEntry`. `Extractor.Extract` fails exactly when one of them is raised, and
  with the fault of the first place in scan order that raises.
- **Missed headers.** After rejecting a candidate at `r`, `find_unitHeader` resumes
  the search at `r + 7`. A signature that starts at `r + 6` is therefore never
  inspected, even when it is a valid header. After an accepted header `main`
  resumes one byte past it, so an accepted header hides nothing: a signature six
  bytes after it is still inspected. A rejected signature further on can still hide
  a valid header after that. `HeaderScan.Shadowed` defines exactly which signatures
  are hidden. `HeaderScan.FindUnitHeaderMeetsSpec` proves that the search returns
  the first valid header that is not hidden, and `Extractor.ScanUnitsMeetsSpec`
  proves that the scan finds exactly the valid headers that are not hidden.
  `HeaderScan.AdjacentHeaderIsSkipped` exhibits a valid header that is missed;
  `HeaderScan.HiddenAfterAcceptedHeader` exhibits one missed after an accepted
  header; `HeaderScan.ThirdOfThreeIsFound` exhibits a valid header that is found
  because the signature hiding it was itself hidden.

## Model

| member | source | states |
|---|---|---|
| Bytes.Slice | ftl_extractor.py:130-133 | a Python slice clamps at the end: its length is `max(0, min(hi, len) - lo)` and element k is `s[lo + k]` |
| Bytes.Le16Inverse | ftl_extractor.py:11-15 | re-encoding a decoded `Int16ul` field gives back its two bytes |
| Bytes.Le32Inverse | ftl_extractor.py:10-23 | re-encoding a decoded `Int32ul` field gives back its four bytes, low byte first |
| Bytes.WriteAt | ftl_extractor.py:146-148 | seek-and-write overwrites exactly the payload's range; it extends the file when the payload runs past the end and never truncates it; bytes outside the range keep their old value or read as zero |
| HeaderScan.SignatureDoesNotOverlap | ftl_extractor.py:31-40 | two signature occurrences are at least six bytes apart |
| HeaderScan.FindSignature | ftl_extractor.py:31 | `data.find(sig, start)` returns the lowest occurrence at or after `start`, and None exactly when there is none |
| HeaderScan.ResumeAfter | ftl_extractor.py:39-40 | resuming after an inspected candidate, seven bytes past a rejected one or one byte past an accepted one, hides exactly the later signatures that the scan from the original start hides |
| HeaderScan.FindUnitHeaderMeetsSpec | ftl_extractor.py:29-41 | the search returns the first signature at or after `start` that it inspects and accepts; a signature is not inspected exactly when the signature six bytes before it was inspected and rejected. It returns -1 when no header is found and no inspected signature ends the dump. It raises at an inspected signature that ends the dump when no header was found before it |
| HeaderScan.SearchOutcomeDetermines | ftl_extractor.py:29-41 | the description above admits exactly one result, the one the search returns, so it characterises the search completely |
| HeaderScan.NoSignatureNoHeader | ftl_extractor.py:31-41 | with no signature at or after `start` the search returns -1 and raises nothing |
| HeaderScan.AdjacentHeaderIsSkipped | ftl_extractor.py:33-40 | in a dump holding a signature followed directly by a valid header, the header is never reported |
| HeaderScan.ThirdOfThreeIsFound | ftl_extractor.py:33-40 | in a dump of three signatures in a row whose third is a valid header, the first is rejected and hides the second, so the third is found at offset 12 |
| HeaderScan.HiddenAfterAcceptedHeader | ftl_extractor.py:33-40 | in a dump holding an accepted header at 0, a rejected signature at 15 and a valid header at 21, the header at 0 is found, the one at 21 is hidden by the rejected signature, and the search resuming one byte past the accepted header reports no header |
| UnitHeaderCodec.Decode | ftl_extractor.py:7-26 | parsing fails exactly on fewer than 68 bytes; a parsed header's byte-string fields have their declared widths |
| UnitHeaderCodec.EncodeDecode | ftl_extractor.py:7-26 | decoding 68 bytes and encoding the header again gives back those 68 bytes |
| UnitHeaderCodec.DecodeEncode | ftl_extractor.py:7-26 | encoding a header and decoding the result gives back the same field values |
| UnitHeaderCodec.FieldOffsets | ftl_extractor.py:11-23 | `logicalUnitNo`, `log2SectorSize`, `log2UnitSize`, `virtualMediumSize` and `BAMoffset` are read from bytes 20, 22, 23, 28 and 48 |
| Bam.Classify | ftl_extractor.py:54-77 | an entry is a data/map entry exactly when its low byte is `0x40`, and its address is the entry with the low byte cleared |
| Bam.ParseBamItem | ftl_extractor.py:54-77 | an address is returned exactly for low byte `0x40`; it has a zero low byte, the entry's upper 24 bits, and is at most the entry |
| Bam.NonDataEntriesYieldNothing | ftl_extractor.py:56-75 | free, deleted, control, bad and replacement-map entries yield no address |
| UnitDecode.SlotCountIsQuotient | ftl_extractor.py:83 | the slot count is the truncated quotient `unitSize / sectorSize`: `SlotCount * sectorSize <= unitSize < (SlotCount + 1) * sectorSize` |
| UnitDecode.FirstShortSlot | ftl_extractor.py:84-87 | the slot reported for a short BAM is the first one whose 4-byte entry does not fit in the unit |
| UnitDecode.ParseSlots | ftl_extractor.py:84-94 | the recovered map's addresses are exactly those some slot decodes to, and each holds the sector of the highest such slot |
| UnitDecode.ParseUnit | ftl_extractor.py:44-94 | constructing a unit fails exactly when one of its `unitSize / sectorSize` BAM entries runs past the unit's bytes, and then reports the first such slot; otherwise the unit has the header's number and sizes, and the BAM-recovered map |
| UnitDecode.SingleDataSlot | ftl_extractor.py:89-94 | a BAM whose only data slot is `i`, for address `a`, yields the one-entry map from `a` to sector `i` |
| UnitDecode.SingleDataEntry | ftl_extractor.py:79-94 | a unit whose only data BAM entry is at slot `i` maps exactly that address to sector `i`'s bytes |
| Volume.AddUnit | ftl_extractor.py:101-104 | the unit is stored under its number and replaces any earlier unit with it; other numbers are untouched; a new number is appended after the existing ones |
| Volume.DistinctCardinality | ftl_extractor.py:106-107 | a duplicate-free sequence has as many elements as its set |
| Volume.Len | ftl_extractor.py:106-107 | `len(vol)` is the number of distinct unit numbers stored |
| Volume.BuildVol | ftl_extractor.py:123-133 | the volume holds exactly the scanned unit numbers; each holds the last unit scanned with it; the numbers are ordered by first occurrence |
| Volume.MergeMaps | ftl_extractor.py:110-116 | successive `update`s give the union of the maps' addresses, each with the value from the last map holding it |
| Volume.GenMappedData | ftl_extractor.py:109-116 | the merged map holds every address of every unit, with the sector of the unit latest in the volume's order that maps it |
| Volume.TwoUnitBuild | ftl_extractor.py:101-104 | two units with different numbers, added in scan order, give a volume holding both, in that order |
| Volume.TwoUnitVolume | ftl_extractor.py:109-116 | for two units with different numbers the merged mapping is the first unit's mapping updated with the second's |
| Volume.MergeDisjointSize | ftl_extractor.py:113-115 | merging pairwise disjoint maps loses no entry: the sizes add up |
| Volume.MergeSharedAddress | ftl_extractor.py:113-115 | two maps sharing one address merge to one entry fewer than their sizes sum to, and the shared address keeps the second map's sector |
| Image.SortedKeys | ftl_extractor.py:140 | `sorted(mapped_data)` lists exactly the addresses, strictly ascending |
| Image.WriteAll | ftl_extractor.py:139-148 | writing the listed addresses in ascending order onto `mediumSize` zero bytes produces the image of those writes |
| Image.Reconstruct | ftl_extractor.py:138-148 | the output file is the image of the merged map: highest covering address wins each byte, uncovered bytes are zero, and addresses above `mediumSize` are skipped |
| Image.TopmostExists | ftl_extractor.py:140-148 | a byte covered by some written payload has a highest covering address, the last written |
| Image.ImageUnique | ftl_extractor.py:138-148 | two files that both satisfy the image description are equal |
| Image.ImageOfSameWrites | ftl_extractor.py:140-148 | the image depends only on the in-range addresses and their payloads |
| Image.ReconstructEmpty | ftl_extractor.py:139 | an empty map yields exactly `mediumSize` zero bytes |
| Image.ReconstructIgnoresHighAddress | ftl_extractor.py:141-145 | an address above `mediumSize` has no effect on the output |
| Image.ReconstructSingleEntry | ftl_extractor.py:139-148 | one payload that fits below `mediumSize` lands at its address; the output has `mediumSize` bytes and all others are zero |
| Image.ReconstructTwoEntries | ftl_extractor.py:139-148 | two non-overlapping payloads that fit below `mediumSize` each land at their address; the output has `mediumSize` bytes and all others are zero |
| Extractor.UnitAt | ftl_extractor.py:130-133 | a short header is reported exactly when fewer than 68 bytes remain, and the only other fault is a short BAM entry; a unit built at `p` has the header decoded from `data[p : p + 68]` and the bytes `data[p : p + unitSize]` |
| Extractor.UnitAtFaults | ftl_extractor.py:130-133 | with a complete header, building the unit fails exactly when some BAM slot runs past the unit's bytes, and then with `ShortBamEntry`; otherwise it yields the unit those bytes parse to |
| Extractor.ScanUnitsMeetsSpec | ftl_extractor.py:124-134 | a scan that completes lists exactly the headers found from `start`, strictly increasing, each with the unit decoded there, and no inspected signature ends the dump; a scan that aborts reports the fault of the first place that raises: an inspected signature ending the dump, or a found header whose unit fails to decode, with every found header before it decoding |
| Extractor.ScanFailsIffSomethingRaises | ftl_extractor.py:124-134 | the scan aborts exactly when some inspected signature ends the dump or some found header's unit fails to decode |
| Extractor.ScannedUnitsNumbered | ftl_extractor.py:48 | every scanned unit carries its own header's logical unit number |
| Extractor.Extract | ftl_extractor.py:119-148 | the run aborts exactly when some place in the dump raises, and then with the fault of the first such place in scan order; otherwise it writes the image of the merged map of the volume built from the scanned units, sized by the last header's `virtualMediumSize` |
| Extractor.TwoUnitImage | ftl_extractor.py:123-148 | two units with different numbers, each recovering one sector, non-overlapping and inside the medium, produce a `mediumSize`-byte output holding each sector at its address and zeros elsewhere |
| Extractor.NoSignatureEmptyImage | ftl_extractor.py:124-139 | a dump without any signature produces an empty output file |

## Left out

- Logging, the two `print` calls and command-line parsing (lines 55, 81, 91, 103, 114, 135-137, 142-144, 147, 151-167) have no effect on the output.
- Opening, reading and writing files (lines 120-121, 138): the dump is the `data` parameter and the output file is the returned byte sequence.
- The construct library: `UnitHeader.parse` is modelled by `UnitHeaderCodec.Decode` for the 68-byte layout declared at lines 7-26, not by the library's code.
- The `data[r + 6] == 57` ("in code") branch at lines 36-38 does nothing; `HeaderScan.FindUnitHeader` treats it like any other rejected link byte, resuming at `r + 7`.
- Replacement Map entries (low byte `0x60`, lines 72-75) are recognised but decoded to no address, as in the code.
- The two-unit end-to-end scenario is proved from the decoded units onwards (`Extractor.TwoUnitImage`); building the raw dump bytes that decode to those units is not modelled.
