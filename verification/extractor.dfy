/** The scan-and-reconstruct logic of `main`, with the input file replaced by the dump's
    bytes and the output file by the byte sequence it ends up holding. */
module Extractor {
  import opened Wrappers
  import opened Bytes
  import opened HeaderScan
  import opened UnitHeaderCodec
  import opened UnitDecode
  import opened Volume
  import opened Image

  /** The unit whose header starts at `p`: the header is parsed from
      `data[p : p + 68]` and the unit's bytes are `data[p : p + unitSize]`, both
      clamped at the end of the dump. Parsing fails on a short header, or when the
      unit's bytes end before its block allocation map does. */
  function UnitAt(data: seq<u8>, p: nat): (r: Result<Unit, Fault>)
    ensures r.Failure? && r.error.ShortHeader? <==> p + HeaderSize > |data|
    ensures r.Failure? ==> r.error.ShortHeader? || r.error.ShortBamEntry?
    ensures r.Success? ==>
      && Decode(Slice(data, p, p + HeaderSize)) == Some(r.value.uh)
      && r.value.unitNo == r.value.uh.logicalUnitNo
      && r.value.unitData == Slice(data, p, p + Pow2(r.value.uh.log2UnitSize))
  {
    if p + HeaderSize > |data| then Failure(ShortHeader(p))
    else
      var uh := HeaderAt(data, p);
      ParseUnit(UnitBytes(data, p, uh), uh)
  }

  /** The header parsed from the 68 bytes at `p`; they are all there. */
  function HeaderAt(data: seq<u8>, p: nat): (uh: UnitHeader)
    requires p + HeaderSize <= |data|
    ensures Decode(Slice(data, p, p + HeaderSize)) == Some(uh)
  {
    var header := Slice(data, p, p + HeaderSize);
    assert |header| == HeaderSize;
    Decode(header).value
  }

  /** The bytes of the unit whose header at `p` is `uh`: `unitSize` bytes from `p`,
      clamped at the end of the dump. */
  function UnitBytes(data: seq<u8>, p: nat, uh: UnitHeader): seq<u8> {
    Slice(data, p, p + Pow2(uh.log2UnitSize))
  }

  /** When the header at `p` is complete, `UnitAt` fails exactly when some slot of the
      block allocation map lies past the end of the unit's bytes, the fault is then
      `ShortBamEntry`, and a unit it returns is the one those bytes parse to. */
  lemma UnitAtFaults(data: seq<u8>, p: nat)
    requires p + HeaderSize <= |data|
    ensures var uh := HeaderAt(data, p);
      && (UnitAt(data, p).Failure? <==> BamOverruns(|UnitBytes(data, p, uh)|, uh))
      && (UnitAt(data, p).Failure? ==> UnitAt(data, p).error.ShortBamEntry?)
      && UnitAt(data, p) == ParseUnit(UnitBytes(data, p, uh), uh)
  {
  }

  /** What the loop of `main` collects: the offsets of the accepted headers and the
      units decoded there, both in scan order. */
  datatype Scan = Scan(offsets: seq<nat>, units: seq<Unit>)

  /** `s` is a faithful record of a scan from `start`: its offsets increase, each is a
      header the scan finds whose unit was decoded into the matching entry of
      `s.units`, and every header the scan finds is listed. */
  ghost predicate ScannedFrom(data: seq<u8>, start: nat, s: Scan) {
    && |s.offsets| == |s.units|
    && StrictlyIncreasing(s.offsets)
    && (forall k :: 0 <= k < |s.offsets| ==>
          FoundAt(data, start, s.offsets[k]) && UnitAt(data, s.offsets[k]) == Success(s.units[k]))
    && (forall q: nat :: FoundAt(data, start, q) ==> q in s.offsets)
  }

  /** The scan from `start` raises `e` at the inspected signature `p`: the unit of the
      header found there fails to parse, or the signature ends the dump so its link
      byte is out of range. */
  ghost predicate RaisesAt(data: seq<u8>, start: nat, p: nat, e: Fault) {
    || (FoundAt(data, start, p) && UnitAt(data, p) == Failure(e))
    || (Inspected(data, start, p) && p + 6 == |data| && e == LinkByteOutOfRange(p))
  }

  /** `p` raises `e` and is the first place that raises: every header found before it
      decodes. */
  ghost predicate FirstFault(data: seq<u8>, start: nat, p: nat, e: Fault) {
    && RaisesAt(data, start, p, e)
    && forall q: nat :: q < p && FoundAt(data, start, q) ==> UnitAt(data, q).Success?
  }

  /** The loop of `main` from scan position `start`: find the next header, decode its
      unit, and resume the search one byte after the header. Any exception aborts.
      `ScanUnitsMeetsSpec` states what it computes. */
  function ScanUnits(data: seq<u8>, start: nat): Result<Scan, Fault>
    decreases |data| - start
  {
    match FindUnitHeader(data, start)
    case Failure(e) => Failure(e)
    case Success(None) => Success(Scan([], []))
    case Success(Some(p)) =>
      FirstFound(data, start, p);
      match UnitAt(data, p)
      case Failure(e) => Failure(e)
      case Success(u) =>
        match ScanUnits(data, p + 1)
        case Failure(e) => Failure(e)
        case Success(rest) => Success(Prepend(p, u, rest))
  }

  /** The record `rest` with the header at `p` and its unit `u` in front. */
  function Prepend(p: nat, u: Unit, rest: Scan): Scan {
    Scan([p] + rest.offsets, [u] + rest.units)
  }

  /** What a scan from `start` yields: on success, a record of every header found and
      its unit, with no signature ending the dump inspected; on failure, the fault of
      the first place that raises. */
  ghost predicate ScanOutcome(data: seq<u8>, start: nat, r: Result<Scan, Fault>) {
    match r
    case Success(s) =>
      ScannedFrom(data, start, s) && (|data| >= 6 ==> !Inspected(data, start, |data| - 6))
    case Failure(e) =>
      exists p: nat :: FirstFault(data, start, p, e)
  }

  /** The loop of `main` records exactly the headers the scan finds, each with its unit,
      or stops with the fault of the first place that raises. */
  lemma {:induction false} ScanUnitsMeetsSpec(data: seq<u8>, start: nat)
    decreases |data| - start
    ensures ScanOutcome(data, start, ScanUnits(data, start))
  {
    var found := FindUnitHeader(data, start);
    if found.Success? && found.value.Some? && UnitAt(data, found.value.value).Success? {
      var p := found.value.value;
      FirstFound(data, start, p);
      ScanUnitsMeetsSpec(data, p + 1);
      AfterFirstUnit(data, start, p);
    } else {
      BeforeFirstUnit(data, start);
    }
  }

  /** The scan ends before a first unit is decoded: it records nothing or raises. */
  lemma BeforeFirstUnit(data: seq<u8>, start: nat)
    requires var found := FindUnitHeader(data, start);
      !(found.Success? && found.value.Some? && UnitAt(data, found.value.value).Success?)
    ensures ScanOutcome(data, start, ScanUnits(data, start))
  {
    match FindUnitHeader(data, start)
    case Failure(e) =>
      SearchFault(data, start, e);
    case Success(None) =>
      NothingFound(data, start);
    case Success(Some(p)) =>
      HeaderFault(data, start, p, UnitAt(data, p).error);
  }

  /** The scan decodes a first unit at `p` and goes on from `p + 1`. */
  lemma AfterFirstUnit(data: seq<u8>, start: nat, p: nat)
    requires FindUnitHeader(data, start) == Success(Some(p)) && UnitAt(data, p).Success?
    requires ScanOutcome(data, p + 1, ScanUnits(data, p + 1))
    ensures ScanOutcome(data, start, ScanUnits(data, start))
  {
    match ScanUnits(data, p + 1)
    case Failure(e) =>
      FaultAfterHeader(data, start, p, p + 1, e);
    case Success(rest) =>
      ScanStep(data, start, p, UnitAt(data, p).value, rest);
  }

  /** The search raised: so does the scan, at the signature that ends the dump. */
  lemma SearchFault(data: seq<u8>, start: nat, e: Fault)
    requires FindUnitHeader(data, start) == Failure(e)
    ensures ScanOutcome(data, start, ScanUnits(data, start))
  {
    FindUnitHeaderMeetsSpec(data, start);
    assert FirstFault(data, start, e.at, e);
  }

  /** The search found nothing: the scan records nothing. */
  lemma NothingFound(data: seq<u8>, start: nat)
    requires FindUnitHeader(data, start) == Success(None)
    ensures ScanOutcome(data, start, ScanUnits(data, start))
  {
    FindUnitHeaderMeetsSpec(data, start);
    assert ScanUnits(data, start) == Success(Scan([], []));
  }

  /** The first header found does not decode: the scan raises there. */
  lemma HeaderFault(data: seq<u8>, start: nat, p: nat, e: Fault)
    requires FindUnitHeader(data, start) == Success(Some(p)) && UnitAt(data, p) == Failure(e)
    ensures ScanOutcome(data, start, ScanUnits(data, start))
  {
    FindUnitHeaderMeetsSpec(data, start);
    assert FirstFault(data, start, p, e);
  }

  /** The header the search returns is the first one a scan from `start` finds. */
  lemma FirstFound(data: seq<u8>, start: nat, p: nat)
    requires FindUnitHeader(data, start) == Success(Some(p))
    ensures start <= p && FoundAt(data, start, p)
    ensures forall q: nat :: q < p ==> !FoundAt(data, start, q)
  {
    FindUnitHeaderMeetsSpec(data, start);
  }

  /** After the header found at `p` the scan from `p + 1` inspects and finds exactly
      what the scan from `start` inspects and finds beyond `p`. */
  lemma ResumeAfterHeader(data: seq<u8>, start: nat, p: nat)
    requires FoundAt(data, start, p)
    ensures forall q: nat :: p < q ==> Inspected(data, start, q) == Inspected(data, p + 1, q)
    ensures forall q: nat :: p < q ==> FoundAt(data, start, q) == FoundAt(data, p + 1, q)
  {
    forall q: nat | p < q
      ensures Inspected(data, start, q) == Inspected(data, p + 1, q)
    {
      ResumeAfter(data, start, p, q);
    }
  }

  /** The scan decodes the header found at `p` and the scan from `p + 1` raises: the
      whole scan raises the same fault. */
  lemma FaultAfterHeader(data: seq<u8>, start: nat, p: nat, next: nat, e: Fault)
    requires FindUnitHeader(data, start) == Success(Some(p)) && UnitAt(data, p).Success?
    requires next == p + 1 && ScanUnits(data, next) == Failure(e)
    requires ScanOutcome(data, next, Failure(e))
    ensures ScanOutcome(data, start, ScanUnits(data, start))
  {
    var p': nat :| FirstFault(data, next, p', e);
    FirstFaultAfterHeader(data, start, p, next, p', e);
    UnfoldToFault(data, start, p, e);
  }

  /** A first fault of the scan from `p + 1` is a first fault of the scan from `start`
      when the header found at `p` decoded. */
  lemma FirstFaultAfterHeader(data: seq<u8>, start: nat, p: nat, next: nat, p': nat, e: Fault)
    requires FindUnitHeader(data, start) == Success(Some(p)) && UnitAt(data, p).Success?
    requires next == p + 1 && FirstFault(data, next, p', e)
    ensures FirstFault(data, start, p', e)
  {
    FirstFound(data, start, p);
    ResumeAfterHeader(data, start, p);
    assert Inspected(data, next, p');
    assert RaisesAt(data, start, p', e);
    forall q: nat | q < p' && FoundAt(data, start, q)
      ensures UnitAt(data, q).Success?
    {
      if q > p {
        assert FoundAt(data, next, q);
      } else if q < p {
        assert false;
      }
    }
  }

  /** The scan decodes the header found at `p` and the scan from `p + 1` succeeds: the
      whole scan succeeds with `p` and its unit in front. */
  lemma ScanStep(data: seq<u8>, start: nat, p: nat, u: Unit, rest: Scan)
    requires FindUnitHeader(data, start) == Success(Some(p)) && UnitAt(data, p) == Success(u)
    requires ScanUnits(data, p + 1) == Success(rest)
    requires ScanOutcome(data, p + 1, Success(rest))
    ensures ScanOutcome(data, start, ScanUnits(data, start))
  {
    ScanStepRecord(data, start, p, u, rest);
    UnfoldToStep(data, start, p, u, rest);
  }

  /** One turn of the loop that raises later: once the header found at `p` decodes,
      a fault of the scan from `p + 1` is the fault of the scan from `start`. */
  lemma UnfoldToFault(data: seq<u8>, start: nat, p: nat, e: Fault)
    requires FindUnitHeader(data, start) == Success(Some(p)) && UnitAt(data, p).Success?
    requires ScanUnits(data, p + 1) == Failure(e)
    ensures ScanUnits(data, start) == Failure(e)
  {
  }

  /** One turn of the loop that goes on: once the header found at `p` decodes to `u`,
      the scan from `start` is the scan from `p + 1` with `p` and `u` in front. */
  lemma UnfoldToStep(data: seq<u8>, start: nat, p: nat, u: Unit, rest: Scan)
    requires FindUnitHeader(data, start) == Success(Some(p)) && UnitAt(data, p) == Success(u)
    requires ScanUnits(data, p + 1) == Success(rest)
    ensures ScanUnits(data, start) == Success(Prepend(p, u, rest))
  {
  }

  lemma ScanStepRecord(data: seq<u8>, start: nat, p: nat, u: Unit, rest: Scan)
    requires FindUnitHeader(data, start) == Success(Some(p)) && UnitAt(data, p) == Success(u)
    requires ScanOutcome(data, p + 1, Success(rest))
    ensures ScanOutcome(data, start, Success(Prepend(p, u, rest)))
  {
    FirstFound(data, start, p);
    ResumeAfterHeader(data, start, p);
    ScanStepUnits(data, start, p, u, rest);
    ScanStepListed(data, start, p, rest.offsets);
  }

  lemma ScanStepUnits(data: seq<u8>, start: nat, p: nat, u: Unit, rest: Scan)
    requires FoundAt(data, start, p) && UnitAt(data, p) == Success(u)
    requires forall q: nat :: p < q ==> FoundAt(data, start, q) == FoundAt(data, p + 1, q)
    requires |rest.offsets| == |rest.units| && StrictlyIncreasing(rest.offsets)
    requires forall k :: 0 <= k < |rest.offsets| ==>
      FoundAt(data, p + 1, rest.offsets[k]) && UnitAt(data, rest.offsets[k]) == Success(rest.units[k])
    ensures var r := Scan([p] + rest.offsets, [u] + rest.units);
      && |r.offsets| == |r.units| && StrictlyIncreasing(r.offsets)
      && forall k :: 0 <= k < |r.offsets| ==>
           FoundAt(data, start, r.offsets[k]) && UnitAt(data, r.offsets[k]) == Success(r.units[k])
  {
    ConsOffsets(data, start, p, rest.offsets);
    ConsUnits(data, p, u, rest.offsets, rest.units);
  }

  lemma ConsOffsets(data: seq<u8>, start: nat, p: nat, offsets: seq<nat>)
    requires FoundAt(data, start, p) && StrictlyIncreasing(offsets)
    requires forall q: nat :: p < q ==> FoundAt(data, start, q) == FoundAt(data, p + 1, q)
    requires forall k :: 0 <= k < |offsets| ==> FoundAt(data, p + 1, offsets[k])
    ensures StrictlyIncreasing([p] + offsets)
    ensures forall k :: 0 <= k < |[p] + offsets| ==> FoundAt(data, start, ([p] + offsets)[k])
  {
    assert forall k :: 0 < k < |[p] + offsets| ==> ([p] + offsets)[k] == offsets[k - 1];
  }

  lemma ConsUnits(data: seq<u8>, p: nat, u: Unit, offsets: seq<nat>, units: seq<Unit>)
    requires UnitAt(data, p) == Success(u) && |offsets| == |units|
    requires forall k :: 0 <= k < |offsets| ==> UnitAt(data, offsets[k]) == Success(units[k])
    ensures forall k :: 0 <= k < |[p] + offsets| ==> UnitAt(data, ([p] + offsets)[k]) == Success(([u] + units)[k])
  {
    var decodes := (q: nat, v: Unit) => UnitAt(data, q) == Success(v);
    ConsPointwise(decodes, p, u, offsets, units);
  }

  /** A relation that holds pointwise between two sequences still does after one more
      related pair is put in front of both. */
  lemma ConsPointwise<A, B>(rel: (A, B) -> bool, x: A, y: B, xs: seq<A>, ys: seq<B>)
    requires rel(x, y) && |xs| == |ys|
    requires forall k :: 0 <= k < |xs| ==> rel(xs[k], ys[k])
    ensures forall k :: 0 <= k < |xs| + 1 ==> rel(([x] + xs)[k], ([y] + ys)[k])
  {
    forall k | 0 <= k < |xs| + 1
      ensures rel(([x] + xs)[k], ([y] + ys)[k])
    {
      if k > 0 {
        assert ([x] + xs)[k] == xs[k - 1] && ([y] + ys)[k] == ys[k - 1];
      }
    }
  }

  lemma ScanStepListed(data: seq<u8>, start: nat, p: nat, offsets: seq<nat>)
    requires forall q: nat :: q < p ==> !FoundAt(data, start, q)
    requires forall q: nat :: p < q ==> FoundAt(data, start, q) == FoundAt(data, p + 1, q)
    requires forall q: nat :: FoundAt(data, p + 1, q) ==> q in offsets
    ensures forall q: nat :: FoundAt(data, start, q) ==> q in [p] + offsets
  {
    forall q: nat | FoundAt(data, start, q)
      ensures q in [p] + offsets
    {
      if q > p {
        assert FoundAt(data, p + 1, q);
      }
    }
  }

  /** A scan aborts exactly when some inspected signature raises. */
  lemma ScanFailsIffSomethingRaises(data: seq<u8>, start: nat)
    ensures ScanUnits(data, start).Failure? <==> exists p: nat, e :: RaisesAt(data, start, p, e)
  {
    ScanUnitsMeetsSpec(data, start);
    var r := ScanUnits(data, start);
    if r.Success? {
      forall p: nat, e: Fault
        ensures !RaisesAt(data, start, p, e)
      {
        CompleteScanRaisesNothing(data, start, r.value, p, e);
      }
    } else {
      var p: nat :| FirstFault(data, start, p, r.error);
      assert RaisesAt(data, start, p, r.error);
    }
  }

  /** A scan that records every header found, each decoded, with no signature ending
      the dump inspected, leaves no place that raises. */
  lemma CompleteScanRaisesNothing(data: seq<u8>, start: nat, s: Scan, p: nat, e: Fault)
    requires ScanOutcome(data, start, Success(s))
    ensures !RaisesAt(data, start, p, e)
  {
    if FoundAt(data, start, p) {
      var k :| 0 <= k < |s.offsets| && s.offsets[k] == p;
      assert UnitAt(data, s.offsets[k]) == Success(s.units[k]);
    }
  }

  /** Every unit a scan decodes is numbered by its own header's logical unit number, as
      the volume requires. */
  lemma ScannedUnitsNumbered(data: seq<u8>, start: nat, s: Scan)
    requires ScannedFrom(data, start, s)
    ensures forall i :: 0 <= i < |s.units| ==> s.units[i].unitNo == s.units[i].uh.logicalUnitNo
  {
    forall i | 0 <= i < |s.units|
      ensures s.units[i].unitNo == s.units[i].uh.logicalUnitNo
    {
      assert UnitAt(data, s.offsets[i]) == Success(s.units[i]);
    }
  }

  /** `mediumSize`: taken from the last header decoded, 0 when there was none. */
  function MediumSize(s: Scan): nat {
    if s.units == [] then 0 else s.units[|s.units| - 1].uh.virtualMediumSize
  }

  /** The whole run: scan every unit, add them to a volume, merge their sectors and
      write the image. The result is the content of the output file, or the fault that
      aborted the run. */
  function Extract(data: seq<u8>): (r: Result<seq<u8>, Fault>)
    ensures r.Failure? <==> exists p: nat, e :: RaisesAt(data, 0, p, e)
    ensures r.Failure? ==> exists p: nat :: FirstFault(data, 0, p, r.error)
    ensures r.Success? ==> ScanUnits(data, 0).Success?
    ensures r.Success? && ScanUnits(data, 0).Success? ==>
      var scan := ScanUnits(data, 0).value;
      && ScannedFrom(data, 0, scan)
      && IsImage(r.value, GenMappedData(BuildVol(scan.units)), MediumSize(scan))
  {
    ScanUnitsMeetsSpec(data, 0);
    ScanFailsIffSomethingRaises(data, 0);
    match ScanUnits(data, 0)
    case Failure(e) => Failure(e)
    case Success(scan) =>
      ScannedUnitsNumbered(data, 0, scan);
      var vol := BuildVol(scan.units);
      Success(Reconstruct(GenMappedData(vol), MediumSize(scan)))
  }

  /** A dump without the header signature reconstructs to an empty image. */
  lemma NoSignatureEmptyImage(data: seq<u8>)
    requires forall p :: !SignatureAt(data, p)
    ensures Extract(data) == Success([])
  {
    NoSignatureNoHeader(data, 0);
    assert ScanUnits(data, 0) == Success(Scan([], []));
    assert BuildVol([]) == EmptyVol;
    assert GenMappedData(EmptyVol) == map[];
    ReconstructEmpty(0);
  }

  lemma TwoUnitReconstruct(u0: Unit, u1: Unit, a1: u32, p1: seq<u8>, a2: u32, p2: seq<u8>, mediumSize: nat)
    requires u0.unitNo == u0.uh.logicalUnitNo && u1.unitNo == u1.uh.logicalUnitNo
    requires u0.unitNo != u1.unitNo
    requires u0.mappedData == map[a1 := p1] && u1.mappedData == map[a2 := p2]
    ensures Reconstruct(GenMappedData(BuildVol([u0, u1])), mediumSize)
      == Reconstruct(map[a1 := p1, a2 := p2], mediumSize)
  {
    TwoSingleSectorUnits(u0, u1, a1, p1, a2, p2);
  }

  /** Two units with different numbers, each recovering one sector, whose sectors do
      not overlap and fit inside the medium: the output holds each sector at its
      address, is `mediumSize` bytes long, and is zero elsewhere. */
  lemma TwoUnitImage(u0: Unit, u1: Unit, a1: u32, p1: seq<u8>, a2: u32, p2: seq<u8>, mediumSize: nat)
    requires u0.unitNo == u0.uh.logicalUnitNo && u1.unitNo == u1.uh.logicalUnitNo
    requires u0.unitNo != u1.unitNo
    requires u0.mappedData == map[a1 := p1] && u1.mappedData == map[a2 := p2]
    requires a1 < a2 && a1 + |p1| <= a2 && a2 + |p2| <= mediumSize
    ensures HoldsTwoSectors(Reconstruct(GenMappedData(BuildVol([u0, u1])), mediumSize), a1, p1, a2, p2, mediumSize)
  {
    TwoUnitReconstruct(u0, u1, a1, p1, a2, p2, mediumSize);
    ReconstructTwoEntries(a1, p1, a2, p2, mediumSize);
  }
}
