/** Locating unit headers in a raw dump: `find_unitHeader` searches for the
    card-information-structure signature `13 03 'C' 'I' 'S' 'F'` and accepts a hit only
    when it is followed by a TPL_LINK byte and the FTL type identifier. */
module HeaderScan {
  import opened Wrappers
  import opened Bytes

  /** The six-byte signature searched for: `13 03 'C' 'I' 'S' 'F'`. */
  const Signature: seq<u8> := [0x13, 0x03, 0x43, 0x49, 0x53, 0x46]

  /** Link byte at signature + 6 marking a structured metadata link (TPL_LINK). */
  const TplLink: u8 := 0xFF

  /** The eight bytes required at signature + 7: `00 'FTL100' 00`. */
  const FtlIdentifier: seq<u8> := [0x00, 0x46, 0x54, 0x4C, 0x31, 0x30, 0x30, 0x00]

  predicate SignatureAt(data: seq<u8>, p: nat) {
    p + |Signature| <= |data| && data[p..p + |Signature|] == Signature
  }

  /** `p` is a header position `find_unitHeader` accepts when it inspects it. */
  predicate AcceptedAt(data: seq<u8>, p: nat) {
    && SignatureAt(data, p)
    && p + 15 <= |data|
    && data[p + 6] == TplLink
    && data[p + 7..p + 15] == FtlIdentifier
  }

  /** `q` is never inspected by a scan that starts at `start`: the signature six bytes
      before it was itself inspected and rejected, so the search resumed at `q + 1`.
      After an accepted header the scan resumes one byte past it instead, so a
      signature six bytes after an accepted one is not hidden. */
  predicate Shadowed(data: seq<u8>, start: nat, q: nat)
    decreases q
  {
    && q >= start + 6
    && SignatureAt(data, q - 6)
    && !AcceptedAt(data, q - 6)
    && !Shadowed(data, start, q - 6)
  }

  /** `q` is a signature that a scan from `start` looks at. */
  predicate Inspected(data: seq<u8>, start: nat, q: nat) {
    start <= q && SignatureAt(data, q) && !Shadowed(data, start, q)
  }

  /** `q` is a header that a scan from `start` finds: inspected and accepted. */
  predicate FoundAt(data: seq<u8>, start: nat, q: nat) {
    Inspected(data, start, q) && AcceptedAt(data, q)
  }

  /** The signature cannot overlap itself: no proper suffix of it is a prefix. */
  lemma SignatureDoesNotOverlap(data: seq<u8>, p: nat, q: nat)
    requires SignatureAt(data, p) && p < q < p + 6
    ensures !SignatureAt(data, q)
  {
    assert data[q] == data[p..p + 6][q - p] != Signature[0];
    assert q + 6 <= |data| ==> data[q..q + 6][0] == data[q];
  }

  /** `data.find(b"\x13\x03CISF", start)`: the lowest signature position at or after
      `start`, or None. */
  function FindSignature(data: seq<u8>, start: nat): (r: Option<nat>)
    decreases |data| - start
    ensures r.Some? ==> start <= r.value && SignatureAt(data, r.value)
    ensures r.Some? ==> forall p :: start <= p < r.value ==> !SignatureAt(data, p)
    ensures r.None? ==> forall p :: start <= p ==> !SignatureAt(data, p)
  {
    if start + |Signature| > |data| then None
    else if data[start..start + |Signature|] == Signature then Some(start)
    else FindSignature(data, start + 1)
  }

  /** Where a scan continues after inspecting the candidate at `p`: one byte past an
      accepted header (the loop of `main`), seven bytes past a rejected one
      (`find_unitHeader`). */
  function ResumeAt(data: seq<u8>, p: nat): nat {
    if AcceptedAt(data, p) then p + 1 else p + 7
  }

  /** Resuming after an inspected candidate changes nothing about what is inspected
      later: from the resume position on, the scan from `start` and the scan from the
      resume position hide the same signatures. */
  lemma ResumeAfter(data: seq<u8>, start: nat, p: nat, q: nat)
    requires Inspected(data, start, p) && ResumeAt(data, p) <= q
    ensures Shadowed(data, start, q) == Shadowed(data, ResumeAt(data, p), q)
    decreases q
  {
    var s2 := ResumeAt(data, p);
    if q >= s2 + 6 {
      ResumeAfter(data, start, p, q - 6);
    } else if q >= start + 6 && SignatureAt(data, q - 6) {
      if q - 6 < p {
        SignatureDoesNotOverlap(data, q - 6, p);
      } else if p < q - 6 < p + 6 {
        SignatureDoesNotOverlap(data, p, q - 6);
      } else if q - 6 == p + 6 {
        assert Shadowed(data, start, p + 6);
      }
    }
  }

  /** What `find_unitHeader(data, start)` returns, stated over the inspected signatures:
      the first header found; or -1 when none is found and no inspected signature ends
      the dump; or IndexError at an inspected signature that ends the dump, when no
      header was found before it. */
  ghost predicate SearchOutcome(data: seq<u8>, start: nat, r: Result<Option<nat>, Fault>) {
    match r
    case Success(Some(p)) =>
      FoundAt(data, start, p) && forall q: nat :: q < p ==> !FoundAt(data, start, q)
    case Success(None) =>
      && (forall q: nat :: !FoundAt(data, start, q))
      && (|data| >= 6 ==> !Inspected(data, start, |data| - 6))
    case Failure(e) =>
      && e.LinkByteOutOfRange? && e.at + 6 == |data| && Inspected(data, start, e.at)
      && forall q: nat :: q < e.at ==> !FoundAt(data, start, q)
  }

  /** `find_unitHeader(data, start)`. Success(None) is the `-1` return; a signature
      whose link byte lies past the end of the dump raises IndexError in the program,
      modelled as `LinkByteOutOfRange`. A rejected candidate at `p` resumes the search
      at `p + 7`, whatever its link byte was (the "in code" value 57 included).
      `FindUnitHeaderMeetsSpec` states what it computes. */
  function FindUnitHeader(data: seq<u8>, start: nat): Result<Option<nat>, Fault>
    decreases |data| - start
  {
    match FindSignature(data, start)
    case None => Success(None)
    case Some(p) =>
      if p + 6 >= |data| then Failure(LinkByteOutOfRange(p))
      else if data[p + 6] == TplLink && Slice(data, p + 7, p + 15) == FtlIdentifier then
        Success(Some(p))
      else
        FindUnitHeader(data, p + 7)
  }

  /** The search returns the first header a scan from `start` finds; or -1 when there
      is none and no inspected signature ends the dump; or raises at an inspected
      signature that ends the dump, when no header was found before it. */
  lemma {:induction false} FindUnitHeaderMeetsSpec(data: seq<u8>, start: nat)
    decreases |data| - start
    ensures SearchOutcome(data, start, FindUnitHeader(data, start))
  {
    match FindSignature(data, start)
    case None =>
      NoCandidate(data, start);
    case Some(p) =>
      FirstCandidate(data, start, p);
      if p + 6 >= |data| {
        CandidateEndsDump(data, start, p);
      } else if data[p + 6] == TplLink && Slice(data, p + 7, p + 15) == FtlIdentifier {
        CandidateAccepted(data, start, p);
      } else {
        FindUnitHeaderMeetsSpec(data, p + 7);
        CandidateRejected(data, start, p);
      }
  }

  /** No signature at or after `start`: nothing is inspected and the search returns -1. */
  lemma NoCandidate(data: seq<u8>, start: nat)
    requires FindSignature(data, start).None?
    ensures SearchOutcome(data, start, FindUnitHeader(data, start))
  {
  }

  /** The first signature `p` has no link byte: the search raises there. */
  lemma CandidateEndsDump(data: seq<u8>, start: nat, p: nat)
    requires FindSignature(data, start) == Some(p) && Inspected(data, start, p)
    requires p + 6 >= |data|
    ensures SearchOutcome(data, start, FindUnitHeader(data, start))
  {
    assert FindUnitHeader(data, start) == Failure(LinkByteOutOfRange(p));
  }

  /** The first signature `p` is followed by TPL_LINK and the identifier: it is found. */
  lemma CandidateAccepted(data: seq<u8>, start: nat, p: nat)
    requires FindSignature(data, start) == Some(p) && Inspected(data, start, p)
    requires p + 6 < |data| && data[p + 6] == TplLink && Slice(data, p + 7, p + 15) == FtlIdentifier
    ensures SearchOutcome(data, start, FindUnitHeader(data, start))
  {
    assert FindUnitHeader(data, start) == Success(Some(p));
    assert AcceptedAt(data, p);
  }

  /** The first signature `p` is rejected: the search from `start` ends as the search
      from `p + 7` does. */
  lemma CandidateRejected(data: seq<u8>, start: nat, p: nat)
    requires FindSignature(data, start) == Some(p) && Inspected(data, start, p)
    requires p + 6 < |data| && !(data[p + 6] == TplLink && Slice(data, p + 7, p + 15) == FtlIdentifier)
    requires SearchOutcome(data, p + 7, FindUnitHeader(data, p + 7))
    ensures SearchOutcome(data, start, FindUnitHeader(data, start))
  {
    assert !AcceptedAt(data, p);
    RejectedCandidate(data, start, p);
    assert FindUnitHeader(data, start) == FindUnitHeader(data, p + 7);
  }

  /** The first signature at or after `start` is inspected. */
  lemma FirstCandidate(data: seq<u8>, start: nat, p: nat)
    requires start <= p && SignatureAt(data, p)
    requires forall q :: start <= q < p ==> !SignatureAt(data, q)
    ensures Inspected(data, start, p)
  {
    if p >= start + 6 {
      assert !SignatureAt(data, p - 6);
    }
  }

  /** After the first signature `p` is rejected, the search from `p + 7` sees exactly
      what the search from `start` sees beyond `p`. */
  lemma RejectedCandidate(data: seq<u8>, start: nat, p: nat)
    requires Inspected(data, start, p) && !AcceptedAt(data, p)
    requires forall q :: start <= q < p ==> !SignatureAt(data, q)
    ensures forall q: nat :: FoundAt(data, start, q) == FoundAt(data, p + 7, q)
    ensures forall q: nat :: p < q ==> Inspected(data, start, q) == Inspected(data, p + 7, q)
  {
    forall q: nat | p < q
      ensures Inspected(data, start, q) == Inspected(data, p + 7, q)
    {
      if q < p + 6 {
        SignatureDoesNotOverlap(data, p, q);
      } else if q == p + 6 {
        assert Shadowed(data, start, p + 6);
      } else if p + 7 <= q {
        ResumeAfter(data, start, p, q);
      }
    }
    forall q: nat
      ensures FoundAt(data, start, q) == FoundAt(data, p + 7, q)
    {
      if start <= q < p {
        assert !SignatureAt(data, q);
      }
    }
  }

  /** `SearchOutcome` admits only the result `FindUnitHeader` computes: it is a complete
      description of the search. */
  lemma SearchOutcomeDetermines(data: seq<u8>, start: nat, r: Result<Option<nat>, Fault>)
    requires SearchOutcome(data, start, r)
    ensures r == FindUnitHeader(data, start)
  {
    FindUnitHeaderMeetsSpec(data, start);
  }

  /** With no signature at or after `start` the search ends with -1 and never raises. */
  lemma NoSignatureNoHeader(data: seq<u8>, start: nat)
    requires forall p :: start <= p ==> !SignatureAt(data, p)
    ensures FindUnitHeader(data, start) == Success(None)
  {
  }

  /** A concrete dump in which a valid header starts six bytes after a rejected
      signature: the search resumes one byte past it and reports no header at all. */
  lemma AdjacentHeaderIsSkipped()
    ensures var data := Signature + Signature + [TplLink] + FtlIdentifier;
      AcceptedAt(data, 6) && FindUnitHeader(data, 0) == Success(None)
  {
    var data := Signature + Signature + [TplLink] + FtlIdentifier;
    assert data[6..12] == Signature;
    assert data[13..21] == FtlIdentifier;
    assert AcceptedAt(data, 6);
    assert data[0..6] == Signature;
    assert FindSignature(data, 0) == Some(0);
    forall p | 7 <= p
      ensures !SignatureAt(data, p)
    {
      if p + 6 <= |data| {
        assert data[p..p + 6][0] == data[p];
        assert data[p] != 0x13;
      }
    }
    NoSignatureNoHeader(data, 7);
  }

  /** A concrete dump with three signatures in a row, the third a valid header: the
      first is rejected and hides the second, so the third is inspected and found. */
  lemma ThirdOfThreeIsFound()
    ensures var data := Signature + Signature + Signature + [TplLink] + FtlIdentifier;
      FindUnitHeader(data, 0) == Success(Some(12))
  {
    var data := Signature + Signature + Signature + [TplLink] + FtlIdentifier;
    assert data[0..6] == Signature;
    assert data[6..12] == Signature;
    assert data[12..18] == Signature;
    assert data[19..27] == FtlIdentifier;
    assert FindSignature(data, 0) == Some(0);
    assert !AcceptedAt(data, 0);
    forall p | 7 <= p < 12
      ensures !SignatureAt(data, p)
    {
      assert data[p..p + 6][0] == data[p] != 0x13;
    }
    assert SignatureAt(data, 12);
    assert FindSignature(data, 7) == Some(12);
    assert Slice(data, 19, 27) == data[19..27];
  }

  /** A concrete dump in which a header is accepted at 0 and a valid header at 21 is
      still missed: the accepted header hides nothing, but the rejected signature at 15
      hides the one six bytes after it, so the search that resumes at 1 finds nothing. */
  lemma HiddenAfterAcceptedHeader()
    ensures var data := Signature + [TplLink] + FtlIdentifier + Signature + Signature + [TplLink] + FtlIdentifier;
      && FoundAt(data, 0, 0) && AcceptedAt(data, 21) && Shadowed(data, 0, 21)
      && FindUnitHeader(data, 1) == Success(None)
  {
    var data := Signature + [TplLink] + FtlIdentifier + Signature + Signature + [TplLink] + FtlIdentifier;
    assert FoundAt(data, 0, 0) by {
      assert data[0..6] == Signature;
      assert data[7..15] == FtlIdentifier;
    }
    assert AcceptedAt(data, 21) && SignatureAt(data, 15) && !AcceptedAt(data, 15) by {
      assert data[15..21] == Signature;
      assert data[21..27] == Signature;
      assert data[28..36] == FtlIdentifier;
    }
    assert !SignatureAt(data, 9) by {
      assert data[9..15][0] == data[9] != 0x13;
    }
    assert Shadowed(data, 0, 21);
    SkipsHeaderAt21(data);
  }

  /** The search of `HiddenAfterAcceptedHeader` from offset 1: it inspects and rejects
      the signature at 15, resumes at 22 and finds no further signature. */
  lemma SkipsHeaderAt21(data: seq<u8>)
    requires data == Signature + [TplLink] + FtlIdentifier + Signature + Signature + [TplLink] + FtlIdentifier
    ensures FindUnitHeader(data, 1) == Success(None)
  {
    assert data[15..21] == Signature;
    forall p | 1 <= p < 15
      ensures !SignatureAt(data, p)
    {
      assert data[p..p + 6][0] == data[p] != 0x13;
    }
    assert SignatureAt(data, 15);
    assert FindSignature(data, 1) == Some(15);
    assert data[21] != TplLink;
    forall p | 22 <= p
      ensures !SignatureAt(data, p)
    {
      if p + 6 <= |data| {
        assert data[p..p + 6][0] == data[p] != 0x13;
      }
    }
    NoSignatureNoHeader(data, 22);
  }
}
