/** Reconstruction of the logical volume image: a zero-filled file of `mediumSize`
    bytes into which every recovered sector is written at its logical address, in
    ascending address order, skipping addresses beyond `mediumSize`. */
module Image {
  import opened Bytes

  /** Address `a` is one of `keys`, has a payload in `m`, and is not skipped for lying
      beyond the medium (`addr > mediumSize` is skipped, `addr == mediumSize` is not). */
  predicate InRange(m: map<u32, seq<u8>>, keys: set<u32>, mediumSize: nat, a: u32) {
    a in keys && a in m && a <= mediumSize
  }

  /** Byte `i` of the image lies in the payload written at address `a`. */
  predicate Covers(m: map<u32, seq<u8>>, keys: set<u32>, mediumSize: nat, a: u32, i: int) {
    InRange(m, keys, mediumSize, a) && a <= i < a + |m[a]|
  }

  /** `a` is the highest address whose payload covers byte `i`; being written last,
      its payload is what byte `i` ends up holding. */
  ghost predicate Topmost(m: map<u32, seq<u8>>, keys: set<u32>, mediumSize: nat, a: u32, i: int) {
    Covers(m, keys, mediumSize, a, i) && forall b :: a < b ==> !Covers(m, keys, mediumSize, b, i)
  }

  /** `img` is the file obtained by writing the payloads of `keys`: it is at least
      `mediumSize` long and longer only as far as a payload reaches, each byte holds the
      payload of the highest address covering it, and bytes no payload covers are zero. */
  ghost predicate IsImageOf(img: seq<u8>, m: map<u32, seq<u8>>, keys: set<u32>, mediumSize: nat) {
    && |img| >= mediumSize
    && (forall a: u32 :: InRange(m, keys, mediumSize, a) ==> a + |m[a]| <= |img|)
    && (|img| > mediumSize ==> exists a: u32 :: InRange(m, keys, mediumSize, a) && a + |m[a]| == |img|)
    && (forall a, i :: Topmost(m, keys, mediumSize, a, i) ==> 0 <= i < |img| && img[i] == m[a][i - a])
    && (forall i :: 0 <= i < |img| && (forall a :: !Covers(m, keys, mediumSize, a, i)) ==> img[i] == 0)
  }

  /** `img` is the image of the whole merged mapping `m`. */
  ghost predicate IsImage(img: seq<u8>, m: map<u32, seq<u8>>, mediumSize: nat) {
    IsImageOf(img, m, m.Keys, mediumSize)
  }

  /** The least element of a non-empty set. */
  ghost function MinOf(s: set<u32>): (x: u32)
    requires s != {}
    ensures x in s && forall y :: y in s ==> x <= y
    decreases s
  {
    var z :| z in s;
    if s == {z} then z
    else
      var x := MinOf(s - {z});
      assert forall y :: y in s ==> y == z || y in s - {z};
      if z < x then z else x
  }

  /** `sorted(s)`: the addresses in ascending order. */
  function SortedKeys(s: set<u32>): (ks: seq<u32>)
    ensures StrictlyIncreasing(ks)
    ensures forall a :: a in ks <==> a in s
    decreases s
  {
    if s == {} then []
    else
      assert MinOf(s) in s && forall y :: y in s ==> MinOf(s) <= y;
      var x :| x in s && forall y :: y in s ==> x <= y;
      var rest := SortedKeys(s - {x});
      ConsLeast(s, x, rest);
      [x] + rest
  }

  /** Putting the least element of `s` in front of the sorted rest of `s` sorts `s`. */
  lemma ConsLeast(s: set<u32>, x: u32, rest: seq<u32>)
    requires x in s && forall y :: y in s ==> x <= y
    requires StrictlyIncreasing(rest) && forall a :: a in rest <==> a in s - {x}
    ensures StrictlyIncreasing([x] + rest)
    ensures forall a :: a in [x] + rest <==> a in s
  {
    forall i | 0 <= i < |rest|
      ensures x < rest[i]
    {
      assert rest[i] in s - {x};
    }
  }

  /** The output file after the `for addr in ...` loop has run over `ks`, starting
      from `mediumSize` zero bytes (`out.write(bytes(mediumSize))`). */
  function WriteAll(m: map<u32, seq<u8>>, mediumSize: nat, ks: seq<u32>): (img: seq<u8>)
    requires StrictlyIncreasing(ks) && forall i :: 0 <= i < |ks| ==> ks[i] in m
    ensures IsImageOf(img, m, Elems(ks), mediumSize)
  {
    if ks == [] then
      Zeros(mediumSize)
    else
      var init := ks[..|ks| - 1];
      var a := ks[|ks| - 1];
      var prev := WriteAll(m, mediumSize, init);
      LastIsGreatest(ks, init, a);
      if a > mediumSize then
        // the program logs "high virtual address in mapped data" and skips it
        SkipPreservesImage(prev, m, Elems(init), mediumSize, a);
        prev
      else
        var img := WriteAt(prev, a, m[a]);
        WritePreservesImage(prev, m, Elems(init), mediumSize, a, img);
        img
  }

  lemma LastIsGreatest(ks: seq<u32>, init: seq<u32>, a: u32)
    requires ks != [] && StrictlyIncreasing(ks)
    requires init == ks[..|ks| - 1] && a == ks[|ks| - 1]
    ensures Elems(ks) == Elems(init) + {a}
    ensures StrictlyIncreasing(init)
    ensures forall b :: b in Elems(init) ==> b < a
  {
    assert ks == init + [a];
  }

  lemma SkipPreservesImage(img: seq<u8>, m: map<u32, seq<u8>>, keys: set<u32>, mediumSize: nat, a: u32)
    requires IsImageOf(img, m, keys, mediumSize)
    requires a > mediumSize
    ensures IsImageOf(img, m, keys + {a}, mediumSize)
  {
    var keys' := keys + {a};
    assert forall b :: InRange(m, keys', mediumSize, b) <==> InRange(m, keys, mediumSize, b);
    assert forall b, i :: Covers(m, keys', mediumSize, b, i) <==> Covers(m, keys, mediumSize, b, i);
    if |img| > mediumSize {
      var b: u32 :| InRange(m, keys, mediumSize, b) && b + |m[b]| == |img|;
      assert InRange(m, keys', mediumSize, b);
    }
    forall b, i | Topmost(m, keys', mediumSize, b, i)
      ensures 0 <= i < |img| && img[i] == m[b][i - b]
    {
      assert Topmost(m, keys, mediumSize, b, i);
    }
  }

  lemma WritePreservesImage(prev: seq<u8>, m: map<u32, seq<u8>>, keys: set<u32>, mediumSize: nat, a: u32,
                            img: seq<u8>)
    requires IsImageOf(prev, m, keys, mediumSize)
    requires a in m && a <= mediumSize && forall b :: b in keys ==> b < a
    requires img == WriteAt(prev, a, m[a])
    ensures IsImageOf(img, m, keys + {a}, mediumSize)
  {
    var keys' := keys + {a};
    var p := m[a];
    if |img| > mediumSize && |img| != a + |p| {
      var b: u32 :| InRange(m, keys, mediumSize, b) && b + |m[b]| == |prev|;
      assert InRange(m, keys', mediumSize, b);
    }
    forall b, i | Topmost(m, keys', mediumSize, b, i)
      ensures 0 <= i < |img| && img[i] == m[b][i - b]
    {
      if b != a {
        assert !Covers(m, keys', mediumSize, a, i);
        assert Topmost(m, keys, mediumSize, b, i) by {
          forall c | b < c
            ensures !Covers(m, keys, mediumSize, c, i)
          {
            assert !Covers(m, keys', mediumSize, c, i);
          }
        }
      }
    }
    forall i | 0 <= i < |img| && (forall b :: !Covers(m, keys', mediumSize, b, i))
      ensures img[i] == 0
    {
      assert !Covers(m, keys', mediumSize, a, i);
      if i < |prev| {
        assert forall b :: !Covers(m, keys, mediumSize, b, i) by {
          forall b
            ensures !Covers(m, keys, mediumSize, b, i)
          {
            assert !Covers(m, keys', mediumSize, b, i);
          }
        }
      }
    }
  }

  /** The output file the program writes from the merged mapping `m`: addresses are
      visited in ascending order, so where payloads overlap the higher address wins. */
  function Reconstruct(m: map<u32, seq<u8>>, mediumSize: nat): (img: seq<u8>)
    ensures IsImage(img, m, mediumSize)
  {
    var ks := SortedKeys(m.Keys);
    assert Elems(ks) == m.Keys;
    WriteAll(m, mediumSize, ks)
  }

  /** The greatest element of a non-empty set. */
  ghost function MaxOf(s: set<u32>): (x: u32)
    requires s != {}
    ensures x in s && forall y :: y in s ==> y <= x
    decreases s
  {
    var z :| z in s;
    if s == {z} then z
    else
      var x := MaxOf(s - {z});
      assert forall y :: y in s ==> y == z || y in s - {z};
      if z > x then z else x
  }

  /** A byte that some payload covers has a highest covering address. */
  lemma TopmostExists(m: map<u32, seq<u8>>, keys: set<u32>, mediumSize: nat, a: u32, i: int)
    requires Covers(m, keys, mediumSize, a, i)
    ensures exists t :: Topmost(m, keys, mediumSize, t, i)
  {
    var c := set b | b in keys && Covers(m, keys, mediumSize, b, i);
    assert a in c;
    var t := MaxOf(c);
    assert forall b :: Covers(m, keys, mediumSize, b, i) ==> b in c;
    assert Topmost(m, keys, mediumSize, t, i);
  }

  /** The image of a mapping is unique: the properties of `IsImageOf` fix its length
      and every byte. */
  lemma ImageUnique(img1: seq<u8>, img2: seq<u8>, m: map<u32, seq<u8>>, keys: set<u32>, mediumSize: nat)
    requires IsImageOf(img1, m, keys, mediumSize) && IsImageOf(img2, m, keys, mediumSize)
    ensures img1 == img2
  {
    assert |img1| == |img2|;
    forall i | 0 <= i < |img1|
      ensures img1[i] == img2[i]
    {
      if a: u32 :| Covers(m, keys, mediumSize, a, i) {
        TopmostExists(m, keys, mediumSize, a, i);
        var t: u32 :| Topmost(m, keys, mediumSize, t, i);
        assert img1[i] == m[t][i - t] == img2[i];
      }
    }
  }

  /** An image depends only on the addresses that are written and on their payloads. */
  lemma ImageOfSameWrites(img: seq<u8>, m1: map<u32, seq<u8>>, keys1: set<u32>,
                          m2: map<u32, seq<u8>>, keys2: set<u32>, mediumSize: nat)
    requires IsImageOf(img, m1, keys1, mediumSize)
    requires forall b :: InRange(m1, keys1, mediumSize, b) ==> InRange(m2, keys2, mediumSize, b) && m1[b] == m2[b]
    requires forall b :: InRange(m2, keys2, mediumSize, b) ==> InRange(m1, keys1, mediumSize, b)
    ensures IsImageOf(img, m2, keys2, mediumSize)
  {
    assert forall b, i :: Covers(m1, keys1, mediumSize, b, i) <==> Covers(m2, keys2, mediumSize, b, i);
    if |img| > mediumSize {
      var b: u32 :| InRange(m1, keys1, mediumSize, b) && b + |m1[b]| == |img|;
      assert InRange(m2, keys2, mediumSize, b);
    }
    forall b, i | Topmost(m2, keys2, mediumSize, b, i)
      ensures 0 <= i < |img| && img[i] == m2[b][i - b]
    {
      assert Topmost(m1, keys1, mediumSize, b, i);
    }
  }

  /** An empty mapping yields exactly `mediumSize` zero bytes. */
  lemma ReconstructEmpty(mediumSize: nat)
    ensures Reconstruct(map[], mediumSize) == Zeros(mediumSize)
  {
    assert IsImageOf(Zeros(mediumSize), map[], {}, mediumSize);
    ImageUnique(Reconstruct(map[], mediumSize), Zeros(mediumSize), map[], {}, mediumSize);
  }

  /** An entry whose address exceeds `mediumSize` changes nothing in the output. */
  lemma ReconstructIgnoresHighAddress(m: map<u32, seq<u8>>, mediumSize: nat, a: u32)
    requires a in m && a > mediumSize
    ensures Reconstruct(m, mediumSize) == Reconstruct(m - {a}, mediumSize)
  {
    var m' := m - {a};
    var img := Reconstruct(m, mediumSize);
    ImageOfSameWrites(img, m, m.Keys, m', m'.Keys, mediumSize);
    ImageUnique(img, Reconstruct(m', mediumSize), m', m'.Keys, mediumSize);
  }

  /** One payload that fits inside the medium lands at its address; everything else
      stays zero and the output is exactly `mediumSize` bytes. */
  lemma ReconstructSingleEntry(a: u32, payload: seq<u8>, mediumSize: nat)
    requires a + |payload| <= mediumSize
    ensures var img := Reconstruct(map[a := payload], mediumSize);
      && |img| == mediumSize
      && img[a..a + |payload|] == payload
      && forall i :: 0 <= i < mediumSize && !(a <= i < a + |payload|) ==> img[i] == 0
  {
    var m := map[a := payload];
    var img := Reconstruct(m, mediumSize);
    assert |img| == mediumSize;
    forall i | a <= i < a + |payload|
      ensures img[i] == payload[i - a]
    {
      assert Topmost(m, m.Keys, mediumSize, a, i);
    }
  }

  /** When every written payload ends inside the medium, the image is exactly
      `mediumSize` bytes long. */
  lemma ImageWithinMedium(img: seq<u8>, m: map<u32, seq<u8>>, keys: set<u32>, mediumSize: nat)
    requires IsImageOf(img, m, keys, mediumSize)
    requires forall a: u32 :: InRange(m, keys, mediumSize, a) ==> a + |m[a]| <= mediumSize
    ensures |img| == mediumSize
  {
  }

  /** The image of two payloads that do not overlap and both fit inside the medium. */
  lemma TwoEntryImage(img: seq<u8>, a1: u32, p1: seq<u8>, a2: u32, p2: seq<u8>, mediumSize: nat)
    requires a1 < a2 && a1 + |p1| <= a2 && a2 + |p2| <= mediumSize
    requires IsImage(img, map[a1 := p1, a2 := p2], mediumSize)
    ensures |img| == mediumSize
    ensures forall i :: a1 <= i < a1 + |p1| ==> img[i] == p1[i - a1]
    ensures forall i :: a2 <= i < a2 + |p2| ==> img[i] == p2[i - a2]
    ensures forall i :: 0 <= i < mediumSize && !(a1 <= i < a1 + |p1|) && !(a2 <= i < a2 + |p2|) ==> img[i] == 0
  {
    var m := map[a1 := p1, a2 := p2];
    assert m.Keys == {a1, a2};
    ImageWithinMedium(img, m, m.Keys, mediumSize);
    forall i | a1 <= i < a1 + |p1|
      ensures img[i] == p1[i - a1]
    {
      assert Topmost(m, m.Keys, mediumSize, a1, i);
    }
    forall i | a2 <= i < a2 + |p2|
      ensures img[i] == p2[i - a2]
    {
      assert Topmost(m, m.Keys, mediumSize, a2, i);
    }
  }

  /** `img` is a `mediumSize`-byte file holding `p1` at `a1` and `p2` at `a2`, and
      zero everywhere else. */
  predicate HoldsTwoSectors(img: seq<u8>, a1: u32, p1: seq<u8>, a2: u32, p2: seq<u8>, mediumSize: nat) {
    && |img| == mediumSize
    && a1 + |p1| <= mediumSize && img[a1..a1 + |p1|] == p1
    && a2 + |p2| <= mediumSize && img[a2..a2 + |p2|] == p2
    && forall i :: 0 <= i < mediumSize && !(a1 <= i < a1 + |p1|) && !(a2 <= i < a2 + |p2|) ==> img[i] == 0
  }

  /** Two payloads that do not overlap and both fit inside the medium each land at
      their address; every other byte is zero and the output is `mediumSize` bytes. */
  lemma ReconstructTwoEntries(a1: u32, p1: seq<u8>, a2: u32, p2: seq<u8>, mediumSize: nat)
    requires a1 < a2 && a1 + |p1| <= a2 && a2 + |p2| <= mediumSize
    ensures HoldsTwoSectors(Reconstruct(map[a1 := p1, a2 := p2], mediumSize), a1, p1, a2, p2, mediumSize)
  {
    var img := Reconstruct(map[a1 := p1, a2 := p2], mediumSize);
    TwoEntryImage(img, a1, p1, a2, p2, mediumSize);
    assert img[a1..a1 + |p1|] == p1;
    assert img[a2..a2 + |p2|] == p2;
  }
}
