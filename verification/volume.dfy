/** The logical volume (`Vol`): decoded units keyed by logical unit number, and the
    merge of their recovered sectors into one address space (`gen_mapped_data`). */
module Volume {
  import opened Bytes
  import opened UnitDecode

  /** A Python dict from unit number to unit. The dict iterates its keys in the order
      they were first inserted, and overwriting a key keeps its position, so the model
      keeps that order next to the map. */
  datatype Vol = Vol(order: seq<u16>, units: map<u16, Unit>)

  predicate Distinct(s: seq<u16>) {
    forall i, j :: 0 <= i < j < |s| ==> s[i] != s[j]
  }

  ghost predicate Valid(v: Vol) {
    && Distinct(v.order)
    && (forall k :: k in v.units <==> k in v.order)
    && (forall k :: k in v.units ==> v.units[k].unitNo == k)
  }

  /** `Vol()`: no units. */
  const EmptyVol: Vol := Vol([], map[])

  /** `add_unit(unit)`: stores `unit` under its number. A number seen before keeps its
      place in the iteration order and its old unit is replaced (the program logs a
      warning); a new number goes last. */
  function AddUnit(v: Vol, u: Unit): (r: Vol)
    requires Valid(v) && u.unitNo == u.uh.logicalUnitNo
    ensures Valid(r)
    ensures u.unitNo in r.units && r.units[u.unitNo] == u
    ensures forall k :: k != u.unitNo ==>
      (k in r.units <==> k in v.units) && (k in v.units ==> r.units[k] == v.units[k])
    ensures |r.order| == if u.unitNo in v.units then |v.order| else |v.order| + 1
    ensures |v.order| <= |r.order| && r.order[..|v.order|] == v.order
  {
    if u.unitNo in v.units then Vol(v.order, v.units[u.unitNo := u])
    else Vol(v.order + [u.unitNo], v.units[u.unitNo := u])
  }

  lemma {:induction false} DistinctCardinality(s: seq<u16>)
    requires Distinct(s)
    ensures |Elems(s)| == |s|
  {
    if s != [] {
      var init := s[..|s| - 1];
      assert Distinct(init);
      DistinctCardinality(init);
      assert s == init + [s[|s| - 1]];
      assert s[|s| - 1] !in Elems(init);
      assert Elems(s) == Elems(init) + {s[|s| - 1]};
    }
  }

  /** `len(vol)`: the number of distinct unit numbers stored. */
  function Len(v: Vol): (n: nat)
    requires Valid(v)
    ensures n == |v.units|
  {
    DistinctCardinality(v.order);
    assert v.units.Keys == Elems(v.order);
    |v.order|
  }

  /** Unit numbers in scan order. */
  function UnitNos(us: seq<Unit>): (s: seq<u16>)
    ensures |s| == |us| && forall i :: 0 <= i < |us| ==> s[i] == us[i].unitNo
  {
    seq(|us|, i requires 0 <= i < |us| => us[i].unitNo)
  }

  /** Position of the first occurrence of `k` in `s`. */
  function FirstIndex(s: seq<u16>, k: u16): (i: nat)
    requires k in s
    ensures i < |s| && s[i] == k && forall j :: 0 <= j < i ==> s[j] != k
  {
    if s[0] == k then 0 else 1 + FirstIndex(s[1..], k)
  }

  lemma FirstIndexAppend(s: seq<u16>, x: u16, k: u16)
    requires k in s
    ensures FirstIndex(s + [x], k) == FirstIndex(s, k)
  {
    var i, i' := FirstIndex(s, k), FirstIndex(s + [x], k);
    assert (s + [x])[i] == k;
    assert s[i'] == k;
  }

  /** Units found by a scan, added one after another to an empty volume. */
  function BuildVol(us: seq<Unit>): (v: Vol)
    requires forall i :: 0 <= i < |us| ==> us[i].unitNo == us[i].uh.logicalUnitNo
    ensures Valid(v)
    ensures forall k :: k in v.units <==> k in UnitNos(us)
    ensures forall i :: (0 <= i < |us| && (forall j :: i < j < |us| ==> us[j].unitNo != us[i].unitNo)
      ==> v.units[us[i].unitNo] == us[i])
    ensures forall p, q :: 0 <= p < q < |v.order| ==>
      FirstIndex(UnitNos(us), v.order[p]) < FirstIndex(UnitNos(us), v.order[q])
  {
    if us == [] then EmptyVol
    else
      var prev := BuildVol(us[..|us| - 1]);
      var v := AddUnit(prev, us[|us| - 1]);
      BuildVolStep(us, prev, v);
      v
  }

  lemma BuildVolStep(us: seq<Unit>, prev: Vol, v: Vol)
    requires us != []
    requires forall i :: 0 <= i < |us| ==> us[i].unitNo == us[i].uh.logicalUnitNo
    requires var init := us[..|us| - 1];
      && Valid(prev)
      && (forall k :: k in prev.units <==> k in UnitNos(init))
      && (forall i :: (0 <= i < |init| && (forall j :: i < j < |init| ==> init[j].unitNo != init[i].unitNo)
            ==> prev.units[init[i].unitNo] == init[i]))
      && (forall p, q :: 0 <= p < q < |prev.order| ==>
            FirstIndex(UnitNos(init), prev.order[p]) < FirstIndex(UnitNos(init), prev.order[q]))
    requires v == AddUnit(prev, us[|us| - 1])
    ensures forall k :: k in v.units <==> k in UnitNos(us)
    ensures forall i :: (0 <= i < |us| && (forall j :: i < j < |us| ==> us[j].unitNo != us[i].unitNo)
      ==> v.units[us[i].unitNo] == us[i])
    ensures forall p, q :: 0 <= p < q < |v.order| ==>
      FirstIndex(UnitNos(us), v.order[p]) < FirstIndex(UnitNos(us), v.order[q])
  {
    var init := us[..|us| - 1];
    BuildVolKeys(us, init, prev, v);
    BuildVolLatest(us, init, prev, v);
    BuildVolOrderStep(us, init, prev, v);
  }

  /** Adding the last unit stores exactly the numbers of all units so far. */
  lemma BuildVolKeys(us: seq<Unit>, init: seq<Unit>, prev: Vol, v: Vol)
    requires us != [] && init == us[..|us| - 1]
    requires us[|us| - 1].unitNo == us[|us| - 1].uh.logicalUnitNo && Valid(prev)
    requires forall k :: k in prev.units <==> k in UnitNos(init)
    requires v == AddUnit(prev, us[|us| - 1])
    ensures forall k :: k in v.units <==> k in UnitNos(us)
  {
    assert UnitNos(us) == UnitNos(init) + [us[|us| - 1].unitNo];
  }

  /** Adding the last unit keeps, for every earlier unit not overwritten later, the unit
      stored under its number. */
  lemma BuildVolLatest(us: seq<Unit>, init: seq<Unit>, prev: Vol, v: Vol)
    requires us != [] && init == us[..|us| - 1]
    requires us[|us| - 1].unitNo == us[|us| - 1].uh.logicalUnitNo && Valid(prev)
    requires forall k :: k in prev.units <==> k in UnitNos(init)
    requires forall i :: (0 <= i < |init| && (forall j :: i < j < |init| ==> init[j].unitNo != init[i].unitNo)
      ==> prev.units[init[i].unitNo] == init[i])
    requires v == AddUnit(prev, us[|us| - 1])
    requires forall k :: k in v.units <==> k in UnitNos(us)
    ensures forall i :: (0 <= i < |us| && (forall j :: i < j < |us| ==> us[j].unitNo != us[i].unitNo)
      ==> v.units[us[i].unitNo] == us[i])
  {
    forall i | 0 <= i < |us| && (forall j :: i < j < |us| ==> us[j].unitNo != us[i].unitNo)
      ensures v.units[us[i].unitNo] == us[i]
    {
      if i < |init| {
        LastOfPrefix(us, i);
      }
    }
  }

  /** Adding the last unit keeps the volume's numbers in the order they were first seen. */
  lemma BuildVolOrderStep(us: seq<Unit>, init: seq<Unit>, prev: Vol, v: Vol)
    requires us != [] && init == us[..|us| - 1]
    requires us[|us| - 1].unitNo == us[|us| - 1].uh.logicalUnitNo && Valid(prev)
    requires forall k :: k in prev.units <==> k in UnitNos(init)
    requires forall p, q :: 0 <= p < q < |prev.order| ==>
      FirstIndex(UnitNos(init), prev.order[p]) < FirstIndex(UnitNos(init), prev.order[q])
    requires v == AddUnit(prev, us[|us| - 1])
    ensures forall k :: k in v.order ==> k in UnitNos(us)
    ensures forall p, q :: 0 <= p < q < |v.order| ==>
      FirstIndex(UnitNos(us), v.order[p]) < FirstIndex(UnitNos(us), v.order[q])
  {
    var x := us[|us| - 1].unitNo;
    assert UnitNos(us) == UnitNos(init) + [x];
    assert v.order == prev.order || (x !in UnitNos(init) && v.order == prev.order + [x]);
    BuildVolOrder(UnitNos(init), x, prev.order, v.order);
  }

  lemma LastOfPrefix(us: seq<Unit>, i: int)
    requires 0 <= i < |us| - 1
    requires forall j :: i < j < |us| ==> us[j].unitNo != us[i].unitNo
    ensures var init := us[..|us| - 1];
      forall j :: i < j < |init| ==> init[j].unitNo != init[i].unitNo
  {
  }

  lemma BuildVolOrder(nos: seq<u16>, x: u16, prev: seq<u16>, order: seq<u16>)
    requires forall k :: k in prev ==> k in nos
    requires forall p, q :: 0 <= p < q < |prev| ==> FirstIndex(nos, prev[p]) < FirstIndex(nos, prev[q])
    requires order == prev || (x !in nos && order == prev + [x])
    ensures forall k :: k in order ==> k in nos + [x]
    ensures forall p, q :: 0 <= p < q < |order| ==>
      FirstIndex(nos + [x], order[p]) < FirstIndex(nos + [x], order[q])
  {
    forall p, q | 0 <= p < q < |order|
      ensures FirstIndex(nos + [x], order[p]) < FirstIndex(nos + [x], order[q])
    {
      assert order[p] == prev[p];
      FirstIndexAppend(nos, x, order[p]);
      if q < |prev| {
        assert order[q] == prev[q];
        FirstIndexAppend(nos, x, order[q]);
      } else {
        assert order[q] == x;
        assert (nos + [x])[|nos|] == x;
      }
    }
  }

  /** Address `a` is last held by `ms[i]`: no later map holds it. */
  ghost predicate LastHolder(ms: seq<map<u32, seq<u8>>>, a: u32, i: int) {
    0 <= i < |ms| && a in ms[i] && forall j :: i < j < |ms| ==> a !in ms[j]
  }

  /** `r = {}; for m in ms: r.update(m)`: the union of the maps, where an address
      present in several keeps the value of the last one. */
  function MergeMaps(ms: seq<map<u32, seq<u8>>>): (r: map<u32, seq<u8>>)
    ensures forall a :: a in r <==> exists i :: 0 <= i < |ms| && a in ms[i]
    ensures forall i, a :: LastHolder(ms, a, i) ==> a in r && r[a] == ms[i][a]
  {
    if ms == [] then map[]
    else
      var prev := MergeMaps(ms[..|ms| - 1]);
      var r := prev + ms[|ms| - 1];
      MergeStepDomain(ms, ms[..|ms| - 1], prev, r);
      MergeStepValues(ms, ms[..|ms| - 1], prev, r);
      r
  }

  lemma MergeStepDomain(ms: seq<map<u32, seq<u8>>>, init: seq<map<u32, seq<u8>>>,
                        prev: map<u32, seq<u8>>, r: map<u32, seq<u8>>)
    requires ms != [] && init == ms[..|ms| - 1]
    requires forall a :: a in prev <==> exists i :: 0 <= i < |init| && a in init[i]
    requires r.Keys == prev.Keys + ms[|ms| - 1].Keys
    ensures forall a :: a in r <==> exists i :: 0 <= i < |ms| && a in ms[i]
  {
    forall a | a in r
      ensures exists i :: 0 <= i < |ms| && a in ms[i]
    {
      if a in prev {
        var i :| 0 <= i < |init| && a in init[i];
        assert a in ms[i];
      } else {
        assert a in ms[|ms| - 1];
      }
    }
    forall a, i | 0 <= i < |ms| && a in ms[i]
      ensures a in r
    {
      if i < |init| {
        assert a in init[i];
      }
    }
  }

  lemma MergeStepValues(ms: seq<map<u32, seq<u8>>>, init: seq<map<u32, seq<u8>>>,
                        prev: map<u32, seq<u8>>, r: map<u32, seq<u8>>)
    requires ms != [] && init == ms[..|ms| - 1]
    requires forall a :: a in prev <==> exists i :: 0 <= i < |init| && a in init[i]
    requires forall i, a :: LastHolder(init, a, i) ==> a in prev && prev[a] == init[i][a]
    requires r == prev + ms[|ms| - 1]
    ensures forall i, a :: LastHolder(ms, a, i) ==> a in r && r[a] == ms[i][a]
  {
    forall i, a | LastHolder(ms, a, i)
      ensures a in r && r[a] == ms[i][a]
    {
      if i < |init| {
        assert LastHolder(init, a, i);
        assert a !in ms[|ms| - 1];
      }
    }
  }

  /** The units' maps in the volume's iteration order. */
  function UnitMaps(v: Vol): (ms: seq<map<u32, seq<u8>>>)
    requires Valid(v)
    ensures |ms| == |v.order|
    ensures forall p :: 0 <= p < |v.order| ==> ms[p] == v.units[v.order[p]].mappedData
  {
    seq(|v.order|, p requires 0 <= p < |v.order| => v.units[v.order[p]].mappedData)
  }

  /** `gen_mapped_data()`: every address recovered by some unit, holding the sector of
      the last unit, in iteration order, that recovered it. An address recovered by
      two units makes the program log a warning and nothing else. */
  function GenMappedData(v: Vol): (r: map<u32, seq<u8>>)
    requires Valid(v)
    ensures forall a :: a in r <==> exists k :: k in v.units && a in v.units[k].mappedData
    ensures forall p, a ::
      0 <= p < |v.order| && a in v.units[v.order[p]].mappedData
      && (forall q :: p < q < |v.order| ==> a !in v.units[v.order[q]].mappedData)
      ==> a in r && r[a] == v.units[v.order[p]].mappedData[a]
  {
    var ms := UnitMaps(v);
    var r := MergeMaps(ms);
    MergedDomain(v, ms, r);
    MergedValues(v, ms, r);
    r
  }

  lemma MergedDomain(v: Vol, ms: seq<map<u32, seq<u8>>>, r: map<u32, seq<u8>>)
    requires Valid(v) && ms == UnitMaps(v)
    requires forall a :: a in r <==> exists i :: 0 <= i < |ms| && a in ms[i]
    ensures forall a :: a in r <==> exists k :: k in v.units && a in v.units[k].mappedData
  {
    forall a, k | k in v.units && a in v.units[k].mappedData
      ensures a in r
    {
      var p :| 0 <= p < |v.order| && v.order[p] == k;
      assert a in ms[p];
    }
    forall a | a in r
      ensures exists k :: k in v.units && a in v.units[k].mappedData
    {
      var p :| 0 <= p < |ms| && a in ms[p];
      assert v.order[p] in v.units;
    }
  }

  lemma MergedValues(v: Vol, ms: seq<map<u32, seq<u8>>>, r: map<u32, seq<u8>>)
    requires Valid(v) && ms == UnitMaps(v)
    requires forall i, a :: LastHolder(ms, a, i) ==> a in r && r[a] == ms[i][a]
    ensures forall p, a ::
      0 <= p < |v.order| && a in v.units[v.order[p]].mappedData
      && (forall q :: p < q < |v.order| ==> a !in v.units[v.order[q]].mappedData)
      ==> a in r && r[a] == v.units[v.order[p]].mappedData[a]
  {
    forall p, a |
      0 <= p < |v.order| && a in v.units[v.order[p]].mappedData
      && (forall q :: p < q < |v.order| ==> a !in v.units[v.order[q]].mappedData)
      ensures a in r && r[a] == v.units[v.order[p]].mappedData[a]
    {
      assert LastHolder(ms, a, p);
    }
  }

  /** Total number of entries over a sequence of maps. */
  function SumSizes(ms: seq<map<u32, seq<u8>>>): nat {
    if ms == [] then 0 else SumSizes(ms[..|ms| - 1]) + |ms[|ms| - 1]|
  }

  ghost predicate PairwiseDisjoint(ms: seq<map<u32, seq<u8>>>) {
    forall i, j :: 0 <= i < j < |ms| ==> ms[i].Keys !! ms[j].Keys
  }

  /** Merging maps with pairwise-disjoint addresses loses no entry. */
  lemma {:induction false} MergeDisjointSize(ms: seq<map<u32, seq<u8>>>)
    requires PairwiseDisjoint(ms)
    ensures |MergeMaps(ms)| == SumSizes(ms)
  {
    if ms != [] {
      var init := ms[..|ms| - 1];
      var last := ms[|ms| - 1];
      assert PairwiseDisjoint(init);
      MergeDisjointSize(init);
      var m := MergeMaps(init);
      assert MergeMaps(ms) == m + last;
      assert m.Keys !! last.Keys;
      assert (m + last).Keys == m.Keys + last.Keys;
      assert |(m + last).Keys| == |m.Keys| + |last.Keys|;
    }
  }

  /** Two maps sharing exactly one address merge into one entry fewer than their
      sizes add up to, and the shared address keeps the second map's sector. */
  lemma MergeSharedAddress(m1: map<u32, seq<u8>>, m2: map<u32, seq<u8>>, a: u32)
    requires m1.Keys * m2.Keys == {a}
    ensures |MergeMaps([m1, m2])| == |m1| + |m2| - 1
    ensures MergeMaps([m1, m2])[a] == m2[a]
  {
    var r := MergeMaps([m1, m2]);
    assert LastHolder([m1, m2], a, 1);
    assert r.Keys == m1.Keys + m2.Keys by {
      forall b | b in r
        ensures b in m1.Keys + m2.Keys
      {
        var i :| 0 <= i < 2 && b in [m1, m2][i];
      }
      forall b | b in m1.Keys + m2.Keys
        ensures b in r
      {
        if b in m1 { assert b in [m1, m2][0]; } else { assert b in [m1, m2][1]; }
      }
    }
    assert |m1.Keys + m2.Keys| == |m1.Keys| + |m2.Keys| - |m1.Keys * m2.Keys|;
  }

  lemma OneUnitBuild(u0: Unit)
    requires u0.unitNo == u0.uh.logicalUnitNo
    ensures BuildVol([u0]) == Vol([u0.unitNo], map[u0.unitNo := u0])
  {
    assert [u0][..0] == [];
  }

  lemma BuildVolPair(u0: Unit, u1: Unit)
    requires u0.unitNo == u0.uh.logicalUnitNo && u1.unitNo == u1.uh.logicalUnitNo
    ensures BuildVol([u0, u1]) == AddUnit(BuildVol([u0]), u1)
  {
    assert [u0, u1][..1] == [u0];
  }

  lemma AddSecondUnit(u0: Unit, u1: Unit)
    requires u0.unitNo == u0.uh.logicalUnitNo && u1.unitNo == u1.uh.logicalUnitNo
    requires u0.unitNo != u1.unitNo
    ensures AddUnit(Vol([u0.unitNo], map[u0.unitNo := u0]), u1)
      == Vol([u0.unitNo, u1.unitNo], map[u0.unitNo := u0, u1.unitNo := u1])
  {
  }

  /** Two units with different numbers, added in that order, give a volume holding
      both, the first one first. */
  lemma TwoUnitBuild(u0: Unit, u1: Unit)
    requires u0.unitNo == u0.uh.logicalUnitNo && u1.unitNo == u1.uh.logicalUnitNo
    requires u0.unitNo != u1.unitNo
    ensures BuildVol([u0, u1]) == Vol([u0.unitNo, u1.unitNo], map[u0.unitNo := u0, u1.unitNo := u1])
  {
    OneUnitBuild(u0);
    BuildVolPair(u0, u1);
    AddSecondUnit(u0, u1);
  }

  lemma MergePair(m0: map<u32, seq<u8>>, m1: map<u32, seq<u8>>)
    ensures MergeMaps([m0, m1]) == m0 + m1
  {
    assert [m0, m1][..1] == [m0] && [m0][..0] == [];
    assert MergeMaps([m0]) == map[] + m0 == m0;
  }

  lemma PairMappedData(u0: Unit, u1: Unit)
    requires u0.unitNo == u0.uh.logicalUnitNo && u1.unitNo == u1.uh.logicalUnitNo
    requires u0.unitNo != u1.unitNo
    ensures var v := Vol([u0.unitNo, u1.unitNo], map[u0.unitNo := u0, u1.unitNo := u1]);
      Valid(v) && GenMappedData(v) == u0.mappedData + u1.mappedData
  {
    var v := Vol([u0.unitNo, u1.unitNo], map[u0.unitNo := u0, u1.unitNo := u1]);
    assert UnitMaps(v) == [u0.mappedData, u1.mappedData];
    MergePair(u0.mappedData, u1.mappedData);
  }

  /** Two units with different numbers, scanned in that order: the merged mapping is
      the first unit's mapping updated with the second's. */
  lemma TwoUnitVolume(u0: Unit, u1: Unit)
    requires u0.unitNo == u0.uh.logicalUnitNo && u1.unitNo == u1.uh.logicalUnitNo
    requires u0.unitNo != u1.unitNo
    ensures GenMappedData(BuildVol([u0, u1])) == u0.mappedData + u1.mappedData
  {
    TwoUnitBuild(u0, u1);
    PairMappedData(u0, u1);
  }

  lemma UnionOfSingletons(m0: map<u32, seq<u8>>, m1: map<u32, seq<u8>>, a1: u32, p1: seq<u8>, a2: u32, p2: seq<u8>)
    requires m0 == map[a1 := p1] && m1 == map[a2 := p2]
    ensures m0 + m1 == map[a1 := p1, a2 := p2]
  {
  }

  /** Two units with different numbers, each recovering a single sector: the merged
      mapping holds exactly those two sectors, the second unit's winning a shared address. */
  lemma TwoSingleSectorUnits(u0: Unit, u1: Unit, a1: u32, p1: seq<u8>, a2: u32, p2: seq<u8>)
    requires u0.unitNo == u0.uh.logicalUnitNo && u1.unitNo == u1.uh.logicalUnitNo
    requires u0.unitNo != u1.unitNo
    requires u0.mappedData == map[a1 := p1] && u1.mappedData == map[a2 := p2]
    ensures GenMappedData(BuildVol([u0, u1])) == map[a1 := p1, a2 := p2]
  {
    TwoUnitVolume(u0, u1);
    UnionOfSingletons(u0.mappedData, u1.mappedData, a1, p1, a2, p2);
  }
}
