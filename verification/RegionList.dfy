/**
 The region allocator of include/nul/region.h: `find`, `del`, `add` and `alloc` on an
 array of regions that is split, trimmed and closed up in place.

 A list of regions means a partial map from virtual to physical addresses
 (`Translate`). `Del` is proved against a function on lists (`DelSpec`), and that one, `Add`
 and `Alloc` against the map.
 */
module RegionList {
  import opened Common

  datatype Region = Region(virt: u64, size: u64, phys: u64)

  /** The address after the region. */
  function End(r: Region): int { r.virt + r.size }

  /** The region is not empty and its end is representable. */
  predicate NoWrap(r: Region) {
    r.size > 0 && End(r) < 0x1_0000_0000_0000_0000
  }

  predicate EndFits(r: Region) { End(r) < 0x1_0000_0000_0000_0000 }

  predicate InSpace(r: Region) { End(r) <= 0x1_0000_0000_0000_0000 }

  /** `end()` of the source: 0 for a range that reaches the end of the address space. */
  function WrappedEnd(r: Region): u64
    requires InSpace(r)
  {
    if EndFits(r) then End(r) else 0
  }

  lemma EndWraps(r: Region)
    requires InSpace(r)
    ensures WrappedEnd(r) == Wrap64(End(r))
  {
    WrapInSpace(End(r));
  }

  lemma WrapInSpace(x: nat)
    requires x <= 0x1_0000_0000_0000_0000
    ensures Wrap64(x) == if x < 0x1_0000_0000_0000_0000 then x else 0
  {
  }

  predicate Covers(r: Region, a: int) { r.virt <= a < End(r) }

  /** Physical address of `a` in region `r`. */
  function PhysAt(r: Region, a: int): u64 { Wrap64(r.phys + a - r.virt) }

  predicate Disjoint(r: Region, s: Region) { End(r) <= s.virt || End(s) <= r.virt }

  ghost predicate WellFormed(rs: seq<Region>) {
    && (forall i :: 0 <= i < |rs| ==> NoWrap(rs[i]))
    && (forall i, j :: 0 <= i < j < |rs| ==> Disjoint(rs[i], rs[j]))
  }

  /** The map that a list means: the last region that covers an address translates it. */
  function Translate(rs: seq<Region>, a: int): Option<u64> {
    if rs == [] then None
    else if Covers(rs[|rs| - 1], a) then Some(PhysAt(rs[|rs| - 1], a))
    else Translate(rs[..|rs| - 1], a)
  }

  // ---------------------------------------------------------------- del

  /** The part of `r` before and after `v`. */
  function Left(r: Region, v: Region): Region
    requires r.virt <= v.virt
  {
    r.(size := v.virt - r.virt)
  }

  function Right(r: Region, v: Region): Region
    requires NoWrap(r) && r.virt <= End(v) <= End(r)
  {
    Region(End(v), End(r) - End(v), Wrap64(r.phys + End(v) - r.virt))
  }

  predicate Overlaps(r: Region, v: Region) { r.virt < End(v) && v.virt < End(r) }

  /** What `del` leaves of one region. */
  function Cut(r: Region, v: Region): seq<Region>
    requires NoWrap(r)
  {
    if !Overlaps(r, v) then [r]
    else if v.virt > r.virt then
      if End(r) > End(v) then [Left(r, v), Right(r, v)] else [Left(r, v)]
    else
      if End(v) >= End(r) then [] else [Right(r, v)]
  }

  /** The range that `del` sees: one that reaches the end of the address space looks empty. */
  function Seen(v: Region): Region { if EndFits(v) then v else Region(0, 0, 0) }

  ghost predicate AllNoWrap(rs: seq<Region>) { forall i :: 0 <= i < |rs| ==> NoWrap(rs[i]) }

  ghost function DelSpec(rs: seq<Region>, v: Region): seq<Region>
    requires AllNoWrap(rs)
  {
    if rs == [] then [] else Cut(rs[0], v) + DelSpec(rs[1..], v)
  }

  /** `v` lies inside `r` with something left on both sides. */
  predicate Splits(r: Region, v: Region) { r.virt < v.virt && End(v) < End(r) }

  lemma {:induction false} TranslateConcat(xs: seq<Region>, ys: seq<Region>, a: int)
    ensures Translate(xs + ys, a) == if Translate(ys, a).Some? then Translate(ys, a) else Translate(xs, a)
    decreases |ys|
  {
    if ys == [] {
      assert xs + ys == xs;
    } else {
      assert (xs + ys)[..|xs + ys| - 1] == xs + ys[..|ys| - 1];
      TranslateConcat(xs, ys[..|ys| - 1], a);
    }
  }

  lemma CutTranslates(r: Region, v: Region, a: int)
    requires NoWrap(r)
    ensures Translate(Cut(r, v), a)
            == if Covers(r, a) && !Covers(v, a) then Some(PhysAt(r, a)) else None
  {
    var c := Cut(r, v);
    TranslateOne(r, a);
    if Overlaps(r, v) && End(r) > End(v) {
      PhysShift(r, v, a);
      TranslateOne(Right(r, v), a);
      if v.virt > r.virt {
        assert c == [Left(r, v)] + [Right(r, v)];
        TranslateConcat([Left(r, v)], [Right(r, v)], a);
      }
    }
    if r.virt < v.virt {
      TranslateOne(Left(r, v), a);
    }
  }

  lemma TranslateOne(r: Region, a: int)
    ensures Translate([r], a) == if Covers(r, a) then Some(PhysAt(r, a)) else None
  {
    assert [r][..0] == [];
  }

  lemma PhysShift(r: Region, v: Region, a: int)
    requires NoWrap(r) && r.virt <= End(v) <= End(r)
    ensures PhysAt(Right(r, v), a) == PhysAt(r, a)
  {
    WrapSum(r.phys + End(v) - r.virt, a - End(v));
    assert r.phys + End(v) - r.virt + (a - End(v)) == r.phys + a - r.virt;
  }

  /** `del` removes exactly the given range from the map. */
  lemma {:induction false} DelRemovesRange(rs: seq<Region>, v: Region, a: int)
    requires AllNoWrap(rs)
    ensures Translate(DelSpec(rs, v), a) == if Covers(v, a) then None else Translate(rs, a)
    decreases |rs|
  {
    if rs != [] {
      DelRemovesRange(rs[1..], v, a);
      CutTranslates(rs[0], v, a);
      TranslateConcat(Cut(rs[0], v), DelSpec(rs[1..], v), a);
      assert rs == [rs[0]] + rs[1..];
      TranslateConcat([rs[0]], rs[1..], a);
      TranslateOne(rs[0], a);
    }
  }

  /** Every region of `xs` is disjoint from every region of `ys`. */
  ghost predicate Apart(xs: seq<Region>, ys: seq<Region>) {
    forall i, j :: 0 <= i < |xs| && 0 <= j < |ys| ==> Disjoint(xs[i], ys[j])
  }

  lemma CutKeepsWellFormed(r: Region, v: Region)
    requires NoWrap(r)
    ensures WellFormed(Cut(r, v))
    ensures forall i :: 0 <= i < |Cut(r, v)| ==> r.virt <= Cut(r, v)[i].virt && End(Cut(r, v)[i]) <= End(r)
  {
  }

  lemma {:induction false} DelKeepsApart(r: Region, rs: seq<Region>, v: Region)
    requires AllNoWrap(rs) && Apart([r], rs)
    ensures Apart([r], DelSpec(rs, v))
    decreases |rs|
  {
    if rs != [] {
      assert Disjoint([r][0], rs[0]);
      CutKeepsWellFormed(rs[0], v);
      assert forall j :: 0 <= j < |rs| - 1 ==> Disjoint([r][0], rs[1..][j]);
      DelKeepsApart(r, rs[1..], v);
    }
  }

  lemma {:induction false} ApartFromPieces(cs: seq<Region>, r: Region, ys: seq<Region>)
    requires forall i :: 0 <= i < |cs| ==> NoWrap(cs[i]) && r.virt <= cs[i].virt && End(cs[i]) <= End(r)
    requires Apart([r], ys)
    ensures Apart(cs, ys)
  {
    assert forall j :: 0 <= j < |ys| ==> Disjoint([r][0], ys[j]);
  }

  lemma WellFormedConcat(xs: seq<Region>, ys: seq<Region>)
    requires WellFormed(xs) && WellFormed(ys) && Apart(xs, ys)
    ensures WellFormed(xs + ys)
  {
    var zs := xs + ys;
    forall i, j | 0 <= i < j < |zs|
      ensures Disjoint(zs[i], zs[j])
    {
      if i < |xs| <= j {
        assert Disjoint(xs[i], ys[j - |xs|]);
      }
    }
  }

  /** Splits, trims and removals keep the regions non-empty and pairwise disjoint. */
  lemma {:induction false} DelKeepsWellFormed(rs: seq<Region>, v: Region)
    requires WellFormed(rs)
    ensures WellFormed(DelSpec(rs, v))
    decreases |rs|
  {
    if rs != [] {
      DelKeepsWellFormed(rs[1..], v);
      CutKeepsWellFormed(rs[0], v);
      DelKeepsApart(rs[0], rs[1..], v);
      ApartFromPieces(Cut(rs[0], v), rs[0], DelSpec(rs[1..], v));
      WellFormedConcat(Cut(rs[0], v), DelSpec(rs[1..], v));
    }
  }

  /** If a region of a well-formed list overlaps, then no other one is split. */
  lemma SplitExcludes(rs: seq<Region>, v: Region, i: nat, j: nat)
    requires WellFormed(rs) && i < |rs| && j < |rs| && i != j && Overlaps(rs[i], v)
    ensures !Splits(rs[j], v)
  {
    if i < j {
      assert Disjoint(rs[i], rs[j]);
    } else {
      assert Disjoint(rs[j], rs[i]);
    }
  }

  lemma {:induction false} DelSpecSnoc(rs: seq<Region>, r: Region, v: Region)
    requires AllNoWrap(rs) && NoWrap(r) && AllNoWrap(rs + [r])
    ensures DelSpec(rs + [r], v) == DelSpec(rs, v) + Cut(r, v)
    decreases |rs|
  {
    if rs == [] {
      assert rs + [r] == [r] && [r][1..] == [];
    } else {
      assert (rs + [r])[1..] == rs[1..] + [r];
      DelSpecSnoc(rs[1..], r, v);
    }
  }

  lemma {:induction false} UniqueCover(rs: seq<Region>, i: nat, a: int)
    requires WellFormed(rs) && i < |rs| && Covers(rs[i], a)
    ensures Translate(rs, a) == Some(PhysAt(rs[i], a))
    decreases |rs|
  {
    if i < |rs| - 1 {
      assert Disjoint(rs[i], rs[|rs| - 1]);
      UniqueCover(rs[..|rs| - 1], i, a);
    }
  }

  /** A list translates the k-th address of each of its regions to the k-th physical address of the region. */
  lemma TranslatesInOrder(rs: seq<Region>, i: nat, k: nat)
    requires WellFormed(rs) && i < |rs| && k < rs[i].size
    ensures Translate(rs, rs[i].virt + k) == Some((rs[i].phys + k) % 0x1_0000_0000_0000_0000)
  {
    UniqueCover(rs, i, rs[i].virt + k);
  }

  ghost predicate Clear(rs: seq<Region>, v: Region) {
    forall i :: 0 <= i < |rs| ==> !Overlaps(rs[i], v)
  }

  lemma {:induction false} ClearOfAddress(rs: seq<Region>, v: Region, a: int)
    requires Clear(rs, v) && Covers(v, a)
    ensures Translate(rs, a) == None
    decreases |rs|
  {
    if rs != [] {
      assert !Overlaps(rs[|rs| - 1], v);
      ClearOfAddress(rs[..|rs| - 1], v, a);
    }
  }

  /** `del` removes exactly the range of `v`. */
  ghost predicate RangeRemoved(rs: seq<Region>, v: Region)
    requires AllNoWrap(rs)
  {
    forall a: int :: Translate(DelSpec(rs, Seen(v)), a) == if Covers(v, a) then None else Translate(rs, a)
  }

  /** It does, unless the range is mapped and reaches the end of the address space: then nothing is removed. */
  lemma DelRemovesIff(rs: seq<Region>, v: Region)
    requires WellFormed(rs) && InSpace(v)
    ensures RangeRemoved(rs, v) <==> EndFits(v) || Clear(rs, v)
  {
    if EndFits(v) {
      forall a: int
        ensures Translate(DelSpec(rs, v), a) == if Covers(v, a) then None else Translate(rs, a)
      {
        DelRemovesRange(rs, v, a);
      }
    } else {
      DelOfNothing(rs, Seen(v));
      UnmappedIffClear(rs, v);
    }
  }

  lemma UnmappedIffClear(rs: seq<Region>, v: Region)
    requires WellFormed(rs) && v.size > 0
    ensures (forall a: int | Covers(v, a) :: Translate(rs, a) == None) <==> Clear(rs, v)
  {
    if Clear(rs, v) {
      forall a: int | Covers(v, a)
        ensures Translate(rs, a) == None
      {
        ClearOfAddress(rs, v, a);
      }
    } else {
      var i :| 0 <= i < |rs| && Overlaps(rs[i], v);
      var a := if rs[i].virt < v.virt then v.virt else rs[i].virt;
      assert NoWrap(rs[i]);
      UniqueCover(rs, i, a);
    }
  }

  /** A mapping of the last page that `del` leaves in place. */
  lemma LastPageStays(r: Region, v: Region)
    requires r == Region(0xffff_ffff_ffff_f000, 0xfff, 0) && v == Region(0xffff_ffff_ffff_f000, 0x1000, 0)
    ensures WellFormed([r]) && InSpace(v) && Overlaps(r, v) && DelSpec([r], Seen(v)) == [r]
    ensures !RangeRemoved([r], v)
  {
    assert Overlaps([r][0], v);
    DelOfNothing([r], Seen(v));
    DelRemovesIff([r], v);
  }

  lemma {:induction false} DelOfNothing(rs: seq<Region>, v: Region)
    requires AllNoWrap(rs) && End(v) == 0
    ensures DelSpec(rs, v) == rs
  {
    if rs != [] {
      DelOfNothing(rs[1..], v);
      assert rs == [rs[0]] + rs[1..];
    }
  }

  lemma {:induction false} DelClears(rs: seq<Region>, v: Region)
    requires AllNoWrap(rs)
    ensures Clear(DelSpec(rs, v), v)
    decreases |rs|
  {
    if rs != [] {
      DelClears(rs[1..], v);
    }
  }

  /** Removing one region of the list does not bring anything else into its neighbourhood. */
  lemma {:induction false} DelKeepsClear(rs: seq<Region>, v: Region, w: Region)
    requires AllNoWrap(rs) && Clear(rs, w)
    ensures Clear(DelSpec(rs, v), w)
    decreases |rs|
  {
    if rs != [] {
      assert !Overlaps(rs[0], w);
      assert forall i :: 0 <= i < |rs| - 1 ==> !Overlaps(rs[1..][i], w);
      DelKeepsClear(rs[1..], v, w);
      CutKeepsWellFormed(rs[0], v);
    }
  }

  // ---------------------------------------------------------------- add

  /** The map after adding `region` to `rs`. */
  ghost function Override(rs: seq<Region>, region: Region, a: int): Option<u64> {
    if Covers(region, a) then Some(PhysAt(region, a)) else Translate(rs, a)
  }

  ghost predicate Overridden(rs: seq<Region>, rs0: seq<Region>, region: Region) {
    forall a: int :: Translate(rs, a) == Override(rs0, region, a)
  }

  /** Where `add` stands between its steps: putting `region` into `rs` gives the wanted map. */
  ghost predicate Adding(rs: seq<Region>, region: Region, rs0: seq<Region>, region0: Region) {
    && WellFormed(rs) && region.size > 0 && InSpace(region) && (EndFits(region) ==> Clear(rs, region))
    && forall a: int :: Override(rs, region, a) == Override(rs0, region0, a)
  }

  lemma AddingStarts(rs0: seq<Region>, region0: Region)
    requires WellFormed(rs0) && region0.size > 0 && InSpace(region0)
    ensures Adding(DelSpec(rs0, Seen(region0)), region0, rs0, region0)
    ensures JoinsWhole(DelSpec(rs0, Seen(region0)), region0) <==> JoinsWhole(rs0, region0)
  {
    DelKeepsWellFormed(rs0, Seen(region0));
    DelClears(rs0, Seen(region0));
    forall a: int
      ensures Override(DelSpec(rs0, Seen(region0)), region0, a) == Override(rs0, region0, a)
    {
      DelRemovesRange(rs0, Seen(region0), a);
    }
    if !EndFits(region0) {
      DelOfNothing(rs0, Seen(region0));
    }
  }

  /** The left neighbour `r` continues into `region`. */
  predicate Continues(r: Region, region: Region) {
    End(r) == region.virt && Wrap64(r.phys + r.size) == region.phys
  }

  /** Joined with its left neighbour, the region would be the whole address space, whose size is no 64-bit number. */
  ghost predicate JoinsWhole(rs: seq<Region>, region: Region) {
    !EndFits(region) && exists i :: 0 <= i < |rs| && rs[i].virt == 0 && Continues(rs[i], region)
  }

  /** Then the address 0 is lost together with the left neighbour. */
  lemma WholeLoses0(rs: seq<Region>, region: Region, i: nat)
    requires WellFormed(rs) && i < |rs| && rs[i].virt == 0 && Continues(rs[i], region)
    ensures Translate(DelSpec(rs, rs[i]), 0) == None && Override(rs, region, 0).Some?
  {
    assert NoWrap(rs[i]);
    DelRemovesRange(rs, rs[i], 0);
    UniqueCover(rs, i, 0);
  }

  /** Joining `region` with a neighbour whose translation continues it. */
  lemma AddingMerges(rs: seq<Region>, region: Region, rs0: seq<Region>, region0: Region, i: nat, merged: Region)
    requires Adding(rs, region, rs0, region0) && i < |rs| && !Overlaps(rs[i], region)
    requires merged.size > 0 && InSpace(merged) && (EndFits(merged) ==> EndFits(region))
    requires forall a: int :: Covers(merged, a) <==> Covers(rs[i], a) || Covers(region, a)
    requires forall a: int :: Covers(rs[i], a) ==> PhysAt(merged, a) == PhysAt(rs[i], a)
    requires forall a: int :: Covers(region, a) ==> PhysAt(merged, a) == PhysAt(region, a)
    ensures Adding(DelSpec(rs, rs[i]), merged, rs0, region0)
  {
    var r := rs[i];
    var rest := DelSpec(rs, r);
    DelKeepsWellFormed(rs, r);
    if EndFits(merged) {
      DelClears(rs, r);
      DelKeepsClear(rs, r, region);
      ClearOfUnion(rest, r, region, merged);
    }
    forall a: int
      ensures Override(rest, merged, a) == Override(rs, region, a)
    {
      DelRemovesRange(rs, r, a);
      if Covers(r, a) {
        UniqueCover(rs, i, a);
      }
    }
  }

  /** The left join of `add`. */
  lemma JoinedLeft(rs: seq<Region>, region: Region, rs0: seq<Region>, region0: Region, i: nat, merged: Region)
    requires Adding(rs, region, rs0, region0) && i < |rs| && Continues(rs[i], region)
    requires merged.virt == rs[i].virt && merged.phys == rs[i].phys
    requires merged.size == if rs[i].virt == 0 && !EndFits(region) then 0 else rs[i].size + region.size
    ensures !JoinsWhole(rs, region) ==> && Adding(DelSpec(rs, rs[i]), merged, rs0, region0)
                                        && (EndFits(merged) <==> EndFits(region))
    ensures JoinsWhole(rs, region) ==> merged.virt == merged.size == 0 && Translate(DelSpec(rs, rs[i]), 0) == None
  {
    var r := rs[i];
    assert NoWrap(r);
    if r.virt > 0 || EndFits(region) {
      OnlyNeighbour(rs, region, i);
      JoinedLeftFits(rs, region, rs0, region0, i, merged);
    } else {
      WholeLoses0(rs, region, i);
    }
  }

  lemma JoinedLeftFits(rs: seq<Region>, region: Region, rs0: seq<Region>, region0: Region, i: nat, merged: Region)
    requires Adding(rs, region, rs0, region0) && i < |rs| && Continues(rs[i], region)
    requires rs[i].size + region.size < 0x1_0000_0000_0000_0000
    requires merged == Region(rs[i].virt, rs[i].size + region.size, rs[i].phys)
    ensures Adding(DelSpec(rs, rs[i]), merged, rs0, region0) && (EndFits(merged) <==> EndFits(region))
  {
    assert NoWrap(rs[i]);
    Contiguous(rs[i], region, merged);
    AddingMerges(rs, region, rs0, region0, i, merged);
  }

  /** The size of two regions in one is a 64-bit number unless they are the whole address space. */
  lemma JoinedSize(r: Region, region: Region)
    requires NoWrap(r) && Continues(r, region) && InSpace(region)
    ensures r.virt == 0 && !EndFits(region) ==> Wrap64(region.size + r.size) == 0
    ensures !(r.virt == 0 && !EndFits(region)) ==> Wrap64(region.size + r.size) == region.size + r.size
  {
    WrapInSpace(region.size + r.size);
  }

  lemma SameCover(rs: seq<Region>, i: nat, k: nat, a: int)
    requires WellFormed(rs) && i < |rs| && k < |rs| && Covers(rs[i], a) && Covers(rs[k], a)
    ensures i == k
  {
  }

  /** Of all regions only the one in front of `region` can continue into it. */
  lemma OnlyNeighbour(rs: seq<Region>, region: Region, i: nat)
    requires WellFormed(rs) && i < |rs| && Continues(rs[i], region)
    requires rs[i].virt > 0 || EndFits(region)
    ensures !JoinsWhole(rs, region)
  {
    forall k | 0 <= k < |rs| && Continues(rs[k], region)
      ensures k == i
    {
      assert NoWrap(rs[k]) && NoWrap(rs[i]);
      SameCover(rs, i, k, region.virt - 1);
    }
  }

  /** If `find` does not find one, there is none. */
  lemma NoneContinues(rs: seq<Region>, region: Region, i: int)
    requires WellFormed(rs) && -1 <= i < |rs| && region.virt > 0
    requires i < 0 ==> Translate(rs, region.virt - 1) == None
    requires i >= 0 ==> Covers(rs[i], region.virt - 1) && !Continues(rs[i], region)
    ensures !JoinsWhole(rs, region) && NoLeft(rs, region)
  {
    forall k | 0 <= k < |rs|
      ensures !Continues(rs[k], region)
    {
      assert NoWrap(rs[k]);
      if Continues(rs[k], region) {
        UniqueCover(rs, k, region.virt - 1);
        SameCover(rs, i, k, region.virt - 1);
      }
    }
  }

  lemma WholeIsLost(rest: seq<Region>, joined: Region, rs0: seq<Region>, region0: Region)
    requires joined.size == 0 && Translate(rest, 0) == None && WellFormed(rs0) && JoinsWhole(rs0, region0)
    ensures !WellFormed(rest + [joined]) && !Overridden(rest + [joined], rs0, region0)
  {
    assert (rest + [joined])[|rest|] == joined;
    var i :| 0 <= i < |rs0| && rs0[i].virt == 0 && Continues(rs0[i], region0);
    WholeLoses0(rs0, region0, i);
    TranslateConcat(rest, [joined], 0);
    TranslateOne(joined, 0);
    assert Translate(rest + [joined], 0) != Override(rs0, region0, 0);
  }

  /** What the steps before the last one have made of the list and the region. */
  ghost predicate Ready(rest: seq<Region>, joined: Region, rs0: seq<Region>, region0: Region) {
    if JoinsWhole(rs0, region0) then joined.size == 0 && Translate(rest, 0) == None
    else Adding(rest, joined, rs0, region0) && (EndFits(joined) <==> EndFits(region0))
  }

  /** The list with the joined region at its end. */
  lemma AddResult(rest: seq<Region>, joined: Region, rs0: seq<Region>, region0: Region)
    requires WellFormed(rs0) && InSpace(region0) && region0.size > 0
    requires Ready(rest, joined, rs0, region0)
    ensures WellFormed(rest + [joined]) <==> EndFits(region0)
    ensures Overridden(rest + [joined], rs0, region0) <==> !JoinsWhole(rs0, region0)
  {
    if JoinsWhole(rs0, region0) {
      WholeIsLost(rest, joined, rs0, region0);
    } else {
      AddingEnds(rest, joined, rs0, region0);
    }
  }

  lemma ClearOfUnion(rs: seq<Region>, r: Region, region: Region, merged: Region)
    requires WellFormed(rs) && Clear(rs, r) && Clear(rs, region) && merged.size > 0
    requires forall a: int :: Covers(merged, a) <==> Covers(r, a) || Covers(region, a)
    ensures Clear(rs, merged)
  {
    forall i | 0 <= i < |rs|
      ensures !Overlaps(rs[i], merged)
    {
      var a := if rs[i].virt < merged.virt then merged.virt else rs[i].virt;
      assert Covers(merged, a) ==> Covers(r, a) || Covers(region, a);
    }
  }

  /** The left neighbour `r` and `region` in one: `r`'s offsets continue those of `region`. */
  lemma Contiguous(r: Region, region: Region, merged: Region)
    requires NoWrap(r) && region.size > 0 && InSpace(region) && Continues(r, region)
    requires r.size + region.size < 0x1_0000_0000_0000_0000
    requires merged == Region(r.virt, r.size + region.size, r.phys)
    ensures merged.size > 0 && InSpace(merged) && (EndFits(merged) <==> EndFits(region))
    ensures forall a: int :: Covers(merged, a) <==> Covers(r, a) || Covers(region, a)
    ensures forall a: int :: PhysAt(merged, a) == PhysAt(r, a) == PhysAt(region, a)
  {
    forall a: int
      ensures PhysAt(merged, a) == PhysAt(region, a)
    {
      WrapSum(r.phys + r.size, a - region.virt);
    }
  }

  lemma AddingEnds(rs: seq<Region>, region: Region, rs0: seq<Region>, region0: Region)
    requires Adding(rs, region, rs0, region0)
    ensures WellFormed(rs + [region]) <==> EndFits(region)
    ensures Overridden(rs + [region], rs0, region0)
  {
    if EndFits(region) {
      assert WellFormed([region]);
      assert Apart(rs, [region]);
      WellFormedConcat(rs, [region]);
    } else {
      assert (rs + [region])[|rs|] == region;
    }
    forall a: int
      ensures Translate(rs + [region], a) == Override(rs, region, a)
    {
      TranslateConcat(rs, [region], a);
      TranslateOne(region, a);
    }
  }

  // ---------------------------------------------------------------- merging

  /** No region continues into `region`, and `region` continues into none. */
  ghost predicate NoLeft(rs: seq<Region>, region: Region) { forall r :: r in rs ==> !Continues(r, region) }

  ghost predicate NoRight(rs: seq<Region>, region: Region) { forall r :: r in rs ==> !Continues(region, r) }

  /** There are no two regions that one region could describe. */
  ghost predicate Coalesced(rs: seq<Region>) { forall r :: r in rs ==> NoLeft(rs, r) }

  lemma {:induction false} PieceOf(rs: seq<Region>, v: Region, p: Region) returns (r: Region)
    requires AllNoWrap(rs) && p in DelSpec(rs, v)
    ensures r in rs && NoWrap(r) && p in Cut(r, v)
  {
    if p in Cut(rs[0], v) {
      r := rs[0];
    } else {
      r := PieceOf(rs[1..], v, p);
    }
  }

  lemma {:induction false} PieceStays(rs: seq<Region>, v: Region, k: nat, p: Region)
    requires AllNoWrap(rs) && k < |rs| && p in Cut(rs[k], v)
    ensures p in DelSpec(rs, v)
  {
    if k > 0 {
      PieceStays(rs[1..], v, k - 1, p);
    }
  }

  lemma MembersApart(rs: seq<Region>, r: Region, s: Region)
    requires WellFormed(rs) && r in rs && s in rs
    ensures NoWrap(r) && NoWrap(s) && (r == s || Disjoint(r, s))
  {
    var i :| 0 <= i < |rs| && rs[i] == r;
    var j :| 0 <= j < |rs| && rs[j] == s;
  }

  lemma RightEnds(r: Region, v: Region)
    requires NoWrap(r) && r.virt <= End(v) <= End(r)
    ensures End(Right(r, v)) == End(r) && Wrap64(Right(r, v).phys + Right(r, v).size) == Wrap64(r.phys + r.size)
  {
    WrapSum(r.phys + End(v) - r.virt, End(r) - End(v));
  }

  /** What is left of two regions is separated by the range that is removed, unless they were contiguous before. */
  lemma PiecesApart(r: Region, s: Region, v: Region, p: Region, q: Region)
    requires NoWrap(r) && NoWrap(s) && (r == s || Disjoint(r, s)) && !Continues(r, s) && v.size > 0
    requires p in Cut(r, v) && q in Cut(s, v)
    ensures !Continues(p, q)
  {
    if Overlaps(r, v) && End(r) > End(v) {
      RightEnds(r, v);
    }
  }

  /** Removing a range keeps regions apart, except that an empty range inside of a region splits it. */
  lemma DelKeepsCoalesced(rs: seq<Region>, v: Region)
    requires WellFormed(rs) && Coalesced(rs)
    ensures Coalesced(DelSpec(rs, v)) <==> v.size > 0 || !AnySplit(rs, v)
  {
    if v.size > 0 {
      forall p, q | p in DelSpec(rs, v) && q in DelSpec(rs, v)
        ensures !Continues(p, q)
      {
        StayApart(rs, v, p, q);
      }
    } else if AnySplit(rs, v) {
      EmptyRangeSplits(rs, v);
    } else {
      DelOfUnsplit(rs, v);
    }
  }

  lemma StayApart(rs: seq<Region>, v: Region, p: Region, q: Region)
    requires WellFormed(rs) && Coalesced(rs) && v.size > 0 && p in DelSpec(rs, v) && q in DelSpec(rs, v)
    ensures !Continues(p, q)
  {
    var r := PieceOf(rs, v, p);
    var s := PieceOf(rs, v, q);
    assert NoLeft(rs, s);
    MembersApart(rs, r, s);
    PiecesApart(r, s, v, p, q);
  }

  lemma EmptyRangeSplits(rs: seq<Region>, v: Region)
    requires AllNoWrap(rs) && v.size == 0 && AnySplit(rs, v)
    ensures !Coalesced(DelSpec(rs, v))
  {
    var k :| 0 <= k < |rs| && Splits(rs[k], v);
    PieceStays(rs, v, k, Left(rs[k], v));
    PieceStays(rs, v, k, Right(rs[k], v));
    assert Continues(Left(rs[k], v), Right(rs[k], v));
    assert !NoLeft(DelSpec(rs, v), Right(rs[k], v));
  }

  lemma {:induction false} DelOfUnsplit(rs: seq<Region>, v: Region)
    requires AllNoWrap(rs) && v.size == 0 && !AnySplit(rs, v)
    ensures DelSpec(rs, v) == rs
  {
    if rs != [] {
      assert !Splits(rs[0], v);
      forall k | 0 <= k < |rs| - 1
        ensures !Splits(rs[1..][k], v)
      {
        assert rs[1..][k] == rs[k + 1];
      }
      DelOfUnsplit(rs[1..], v);
      assert rs == [rs[0]] + rs[1..];
    }
  }

  /** Without one of its regions, a list has the other ones. */
  lemma DelOfMember(rs: seq<Region>, i: nat, p: Region)
    requires WellFormed(rs) && i < |rs| && p in DelSpec(rs, rs[i])
    ensures p in rs
  {
    var r := PieceOf(rs, rs[i], p);
    MembersApart(rs, r, rs[i]);
  }

  lemma JoinedLeftApart(rs: seq<Region>, i: nat, merged: Region)
    requires WellFormed(rs) && Coalesced(rs) && i < |rs|
    requires merged.virt == rs[i].virt && merged.phys == rs[i].phys
    ensures Coalesced(DelSpec(rs, rs[i])) && NoLeft(DelSpec(rs, rs[i]), merged)
  {
    assert NoWrap(rs[i]);
    DelKeepsCoalesced(rs, rs[i]);
    forall p | p in DelSpec(rs, rs[i])
      ensures !Continues(p, merged)
    {
      DelOfMember(rs, i, p);
      assert NoLeft(rs, rs[i]);
    }
  }

  lemma JoinedRightApart(rs: seq<Region>, i: nat, region: Region, merged: Region)
    requires WellFormed(rs) && Coalesced(rs) && NoLeft(rs, region) && i < |rs| && Continues(region, rs[i])
    requires merged.virt == region.virt && merged.phys == region.phys && merged.size == region.size + rs[i].size
    ensures var rest := DelSpec(rs, rs[i]); Coalesced(rest) && NoLeft(rest, merged) && NoRight(rest, merged)
  {
    assert NoWrap(rs[i]);
    DelKeepsCoalesced(rs, rs[i]);
    forall p | p in DelSpec(rs, rs[i])
      ensures !Continues(p, merged) && !Continues(merged, p)
    {
      DelOfMember(rs, i, p);
      SameEnd(region, rs[i], merged, p);
      assert NoLeft(rs, p);
    }
  }

  lemma SameEnd(region: Region, r: Region, merged: Region, p: Region)
    requires Continues(region, r)
    requires merged.virt == region.virt && merged.phys == region.phys && merged.size == region.size + r.size
    ensures Continues(merged, p) <==> Continues(r, p)
  {
    WrapChain(region.phys + region.size, r.size, r.phys, merged.phys + merged.size);
  }

  lemma WrapChain(a: int, b: int, c: int, d: int)
    requires Wrap64(a) == c && d == a + b
    ensures Wrap64(d) == Wrap64(c + b)
  {
    WrapSum(a, b);
  }

  lemma NoneFollows(rs: seq<Region>, region: Region, i: int)
    requires WellFormed(rs) && -1 <= i < |rs|
    requires i < 0 ==> Translate(rs, End(region)) == None
    requires i >= 0 ==> Covers(rs[i], End(region)) && !Continues(region, rs[i])
    ensures NoRight(rs, region)
  {
    forall k | 0 <= k < |rs|
      ensures !Continues(region, rs[k])
    {
      assert NoWrap(rs[k]);
      if Continues(region, rs[k]) {
        UniqueCover(rs, k, End(region));
        SameCover(rs, i, k, End(region));
      }
    }
  }

  lemma CoalescedWith(rest: seq<Region>, joined: Region)
    requires Coalesced(rest) && NoLeft(rest, joined) && NoRight(rest, joined) && joined.size > 0
    ensures Coalesced(rest + [joined])
  {
  }

  // ---------------------------------------------------------------- alloc

  /** `x & ~(align - 1)` for a power of two. */
  function AlignDown(x: nat, align: nat): nat
    requires align > 0
  {
    x / align * align
  }

  predicate Aligned(v: nat, align: nat)
    requires align > 0
  {
    v / align * align == v
  }

  lemma DivOfMultiple(q: nat, align: nat)
    requires align > 0
    ensures q * align / align == q
  {
    var d := q * align / align;
    MulMonotone(q, d - 1, align);
    MulMonotone(d + 1, q, align);
  }

  lemma AlignDownIsAligned(x: nat, align: nat)
    requires align > 0
    ensures Aligned(AlignDown(x, align), align) && AlignDown(x, align) <= x
  {
    DivOfMultiple(x / align, align);
  }

  lemma AlignDownIsGreatest(x: nat, align: nat, v: nat)
    requires align > 0 && Aligned(v, align) && v <= x
    ensures v <= AlignDown(x, align)
  {
    var k, q := v / align, x / align;
    assert x < (q + 1) * align;
    MulMonotone(q + 1, k, align);
    MulMonotone(k, q, align);
  }

  /** A request: `size` bytes at an aligned address, with `nb` bytes in front of them. */
  datatype Request = Request(size: u64, order: nat, nb: nat)

  function Align(q: Request): (a: nat)
    ensures a > 0
  {
    Pow2(q.order)
  }

  predicate ValidRequest(q: Request) {
    q.order < 64 && q.nb < 0x1_0000_0000 && q.size + q.nb < 0x1_0000_0000_0000_0000
  }

  /** The request can be placed into `r` with its aligned address at v. */
  predicate PlacedAt(r: Region, q: Request, v: nat)
    requires ValidRequest(q)
  {
    Aligned(v, Align(q)) && r.virt + q.nb <= v && v + q.size <= End(r)
  }

  ghost predicate Placeable(r: Region, q: Request)
    requires ValidRequest(q)
  {
    exists v: nat :: PlacedAt(r, q, v)
  }

  /** The address that `alloc` computes for a region, with 64-bit wrap-around. */
  function Candidate(r: Region, q: Request): u64
    requires ValidRequest(q)
  {
    Wrap64(AlignDown(Wrap64(End(r) - q.size), Align(q)) - q.nb)
  }

  /** The test of `alloc` whether a region is big enough. */
  predicate Accepted(r: Region, q: Request)
    requires ValidRequest(q)
  {
    q.size + q.nb <= r.size && Candidate(r, q) >= r.virt
  }

  /** Subtracting the offset from the aligned address goes below zero and wraps. */
  predicate Underflows(r: Region, q: Request)
    requires ValidRequest(q)
  {
    && q.size + q.nb <= r.size
    && AlignDown(End(r) - q.size, Align(q)) < q.nb
  }

  lemma CandidateValue(r: Region, q: Request)
    requires NoWrap(r) && ValidRequest(q) && q.size <= End(r)
    ensures var v := AlignDown(End(r) - q.size, Align(q));
            && 0 <= v <= End(r) - q.size
            && Candidate(r, q) == if v >= q.nb then v - q.nb else v - q.nb + 0x1_0000_0000_0000_0000
  {
    AlignDownIsAligned(End(r) - q.size, Align(q));
    WrapNear(End(r) - q.size);
    WrapNear(AlignDown(End(r) - q.size, Align(q)) - q.nb);
  }

  lemma WrapNear(x: int)
    requires -0x1_0000_0000_0000_0000 <= x < 0x1_0000_0000_0000_0000
    ensures Wrap64(x) == if x >= 0 then x else x + 0x1_0000_0000_0000_0000
  {
  }

  lemma HighestPlace(r: Region, q: Request)
    requires NoWrap(r) && ValidRequest(q) && q.size <= End(r)
    ensures Placeable(r, q) <==> PlacedAt(r, q, AlignDown(End(r) - q.size, Align(q)))
    ensures PlacedAt(r, q, AlignDown(End(r) - q.size, Align(q)))
            <==> r.virt + q.nb <= AlignDown(End(r) - q.size, Align(q))
  {
    var top := End(r) - q.size;
    AlignDownIsAligned(top, Align(q));
    forall w: nat | PlacedAt(r, q, w)
      ensures w <= AlignDown(top, Align(q))
    {
      AlignDownIsGreatest(top, Align(q), w);
    }
  }

  /** `alloc` accepts exactly the regions into which the request fits, unless the offset underflows. */
  lemma AcceptedIffPlaceable(r: Region, q: Request)
    requires NoWrap(r) && ValidRequest(q)
    ensures (Accepted(r, q) <==> Placeable(r, q)) <==> !Underflows(r, q)
    ensures Accepted(r, q) && !Underflows(r, q) ==> PlacedAt(r, q, Candidate(r, q) + q.nb)
  {
    if q.size <= End(r) {
      CandidateValue(r, q);
      HighestPlace(r, q);
    }
  }

  /** Such an underflow exists: a request that fits nowhere is given an address outside of the region. */
  lemma UnderflowExample()
    ensures var r, q := Region(0, 0x1800, 0), Request(0x800, 13, 0x1000);
            Underflows(r, q) && Accepted(r, q) && !Placeable(r, q) && Candidate(r, q) == 0xffff_ffff_ffff_f000
  {
    AcceptedIffPlaceable(Region(0, 0x1800, 0), Request(0x800, 13, 0x1000));
  }

  /** Region m is the first of the smallest regions into which the request fits. */
  ghost predicate BestFit(rs: seq<Region>, q: Request, m: nat)
    requires ValidRequest(q)
  {
    && m < |rs| && Placeable(rs[m], q)
    && (forall k :: 0 <= k < |rs| && Placeable(rs[k], q) ==> rs[m].size <= rs[k].size)
    && (forall k :: 0 <= k < m && Placeable(rs[k], q) ==> rs[m].size < rs[k].size)
  }

  /** Region m is the first of the smallest regions that `alloc` accepts. */
  ghost predicate BestAccepted(rs: seq<Region>, q: Request, m: nat)
    requires ValidRequest(q)
  {
    && m < |rs| && Accepted(rs[m], q)
    && (forall k :: 0 <= k < |rs| && Accepted(rs[k], q) ==> rs[m].size <= rs[k].size)
    && (forall k :: 0 <= k < m && Accepted(rs[k], q) ==> rs[m].size < rs[k].size)
  }

  /** Without underflow the regions accepted are those into which the request fits. */
  lemma AcceptedAreFits(rs: seq<Region>, q: Request)
    requires WellFormed(rs) && ValidRequest(q) && NoneUnderflows(rs, q)
    ensures forall k :: 0 <= k < |rs| ==> (Accepted(rs[k], q) <==> Placeable(rs[k], q))
    ensures forall m: nat :: BestAccepted(rs, q, m) <==> BestFit(rs, q, m)
  {
    forall k | 0 <= k < |rs|
      ensures Accepted(rs[k], q) <==> Placeable(rs[k], q)
    {
      assert NoWrap(rs[k]);
      AcceptedIffPlaceable(rs[k], q);
    }
  }

  /** The best fit begins at address 0, and the request goes to its very begin. */
  ghost predicate FitsAtZero(rs: seq<Region>, q: Request, m: nat)
    requires ValidRequest(q)
  {
    BestFit(rs, q, m) && rs[m].virt == 0 && q.size <= End(rs[m]) && AlignDown(End(rs[m]) - q.size, Align(q)) == q.nb
  }

  ghost predicate NothingFits(rs: seq<Region>, q: Request)
    requires ValidRequest(q)
  {
    forall k :: 0 <= k < |rs| ==> !Placeable(rs[k], q)
  }

  ghost predicate NoneUnderflows(rs: seq<Region>, q: Request)
    requires ValidRequest(q)
  {
    forall k :: 0 <= k < |rs| ==> !Underflows(rs[k], q)
  }

  ghost predicate NoneAtZero(rs: seq<Region>) {
    forall k :: 0 <= k < |rs| ==> rs[k].virt != 0
  }

  /** `alloc` answers 0 if nothing fits, and also for a range that begins at address 0. */
  ghost predicate AnswersZero(rs: seq<Region>, q: Request)
    requires ValidRequest(q)
  {
    NothingFits(rs, q) || exists m: nat :: FitsAtZero(rs, q, m)
  }

  lemma BestFitIsUnique(rs: seq<Region>, q: Request, m: nat, n: nat)
    requires ValidRequest(q) && BestFit(rs, q, m) && BestFit(rs, q, n)
    ensures m == n
  {
  }

  /** The answer 0 of a successful allocation: the best fit begins at 0 and is used from its begin on. */
  lemma ZeroOfBestFit(rs: seq<Region>, q: Request, m: nat)
    requires WellFormed(rs) && ValidRequest(q) && BestFit(rs, q, m) && !Underflows(rs[m], q)
    ensures Candidate(rs[m], q) == 0 <==> AnswersZero(rs, q)
  {
    var r := rs[m];
    assert NoWrap(r);
    AcceptedIffPlaceable(r, q);
    CandidateValue(r, q);
    HighestPlace(r, q);
    forall n: nat | FitsAtZero(rs, q, n)
      ensures n == m
    {
      BestFitIsUnique(rs, q, m, n);
    }
    assert FitsAtZero(rs, q, m) <==> Candidate(r, q) == 0;
  }

  /** If no region begins at address 0, the answer 0 means that nothing fits. */
  lemma ZeroMeansFailure(rs: seq<Region>, q: Request)
    requires ValidRequest(q) && NoneAtZero(rs)
    ensures AnswersZero(rs, q) <==> NothingFits(rs, q)
  {
  }

  /** The outcome of `alloc` on the list `rs`; `best` is the region chosen, negative if there is none. */
  ghost predicate Answer(rs: seq<Region>, q: Request, best: int, virt: u64, after: seq<Region>)
    requires WellFormed(rs) && ValidRequest(q)
  {
    && -1 <= best < |rs|
    && (best < 0 ==> NothingFits(rs, q) && virt == 0 && after == rs)
    && (best >= 0 ==> && BestFit(rs, q, best) && PlacedAt(rs[best], q, virt + q.nb)
                      && after == DelSpec(rs, Region(virt, q.size + q.nb, 0)))
    && (virt == 0 <==> AnswersZero(rs, q))
    && (NoneAtZero(rs) ==> (virt == 0 <==> NothingFits(rs, q)))
  }

  /** What the scan finds. */
  ghost predicate Scanned(rs: seq<Region>, q: Request, m: int)
    requires ValidRequest(q)
  {
    && -1 <= m < |rs|
    && if m < 0 then forall k :: 0 <= k < |rs| ==> !Accepted(rs[k], q) else BestAccepted(rs, q, m)
  }

  /** The answer made of what the scan finds. */
  lemma AnswerOfScan(rs: seq<Region>, q: Request, m: int)
    requires WellFormed(rs) && ValidRequest(q) && NoneUnderflows(rs, q) && Scanned(rs, q, m)
    ensures m < 0 ==> Answer(rs, q, m, 0, rs)
    ensures m >= 0 ==> var virt := Candidate(rs[m], q);
                       && NoWrap(rs[m]) && virt + q.nb + q.size <= End(rs[m])
                       && Answer(rs, q, m, virt, DelSpec(rs, Region(virt, q.size + q.nb, 0)))
  {
    AcceptedAreFits(rs, q);
    if NoneAtZero(rs) {
      ZeroMeansFailure(rs, q);
    }
    if m >= 0 {
      PlaceOfBestFit(rs, q, m);
    }
  }

  lemma PlaceOfBestFit(rs: seq<Region>, q: Request, m: nat)
    requires WellFormed(rs) && ValidRequest(q) && BestFit(rs, q, m) && Accepted(rs[m], q) && !Underflows(rs[m], q)
    ensures NoWrap(rs[m]) && PlacedAt(rs[m], q, Candidate(rs[m], q) + q.nb)
    ensures Candidate(rs[m], q) == 0 <==> AnswersZero(rs, q)
  {
    assert NoWrap(rs[m]);
    AcceptedIffPlaceable(rs[m], q);
    ZeroOfBestFit(rs, q, m);
  }

  /** A request that fits, is served and is answered with 0. */
  lemma ZeroAnswerExample()
    ensures var rs, q := [Region(0, 0x1000, 0)], Request(0x1000, 12, 0);
            && WellFormed(rs) && Accepted(rs[0], q) && BestFit(rs, q, 0) && Candidate(rs[0], q) == 0
            && AnswersZero(rs, q)
  {
    var r, q := Region(0, 0x1000, 0), Request(0x1000, 12, 0);
    assert [r][0] == r;
    AcceptedIffPlaceable(r, q);
    assert BestFit([r], q, 0);
    ZeroOfBestFit([r], q, 0);
  }

  // ---------------------------------------------------------------- the array

  class RegionArray {
    const list: array<Region>
    var count: nat

    ghost predicate Valid()
      reads this, list
    {
      count <= list.Length && WellFormed(Contents())
    }

    ghost function Contents(): seq<Region>
      requires count <= list.Length
      reads this, list
    {
      list[..count]
    }

    constructor (size: nat)
      requires size > 0
      ensures Valid() && Contents() == [] && list.Length == size && fresh(list)
    {
      list := new Region[size](_ => Region(0, 0, 0));
      count := 0;
    }

    /** The scan of `find` from the end of the list; `i` is negative if there is no such region. */
    method Find(pos: int) returns (i: int)
      requires Valid()
      ensures -1 <= i < count
      ensures i >= 0 ==> Covers(list[i], pos) && Translate(Contents(), pos) == Some(PhysAt(list[i], pos))
      ensures i < 0 ==> Translate(Contents(), pos) == None
    {
      i := count - 1;
      while i >= 0
        invariant -1 <= i < count
        invariant Translate(Contents(), pos) == Translate(list[..i + 1], pos)
      {
        if list[i].virt <= pos && pos - list[i].virt < list[i].size {
          return;
        }
        assert list[..i + 1][..i] == list[..i];
        i := i - 1;
      }
    }

    /** `memmove(r, r+1, ...)` and the shorter count. */
    method CloseGap(i: nat)
      requires i < count <= list.Length
      modifies this`count, list
      ensures count == old(count) - 1
      ensures list[..count] == old(list[..i] + list[i + 1..count])
    {
      forall k | i <= k < count - 1 {
        list[k] := list[k + 1];
      }
      count := count - 1;
    }

    /** The longer count and `memmove(r+1, r, ...)`. */
    method OpenGap(i: nat)
      requires i < count < list.Length
      modifies this`count, list
      ensures count == old(count) + 1
      ensures list[..count] == old(list[..i + 1] + list[i..count])
    {
      count := count + 1;
      forall k | i < k < count {
        list[k] := list[k - 1];
      }
    }

    /**
     One step of the loop of `del`: the region at `i` is replaced by what is left of it.
     `pieces` is the number of regions that took its place.
     */
    method CutAt(i: nat, v: Region) returns (pieces: nat)
      requires i < count <= list.Length && NoWrap(list[i]) && EndFits(v)
      requires Overlaps(list[i], v)
      requires Splits(list[i], v) ==> count + 1 < list.Length
      modifies this`count, list
      ensures pieces == |old(Cut(list[i], v))|
      ensures count <= list.Length
      ensures list[..count] == Replaced(old(list[..count]), i, v)
    {
      if v.virt > list[i].virt {
        if End(list[i]) > End(v) {
          SplitAt(i, v);
          pieces := 2;
        } else {
          list[i] := list[i].(size := v.virt - list[i].virt);
          pieces := 1;
        }
      } else {
        if End(v) >= End(list[i]) {
          CloseGap(i);
          pieces := 0;
        } else {
          var s := list[i];
          list[i] := Region(End(v), s.size - (End(v) - s.virt), Wrap64(s.phys + End(v) - s.virt));
          pieces := 1;
        }
      }
    }

    /** A region that is cut in two: the copy opened behind it becomes the right half. */
    method SplitAt(i: nat, v: Region)
      requires i < count && count + 1 < list.Length && NoWrap(list[i]) && EndFits(v) && Splits(list[i], v)
      modifies this`count, list
      ensures count == old(count) + 1
      ensures list[..count] == Replaced(old(list[..count]), i, v)
    {
      ghost var rs := list[..count];
      OpenGap(i);
      ghost var shifted := list[..count];
      assert shifted == rs[..i + 1] + rs[i..];
      HalvesReplace(rs, i, v);
      var s := list[i + 1];
      list[i + 1] := Region(End(v), s.size - (End(v) - s.virt), Wrap64(s.phys + End(v) - list[i].virt));
      list[i] := list[i].(size := v.virt - list[i].virt);
      assert list[..count] == shifted[i + 1 := Right(rs[i], v)][i := Left(rs[i], v)];
    }

    /** One iteration of the loop of `del`. */
    method DelIteration(i: nat, v: Region, ghost rs: seq<Region>, ghost m: nat, ghost pending: bool)
      returns (next: nat, ghost m': nat, ghost pending': bool)
      requires count <= list.Length && DelLoop(Contents(), i, rs, m, pending, Seen(v)) && i < count
      requires InSpace(v) && HasRoom(rs, Seen(v), list.Length)
      modifies this`count, list
      ensures count <= list.Length && DelLoop(Contents(), next, rs, m', pending', Seen(v)) && next <= count
      ensures m' == m + 1 || (m' == m && pending && !pending')
    {
      ghost var cur, w := Contents(), Seen(v);
      assert cur[i] == list[i];
      SkippedIff(list[i], v);
      if list[i].virt >= WrappedEnd(v) || v.virt >= End(list[i]) {
        SkipStep(cur, i, rs, m, pending, w);
        m', pending' := if pending then m else m + 1, false;
        next := i + 1;
      } else {
        CutStep(cur, i, rs, m, pending, w);
        var pieces := CutAt(i, v);
        m', pending' := m + 1, pieces == 2;
        next := if pieces > 0 then i + 1 else i;
      }
    }

    /** `del`. */
    method Del(v: Region)
      requires Valid() && InSpace(v)
      requires HasRoom(Contents(), Seen(v), list.Length)
      modifies this`count, list
      ensures Valid() && Contents() == old(DelSpec(Contents(), Seen(v)))
      ensures count <= old(MaxCount(Contents(), Seen(v)))
    {
      ghost var rs, w := Contents(), Seen(v);
      ghost var m: nat, pending := 0, false;
      DelLoopStarts(rs, w);
      var i: nat := 0;
      while i < count
        invariant count <= list.Length && i <= count && DelLoop(Contents(), i, rs, m, pending, w)
        decreases |rs| - m, if pending then 1 else 0
      {
        DelLoopProgress(Contents(), i, rs, m, pending, w);
        i, m, pending := DelIteration(i, v, rs, m, pending);
      }
      DelLoopEnds(Contents(), rs, m, pending, w);
    }

    /** `add` joins `region` with a left neighbour that continues it. */
    method JoinLeft(region: Region, ghost rs0: seq<Region>, ghost region0: Region) returns (merged: Region)
      requires Valid() && Adding(Contents(), region, rs0, region0)
      modifies this`count, list
      ensures Valid() && count <= old(count)
      ensures !old(JoinsWhole(Contents(), region)) ==> && Adding(Contents(), merged, rs0, region0)
                                                       && (EndFits(merged) <==> EndFits(region))
      ensures old(JoinsWhole(Contents(), region)) ==> && merged.virt == merged.size == 0
                                                      && Translate(Contents(), 0) == None
      ensures old(Coalesced(Contents())) ==> Coalesced(Contents()) && NoLeft(Contents(), merged)
    {
      merged := region;
      if region.virt > 0 {
        ghost var rs := Contents();
        var i := Find(region.virt - 1);
        if i >= 0 && Continues(list[i], region) {
          var r := list[i];
          assert r == rs[i];
          merged := Region(r.virt, Wrap64(region.size + r.size), r.phys);
          JoinedSize(r, region);
          JoinedLeft(rs, region, rs0, region0, i, merged);
          if Coalesced(rs) {
            JoinedLeftApart(rs, i, merged);
          }
          NotSplitByMember(rs, i);
          Del(r);
        } else {
          NoneContinues(rs, region, i);
        }
      }
    }

    /** `add` joins `region` with a right neighbour that continues it. */
    method JoinRight(region: Region, ghost rs0: seq<Region>, ghost region0: Region) returns (merged: Region)
      requires Valid() && InSpace(region)
      requires WrappedEnd(region) > 0 ==> Adding(Contents(), region, rs0, region0)
      modifies this`count, list
      ensures Valid() && count <= old(count)
      ensures WrappedEnd(region) == 0 ==> merged == region && Contents() == old(Contents())
      ensures WrappedEnd(region) > 0 ==> Adding(Contents(), merged, rs0, region0) && EndFits(merged)
      ensures WrappedEnd(region) > 0 && old(Coalesced(Contents()) && NoLeft(Contents(), region)) ==>
                Coalesced(Contents()) && NoLeft(Contents(), merged) && NoRight(Contents(), merged)
    {
      merged := region;
      if WrappedEnd(region) > 0 {
        var i := Find(End(region));
        if i >= 0 && Continues(region, list[i]) {
          ghost var rs := Contents();
          var r := list[i];
          assert r == rs[i];
          merged := Region(region.virt, region.size + r.size, region.phys);
          Contiguous(region, r, merged);
          AddingMerges(rs, region, rs0, region0, i, merged);
          if Coalesced(rs) && NoLeft(rs, region) {
            JoinedRightApart(rs, i, region, merged);
          }
          NotSplitByMember(rs, i);
          Del(r);
        } else {
          NoneFollows(Contents(), region, i);
        }
      }
    }

    /**
     `add`: overrides exactly the range of `region`, joining it with contiguous neighbours. A region that
     reaches the end of the address space gets the right map, too, unless it is joined to the whole
     address space; but it is the end of the well-formed list.
     */
    method Add(region: Region)
      requires Valid() && InSpace(region)
      requires MaxCount(Contents(), Seen(region)) + 1 < list.Length
      modifies this`count, list
      ensures count <= list.Length && (Valid() <==> EndFits(region))
      ensures Overridden(Contents(), old(Contents()), region) <==> !old(JoinsWhole(Contents(), region))
      ensures EndFits(region) && old(Coalesced(Contents())) ==> Coalesced(Contents())
    {
      if region.size == 0 {
        return;
      }
      ghost var rs0 := Contents();
      var joined := MakeRoom(region);
      AddResult(Contents(), joined, rs0, region);
      if EndFits(region) && Coalesced(rs0) {
        CoalescedWith(Contents(), joined);
      }
      Append(joined);
    }

    /** The steps of `add` before the region is stored. */
    method MakeRoom(region: Region) returns (joined: Region)
      requires Valid() && InSpace(region) && region.size > 0
      requires MaxCount(Contents(), Seen(region)) + 1 < list.Length
      modifies this`count, list
      ensures count + 1 < list.Length && Ready(Contents(), joined, old(Contents()), region)
      ensures EndFits(region) && old(Coalesced(Contents())) ==>
                joined.size > 0 && Coalesced(Contents()) && NoLeft(Contents(), joined) && NoRight(Contents(), joined)
    {
      ghost var rs0 := Contents();
      AddingStarts(rs0, region);
      if EndFits(region) && Coalesced(rs0) {
        DelKeepsCoalesced(rs0, region);
      }
      Del(region);
      joined := JoinLeft(region, rs0, region);
      joined := JoinRight(joined, rs0, region);
    }

    method Append(region: Region)
      requires count < list.Length
      modifies this`count, list
      ensures count == old(count) + 1 <= list.Length && Contents() == old(Contents()) + [region]
    {
      count := count + 1;
      list[count - 1] := region;
    }

    /** The loop of `alloc`: the smallest region that is accepted, or a negative index. */
    method FindBest(q: Request) returns (m: int)
      requires Valid() && ValidRequest(q)
      ensures Scanned(Contents(), q, m)
    {
      m := -1;
      for i := 0 to count
        invariant -1 <= m < i
        invariant forall k :: 0 <= k < i && Accepted(list[k], q) ==> m >= 0 && list[m].size <= list[k].size
        invariant m >= 0 ==> Accepted(list[m], q)
        invariant forall k :: 0 <= k < m && Accepted(list[k], q) ==> list[m].size < list[k].size
      {
        if Accepted(list[i], q) && (m < 0 || list[m].size > list[i].size) {
          m := i;
        }
      }
    }

    /**
     `alloc`: takes an aligned range out of the smallest region that can hold it. The answer is 0
     if there is no such region, and also if that range begins at address 0.
     */
    method Alloc(q: Request) returns (virt: u64, ghost best: int)
      requires Valid() && ValidRequest(q) && count + 1 < list.Length && NoneUnderflows(Contents(), q)
      modifies this`count, list
      ensures Valid() && Answer(old(Contents()), q, best, virt, Contents())
    {
      var m := FindBest(q);
      best := m;
      ghost var rs := Contents();
      AnswerOfScan(rs, q, m);
      if m >= 0 {
        assert rs[m] == list[m];
        virt := Candidate(list[m], q);
        Del(Region(virt, q.size + q.nb, 0));
      } else {
        virt := 0;
      }
    }
  }

  /** Some region of the list is cut in two. */
  ghost predicate AnySplit(rs: seq<Region>, v: Region) {
    exists k :: 0 <= k < |rs| && Splits(rs[k], v)
  }

  /** How many regions there are at most when `v` is removed. */
  ghost function MaxCount(rs: seq<Region>, v: Region): nat { |rs| + if AnySplit(rs, v) then 1 else 0 }

  /** There is room for the second half of a region that is cut in two, as the source asserts. */
  ghost predicate HasRoom(rs: seq<Region>, v: Region, length: nat) { AnySplit(rs, v) ==> |rs| + 1 < length }

  /**
   State of the loop of `del` at index i of the current list `cur`: the first m regions
   of the original list are done, and `pending` says that the loop has still to pass the
   second half of the region that it has just split.
   */
  ghost predicate DelLoop(cur: seq<Region>, i: nat, rs: seq<Region>, m: nat, pending: bool, v: Region) {
    && WellFormed(rs) && m <= |rs|
    && var j := if pending then i + 1 else i;
    && j <= |cur|
    && cur[..j] == DelSpec(rs[..m], v)
    && cur[j..] == rs[m..]
    && (pending ==> m > 0 && Splits(rs[m - 1], v) && !Overlaps(cur[i], v))
    && (j <= m || (j == m + 1 && AnySplit(rs[..m], v)))
  }

  lemma DelLoopStarts(rs: seq<Region>, v: Region)
    requires WellFormed(rs)
    ensures DelLoop(rs, 0, rs, 0, false, v)
  {
  }

  /** The measure of the loop is not negative. */
  lemma DelLoopProgress(cur: seq<Region>, i: nat, rs: seq<Region>, m: nat, pending: bool, v: Region)
    requires DelLoop(cur, i, rs, m, pending, v)
    ensures m <= |rs|
  {
  }

  lemma DelLoopEnds(cur: seq<Region>, rs: seq<Region>, m: nat, pending: bool, v: Region)
    requires DelLoop(cur, |cur|, rs, m, pending, v)
    ensures AllNoWrap(rs) && cur == DelSpec(rs, v) && WellFormed(cur)
    ensures |cur| <= MaxCount(rs, v)
  {
    assert m == |rs| && rs[..m] == rs && cur[..|cur|] == cur;
    DelKeepsWellFormed(rs, v);
  }

  /** The test of `del` for regions that it leaves alone. */
  lemma SkippedIff(r: Region, v: Region)
    requires InSpace(v)
    ensures r.virt >= WrappedEnd(v) || v.virt >= End(r) <==> !Overlaps(r, Seen(v))
    ensures Overlaps(r, Seen(v)) ==> EndFits(v)
  {
  }

  lemma SkipStep(cur: seq<Region>, i: nat, rs: seq<Region>, m: nat, pending: bool, v: Region)
    requires DelLoop(cur, i, rs, m, pending, v) && i < |cur| && !Overlaps(cur[i], v)
    ensures DelLoop(cur, i + 1, rs, if pending then m else m + 1, false, v)
  {
    if !pending {
      assert cur[i] == cur[i..][0] == rs[m];
      DelStep(rs, m, v);
      assert cur[..i + 1] == cur[..i] + [cur[i]];
      assert cur[i + 1..] == cur[i..][1..] == rs[m + 1..];
      SplitPrefix(rs, m, v);
    }
  }

  lemma SplitPrefix(rs: seq<Region>, m: nat, v: Region)
    requires m < |rs|
    ensures AnySplit(rs[..m], v) ==> AnySplit(rs[..m + 1], v)
    ensures Splits(rs[m], v) ==> AnySplit(rs[..m + 1], v) && AnySplit(rs, v)
    ensures AnySplit(rs[..m], v) ==> AnySplit(rs, v)
  {
    if AnySplit(rs[..m], v) {
      var k :| 0 <= k < m && Splits(rs[..m][k], v);
      assert Splits(rs[..m + 1][k], v) && Splits(rs[k], v);
    }
    assert rs[..m + 1][m] == rs[m];
  }

  lemma CutStep(cur: seq<Region>, i: nat, rs: seq<Region>, m: nat, pending: bool, v: Region)
    requires DelLoop(cur, i, rs, m, pending, v) && i < |cur| && Overlaps(cur[i], v)
    ensures !pending && m < |rs| && cur[i] == rs[m]
    ensures Splits(cur[i], v) ==> AnySplit(rs, v) && |cur| <= |rs|
    ensures var cut := Cut(cur[i], v);
            DelLoop(Replaced(cur, i, v), if cut == [] then i else i + 1, rs, m + 1, |cut| == 2, v)
  {
    assert cur[i] == cur[i..][0] == rs[m];
    DelStep(rs, m, v);
    SplitPrefix(rs, m, v);
    var cut := Cut(cur[i], v);
    var next := Replaced(cur, i, v);
    assert cur[i + 1..] == cur[i..][1..] == rs[m + 1..];
    assert next[..i + |cut|] == cur[..i] + cut;
    assert next[i + |cut|..] == cur[i + 1..];
    forall k | 0 <= k < m
      ensures !Splits(rs[..m][k], v)
    {
      SplitExcludes(rs, v, m, k);
    }
  }

  /** The list with the region at i replaced by what is left of it. */
  ghost function Replaced(cur: seq<Region>, i: nat, v: Region): seq<Region>
    requires i < |cur| && NoWrap(cur[i])
  {
    cur[..i] + Cut(cur[i], v) + cur[i + 1..]
  }

  lemma HalvesReplace(rs: seq<Region>, i: nat, v: Region)
    requires i < |rs| && NoWrap(rs[i]) && EndFits(v) && Splits(rs[i], v)
    ensures (rs[..i + 1] + rs[i..])[i + 1 := Right(rs[i], v)][i := Left(rs[i], v)] == Replaced(rs, i, v)
  {
  }

  lemma DelStep(rs: seq<Region>, m: nat, v: Region)
    requires AllNoWrap(rs) && m < |rs|
    ensures DelSpec(rs[..m + 1], v) == DelSpec(rs[..m], v) + Cut(rs[m], v)
  {
    assert rs[..m + 1] == rs[..m] + [rs[m]];
    DelSpecSnoc(rs[..m], rs[m], v);
  }

  lemma NotSplitByMember(rs: seq<Region>, i: nat)
    requires WellFormed(rs) && i < |rs|
    ensures forall k :: 0 <= k < |rs| ==> !Splits(rs[k], rs[i])
  {
    forall k | 0 <= k < |rs|
      ensures !Splits(rs[k], rs[i])
    {
      if k < i {
        assert Disjoint(rs[k], rs[i]);
      } else if i < k {
        assert Disjoint(rs[i], rs[k]);
      }
    }
  }
}
