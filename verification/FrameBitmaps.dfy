/** The three levels of bitmaps of the physical frame allocator: what they say about live blocks,
    although the summaries of the upper levels are not exact. */
module FrameBitmaps {
  const FRAMES: nat := 0x400_0000
  const REGIONS: nat := 0x2_0000
  const GROUPS: nat := 0x2000
  const REGION_FRAMES: nat := 512
  const GROUP_REGIONS: nat := 16
  const DMA_FRAMES: nat := 0x1000

  /** One flag per 4KB frame, two per 2MB region and two per 32MB group of regions. */
  datatype Maps = Maps(used4KB: seq<bool>, used2MB: seq<bool>, free2MB: seq<bool>, used32MB: seq<bool>, free32MB: seq<bool>) {
    predicate Sized() {
      && |used4KB| == FRAMES && |used2MB| == REGIONS && |free2MB| == REGIONS && |used32MB| == GROUPS && |free32MB| == GROUPS
    }
  }

  function RegionOf(frame: nat): nat {
    frame / REGION_FRAMES
  }

  function GroupOf(region: nat): nat {
    region / GROUP_REGIONS
  }

  // ---------- what the bitmaps mean ----------

  /** A used block has its parents marked as used. */
  predicate UsedUpwards(b: Maps)
    requires b.Sized()
  {
    && (forall f :: 0 <= f < FRAMES && b.used4KB[f] ==> b.used2MB[RegionOf(f)])
    && (forall r :: 0 <= r < REGIONS && b.used2MB[r] ==> b.used32MB[GroupOf(r)])
  }

  predicate LiveFrames(b: Maps, frames: set<nat>)
    requires b.Sized()
  {
    forall f :: f in frames ==> f < FRAMES && b.used4KB[f]
  }

  /** A region handed out as a whole: no frame of it is marked, and none may be taken. */
  predicate LiveRegions(b: Maps, regions: set<nat>)
    requires b.Sized()
  {
    && (forall r :: r in regions ==> r < REGIONS && b.used2MB[r] && !b.free2MB[r])
    && (forall f :: 0 <= f < FRAMES && RegionOf(f) in regions ==> !b.used4KB[f])
  }

  predicate DMAReserved(b: Maps)
    requires b.Sized()
  {
    forall f :: 0 <= f < DMA_FRAMES ==> b.used4KB[f]
  }

  /** Every free frame shows in its region's summary, and every untouched region in its group's. */
  predicate FreeUpwards(b: Maps, regions: set<nat>)
    requires b.Sized()
  {
    && (forall f :: 0 <= f < FRAMES && !b.used4KB[f] ==> b.free2MB[RegionOf(f)] || RegionOf(f) in regions)
    && (forall r :: 0 <= r < REGIONS && !b.used2MB[r] ==> b.free32MB[GroupOf(r)])
  }

  predicate Available(b: Maps, regions: set<nat>, f: nat)
    requires b.Sized()
  {
    f < FRAMES && !b.used4KB[f] && RegionOf(f) !in regions
  }

  ghost predicate GroupHasFrame(b: Maps, regions: set<nat>, group: nat)
    requires b.Sized()
  {
    exists f: nat :: Available(b, regions, f) && GroupOf(RegionOf(f)) == group
  }

  /** A group that claims to have free memory has a free frame. */
  ghost predicate FreeIsTrue(b: Maps, regions: set<nat>)
    requires b.Sized()
  {
    forall g: nat :: g < GROUPS && b.free32MB[g] ==> GroupHasFrame(b, regions, g)
  }

  /** The invariant of the allocator, for the live frames and the live regions. */
  ghost predicate Consistent(b: Maps, frames: set<nat>, regions: set<nat>) {
    && b.Sized() && UsedUpwards(b) && LiveFrames(b, frames) && LiveRegions(b, regions) && DMAReserved(b)
    && FreeUpwards(b, regions) && FreeIsTrue(b, regions)
  }

  // ---------- live blocks do not overlap ----------

  datatype Block = Frame(frame: nat) | Region(region: nat) {
    function Start(): nat {
      if Frame? then frame * 0x1000 else region * 0x20_0000
    }

    function Size(): nat {
      if Frame? then 0x1000 else 0x20_0000
    }
  }

  predicate Live(block: Block, frames: set<nat>, regions: set<nat>) {
    match block
    case Frame(f) => f in frames
    case Region(r) => r in regions
  }

  /** Different live blocks share no byte, and none lies in the DMA zone. */
  lemma LiveBlocksAreDisjoint(b: Maps, frames: set<nat>, regions: set<nat>, x: Block, y: Block, byte: nat)
    requires Consistent(b, frames, regions) && Live(x, frames, regions) && Live(y, frames, regions)
    requires x.Start() <= byte < x.Start() + x.Size() && y.Start() <= byte < y.Start() + y.Size()
    ensures x == y && (x.Region? ==> byte >= DMA_FRAMES * 0x1000)
  {
    var f := byte / 0x1000;
    assert x.Frame? ==> x.frame == f;
    assert y.Frame? ==> y.frame == f;
    assert x.Region? ==> x.region == byte / 0x20_0000 && RegionOf(f) == x.region;
    assert y.Region? ==> y.region == byte / 0x20_0000 && RegionOf(f) == y.region;
  }

  // ---------- marking a region as used ----------

  predicate GroupUsed(used2MB: seq<bool>, group: nat)
    requires group < GROUPS && |used2MB| == REGIONS
  {
    forall r :: group * GROUP_REGIONS <= r < (group + 1) * GROUP_REGIONS ==> used2MB[r]
  }

  predicate RegionFull(used4KB: seq<bool>, region: nat)
    requires region < REGIONS && |used4KB| == FRAMES
  {
    forall f :: region * REGION_FRAMES <= f < (region + 1) * REGION_FRAMES ==> used4KB[f]
  }

  function MarkedGroup(b: Maps, group: nat): (m: Maps)
    requires b.Sized() && group < GROUPS
    ensures m.Sized()
  {
    b.(used32MB := b.used32MB[group := true],
       free32MB := if GroupUsed(b.used2MB, group) then b.free32MB[group := false] else b.free32MB)
  }

  function MarkedRegion(b: Maps, region: nat): (m: Maps)
    requires b.Sized() && region < REGIONS
    ensures m.Sized()
  {
    MarkedGroup(b.(used2MB := b.used2MB[region := true]), GroupOf(region))
    .(free2MB := if RegionFull(b.used4KB, region) then b.free2MB[region := false] else b.free2MB)
  }

  /** The group of a region is marked as free only if a region of it is untouched. */
  predicate GroupTrusted(b: Maps, region: nat)
    requires b.Sized() && region < REGIONS
  {
    b.free32MB[GroupOf(region)] ==> !GroupUsed(b.used2MB, GroupOf(region))
  }

  lemma UntouchedHasFrame(b: Maps, frames: set<nat>, regions: set<nat>, group: nat)
    requires b.Sized() && UsedUpwards(b) && LiveRegions(b, regions) && group < GROUPS && !GroupUsed(b.used2MB, group)
    ensures GroupHasFrame(b, regions, group)
  {
    var r :| group * GROUP_REGIONS <= r < (group + 1) * GROUP_REGIONS && !b.used2MB[r];
    assert RegionOf(r * REGION_FRAMES) == r;
    assert Available(b, regions, r * REGION_FRAMES);
  }

  lemma MarkKeeps(b: Maps, frames: set<nat>, regions: set<nat>, region: nat)
    requires Consistent(b, frames, regions) && region < REGIONS && region !in regions
    ensures Consistent(MarkedRegion(b, region), frames, regions) && GroupTrusted(MarkedRegion(b, region), region)
  {
    var m := MarkedRegion(b, region);
    assert UsedUpwards(m);
    assert LiveRegions(m, regions);
    assert FreeUpwards(m, regions);
    forall g: nat | g < GROUPS && m.free32MB[g]
      ensures GroupHasFrame(m, regions, g)
    {
      if g == GroupOf(region) {
        UntouchedHasFrame(m, frames, regions, g);
      } else {
        var f: nat :| Available(b, regions, f) && GroupOf(RegionOf(f)) == g;
        assert Available(m, regions, f);
      }
    }
  }

  // ---------- taking a frame ----------

  function WithFrame(b: Maps, f: nat): (m: Maps)
    requires b.Sized() && f < FRAMES
    ensures m.Sized()
  {
    b.(used4KB := b.used4KB[f := true])
  }

  /** Taking a frame of a region that has been marked. */
  lemma FrameKeeps(b: Maps, frames: set<nat>, regions: set<nat>, f: nat)
    requires Consistent(b, frames, regions) && Available(b, regions, f) && b.used2MB[RegionOf(f)] && GroupTrusted(b, RegionOf(f))
    ensures Consistent(WithFrame(b, f), frames + {f}, regions) && f !in frames && f >= DMA_FRAMES
  {
    var m := WithFrame(b, f);
    forall g: nat | g < GROUPS && m.free32MB[g]
      ensures GroupHasFrame(m, regions, g)
    {
      if g == GroupOf(RegionOf(f)) {
        UntouchedHasFrame(m, frames + {f}, regions, g);
      } else {
        var f' :| Available(b, regions, f') && GroupOf(RegionOf(f')) == g;
        assert Available(m, regions, f');
      }
    }
  }

  /** Taking a frame first and marking its region afterwards. */
  lemma FrameThenMarkKeeps(b: Maps, frames: set<nat>, regions: set<nat>, f: nat)
    requires Consistent(b, frames, regions) && Available(b, regions, f)
    ensures Consistent(MarkedRegion(WithFrame(b, f), RegionOf(f)), frames + {f}, regions) && f !in frames && f >= DMA_FRAMES
  {
    var r := RegionOf(f);
    MarkKeeps(b, frames, regions, r);
    var c := WithFrame(MarkedRegion(b, r), f);
    FrameKeeps(MarkedRegion(b, r), frames, regions, f);
    var m := MarkedRegion(WithFrame(b, f), r);
    if RegionFull(WithFrame(b, f).used4KB, r) {
      assert m == c.(free2MB := c.free2MB[r := false]);
      FullRegionClosed(c, frames + {f}, regions, r);
    } else {
      assert !RegionFull(b.used4KB, r);
      assert m == c;
    }
  }

  lemma FullRegionClosed(b: Maps, frames: set<nat>, regions: set<nat>, r: nat)
    requires Consistent(b, frames, regions) && r < REGIONS && RegionFull(b.used4KB, r) && r !in regions
    ensures Consistent(b.(free2MB := b.free2MB[r := false]), frames, regions)
  {
    var m := b.(free2MB := b.free2MB[r := false]);
    forall g: nat | g < GROUPS && m.free32MB[g]
      ensures GroupHasFrame(m, regions, g)
    {
      var f :| Available(b, regions, f) && GroupOf(RegionOf(f)) == g;
      assert Available(m, regions, f);
    }
  }

  // ---------- what allocating a frame does to the bitmaps ----------

  /** Exactly one frame has been taken, and the flags have followed: its region and its group are in use,
      and the group is no longer flagged as free once all its regions are in use. */
  predicate Took(b: Maps, m: Maps, f: nat) {
    && b.Sized() && m.Sized() && f < FRAMES && !b.used4KB[f] && m.used4KB == b.used4KB[f := true]
    && (forall r :: 0 <= r < REGIONS ==> (m.used2MB[r] <==> b.used2MB[r] || r == RegionOf(f)))
    && (forall g :: 0 <= g < GROUPS ==> (m.used32MB[g] <==> b.used32MB[g] || g == GroupOf(RegionOf(f))))
    && (forall g :: 0 <= g < GROUPS ==>
          (m.free32MB[g] <==> b.free32MB[g] && (g == GroupOf(RegionOf(f)) ==> !GroupUsed(m.used2MB, g))))
  }

  /** Taking the remembered frame closes its region if that frame was the last free one. */
  predicate HintFlags(b: Maps, m: Maps, f: nat) {
    && b.Sized() && m.Sized() && f < FRAMES
    && forall r :: 0 <= r < REGIONS ==> (m.free2MB[r] <==> b.free2MB[r] && (r == RegionOf(f) ==> !RegionFull(m.used4KB, r)))
  }

  /** A search closes the regions of the group that it has passed over, and no other. */
  predicate SearchFlags(b: Maps, m: Maps, f: nat) {
    && b.Sized() && m.Sized() && f < FRAMES
    && forall r :: 0 <= r < REGIONS ==>
         (m.free2MB[r] <==> b.free2MB[r] && !(GroupOf(r) == GroupOf(RegionOf(f)) && r < RegionOf(f)))
  }

  /** The lowest free frame of the group's regions that are flagged as free. */
  predicate LowestOpen(b: Maps, f: nat) {
    && b.Sized() && f < FRAMES && !b.used4KB[f] && b.free2MB[RegionOf(f)]
    && forall f' :: 0 <= f' < f && GroupOf(RegionOf(f')) == GroupOf(RegionOf(f)) && b.free2MB[RegionOf(f')] ==> b.used4KB[f']
  }

  lemma HintTook(b: Maps, f: nat)
    requires b.Sized() && f < FRAMES && !b.used4KB[f]
    ensures Took(b, MarkedRegion(WithFrame(b, f), RegionOf(f)), f)
    ensures HintFlags(b, MarkedRegion(WithFrame(b, f), RegionOf(f)), f)
  {
    hide RegionFull;
  }

  /** A search has passed over the first j regions of a group: those that claimed to have a free frame had
      none, and no longer claim it. */
  predicate Searched(b: Maps, m: Maps, group: nat, j: nat) {
    && b.Sized() && m.Sized() && group < GROUPS && j <= GROUP_REGIONS
    && m.used4KB == b.used4KB && m.used2MB == b.used2MB && m.used32MB == b.used32MB
    && (forall r :: 0 <= r < REGIONS ==> (m.free2MB[r] <==> b.free2MB[r] && !(group * GROUP_REGIONS <= r < group * GROUP_REGIONS + j)))
    && (forall g :: 0 <= g < GROUPS && g != group ==> m.free32MB[g] == b.free32MB[g])
    && (m.free32MB[group] != b.free32MB[group] ==> b.free32MB[group] && GroupUsed(b.used2MB, group))
    && forall r :: group * GROUP_REGIONS <= r < group * GROUP_REGIONS + j && b.free2MB[r] ==> RegionFull(b.used4KB, r)
  }

  lemma SearchBegins(b: Maps, group: nat)
    requires b.Sized() && group < GROUPS
    ensures Searched(b, b, group, 0)
  {
  }

  lemma PassesClosed(b: Maps, m: Maps, group: nat, j: nat)
    requires Searched(b, m, group, j) && j < GROUP_REGIONS && !m.free2MB[group * GROUP_REGIONS + j]
    ensures Searched(b, m, group, j + 1)
  {
    hide RegionFull, GroupUsed;
    assert !b.free2MB[group * GROUP_REGIONS + j];
  }

  lemma PassesFull(b: Maps, m: Maps, group: nat, j: nat)
    requires Searched(b, m, group, j) && j < GROUP_REGIONS && UsedUpwards(m)
    requires RegionFull(m.used4KB, group * GROUP_REGIONS + j)
    ensures Searched(b, MarkedRegion(m, group * GROUP_REGIONS + j), group, j + 1)
  {
    var r := group * GROUP_REGIONS + j;
    assert m.used4KB[r * REGION_FRAMES] && RegionOf(r * REGION_FRAMES) == r && GroupOf(r) == group;
    hide RegionFull, GroupUsed;
    assert m.used2MB[r := true] == m.used2MB && m.used32MB[group := true] == m.used32MB;
  }

  lemma SearchFinds(b: Maps, m: Maps, group: nat, j: nat, f: nat)
    requires Searched(b, m, group, j) && j < GROUP_REGIONS && f < FRAMES && RegionOf(f) == group * GROUP_REGIONS + j
    requires !m.used4KB[f] && m.free2MB[RegionOf(f)] && forall f' :: RegionOf(f) * REGION_FRAMES <= f' < f ==> m.used4KB[f']
    ensures var m' := WithFrame(MarkedRegion(m, RegionOf(f)), f); Took(b, m', f) && SearchFlags(b, m', f)
    ensures LowestOpen(b, f)
  {
    var r := RegionOf(f);
    assert !RegionFull(m.used4KB, r);
    assert GroupOf(r) == group;
    FoundIsLowest(b, m, group, j, f);
    hide RegionFull;
    assert forall r' :: 0 <= r' < REGIONS && GroupOf(r') == group && r' < r ==> group * GROUP_REGIONS <= r' < group * GROUP_REGIONS + j;
  }

  lemma FoundIsLowest(b: Maps, m: Maps, group: nat, j: nat, f: nat)
    requires Searched(b, m, group, j) && j < GROUP_REGIONS && f < FRAMES && RegionOf(f) == group * GROUP_REGIONS + j
    requires !m.used4KB[f] && m.free2MB[RegionOf(f)] && forall f' :: RegionOf(f) * REGION_FRAMES <= f' < f ==> m.used4KB[f']
    ensures LowestOpen(b, f)
  {
    forall f' | 0 <= f' < f && GroupOf(RegionOf(f')) == GroupOf(RegionOf(f)) && b.free2MB[RegionOf(f')]
      ensures b.used4KB[f']
    {
      var r := RegionOf(f');
      assert r * REGION_FRAMES <= f' < (r + 1) * REGION_FRAMES;
      assert r < RegionOf(f) ==> RegionFull(b.used4KB, r);
    }
  }

  // ---------- what each change means, flag by flag ----------

  /** Marking a region: it and its group are in use; the region is still free if one of its frames is, and
      the group if one of its regions is untouched, as far as they were flagged so. */
  lemma MarkedRegionFlags(b: Maps, region: nat)
    requires b.Sized() && region < REGIONS
    ensures var m := MarkedRegion(b, region);
            && m.used4KB == b.used4KB
            && (forall r :: 0 <= r < REGIONS ==> (m.used2MB[r] <==> b.used2MB[r] || r == region))
            && (forall r :: 0 <= r < REGIONS && r != region ==> m.free2MB[r] == b.free2MB[r])
            && (m.free2MB[region] <==>
                 b.free2MB[region] && exists f :: region * REGION_FRAMES <= f < (region + 1) * REGION_FRAMES && !b.used4KB[f])
            && (forall g :: 0 <= g < GROUPS ==> (m.used32MB[g] <==> b.used32MB[g] || g == GroupOf(region)))
            && (forall g :: 0 <= g < GROUPS && g != GroupOf(region) ==> m.free32MB[g] == b.free32MB[g])
            && (m.free32MB[GroupOf(region)] <==>
                 b.free32MB[GroupOf(region)] && exists r :: 0 <= r < REGIONS && GroupOf(r) == GroupOf(region) && !m.used2MB[r])
  {
    var m, g := MarkedRegion(b, region), GroupOf(region);
    UntouchedInGroup(m.used2MB, g);
    assert RegionFull(b.used4KB, region) || exists f :: region * REGION_FRAMES <= f < (region + 1) * REGION_FRAMES && !b.used4KB[f];
    hide RegionFull, GroupUsed;
  }

  lemma UntouchedInGroup(used2MB: seq<bool>, g: nat)
    requires |used2MB| == REGIONS && g < GROUPS
    ensures GroupUsed(used2MB, g) <==> forall r :: 0 <= r < REGIONS && GroupOf(r) == g ==> used2MB[r]
  {
    assert forall r :: 0 <= r < REGIONS ==> (GroupOf(r) == g <==> g * GROUP_REGIONS <= r < (g + 1) * GROUP_REGIONS);
  }

  // ---------- searching a group ----------

  /** A free frame lies in region j of the group or in a later one. */
  ghost predicate FrameRemains(b: Maps, regions: set<nat>, group: nat, j: nat)
    requires b.Sized()
  {
    exists f: nat :: Available(b, regions, f) && group * GROUP_REGIONS + j <= RegionOf(f) < (group + 1) * GROUP_REGIONS
  }

  /** A region that does not claim to have a free frame has none. */
  lemma ClosedHasNone(b: Maps, frames: set<nat>, regions: set<nat>, group: nat, j: nat)
    requires Consistent(b, frames, regions) && group < GROUPS && j < GROUP_REGIONS && FrameRemains(b, regions, group, j)
    requires !b.free2MB[group * GROUP_REGIONS + j]
    ensures FrameRemains(b, regions, group, j + 1)
  {
  }

  /** A full region has no free frame; marking it has changed no frame. */
  lemma FullHasNone(b: Maps, m: Maps, regions: set<nat>, group: nat, j: nat)
    requires b.Sized() && m.Sized() && m.used4KB == b.used4KB && group < GROUPS && j < GROUP_REGIONS
    requires FrameRemains(b, regions, group, j) && RegionFull(m.used4KB, group * GROUP_REGIONS + j)
    ensures FrameRemains(m, regions, group, j + 1)
  {
    var r := group * GROUP_REGIONS + j;
    var f: nat :| Available(b, regions, f) && r <= RegionOf(f) < (group + 1) * GROUP_REGIONS;
    assert Available(m, regions, f);
    assert RegionOf(f) == r ==> r * REGION_FRAMES <= f < (r + 1) * REGION_FRAMES;
  }

  lemma OpenIsNotLive(b: Maps, frames: set<nat>, regions: set<nat>, r: nat)
    requires Consistent(b, frames, regions) && r < REGIONS && b.free2MB[r]
    ensures r !in regions
  {
  }

  // ---------- taking a region ----------

  function WithRegion(b: Maps, r: nat): (m: Maps)
    requires b.Sized() && r < REGIONS
    ensures m.Sized()
  {
    MarkedGroup(b.(used2MB := b.used2MB[r := true], free2MB := b.free2MB[r := false]), GroupOf(r))
  }

  lemma RegionKeeps(b: Maps, frames: set<nat>, regions: set<nat>, r: nat)
    requires Consistent(b, frames, regions) && r < REGIONS && !b.used2MB[r]
    ensures Consistent(WithRegion(b, r), frames, regions + {r}) && r !in regions && r * REGION_FRAMES >= DMA_FRAMES
    ensures forall f :: f in frames ==> RegionOf(f) != r
  {
    var m := WithRegion(b, r);
    assert !b.used4KB[r * REGION_FRAMES] by {
      assert RegionOf(r * REGION_FRAMES) == r;
    }
    assert UsedUpwards(m);
    assert LiveRegions(m, regions + {r});
    assert FreeUpwards(m, regions + {r});
    forall g: nat | g < GROUPS && m.free32MB[g]
      ensures GroupHasFrame(m, regions + {r}, g)
    {
      if g == GroupOf(r) {
        UntouchedHasFrame(m, frames, regions + {r}, g);
      } else {
        var f :| Available(b, regions, f) && GroupOf(RegionOf(f)) == g;
        assert Available(m, regions + {r}, f);
      }
    }
  }

  // ---------- giving back ----------

  predicate AnyOf(flags: seq<bool>, group: nat)
    requires group < GROUPS && |flags| == REGIONS
  {
    exists r :: group * GROUP_REGIONS <= r < (group + 1) * GROUP_REGIONS && flags[r]
  }

  function UpdatedGroup(b: Maps, group: nat): (m: Maps)
    requires b.Sized() && group < GROUPS
    ensures m.Sized()
  {
    b.(used32MB := b.used32MB[group := AnyOf(b.used2MB, group)], free32MB := b.free32MB[group := AnyOf(b.free2MB, group)])
  }

  predicate AnyFrameUsed(used4KB: seq<bool>, region: nat)
    requires region < REGIONS && |used4KB| == FRAMES
  {
    exists f :: region * REGION_FRAMES <= f < (region + 1) * REGION_FRAMES && used4KB[f]
  }

  function ClearedFrame(b: Maps, f: nat): (m: Maps)
    requires b.Sized() && f < FRAMES
    ensures m.Sized() && !m.used4KB[f]
  {
    var r, used4KB := RegionOf(f), b.used4KB[f := false];
    b.(used4KB := used4KB, free2MB := b.free2MB[r := true],
       used2MB := if AnyFrameUsed(used4KB, r) then b.used2MB else b.used2MB[r := false])
  }

  function WithoutFrame(b: Maps, f: nat): (m: Maps)
    requires b.Sized() && f < FRAMES
    ensures m.Sized() && !m.used4KB[f]
  {
    UpdatedGroup(ClearedFrame(b, f), GroupOf(RegionOf(f)))
  }

  lemma FreedFrameCovers(b: Maps, f: nat)
    requires b.Sized() && f < FRAMES && UsedUpwards(b)
    ensures forall f' :: 0 <= f' < FRAMES && WithoutFrame(b, f).used4KB[f'] ==> WithoutFrame(b, f).used2MB[RegionOf(f')]
    ensures forall r' :: 0 <= r' < REGIONS && WithoutFrame(b, f).used2MB[r'] ==> WithoutFrame(b, f).used32MB[GroupOf(r')]
    ensures WithoutFrame(b, f).free32MB[GroupOf(RegionOf(f))]
  {
    var r, used4KB := RegionOf(f), b.used4KB[f := false];
    var c := ClearedFrame(b, f);
    hide AnyOf, AnyFrameUsed, GroupOf;
    forall f' | 0 <= f' < FRAMES && used4KB[f']
      ensures c.used2MB[RegionOf(f')]
    {
    }
    assert c.free2MB[r];
  }

  lemma FreeFrameKeeps(b: Maps, frames: set<nat>, regions: set<nat>, f: nat)
    requires Consistent(b, frames, regions) && DMA_FRAMES <= f < FRAMES && b.used4KB[f]
    ensures Consistent(WithoutFrame(b, f), frames - {f}, regions) && RegionOf(f) !in regions && WithoutFrame(b, f).free2MB[RegionOf(f)]
  {
    var r, m := RegionOf(f), WithoutFrame(b, f);
    FreedFrameCovers(b, f);
    assert UsedUpwards(m);
    assert LiveRegions(m, regions);
    assert FreeUpwards(m, regions);
    forall g: nat | g < GROUPS && m.free32MB[g]
      ensures GroupHasFrame(m, regions, g)
    {
      if g == GroupOf(r) {
        assert Available(m, regions, f);
      } else {
        var f' :| Available(b, regions, f') && GroupOf(RegionOf(f')) == g;
        assert Available(m, regions, f');
      }
    }
  }

  function Cleared(used4KB: seq<bool>, region: nat): (c: seq<bool>)
    ensures |c| == |used4KB| && forall f :: 0 <= f < |c| ==> c[f] == (used4KB[f] && RegionOf(f) != region)
  {
    seq(|used4KB|, f requires 0 <= f < |used4KB| => used4KB[f] && RegionOf(f) != region)
  }

  function WithoutRegion(b: Maps, r: nat): (m: Maps)
    requires b.Sized() && r < REGIONS
    ensures m.Sized()
  {
    UpdatedGroup(b.(used4KB := Cleared(b.used4KB, r), used2MB := b.used2MB[r := false], free2MB := b.free2MB[r := true]), GroupOf(r))
  }

  lemma FreeRegionKeeps(b: Maps, frames: set<nat>, regions: set<nat>, r: nat)
    requires Consistent(b, frames, regions) && r < REGIONS && r * REGION_FRAMES >= DMA_FRAMES
    requires forall f :: f in frames ==> RegionOf(f) != r
    ensures Consistent(WithoutRegion(b, r), frames, regions - {r})
  {
    var m := WithoutRegion(b, r);
    var c := b.(used4KB := Cleared(b.used4KB, r), used2MB := b.used2MB[r := false], free2MB := b.free2MB[r := true]);
    assert c.free2MB[r] && m.free32MB[GroupOf(r)];
    assert UsedUpwards(m);
    assert LiveRegions(m, regions - {r});
    assert FreeUpwards(m, regions - {r});
    forall g: nat | g < GROUPS && m.free32MB[g]
      ensures GroupHasFrame(m, regions - {r}, g)
    {
      if g == GroupOf(r) {
        assert RegionOf(r * REGION_FRAMES) == r;
        assert Available(m, regions - {r}, r * REGION_FRAMES);
      } else {
        var f :| Available(b, regions, f) && GroupOf(RegionOf(f)) == g;
        assert Available(m, regions - {r}, f);
      }
    }
  }

  /** Handing out a region as a whole: it is in use and closed, and its group stays open only while another
      region of it is untouched. */
  lemma WithRegionFlags(b: Maps, region: nat)
    requires b.Sized() && region < REGIONS
    ensures var m := WithRegion(b, region);
            && m.used4KB == b.used4KB
            && (forall r :: 0 <= r < REGIONS ==> (m.used2MB[r] <==> b.used2MB[r] || r == region))
            && (forall r :: 0 <= r < REGIONS ==> (m.free2MB[r] <==> b.free2MB[r] && r != region))
            && (forall g :: 0 <= g < GROUPS ==> (m.used32MB[g] <==> b.used32MB[g] || g == GroupOf(region)))
            && (forall g :: 0 <= g < GROUPS && g != GroupOf(region) ==> m.free32MB[g] == b.free32MB[g])
            && (m.free32MB[GroupOf(region)] <==>
                 b.free32MB[GroupOf(region)] && exists r :: 0 <= r < REGIONS && GroupOf(r) == GroupOf(region) && !m.used2MB[r])
  {
    UntouchedInGroup(WithRegion(b, region).used2MB, GroupOf(region));
    hide GroupUsed;
  }

  lemma FlaggedInGroup(flags: seq<bool>, g: nat)
    requires |flags| == REGIONS && g < GROUPS
    ensures AnyOf(flags, g) <==> exists r :: 0 <= r < REGIONS && GroupOf(r) == g && flags[r]
  {
    assert forall r :: 0 <= r < REGIONS ==> (GroupOf(r) == g <==> g * GROUP_REGIONS <= r < (g + 1) * GROUP_REGIONS);
  }

  /** The group of a region that was given back has exact flags; those of other groups stay. */
  predicate GroupSummed(b: Maps, m: Maps, group: nat) {
    && b.Sized() && m.Sized() && group < GROUPS
    && (forall g :: 0 <= g < GROUPS && g != group ==> m.used32MB[g] == b.used32MB[g] && m.free32MB[g] == b.free32MB[g])
    && (m.used32MB[group] <==> exists r :: 0 <= r < REGIONS && GroupOf(r) == group && m.used2MB[r])
    && (m.free32MB[group] <==> exists r :: 0 <= r < REGIONS && GroupOf(r) == group && m.free2MB[r])
  }

  lemma UpdatedGroupFlags(b: Maps, group: nat)
    requires b.Sized() && group < GROUPS
    ensures GroupSummed(b, UpdatedGroup(b, group), group)
  {
    FlaggedInGroup(b.used2MB, group);
    FlaggedInGroup(b.free2MB, group);
    hide AnyOf;
  }

  /** Giving back a frame: its region is open, and in use as long as another frame of it is. */
  lemma WithoutFrameFlags(b: Maps, f: nat)
    requires b.Sized() && f < FRAMES && UsedUpwards(b)
    ensures var m := WithoutFrame(b, f);
            && m.used4KB == b.used4KB[f := false] && GroupSummed(b, m, GroupOf(RegionOf(f)))
            && (forall r :: 0 <= r < REGIONS ==> (m.free2MB[r] <==> b.free2MB[r] || r == RegionOf(f)))
            && (forall r :: 0 <= r < REGIONS && r != RegionOf(f) ==> m.used2MB[r] == b.used2MB[r])
            && (m.used2MB[RegionOf(f)] <==> exists f' :: 0 <= f' < FRAMES && RegionOf(f') == RegionOf(f) && m.used4KB[f'])
  {
    var c, r := ClearedFrame(b, f), RegionOf(f);
    assert AnyFrameUsed(c.used4KB, r) <==> exists f' :: 0 <= f' < FRAMES && RegionOf(f') == r && c.used4KB[f'] by {
      assert forall f' :: 0 <= f' < FRAMES ==> (RegionOf(f') == r <==> r * REGION_FRAMES <= f' < (r + 1) * REGION_FRAMES);
    }
    UpdatedGroupFlags(c, GroupOf(r));
    hide AnyFrameUsed, UpdatedGroup, GroupOf;
  }

  /** Giving back a region: none of its frames is in use, and it is open. */
  lemma WithoutRegionFlags(b: Maps, region: nat)
    requires b.Sized() && region < REGIONS
    ensures var m := WithoutRegion(b, region);
            && (forall f :: 0 <= f < FRAMES ==> (m.used4KB[f] <==> b.used4KB[f] && RegionOf(f) != region))
            && (forall r :: 0 <= r < REGIONS ==> (m.used2MB[r] <==> b.used2MB[r] && r != region))
            && (forall r :: 0 <= r < REGIONS ==> (m.free2MB[r] <==> b.free2MB[r] || r == region))
            && GroupSummed(b, m, GroupOf(region))
  {
    var c := b.(used4KB := Cleared(b.used4KB, region), used2MB := b.used2MB[region := false], free2MB := b.free2MB[region := true]);
    UpdatedGroupFlags(c, GroupOf(region));
    hide AnyOf;
  }

  // ---------- summaries computed from the frames ----------

  function Summary2MB(used4KB: seq<bool>, region: nat, value: bool): bool
    requires region < REGIONS && |used4KB| == FRAMES
  {
    exists f :: region * REGION_FRAMES <= f < (region + 1) * REGION_FRAMES && used4KB[f] == value
  }

  /** Exact summaries: both flags of every block say whether a used or a free one lies below. */
  predicate Summarised(b: Maps)
    requires b.Sized()
  {
    && (forall r :: 0 <= r < REGIONS ==> b.used2MB[r] == Summary2MB(b.used4KB, r, true) && b.free2MB[r] == Summary2MB(b.used4KB, r, false))
    && (forall g :: 0 <= g < GROUPS ==> b.used32MB[g] == AnyOf(b.used2MB, g) && b.free32MB[g] == AnyOf(b.free2MB, g))
  }

  lemma SummarisedUpwards(b: Maps)
    requires b.Sized() && Summarised(b)
    ensures UsedUpwards(b) && FreeUpwards(b, {})
  {
    forall f | 0 <= f < FRAMES
      ensures if b.used4KB[f] then b.used2MB[RegionOf(f)] else b.free2MB[RegionOf(f)]
    {
      assert Summary2MB(b.used4KB, RegionOf(f), b.used4KB[f]);
    }
    forall r | 0 <= r < REGIONS
      ensures b.used2MB[r] ==> b.used32MB[GroupOf(r)]
      ensures !b.used2MB[r] ==> b.free32MB[GroupOf(r)]
    {
      SummarisedRegion(b, r);
    }
  }

  lemma SummarisedRegion(b: Maps, r: nat)
    requires b.Sized() && Summarised(b) && r < REGIONS
    ensures b.used2MB[r] ==> b.used32MB[GroupOf(r)]
    ensures !b.used2MB[r] ==> b.free32MB[GroupOf(r)]
  {
    var g := GroupOf(r);
    assert g * GROUP_REGIONS <= r < (g + 1) * GROUP_REGIONS;
    if b.used2MB[r] {
      assert AnyOf(b.used2MB, g);
    } else {
      assert !Summary2MB(b.used4KB, r, true);
      assert !b.used4KB[r * REGION_FRAMES];
      assert Summary2MB(b.used4KB, r, false);
      assert AnyOf(b.free2MB, g);
    }
  }

  lemma SummarisedFrame(b: Maps, g: nat)
    requires b.Sized() && Summarised(b) && g < GROUPS && b.free32MB[g]
    ensures GroupHasFrame(b, {}, g)
  {
    assert AnyOf(b.free2MB, g);
    var r :| g * GROUP_REGIONS <= r < (g + 1) * GROUP_REGIONS && b.free2MB[r];
    assert Summary2MB(b.used4KB, r, false);
    var f :| r * REGION_FRAMES <= f < (r + 1) * REGION_FRAMES && !b.used4KB[f];
    assert RegionOf(f) == r && GroupOf(r) == g;
    assert Available(b, {}, f);
  }

  /** Exact summaries are consistent, with no live block yet. */
  lemma SummarisedIsConsistent(b: Maps)
    requires b.Sized() && Summarised(b) && DMAReserved(b)
    ensures Consistent(b, {}, {})
  {
    SummarisedUpwards(b);
    forall g: nat | g < GROUPS && b.free32MB[g]
      ensures GroupHasFrame(b, {}, g)
    {
      SummarisedFrame(b, g);
    }
  }

  // ---------- what the summaries lose ----------

  /** No group is flagged as free. */
  predicate AllClosed(b: Maps) {
    b.Sized() && forall g :: 0 <= g < GROUPS ==> !b.free32MB[g]
  }

  /** Once every region is in use, taking any frame clears the flag of its group, although other frames
      of the group may be free. */
  lemma TakingCloses(b: Maps, m: Maps, f: nat)
    requires Took(b, m, f) && (forall r :: 0 <= r < REGIONS ==> b.used2MB[r])
    requires forall g :: 0 <= g < GROUPS && g != GroupOf(RegionOf(f)) ==> !b.free32MB[g]
    ensures AllClosed(m)
  {
    assert GroupUsed(m.used2MB, GroupOf(RegionOf(f)));
  }

  predicate OnlyFree(b: Maps, first: nat, n: nat) {
    b.Sized() && forall f :: 0 <= f < FRAMES ==> b.used4KB[f] == !(first <= f < first + n)
  }

  /** Exact summaries of a memory whose only free frames are the three first ones above the DMA zone. */
  lemma ThreeFrames(b: Maps)
    requires OnlyFree(b, DMA_FRAMES, 3) && Summarised(b)
    ensures forall r :: 0 <= r < REGIONS ==> b.used2MB[r]
    ensures b.free32MB[0] && forall g :: 0 < g < GROUPS ==> !b.free32MB[g]
  {
    assert !b.used4KB[DMA_FRAMES];
    assert b.free2MB[RegionOf(DMA_FRAMES)] && AnyOf(b.free2MB, 0);
    forall r | 0 <= r < REGIONS
      ensures b.used2MB[r] && (b.free2MB[r] ==> r == RegionOf(DMA_FRAMES))
    {
      assert b.used4KB[r * REGION_FRAMES + 3];
    }
  }
}
