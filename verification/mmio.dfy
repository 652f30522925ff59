/** The list of memory-mapped regions and the bounds that let a lookup skip it. */
module MappedRegions {
  datatype Region = Region(id: nat, base: nat, size: nat)

  const TOP: nat := 0xFFFF_FFFF_FFFF_FFFF

  /** The end of a range in 64-bit arithmetic, which wraps. */
  function EndOf(base: nat, size: nat): nat { (base + size) % (TOP + 1) }

  function End(r: Region): nat { EndOf(r.base, r.size) }

  /** The test of the lookup. */
  predicate Matches(r: Region, address: nat, size: nat) {
    r.base <= address && EndOf(address, size) <= End(r)
  }

  /** The access lies within the region. */
  predicate Contains(r: Region, address: nat, size: nat) {
    r.base <= address && address + size <= r.base + r.size
  }

  predicate Wraps(base: nat, size: nat) { base + size > TOP }

  /** The test is containment unless just one of the two ranges wraps; then an access that wraps is in no
      region and the test decides by its wrapped end, and a region that wraps is missed by its wrapped end. */
  lemma MatchesExactly(r: Region, address: nat, size: nat)
    requires r.base <= TOP && r.size <= TOP && address <= TOP && size <= TOP
    ensures Wraps(address, size) == Wraps(r.base, r.size) ==> (Matches(r, address, size) <==> Contains(r, address, size))
    ensures Wraps(address, size) && !Wraps(r.base, r.size) ==>
      !Contains(r, address, size) && (Matches(r, address, size) <==> r.base <= address && address + size - TOP - 1 <= r.base + r.size)
    ensures !Wraps(address, size) && Wraps(r.base, r.size) ==>
      (Contains(r, address, size) <==> r.base <= address)
      && (Matches(r, address, size) <==> r.base <= address && address + size <= r.base + r.size - TOP - 1)
  {
    WrapOnce(address, size);
    WrapOnce(r.base, r.size);
  }

  lemma WrapOnce(base: nat, size: nat)
    requires base <= TOP && size <= TOP
    ensures EndOf(base, size) == if Wraps(base, size) then base + size - TOP - 1 else base + size
  {}

  /** An access over the top of the address space matches a region at its bottom. */
  lemma WrappedMatch()
    ensures Matches(Region(1, 0, 16), TOP, 2) && !Contains(Region(1, 0, 16), TOP, 2)
  {
    MatchesExactly(Region(1, 0, 16), TOP, 2);
  }

  datatype Found = Missing | Found(region: Region)

  /** The first region that an access matches. */
  function FirstMatching(regions: seq<Region>, address: nat, size: nat): Found {
    if regions == [] then Missing
    else if Matches(regions[0], address, size) then Found(regions[0])
    else FirstMatching(regions[1..], address, size)
  }

  lemma {:induction false} NoneMatches(regions: seq<Region>, address: nat, size: nat)
    requires forall i :: 0 <= i < |regions| ==> !Matches(regions[i], address, size)
    ensures FirstMatching(regions, address, size) == Missing
  {
    if regions != [] { NoneMatches(regions[1..], address, size); }
  }

  lemma {:induction false} FirstAt(regions: seq<Region>, address: nat, size: nat, i: nat)
    requires i < |regions| && Matches(regions[i], address, size)
    requires forall j :: 0 <= j < i ==> !Matches(regions[j], address, size)
    ensures FirstMatching(regions, address, size) == Found(regions[i])
  {
    if i > 0 {
      assert !Matches(regions[0], address, size);
      FirstAt(regions[1..], address, size, i - 1);
    }
  }

  predicate IsMinBase(regions: seq<Region>, m: nat) {
    (exists i :: 0 <= i < |regions| && regions[i].base == m) && forall i :: 0 <= i < |regions| ==> m <= regions[i].base
  }

  predicate IsMaxEnd(regions: seq<Region>, m: nat) {
    (exists i :: 0 <= i < |regions| && End(regions[i]) == m) && forall i :: 0 <= i < |regions| ==> End(regions[i]) <= m
  }

  /** Region i of `was`, the first with the id, is gone. */
  predicate RemovedFirst(now: seq<Region>, was: seq<Region>, id: nat, i: nat) {
    && i < |was| && was[i].id == id && now == was[..i] + was[i + 1..]
    && forall j :: 0 <= j < i ==> was[j].id != id
  }

  class MmioRegions {
    var regions: seq<Region>
    var minBase: nat
    var maxEnd: nat

    /** The bounds are exact: the least base and the greatest end of the regions that are there. */
    ghost predicate Valid()
      reads this
    {
      if regions == [] then minBase == TOP && maxEnd == 0 else IsMinBase(regions, minBase) && IsMaxEnd(regions, maxEnd)
    }

    constructor ()
      ensures Valid() && regions == []
    {
      regions, minBase, maxEnd := [], TOP, 0;
    }

    method MapMmio(r: Region)
      requires Valid()
      modifies this
      ensures Valid() && regions == old(regions) + [r]
    {
      ghost var was := regions;
      ghost var lo, hi := minBase, maxEnd;
      regions := regions + [r];
      if |regions| == 1 {
        minBase, maxEnd := r.base, End(r);
        assert regions[0] == r;
      } else {
        minBase := if r.base < minBase then r.base else minBase;
        maxEnd := if End(r) > maxEnd then End(r) else maxEnd;
        Extended(was, r, lo, hi);
      }
    }

    /** Removes the first region with an id; the bounds are computed again from those that stay. */
    method UnmapMmio(id: nat) returns (found: bool)
      requires Valid()
      modifies this
      ensures Valid()
      ensures !found ==> regions == old(regions) && forall i :: 0 <= i < |regions| ==> regions[i].id != id
      ensures found ==> exists i :: RemovedFirst(regions, old(regions), id, i)
    {
      for i := 0 to |regions|
        invariant forall j :: 0 <= j < i ==> regions[j].id != id
        invariant regions == old(regions) && minBase == old(minBase) && maxEnd == old(maxEnd)
      {
        if regions[i].id == id {
          regions := regions[..i] + regions[i + 1..];
          assert RemovedFirst(regions, old(regions), id, i);
          minBase, maxEnd := Bounds(regions);
          return true;
        }
      }
      found := false;
    }

    method ClearMmioRegions()
      modifies this
      ensures Valid() && regions == []
    {
      regions, minBase, maxEnd := [], TOP, 0;
    }

    /** The lookup, with its early exit on the bounds, finds exactly the first region that the access
        matches: the bounds never hide one. */
    method FindMmioRegion(address: nat, size: nat) returns (r: Found)
      requires Valid()
      ensures r == FirstMatching(regions, address, size)
    {
      if regions == [] || address < minBase || EndOf(address, size) > maxEnd {
        NoneMatches(regions, address, size);
        return Missing;
      }
      for i := 0 to |regions|
        invariant forall j :: 0 <= j < i ==> !Matches(regions[j], address, size)
      {
        if Matches(regions[i], address, size) {
          FirstAt(regions, address, size, i);
          return Found(regions[i]);
        }
      }
      NoneMatches(regions, address, size);
      r := Missing;
    }
  }

  lemma Extended(regions: seq<Region>, r: Region, lo: nat, hi: nat)
    requires regions != [] && IsMinBase(regions, lo) && IsMaxEnd(regions, hi)
    ensures IsMinBase(regions + [r], if r.base < lo then r.base else lo)
    ensures IsMaxEnd(regions + [r], if End(r) > hi then End(r) else hi)
  {
    var now := regions + [r];
    assert now[|regions|] == r;
    var i :| 0 <= i < |regions| && regions[i].base == lo;
    var j :| 0 <= j < |regions| && End(regions[j]) == hi;
    assert now[i].base == lo && End(now[j]) == hi;
  }

  /** The bounds of a list of regions, or those of no region. */
  method Bounds(regions: seq<Region>) returns (lo: nat, hi: nat)
    ensures regions == [] ==> lo == TOP && hi == 0
    ensures regions != [] ==> IsMinBase(regions, lo) && IsMaxEnd(regions, hi)
  {
    hide IsMinBase, IsMaxEnd, End;
    if regions == [] {
      return TOP, 0;
    }
    lo, hi := regions[0].base, End(regions[0]);
    OneRegion(regions);
    for i := 1 to |regions|
      invariant IsMinBase(regions[..i], lo) && IsMaxEnd(regions[..i], hi)
    {
      Extended(regions[..i], regions[i], lo, hi);
      assert regions[..i] + [regions[i]] == regions[..i + 1];
      lo := if regions[i].base < lo then regions[i].base else lo;
      hi := if End(regions[i]) > hi then End(regions[i]) else hi;
    }
    assert regions[..|regions|] == regions;
  }

  lemma OneRegion(regions: seq<Region>)
    requires regions != []
    ensures IsMinBase(regions[..1], regions[0].base) && IsMaxEnd(regions[..1], End(regions[0]))
  {
    assert regions[..1][0] == regions[0];
  }
}
