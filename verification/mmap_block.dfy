/**
Anonymous mappings with an owner, and whole runs of a process that creates and drops them
next to huge-page allocations in one address space.
*/
module MmapBlocks {
  import opened Wrappers
  import opened AddressSpace
  import opened HugePages

  datatype MmapBlock = MmapBlock(ptr: nat, len: nat, numaNode: Option<nat>)

  datatype BlockError = NullPointer | MapRefused | BindRefused

  /** `map_region`.  A mapping at address 0 is reported as an error but stays mapped. */
  method MapRegion(space: Space, len: nat, answer: MapAnswer) returns (r: Result<nat, BlockError>)
    requires space.Valid() && KernelMay(space.memory, len, answer)
    modifies space
    ensures space.Valid()
    ensures answer.MapFailed? ==> r == Err(MapRefused) && space.log == old(space.log) && space.memory == old(space.memory)
    ensures answer.MapAt? ==>
              && r == (if answer.base == 0 then Err(NullPointer) else Ok(answer.base))
              && space.log == old(space.log) + [Mapped(answer.base, len)]
              && space.memory == Apply(old(space.memory), Mapped(answer.base, len))
  {
    if answer.MapFailed? {
      return Err(MapRefused);
    }
    space.Perform(Mapped(answer.base, len));
    if answer.base == 0 {
      return Err(NullPointer);
    }
    return Ok(answer.base);
  }

  method NewBlock(space: Space, len: nat, answer: MapAnswer) returns (r: Result<MmapBlock, BlockError>)
    requires space.Valid() && (len > 0 ==> KernelMay(space.memory, len, answer))
    modifies space
    ensures space.Valid()
    ensures len == 0 ==> r == Err(NullPointer)
    ensures len > 0 && answer.MapFailed? ==> r == Err(MapRefused)
    ensures len > 0 && answer == MapAt(0) ==> r == Err(NullPointer)
    ensures len > 0 && answer.MapAt? && answer.base > 0 ==> r == Ok(MmapBlock(answer.base, len, None))
    ensures space.memory == if len > 0 && answer.MapAt? then Apply(old(space.memory), Mapped(answer.base, len))
                            else old(space.memory)
    ensures space.log == if len > 0 && answer.MapAt? then old(space.log) + [Mapped(answer.base, len)] else old(space.log)
  {
    if len == 0 {
      return Err(NullPointer);
    }
    var region := MapRegion(space, len, answer);
    match region
    case Err(e) => return Err(e);
    case Ok(ptr) => return Ok(MmapBlock(ptr, len, None));
  }

  /** The mapping is released again when it cannot be bound to the node, or stays when the kernel
      refuses that. */
  method NewBlockOnNode(space: Space, len: nat, node: nat, answer: MapAnswer, bound: bool, refused: bool)
    returns (r: Result<MmapBlock, BlockError>)
    requires space.Valid() && (len > 0 ==> KernelMay(space.memory, len, answer))
    modifies space
    ensures space.Valid()
    ensures len == 0 ==> r == Err(NullPointer)
    ensures len > 0 && answer.MapFailed? ==> r == Err(MapRefused)
    ensures len > 0 && answer == MapAt(0) ==> r == Err(NullPointer)
    ensures len > 0 && answer.MapAt? && answer.base > 0 ==>
              r == if bound then Ok(MmapBlock(answer.base, len, Some(node))) else Err(BindRefused)
    ensures space.memory == if len > 0 && answer.MapAt? && (bound || refused || answer.base == 0)
                            then Apply(old(space.memory), Mapped(answer.base, len)) else old(space.memory)
    ensures len > 0 && answer.MapAt? ==>
              space.log == if bound || answer.base == 0 then old(space.log) + [Mapped(answer.base, len)]
                           else old(space.log) + [Mapped(answer.base, len), Unmap(answer.base, len, refused)]
    ensures len == 0 || answer.MapFailed? ==> space.log == old(space.log)
  {
    if len == 0 {
      return Err(NullPointer);
    }
    if answer.MapAt? {
      FreshRegionIsVacant(space.memory, answer.base, len);
    }
    var region := MapRegion(space, len, answer);
    if region.Err? {
      return Err(region.error);
    }
    if !bound {
      space.Perform(Unmap(region.value, len, refused));
      return Err(BindRefused);
    }
    return Ok(MmapBlock(region.value, len, Some(node)));
  }

  // ----- who owns what ----------------------------------------------------------

  datatype Owner = BlockOwner(block: MmapBlock) | HugeOwner(allocation: HugeAllocation)
  {
    predicate Fits(m: Memory, base: nat) {
      match this
      case BlockOwner(b) => b.ptr == base && IsMapped(m, base, b.len)
      case HugeOwner(a) => a.ptr == base && a.OwnedIn(m)
    }
  }

  predicate ElementOwned(owners: map<nat, Owner>, s: nat) {
    exists b | b in owners :: owners[b].HugeOwner? && s in owners[b].allocation.Elements()
  }

  lemma RefusedMapping(log: seq<Event>, answer: MapAnswer, len: nat)
    ensures answer.MapAt? ==> RefusedBases(log + [Mapped(answer.base, len)]) == RefusedBases(log)
  {
    if answer.MapAt? {
      RefusedAppend(log, [Mapped(answer.base, len)]);
      RefusedOne(Mapped(answer.base, len));
    }
  }

  lemma RefusedBind(log: seq<Event>, answer: MapAnswer, len: nat, refused: bool)
    ensures answer.MapAt? ==>
              RefusedBases(log + [Mapped(answer.base, len), Unmap(answer.base, len, refused)]) ==
              LeakedIf(RefusedBases(log), answer.base, refused)
  {
    if answer.MapAt? {
      var mapped, unmap := Mapped(answer.base, len), Unmap(answer.base, len, refused);
      assert log + [mapped, unmap] == log + [mapped] + [unmap];
      RefusedMapping(log, answer, len);
      RefusedUnmap(log + [mapped], answer.base, len, refused);
    }
  }

  /** Every region has exactly one owner or is leaked, every owner has its region, and every live
      element belongs to an owner. */
  predicate Accounted(m: Memory, owners: map<nat, Owner>, leaked: set<nat>) {
    && owners.Keys + leaked == m.regions.Keys
    && owners.Keys !! leaked
    && (forall b | b in owners :: owners[b].Fits(m, b))
    && (forall s | s in m.slots :: ElementOwned(owners, s))
  }

  lemma FitsStays(m: Memory, m': Memory, o: Owner, base: nat)
    requires o.Fits(m, base) && m'.slots == m.slots
    requires base in m.regions && base in m'.regions && m'.regions[base] == m.regions[base]
    ensures o.Fits(m', base)
  {
  }

  /** A new region either gets an owner or is leaked. */
  lemma RegionAppears(m: Memory, owners: map<nat, Owner>, leaked: set<nat>, base: nat, len: nat, block: MmapBlock)
    requires Accounted(m, owners, leaked) && base !in m.regions
    requires block.ptr == base && block.len == len
    ensures Accounted(Apply(m, Mapped(base, len)), owners[base := BlockOwner(block)], leaked)
    ensures Accounted(Apply(m, Mapped(base, len)), owners, leaked + {base})
  {
    var m', owners' := Apply(m, Mapped(base, len)), owners[base := BlockOwner(block)];
    forall b | b in owners ensures owners[b].Fits(m', b) {
      FitsStays(m, m', owners[b], b);
    }
    forall s | s in m'.slots ensures ElementOwned(owners', s) {
      OwnerStays(owners, owners', s);
    }
  }

  lemma OwnerStays(owners: map<nat, Owner>, owners': map<nat, Owner>, s: nat)
    requires ElementOwned(owners, s)
    requires forall b | b in owners && owners[b].HugeOwner? && s in owners[b].allocation.Elements() ::
               b in owners' && owners'[b] == owners[b]
    ensures ElementOwned(owners', s)
  {
  }

  /** No live element touches the region of a block, nor is owned through it. */
  lemma BlockIsEmpty(m: Memory, owners: map<nat, Owner>, leaked: set<nat>, base: nat, s: nat)
    requires RegionsDisjoint(m.regions) && Accounted(m, owners, leaked)
    requires base in owners && owners[base].BlockOwner? && s in m.slots
    ensures Disjoint(base, m.regions[base], s, m.slots[s].size)
    ensures ElementOwned(owners - {base}, s)
  {
    OwnerStays(owners, owners - {base}, s);
    var b :| b in owners && owners[b].HugeOwner? && s in owners[b].allocation.Elements();
    assert owners[b].Fits(m, b);
    ElementInRegion(m, owners[b].allocation, s);
    assert b != base && Disjoint(b, m.regions[b], base, m.regions[base]);
  }

  /** The leaked regions when the release of `base` is refused, or not. */
  function LeakedIf(leaked: set<nat>, base: nat, refused: bool): set<nat> {
    leaked + if refused then {base} else {}
  }

  lemma BlockGoes(m: Memory, owners: map<nat, Owner>, leaked: set<nat>, base: nat, refused: bool)
    requires RegionsDisjoint(m.regions) && Accounted(m, owners, leaked)
    requires base in owners && owners[base].BlockOwner?
    ensures var e := Unmap(base, owners[base].block.len, refused);
            Legal(m, e) && Accounted(Apply(m, e), owners - {base}, LeakedIf(leaked, base, refused))
  {
    var m' := Apply(m, Unmap(base, owners[base].block.len, refused));
    assert owners[base].Fits(m, base);
    forall s | s in m.slots
      ensures Disjoint(base, m.regions[base], s, m.slots[s].size) && ElementOwned(owners - {base}, s)
    {
      BlockIsEmpty(m, owners, leaked, base, s);
    }
    forall b | b in owners - {base} ensures owners[b].Fits(m', b) {
      FitsStays(m, m', owners[b], b);
    }
    hide Owner.Fits, ElementOwned;
  }

  /** A neighbour is still owned when elements change that are not its own and not in its region. */
  lemma NeighbourStaysOwned(m: Memory, m': Memory, a: HugeAllocation)
    requires a.OwnedIn(m) && IsMapped(m', a.ptr, a.mapLen)
    requires forall s | s in m.slots && s in a.Elements() :: s in m'.slots && m'.slots[s] == m.slots[s]
    requires forall s | s in m'.slots && s !in m.slots :: Disjoint(a.ptr, a.mapLen, s, m'.slots[s].size)
    requires forall s | s in m'.slots && s in m.slots :: m'.slots[s] == m.slots[s]
    ensures a.OwnedIn(m')
  {
    forall i: nat | i < a.count
      ensures a.At(i) in m'.slots && m'.slots[a.At(i)].size == a.size
    {
      assert a.At(i) in m.slots;
      InAddresses(a.ptr, a.size, a.count, a.At(i));
    }
    var w, w' := WithoutFirst(m, a.ptr, a.size, a.count), WithoutFirst(m', a.ptr, a.size, a.count);
    forall s | s in w'.slots ensures Disjoint(a.ptr, a.mapLen, s, w'.slots[s].size) {
      assert s in m.slots ==> s in w.slots;
    }
  }

  lemma HugeAppears(m: Memory, owners: map<nat, Owner>, leaked: set<nat>, a: HugeAllocation, values: seq<Value>)
    requires Sound(m) && Accounted(m, owners, leaked) && Legal(m, Mapped(a.ptr, a.mapLen))
    requires a.size > 0 && |values| == a.count && a.count * a.size <= a.mapLen
    ensures Accounted(WithRow(Apply(m, Mapped(a.ptr, a.mapLen)), a.ptr, a.size, values), owners[a.ptr := HugeOwner(a)], leaked)
  {
    var m1 := Apply(m, Mapped(a.ptr, a.mapLen));
    FreshRegionIsVacant(m, a.ptr, a.mapLen);
    BuiltIsOwned(m1, a, values);
    HugeJoins(m, WithRow(m1, a.ptr, a.size, values), owners, leaked, a);
  }

  lemma HugeJoins(m: Memory, m': Memory, owners: map<nat, Owner>, leaked: set<nat>, a: HugeAllocation)
    requires Accounted(m, owners, leaked) && RegionFree(m, a.ptr, a.mapLen)
    requires m'.regions == m.regions[a.ptr := a.mapLen] && a.ptr !in m.regions && a.OwnedIn(m')
    requires m'.slots.Keys == m.slots.Keys + a.Elements()
    requires forall s | s in m.slots :: m'.slots[s] == m.slots[s]
    ensures Accounted(m', owners[a.ptr := HugeOwner(a)], leaked)
  {
    var owners' := owners[a.ptr := HugeOwner(a)];
    NewOwnerFits(m', a);
    hide Owner.Fits, HugeAllocation.OwnedIn, HugeAllocation.Elements, RegionFree, ElementOwned;
    forall b | b in owners ensures owners[b].Fits(m', b) {
      HugeLeavesOthers(m, m', owners[b], b, a);
    }
    forall s | s in m'.slots ensures ElementOwned(owners', s) {
      if s in m.slots {
        OwnerStays(owners, owners', s);
      } else {
        OwnedThrough(owners', a.ptr, s);
      }
    }
  }

  lemma NewOwnerFits(m: Memory, a: HugeAllocation)
    requires a.OwnedIn(m)
    ensures HugeOwner(a).Fits(m, a.ptr)
  {
  }

  lemma OwnedThrough(owners: map<nat, Owner>, base: nat, s: nat)
    requires base in owners && owners[base].HugeOwner? && s in owners[base].allocation.Elements()
    ensures ElementOwned(owners, s)
  {
  }

  /** What another owner has is untouched when an allocation appears. */
  lemma HugeLeavesOthers(m: Memory, m': Memory, o: Owner, b: nat, a: HugeAllocation)
    requires o.Fits(m, b) && a.OwnedIn(m') && RegionFree(m, a.ptr, a.mapLen)
    requires m'.regions == m.regions[a.ptr := a.mapLen] && a.ptr !in m.regions
    requires m'.slots.Keys == m.slots.Keys + a.Elements()
    requires forall s | s in m.slots :: m'.slots[s] == m.slots[s]
    ensures o.Fits(m', b)
  {
    if o.HugeOwner? {
      forall s | s in m'.slots && s !in m.slots
        ensures Disjoint(b, o.allocation.mapLen, s, m'.slots[s].size)
      {
        ElementInRegion(m', a, s);
        assert Disjoint(a.ptr, a.mapLen, b, m.regions[b]);
      }
      NeighbourStaysOwned(m, m', o.allocation);
    }
  }

  lemma HugeGoes(m: Memory, owners: map<nat, Owner>, leaked: set<nat>, base: nat, refused: bool)
    requires RegionsDisjoint(m.regions) && Accounted(m, owners, leaked)
    requires base in owners && owners[base].HugeOwner?
    ensures var a := owners[base].allocation;
            Accounted(Apply(WithoutFirst(m, a.ptr, a.size, a.count), Unmap(a.ptr, a.mapLen, refused)),
                      owners - {base}, LeakedIf(leaked, base, refused))
  {
    var a := owners[base].allocation;
    assert owners[base].Fits(m, base);
    var m' := Apply(WithoutFirst(m, a.ptr, a.size, a.count), Unmap(a.ptr, a.mapLen, refused));
    forall b | b in owners - {base} ensures owners[b].Fits(m', b) {
      assert owners[b].Fits(m, b);
      if owners[b].HugeOwner? {
        forall s | s in m.slots && s in owners[b].allocation.Elements() ensures s !in a.Elements() {
          SeparateElements(m, owners[b].allocation, a, s);
        }
        NeighbourStaysOwned(m, m', owners[b].allocation);
      }
    }
    forall s | s in m'.slots ensures ElementOwned(owners - {base}, s) {
      OwnerStays(owners, owners - {base}, s);
    }
  }

  // ----- what the allocations hold -----------------------------------------------------

  /** The live allocations, by their base, and the sequences in them. */
  function Held(m: Memory, owners: map<nat, Owner>): map<nat, seq<Value>> {
    map b | b in owners && owners[b].HugeOwner? && owners[b].allocation.OwnedIn(m) :: owners[b].allocation.Contents(m)
  }

  /** With the books in order that is every allocation that has an owner. */
  lemma HeldAt(m: Memory, owners: map<nat, Owner>, leaked: set<nat>, b: nat)
    requires Accounted(m, owners, leaked)
    ensures b in Held(m, owners) <==> b in owners && owners[b].HugeOwner?
    ensures b in Held(m, owners) ==>
              && b in owners && owners[b].HugeOwner? && owners[b].allocation.ptr == b && owners[b].allocation.OwnedIn(m)
              && Held(m, owners)[b] == owners[b].allocation.Contents(m)
  {
    if b in owners {
      assert owners[b].Fits(m, b);
    }
  }

  /** The two memories agree on the elements of an allocation. */
  predicate SameElements(m: Memory, m': Memory, a: HugeAllocation) {
    forall s | s in a.Elements() && s in m.slots :: s in m'.slots && m'.slots[s] == m.slots[s]
  }

  lemma SameContents(m: Memory, m': Memory, a: HugeAllocation)
    requires a.OwnedIn(m) && a.OwnedIn(m') && SameElements(m, m', a)
    ensures a.Contents(m') == a.Contents(m)
  {
    forall i: nat | i < a.count ensures m'.slots[a.At(i)] == m.slots[a.At(i)] {
      InAddresses(a.ptr, a.size, a.count, a.At(i));
    }
  }

  /** An allocation that stays, with its elements untouched, holds what it held. */
  lemma HeldStays(m: Memory, owners: map<nat, Owner>, leaked: set<nat>,
                  m': Memory, owners': map<nat, Owner>, leaked': set<nat>, b: nat)
    requires Accounted(m, owners, leaked) && Accounted(m', owners', leaked')
    requires b in owners && b in owners' && owners'[b] == owners[b]
    requires owners[b].HugeOwner? ==> SameElements(m, m', owners[b].allocation)
    ensures b in Held(m', owners') <==> b in Held(m, owners)
    ensures b in Held(m, owners) ==> Held(m', owners')[b] == Held(m, owners)[b]
  {
    HeldAt(m, owners, leaked, b);
    HeldAt(m', owners', leaked', b);
    hide Accounted, Held;
    if owners[b].HugeOwner? {
      SameContents(m, m', owners[b].allocation);
    }
  }

  /** Blocks come and go without a change to what allocations hold. */
  lemma HeldIgnoresBlocks(m: Memory, owners: map<nat, Owner>, leaked: set<nat>,
                          m': Memory, owners': map<nat, Owner>, leaked': set<nat>)
    requires Accounted(m, owners, leaked) && Accounted(m', owners', leaked') && m'.slots == m.slots
    requires forall b | b in owners && owners[b].HugeOwner? :: b in owners' && owners'[b] == owners[b]
    requires forall b | b in owners' && owners'[b].HugeOwner? :: b in owners
    requires forall b | b in owners' && b in owners :: owners'[b] == owners[b]
    ensures Held(m', owners') == Held(m, owners)
  {
    forall b ensures b in Held(m', owners') <==> b in Held(m, owners)
             ensures b in Held(m, owners) ==> Held(m', owners')[b] == Held(m, owners)[b]
    {
      HeldAt(m, owners, leaked, b);
      HeldAt(m', owners', leaked', b);
      if b in owners && b in owners' {
        HeldStays(m, owners, leaked, m', owners', leaked', b);
      }
    }
  }

  lemma HeldJoins(m: Memory, m': Memory, owners: map<nat, Owner>, leaked: set<nat>, a: HugeAllocation)
    requires Accounted(m, owners, leaked) && Accounted(m', owners[a.ptr := HugeOwner(a)], leaked)
    requires a.ptr !in owners && a.OwnedIn(m')
    requires forall s | s in m.slots :: s in m'.slots && m'.slots[s] == m.slots[s]
    ensures Held(m', owners[a.ptr := HugeOwner(a)]) == Held(m, owners)[a.ptr := a.Contents(m')]
  {
    var owners' := owners[a.ptr := HugeOwner(a)];
    hide Accounted, Held, HugeAllocation.OwnedIn, HugeAllocation.Elements;
    forall b ensures b in Held(m', owners') <==> b in Held(m, owners)[a.ptr := a.Contents(m')]
             ensures b in Held(m', owners') ==> Held(m', owners')[b] == Held(m, owners)[a.ptr := a.Contents(m')][b]
    {
      HeldAt(m, owners, leaked, b);
      HeldAt(m', owners', leaked, b);
      if b != a.ptr && b in owners {
        HeldStays(m, owners, leaked, m', owners', leaked, b);
      }
    }
  }

  /** A new allocation holds what was put there; the others hold what they held. */
  lemma HeldWithHuge(m: Memory, owners: map<nat, Owner>, leaked: set<nat>, a: HugeAllocation, values: seq<Value>)
    requires Sound(m) && Accounted(m, owners, leaked) && Legal(m, Mapped(a.ptr, a.mapLen))
    requires a.size > 0 && |values| == a.count && a.count * a.size <= a.mapLen
    ensures Held(WithRow(Apply(m, Mapped(a.ptr, a.mapLen)), a.ptr, a.size, values), owners[a.ptr := HugeOwner(a)]) ==
            Held(m, owners)[a.ptr := values]
  {
    var m1 := Apply(m, Mapped(a.ptr, a.mapLen));
    FreshRegionIsVacant(m, a.ptr, a.mapLen);
    BuiltIsOwned(m1, a, values);
    HugeAppears(m, owners, leaked, a, values);
    assert a.ptr !in owners && m1.slots == m.slots;
    hide Accounted, Held, Legal, WithRow, HugeAllocation.OwnedIn, Vacant, Sound, Apply;
    HeldJoins(m, WithRow(m1, a.ptr, a.size, values), owners, leaked, a);
  }

  lemma HeldAtDrop(m: Memory, owners: map<nat, Owner>, leaked: set<nat>, base: nat,
                   m': Memory, leaked': set<nat>, b: nat)
    requires RegionsDisjoint(m.regions) && Accounted(m, owners, leaked) && Accounted(m', owners - {base}, leaked')
    requires base in owners && owners[base].HugeOwner? && m'.slots == m.slots - owners[base].allocation.Elements()
    ensures b in Held(m', owners - {base}) <==> b in Held(m, owners) && b != base
    ensures b in Held(m', owners - {base}) ==> Held(m', owners - {base})[b] == Held(m, owners)[b]
  {
    var a := owners[base].allocation;
    hide Accounted, Held, RegionsDisjoint, HugeAllocation.OwnedIn, HugeAllocation.Elements;
    HeldAt(m, owners, leaked, base);
    HeldAt(m, owners, leaked, b);
    HeldAt(m', owners - {base}, leaked', b);
    if b != base && b in owners {
      if owners[b].HugeOwner? {
        forall s | s in owners[b].allocation.Elements() ensures s !in a.Elements() {
          SeparateElements(m, owners[b].allocation, a, s);
        }
      }
      HeldStays(m, owners, leaked, m', owners - {base}, leaked', b);
    }
  }

  lemma ElementsGo(m: Memory, a: HugeAllocation, refused: bool)
    ensures Apply(WithoutFirst(m, a.ptr, a.size, a.count), Unmap(a.ptr, a.mapLen, refused)).slots == m.slots - a.Elements()
  {
  }

  /** Dropping one allocation takes its sequence away; the others hold what they held. */
  lemma HeldWithoutHuge(m: Memory, owners: map<nat, Owner>, leaked: set<nat>, base: nat, refused: bool)
    requires RegionsDisjoint(m.regions) && Accounted(m, owners, leaked)
    requires base in owners && owners[base].HugeOwner?
    ensures var a := owners[base].allocation;
            Held(Apply(WithoutFirst(m, a.ptr, a.size, a.count), Unmap(a.ptr, a.mapLen, refused)), owners - {base}) ==
            Held(m, owners) - {base}
  {
    var a := owners[base].allocation;
    var m' := Apply(WithoutFirst(m, a.ptr, a.size, a.count), Unmap(a.ptr, a.mapLen, refused));
    hide Accounted, Held, RegionsDisjoint, HugeAllocation.Elements, HugeAllocation.OwnedIn, LeakedIf, Apply, WithoutFirst;
    ElementsGo(m, a, refused);
    HugeGoes(m, owners, leaked, base, refused);
    forall b ensures b in Held(m', owners - {base}) <==> b in Held(m, owners) && b != base
             ensures b in Held(m', owners - {base}) ==> Held(m', owners - {base})[b] == Held(m, owners)[b]
    {
      HeldAtDrop(m, owners, leaked, base, m', LeakedIf(leaked, base, refused), b);
    }
  }

  /** A new region changes nothing about what allocations hold. */
  lemma HeldWithBlock(m: Memory, owners: map<nat, Owner>, leaked: set<nat>, base: nat, len: nat, block: MmapBlock)
    requires Accounted(m, owners, leaked) && base !in m.regions && block.ptr == base && block.len == len
    ensures var m' := Apply(m, Mapped(base, len));
            Held(m', owners[base := BlockOwner(block)]) == Held(m, owners) && Held(m', owners) == Held(m, owners)
  {
    var m' := Apply(m, Mapped(base, len));
    RegionAppears(m, owners, leaked, base, len, block);
    assert base !in owners;
    HeldIgnoresBlocks(m, owners, leaked, m', owners[base := BlockOwner(block)], leaked);
    HeldIgnoresBlocks(m, owners, leaked, m', owners, leaked + {base});
  }

  /** Nor does a block that goes. */
  lemma HeldWithoutBlock(m: Memory, owners: map<nat, Owner>, leaked: set<nat>, base: nat, refused: bool)
    requires RegionsDisjoint(m.regions) && Accounted(m, owners, leaked)
    requires base in owners && owners[base].BlockOwner?
    ensures Held(Apply(m, Unmap(base, owners[base].block.len, refused)), owners - {base}) == Held(m, owners) - {base}
  {
    BlockGoes(m, owners, leaked, base, refused);
    HeldAt(m, owners, leaked, base);
    var m' := Apply(m, Unmap(base, owners[base].block.len, refused));
    HeldIgnoresBlocks(m, owners, leaked, m', owners - {base}, LeakedIf(leaked, base, refused));
    hide Held;
    assert Held(m, owners) - {base} == Held(m, owners);
  }

  /** The books are kept when one element is overwritten. */
  lemma StoreBooks(m: Memory, owners: map<nat, Owner>, leaked: set<nat>, base: nat, i: nat, v: Value)
    requires RegionsDisjoint(m.regions) && Accounted(m, owners, leaked)
    requires base in owners && owners[base].HugeOwner? && i < owners[base].allocation.count
    ensures owners[base].allocation.OwnedIn(m)
    ensures Accounted(Overwritten(m, owners[base].allocation, i, v), owners, leaked)
  {
    var a := owners[base].allocation;
    assert owners[base].Fits(m, base);
    var m' := Overwritten(m, a, i, v);
    assert m'.slots.Keys == m.slots.Keys;
    forall b | b in owners ensures owners[b].Fits(m', b) {
      assert owners[b].Fits(m, b);
      if owners[b].HugeOwner? {
        OverwritingKeepsOthers(m, a, i, v, owners[b].allocation);
      }
    }
  }

  lemma HeldAtStore(m: Memory, owners: map<nat, Owner>, leaked: set<nat>, base: nat, i: nat, v: Value, b: nat)
    requires RegionsDisjoint(m.regions) && Accounted(m, owners, leaked)
    requires base in owners && owners[base].HugeOwner? && i < owners[base].allocation.count
    requires Accounted(Overwritten(m, owners[base].allocation, i, v), owners, leaked)
    ensures var m' := Overwritten(m, owners[base].allocation, i, v);
            && (b in Held(m', owners) <==> b in Held(m, owners))
            && (b in Held(m, owners) && b != base ==> Held(m', owners)[b] == Held(m, owners)[b])
  {
    var a := owners[base].allocation;
    hide Accounted, Held, HugeAllocation.OwnedIn, RegionsDisjoint, Overwritten;
    HeldAt(m, owners, leaked, base);
    HeldAt(m, owners, leaked, b);
    HeldAt(Overwritten(m, a, i, v), owners, leaked, b);
    if b in Held(m, owners) && b != base {
      OverwritingKeepsOthers(m, a, i, v, owners[b].allocation);
    }
  }

  /** Overwriting an element changes the sequence of its allocation at that place, and no other. */
  lemma HeldWithStore(m: Memory, owners: map<nat, Owner>, leaked: set<nat>, base: nat, i: nat, v: Value)
    requires RegionsDisjoint(m.regions) && Accounted(m, owners, leaked)
    requires base in owners && owners[base].HugeOwner? && i < owners[base].allocation.count
    requires var a := owners[base].allocation;
             a.OwnedIn(Overwritten(m, a, i, v)) && a.OwnedIn(m) &&
             a.Contents(Overwritten(m, a, i, v)) == a.Contents(m)[i := v]
    ensures base in Held(m, owners) && i < |Held(m, owners)[base]|
    ensures Held(Overwritten(m, owners[base].allocation, i, v), owners) ==
            Held(m, owners)[base := Held(m, owners)[base][i := v]]
  {
    hide Accounted, Held, HugeAllocation.OwnedIn, HugeAllocation.Contents, RegionsDisjoint, Overwritten;
    var m', held := Overwritten(m, owners[base].allocation, i, v), Held(m, owners);
    StoreBooks(m, owners, leaked, base, i, v);
    HeldAt(m, owners, leaked, base);
    HeldAt(m', owners, leaked, base);
    forall b: nat ensures b in Held(m', owners) <==> b in held
             ensures b in held && b != base ==> Held(m', owners)[b] == held[b]
    {
      HeldAtStore(m, owners, leaked, base, i, v, b);
    }
    OneEntryChanged(held, Held(m', owners), base, held[base][i := v]);
  }

  lemma OneEntryChanged(before: map<nat, seq<Value>>, now: map<nat, seq<Value>>, k: nat, x: seq<Value>)
    requires k in before && k in now && now[k] == x
    requires forall b :: b in now <==> b in before
    requires forall b | b in before && b != k :: now[b] == before[b]
    ensures now == before[k := x]
  {
  }

  // ----- whole runs -----------------------------------------------------------------

  /** One operation, with the answers of the kernel: `refused` is that to the `munmap` it may make. */
  datatype Op =
    | MakeBlock(len: nat, answer: MapAnswer)
    | MakeBlockOnNode(len: nat, node: nat, answer: MapAnswer, bound: bool, refused: bool)
    | MakeHuge(count: nat, layout: Layout, answer: MapAnswer, produced: seq<Value>, refused: bool)
    | DropOwner(base: nat, refused: bool)
    | StoreAt(base: nat, i: nat, v: Value)  // through the mutable slice of the allocation at `base`
  {
    predicate Valid() { MakeHuge? ==> layout.Valid() }

    /** The operation may call `mmap`. */
    predicate Maps() { MakeBlock? || MakeBlockOnNode? || MakeHuge? }

    /** Its `munmap`, if it makes one, is refused. */
    predicate UnmapRefused() { (MakeBlockOnNode? || MakeHuge? || DropOwner?) && refused }

    /** The length the operation asks `mmap` for, if it asks at all. */
    function Asks(usizeMax: nat): Option<nat>
      requires Valid()
    {
      match this
      case MakeBlock(len, _) => if len > 0 then Some(len) else None
      case MakeBlockOnNode(len, _, _, _, _) => if len > 0 then Some(len) else None
      case MakeHuge(count, layout, _, _, _) =>
        if count > 0 && layout.size > 0 then MapLen(count, layout.size, usizeMax) else None
      case DropOwner(_, _) => None
      case StoreAt(_, _, _) => None
    }

    /** The operation really makes a block or an allocation at `b`. */
    predicate Makes(b: nat, usizeMax: nat)
      requires Valid()
    {
      match this
      case MakeBlock(len, answer) => len > 0 && answer == MapAt(b) && b > 0
      case MakeBlockOnNode(len, _, answer, bound, _) => len > 0 && answer == MapAt(b) && b > 0 && bound
      case MakeHuge(count, layout, answer, produced, _) =>
        answer == MapAt(b) && Usable(count, layout, usizeMax, answer) && count <= |produced|
      case _ => false
    }

    /** What it makes. */
    function Made(b: nat, usizeMax: nat): Owner
      requires Valid() && Makes(b, usizeMax)
    {
      match this
      case MakeBlock(len, _) => BlockOwner(MmapBlock(b, len, None))
      case MakeBlockOnNode(len, node, _, _, _) => BlockOwner(MmapBlock(b, len, Some(node)))
      case MakeHuge(count, layout, _, _, _) =>
        HugeOwner(HugeAllocation(b, count, MapLen(count, layout.size, usizeMax).value, layout.size))
    }

    predicate Ends(b: nat) { DropOwner? && base == b }

    /** The operation maps a block at address 0, which no code ever unmaps. */
    predicate LeaksNull() {
      (MakeBlock? || MakeBlockOnNode?) && len > 0 && answer == MapAt(0)
    }

    /** The operation gets a mapping and gives it up again. */
    predicate GivesUp(usizeMax: nat)
      requires Valid()
    {
      match this
      case MakeBlock(_, _) => false
      case MakeBlockOnNode(len, _, answer, bound, _) => len > 0 && answer.MapAt? && answer.base > 0 && !bound
      case MakeHuge(count, layout, answer, produced, _) =>
        Asks(usizeMax).Some? && answer.MapAt? && !(Usable(count, layout, usizeMax, answer) && count <= |produced|)
      case DropOwner(_, _) => false
      case StoreAt(_, _, _) => false
    }

    /** The region the operation asks the kernel to release, if any. */
    function Releases(owners: map<nat, Owner>, usizeMax: nat): Option<nat>
      requires Valid()
    {
      if DropOwner? then if base in owners then Some(base) else None
      else if GivesUp(usizeMax) then Some(answer.base) else None
    }

    /** What the operation leaks: a block at address 0, or a region whose release was refused. */
    function Leaks(owners: map<nat, Owner>, usizeMax: nat): set<nat>
      requires Valid()
    {
      var released := Releases(owners, usizeMax);
      if LeaksNull() then {0}
      else if released.Some? && UnmapRefused() then {released.value}
      else {}
    }
  }

  /** The owners an operation leaves: a block or an allocation that was really made, by its base. */
  function OwnersAfter(owners: map<nat, Owner>, op: Op, usizeMax: nat): map<nat, Owner>
    requires op.Valid()
  {
    match op
    case MakeBlock(len, answer) =>
      if len > 0 && answer.MapAt? && answer.base > 0
      then owners[answer.base := BlockOwner(MmapBlock(answer.base, len, None))] else owners
    case MakeBlockOnNode(len, node, answer, bound, _) =>
      if len > 0 && answer.MapAt? && answer.base > 0 && bound
      then owners[answer.base := BlockOwner(MmapBlock(answer.base, len, Some(node)))] else owners
    case MakeHuge(count, layout, answer, produced, _) =>
      if Usable(count, layout, usizeMax, answer) && count <= |produced|
      then
        var mapLen := MapLen(count, layout.size, usizeMax).value;
        owners[answer.base := HugeOwner(HugeAllocation(answer.base, count, mapLen, layout.size))]
      else owners
    case DropOwner(base, _) => owners - {base}
    case StoreAt(_, _, _) => owners
  }

  /** What an operation makes of the sequences in the live allocations, each on its own. */
  function HeldAfter(held: map<nat, seq<Value>>, op: Op, usizeMax: nat): map<nat, seq<Value>>
    requires op.Valid()
  {
    match op
    case MakeBlock(_, _) => held
    case MakeBlockOnNode(_, _, _, _, _) => held
    case MakeHuge(count, layout, answer, produced, _) =>
      if Usable(count, layout, usizeMax, answer) && count <= |produced| then held[answer.base := produced[..count]] else held
    case DropOwner(base, _) => held - {base}
    case StoreAt(base, i, v) =>
      if base in held && i < |held[base]| then held[base := held[base][i := v]] else held
  }

  function HeldAfterAll(held: map<nat, seq<Value>>, ops: seq<Op>, usizeMax: nat): map<nat, seq<Value>>
    requires AllValid(ops)
  {
    if |ops| == 0 then held
    else HeldAfter(HeldAfterAll(held, ops[..|ops| - 1], usizeMax), ops[|ops| - 1], usizeMax)
  }

  predicate AllValid(ops: seq<Op>) {
    forall k | 0 <= k < |ops| :: ops[k].Valid()
  }

  function OwnersAfterAll(owners: map<nat, Owner>, ops: seq<Op>, usizeMax: nat): map<nat, Owner>
    requires AllValid(ops)
  {
    if |ops| == 0 then owners
    else OwnersAfter(OwnersAfterAll(owners, ops[..|ops| - 1], usizeMax), ops[|ops| - 1], usizeMax)
  }

  /** The regions that lose their owner and stay. */
  function LeakedBy(owners: map<nat, Owner>, ops: seq<Op>, usizeMax: nat): set<nat>
    requires AllValid(ops)
  {
    if |ops| == 0 then {}
    else
      var front := ops[..|ops| - 1];
      LeakedBy(owners, front, usizeMax) + ops[|ops| - 1].Leaks(OwnersAfterAll(owners, front, usizeMax), usizeMax)
  }

  /** A region is leaked exactly when a block was mapped at address 0, for that region, or the kernel
      refused to release it. */
  lemma {:induction false} LeakedIff(owners: map<nat, Owner>, ops: seq<Op>, usizeMax: nat, b: nat)
    requires AllValid(ops)
    ensures b in LeakedBy(owners, ops, usizeMax) <==>
            exists k: nat :: k < |ops| && LosesAt(owners, ops, usizeMax, b, k)
  {
    if |ops| == 0 {
    } else {
      var n := |ops| - 1;
      var front := ops[..n];
      LeakedIff(owners, front, usizeMax, b);
      LeaksIff(ops[n], OwnersAfterAll(owners, front, usizeMax), usizeMax, b);
      forall k: nat | k < n ensures LosesAt(owners, front, usizeMax, b, k) <==> LosesAt(owners, ops, usizeMax, b, k) {
        assert front[..k] == ops[..k] && front[k] == ops[k];
      }
      assert LosesAt(owners, ops, usizeMax, b, n) <==> b in ops[n].Leaks(OwnersAfterAll(owners, front, usizeMax), usizeMax);
      if k: nat :| k < |ops| && LosesAt(owners, ops, usizeMax, b, k) {
        assert k < n ==> LosesAt(owners, front, usizeMax, b, k);
      }
      if k: nat :| k < n && LosesAt(owners, front, usizeMax, b, k) {
        assert LosesAt(owners, ops, usizeMax, b, k);
      }
    }
  }

  lemma LeaksIff(op: Op, owners: map<nat, Owner>, usizeMax: nat, b: nat)
    requires op.Valid()
    ensures b in op.Leaks(owners, usizeMax) <==>
            (op.LeaksNull() && b == 0) || (op.UnmapRefused() && op.Releases(owners, usizeMax) == Some(b))
  {
  }

  predicate LosesAt(owners: map<nat, Owner>, ops: seq<Op>, usizeMax: nat, b: nat, k: nat)
    requires AllValid(ops) && k < |ops|
  {
    || (ops[k].LeaksNull() && b == 0)
    || (ops[k].UnmapRefused() && ops[k].Releases(OwnersAfterAll(owners, ops[..k], usizeMax), usizeMax) == Some(b))
  }

  function Refused(op: Op): Op
    requires op.Maps()
  {
    op.(answer := MapFailed)
  }

  /** What is mapped after an operation. */
  function RegionsAfter(regions: map<nat, nat>, owners: map<nat, Owner>, op: Op, usizeMax: nat): map<nat, nat>
    requires op.Valid()
  {
    match op
    case MakeBlock(len, answer) =>
      if len > 0 && answer.MapAt? then regions[answer.base := len] else regions
    case MakeBlockOnNode(len, _, answer, bound, refused) =>
      if len > 0 && answer.MapAt? && (bound || refused || answer.base == 0) then regions[answer.base := len] else regions
    case MakeHuge(count, layout, answer, produced, refused) =>
      if op.Asks(usizeMax).Some? && answer.MapAt?
         && (refused || (Usable(count, layout, usizeMax, answer) && count <= |produced|))
      then regions[answer.base := op.Asks(usizeMax).value] else regions
    case DropOwner(base, refused) => if base in owners && !refused then regions - {base} else regions
    case StoreAt(_, _, _) => regions
  }

  function RegionsAfterAll(regions: map<nat, nat>, owners: map<nat, Owner>, ops: seq<Op>, usizeMax: nat): map<nat, nat>
    requires AllValid(ops)
  {
    if |ops| == 0 then regions
    else
      var front := ops[..|ops| - 1];
      RegionsAfter(RegionsAfterAll(regions, owners, front, usizeMax), OwnersAfterAll(owners, front, usizeMax),
                   ops[|ops| - 1], usizeMax)
  }

  /** What happens of an operation when so much is mapped: it, as answered, or its refusal when the kernel
      cannot give that answer because the range is in use. */
  function Happens(regions: map<nat, nat>, op: Op, usizeMax: nat): Op
    requires op.Valid()
  {
    var asks := op.Asks(usizeMax);
    if asks.Some? && !KernelMay(Memory(regions, map[]), asks.value, op.answer) then Refused(op) else op
  }

  /** Every operation happened as answered, but for those whose answer was impossible at its time. */
  predicate AsAnswered(regions: map<nat, nat>, owners: map<nat, Owner>, ops: seq<Op>, happened: seq<Op>, usizeMax: nat)
    requires AllValid(ops)
  {
    && |happened| == |ops| && AllValid(happened)
    && forall k | 0 <= k < |ops| :: AnsweredAt(regions, owners, ops, happened, usizeMax, k)
  }

  /** So did operation `k`, in what was mapped after the operations before it. */
  predicate AnsweredAt(regions: map<nat, nat>, owners: map<nat, Owner>, ops: seq<Op>, happened: seq<Op>, usizeMax: nat, k: nat)
    requires AllValid(ops) && AllValid(happened) && k < |ops| == |happened|
  {
    happened[k] == Happens(RegionsAfterAll(regions, owners, happened[..k], usizeMax), ops[k], usizeMax)
  }

  /** Only what is mapped decides what the kernel may answer. */
  lemma KernelLooksAtRegions(m: Memory, regions: map<nat, nat>, len: nat, answer: MapAnswer)
    requires m.regions == regions
    ensures KernelMay(m, len, answer) <==> KernelMay(Memory(regions, map[]), len, answer)
  {
  }

  lemma HappensIsValid(regions: map<nat, nat>, op: Op, usizeMax: nat)
    requires op.Valid()
    ensures Happens(regions, op, usizeMax).Valid()
  {
  }

  lemma AllButLast(ops: seq<Op>)
    requires AllValid(ops) && |ops| > 0
    ensures AllValid(ops[..|ops| - 1]) && ops[|ops| - 1].Valid()
    ensures ops == ops[..|ops| - 1] + [ops[|ops| - 1]]
  {
  }

  lemma NothingHappened(regions: map<nat, nat>, owners: map<nat, Owner>, held: map<nat, seq<Value>>, usizeMax: nat)
    ensures AllValid([]) && AsAnswered(regions, owners, [], [], usizeMax)
    ensures RegionsAfterAll(regions, owners, [], usizeMax) == regions
    ensures OwnersAfterAll(owners, [], usizeMax) == owners && LeakedBy(owners, [], usizeMax) == {} && !AnyLeaksNull([])
    ensures HeldAfterAll(held, [], usizeMax) == held
  {
  }

  lemma OneMoreHappened(regions: map<nat, nat>, owners: map<nat, Owner>, ops: seq<Op>, happened: seq<Op>, op: Op, last: Op,
                        usizeMax: nat)
    requires AllValid(ops) && op.Valid() && AsAnswered(regions, owners, ops, happened, usizeMax)
    requires last == Happens(RegionsAfterAll(regions, owners, happened, usizeMax), op, usizeMax)
    ensures AllValid(ops + [op]) && AllValid(happened + [last])
    ensures AsAnswered(regions, owners, ops + [op], happened + [last], usizeMax)
    ensures RegionsAfterAll(regions, owners, happened + [last], usizeMax) ==
            RegionsAfter(RegionsAfterAll(regions, owners, happened, usizeMax), OwnersAfterAll(owners, happened, usizeMax),
                         last, usizeMax)
  {
    HappensIsValid(RegionsAfterAll(regions, owners, happened, usizeMax), op, usizeMax);
    hide Happens, RegionsAfter, OwnersAfterAll, Op.Valid, AnsweredAt;
    OneMoreValid(ops, op);
    OneMoreValid(happened, last);
    assert (happened + [last])[..|happened|] == happened;
    hide AllValid, RegionsAfterAll;
    forall k | 0 <= k < |ops| + 1 ensures AnsweredAt(regions, owners, ops + [op], happened + [last], usizeMax, k) {
      StillAnswered(regions, owners, ops, happened, op, last, usizeMax, k);
    }
  }

  lemma OneMoreValid(ops: seq<Op>, op: Op)
    requires AllValid(ops) && op.Valid()
    ensures AllValid(ops + [op])
  {
  }

  lemma StillAnswered(regions: map<nat, nat>, owners: map<nat, Owner>, ops: seq<Op>, happened: seq<Op>, op: Op, last: Op,
                      usizeMax: nat, k: nat)
    requires AllValid(ops) && op.Valid() && AsAnswered(regions, owners, ops, happened, usizeMax) && k < |ops| + 1
    requires last == Happens(RegionsAfterAll(regions, owners, happened, usizeMax), op, usizeMax)
    requires AllValid(ops + [op]) && AllValid(happened + [last])
    ensures AnsweredAt(regions, owners, ops + [op], happened + [last], usizeMax, k)
  {
    hide Happens, RegionsAfterAll, Op.Valid;
    if k < |ops| {
      SamePrefix(happened, last, k);
      SamePrefix(ops, op, k);
      assert AnsweredAt(regions, owners, ops, happened, usizeMax, k);
    } else {
      assert (happened + [last])[..k] == happened;
    }
  }

  lemma SamePrefix(ops: seq<Op>, last: Op, k: nat)
    requires k < |ops|
    ensures (ops + [last])[k] == ops[k] && (ops + [last])[..k] == ops[..k]
  {
  }

  lemma OneMore(owners: map<nat, Owner>, held: map<nat, seq<Value>>, ops: seq<Op>, op: Op, usizeMax: nat)
    requires AllValid(ops) && op.Valid()
    ensures AllValid(ops + [op])
    ensures OwnersAfterAll(owners, ops + [op], usizeMax) == OwnersAfter(OwnersAfterAll(owners, ops, usizeMax), op, usizeMax)
    ensures LeakedBy(owners, ops + [op], usizeMax) ==
            LeakedBy(owners, ops, usizeMax) + op.Leaks(OwnersAfterAll(owners, ops, usizeMax), usizeMax)
    ensures HeldAfterAll(held, ops + [op], usizeMax) == HeldAfter(HeldAfterAll(held, ops, usizeMax), op, usizeMax)
    ensures AnyLeaksNull(ops + [op]) <==> AnyLeaksNull(ops) || op.LeaksNull()
  {
    hide OwnersAfter, HeldAfter, Op.Leaks, Op.LeaksNull, Op.Valid;
    assert (ops + [op])[|ops|] == op && forall k | 0 <= k < |ops| :: (ops + [op])[k] == ops[k];
    assert (ops + [op])[..|ops|] == ops;
  }

  // ----- who owns, and what is held, after a run -----------------------------------------

  /** One more operation, and then none that touches the same base. */
  predicate LastAt(ops: seq<Op>, usizeMax: nat, b: nat, k: nat)
    requires AllValid(ops)
  {
    && k < |ops| && ops[k].Makes(b, usizeMax)
    && forall j | k < j < |ops| :: !ops[j].Makes(b, usizeMax) && !ops[j].Ends(b)
  }

  lemma OneOwnerMore(owners: map<nat, Owner>, op: Op, usizeMax: nat, b: nat)
    requires op.Valid()
    ensures var after := OwnersAfter(owners, op, usizeMax);
            && (op.Makes(b, usizeMax) ==> b in after && after[b] == op.Made(b, usizeMax))
            && (op.Ends(b) ==> b !in after)
            && (!op.Makes(b, usizeMax) && !op.Ends(b) ==>
                  (b in after <==> b in owners) && (b in owners ==> after[b] == owners[b]))
  {
  }

  lemma LastAtFront(ops: seq<Op>, usizeMax: nat, b: nat, k: nat)
    requires AllValid(ops) && |ops| > 0
    ensures var n := |ops| - 1;
            LastAt(ops, usizeMax, b, k) <==>
            if k < n then LastAt(ops[..n], usizeMax, b, k) && !ops[n].Makes(b, usizeMax) && !ops[n].Ends(b)
            else k == n && ops[n].Makes(b, usizeMax)
    ensures LastAt(ops, usizeMax, b, k) ==> k < |ops|
  {
    hide Op.Makes, Op.Ends, Op.Valid;
    var n := |ops| - 1;
    assert forall j | 0 <= j < n :: ops[..n][j] == ops[j];
  }

  /** After a run from nothing, what is owned is what was really made and not dropped since, as it was
      made last. */
  lemma {:induction false} OwnedIff(ops: seq<Op>, usizeMax: nat, b: nat, o: Owner)
    requires AllValid(ops)
    ensures b in OwnersAfterAll(map[], ops, usizeMax) && OwnersAfterAll(map[], ops, usizeMax)[b] == o <==>
            exists k: nat :: LastAt(ops, usizeMax, b, k) && ops[k].Made(b, usizeMax) == o
  {
    if |ops| == 0 {
    } else {
      var n := |ops| - 1;
      var front := ops[..n];
      OwnedIff(front, usizeMax, b, o);
      OneOwnerMore(OwnersAfterAll(map[], front, usizeMax), ops[n], usizeMax, b);
      hide OwnersAfter, Op.Makes, Op.Ends, Op.Made, Op.Valid, LastAt;
      forall k: nat
        ensures LastAt(ops, usizeMax, b, k) <==>
                if k < n then LastAt(front, usizeMax, b, k) && !ops[n].Makes(b, usizeMax) && !ops[n].Ends(b)
                else k == n && ops[n].Makes(b, usizeMax)
      {
        LastAtFront(ops, usizeMax, b, k);
      }
      if ops[n].Makes(b, usizeMax) {
        assert LastAt(ops, usizeMax, b, n);
      } else if !ops[n].Ends(b) {
        if k: nat :| LastAt(front, usizeMax, b, k) && front[k].Made(b, usizeMax) == o {
          assert LastAt(ops, usizeMax, b, k) && ops[k] == front[k];
        }
        if k: nat :| LastAt(ops, usizeMax, b, k) && ops[k].Made(b, usizeMax) == o {
          assert LastAt(front, usizeMax, b, k) && ops[k] == front[k];
        }
      }
    }
  }

  /** The stores of a run that go to one allocation. */
  function StoresTo(ops: seq<Op>, b: nat): seq<SliceOp> {
    if |ops| == 0 then []
    else
      var last := ops[|ops| - 1];
      StoresTo(ops[..|ops| - 1], b) + if last.StoreAt? && last.base == b then [WriteAt(last.i, last.v)] else []
  }

  /** Whatever else a run does, an allocation that lives through it ends as its own sequence ends under
      the stores that went to it, and a new one starts with what was produced for it. */
  lemma {:induction false} HeldIsAlone(held: map<nat, seq<Value>>, ops: seq<Op>, usizeMax: nat, b: nat)
    requires AllValid(ops) && b in held
    requires forall k | 0 <= k < |ops| :: !ops[k].Makes(b, usizeMax) && !ops[k].Ends(b)
    ensures b in HeldAfterAll(held, ops, usizeMax)
    ensures HeldAfterAll(held, ops, usizeMax)[b] == After(held[b], StoresTo(ops, b))
  {
    if |ops| == 0 {
    } else {
      var n := |ops| - 1;
      var front, last := ops[..n], ops[n];
      HeldIsAlone(held, front, usizeMax, b);
      var stores := StoresTo(front, b);
      if last.StoreAt? && last.base == b {
        assert (stores + [WriteAt(last.i, last.v)])[..|stores|] == stores;
      } else {
        assert stores + [] == stores;
      }
    }
  }

  lemma MadeHolds(held: map<nat, seq<Value>>, op: Op, usizeMax: nat, b: nat)
    requires op.MakeHuge? && op.Valid() && op.Makes(b, usizeMax)
    ensures b in HeldAfter(held, op, usizeMax) && HeldAfter(held, op, usizeMax)[b] == op.produced[..op.count]
  {
  }

  function Zero(atZero: bool): set<nat> { if atZero then {0} else {} }

  predicate AnyLeaksNull(ops: seq<Op>) {
    exists k :: 0 <= k < |ops| && ops[k].LeaksNull()
  }

  // ----- what a history says about refused releases -------------------------------------

  lemma {:induction false} PlacesRefuseNothing(p: nat, size: nat, values: seq<Value>)
    ensures RefusedBases(Places(p, size, values)) == {}
  {
    if |values| == 0 {
    } else {
      var n := |values| - 1;
      PlacesRefuseNothing(p, size, values[..n]);
      RefusedAppend(Places(p, size, values[..n]), [Placed(p + n * size, size, values[n])]);
      RefusedOne(Placed(p + n * size, size, values[n]));
    }
  }

  lemma {:induction false} DropsRefuseNothing(p: nat, size: nat, values: seq<Value>)
    ensures RefusedBases(Drops(p, size, values)) == {}
  {
    if |values| == 0 {
    } else {
      var n := |values| - 1;
      DropsRefuseNothing(p, size, values[..n]);
      RefusedAppend(Drops(p, size, values[..n]), [Dropped(p + n * size, size, values[n])]);
      RefusedOne(Dropped(p + n * size, size, values[n]));
    }
  }

  lemma RefusedOne(e: Event)
    ensures RefusedBases([e]) == if e.UnmapRefused? then {e.base} else {}
  {
    assert [e][..0] == [];
  }

  lemma RefusedUnmap(log: seq<Event>, base: nat, len: nat, refused: bool)
    ensures RefusedBases(log + [Unmap(base, len, refused)]) == LeakedIf(RefusedBases(log), base, refused)
  {
    RefusedAppend(log, [Unmap(base, len, refused)]);
    RefusedOne(Unmap(base, len, refused));
  }

  lemma RefusedDrops(log: seq<Event>, a: HugeAllocation, values: seq<Value>, refused: bool)
    ensures RefusedBases(log + Drops(a.ptr, a.size, values) + [Unmap(a.ptr, a.mapLen, refused)]) ==
            LeakedIf(RefusedBases(log), a.ptr, refused)
  {
    RefusedAppend(log, Drops(a.ptr, a.size, values));
    DropsRefuseNothing(a.ptr, a.size, values);
    RefusedUnmap(log + Drops(a.ptr, a.size, values), a.ptr, a.mapLen, refused);
  }

  lemma RefusedCreation(log: seq<Event>, r: Creation, count: nat, layout: Layout, usizeMax: nat, answer: MapAnswer,
                        produced: seq<Value>, refused: bool)
    requires layout.Valid() && CreationFits(r, count, layout, usizeMax, answer, produced)
    ensures RefusedBases(log + CreationTrace(r, count, layout, usizeMax, answer, produced, refused)) ==
            RefusedBases(log) + if GaveUp(r) && refused then {answer.base} else {}
  {
    RefusedAppend(log, CreationTrace(r, count, layout, usizeMax, answer, produced, refused));
    if !r.Unavailable? && !r.Overflowed? {
      var base, mapLen := answer.base, MapLen(count, layout.size, usizeMax).value;
      var after := MappedTrace(r, base, mapLen, count, layout.size, produced, refused);
      RefusedAppend([Mapped(base, mapLen)], after);
      RefusedOne(Mapped(base, mapLen));
      RefusedOne(Unmap(base, mapLen, refused));
      if r.Built? {
        PlacesRefuseNothing(base, layout.size, produced[..count]);
      } else if r.Unwound? {
        RefusedUnwinding(base, mapLen, layout.size, produced, refused);
      }
    }
  }

  lemma RefusedStore(log: seq<Event>, a: HugeAllocation, i: nat, was: Value, v: Value)
    ensures RefusedBases(log + [Dropped(a.At(i), a.size, was), Placed(a.At(i), a.size, v)]) == RefusedBases(log)
  {
    var gone, there := Dropped(a.At(i), a.size, was), Placed(a.At(i), a.size, v);
    assert log + [gone, there] == log + [gone] + [there];
    RefusedAppend(log, [gone]);
    RefusedAppend(log + [gone], [there]);
    RefusedOne(gone);
    RefusedOne(there);
  }

  lemma RefusedUnwinding(base: nat, mapLen: nat, size: nat, values: seq<Value>, refused: bool)
    ensures RefusedBases(UnwindTrace(base, mapLen, size, values, refused)) == if refused then {base} else {}
  {
    var places, drops := Places(base, size, values), Drops(base, size, values);
    PlacesRefuseNothing(base, size, values);
    DropsRefuseNothing(base, size, values);
    RefusedAppend(places, drops);
    RefusedUnmap(places + drops, base, mapLen, refused);
  }

  lemma SpaceIsSound(space: Space)
    requires space.Valid()
    ensures Sound(space.memory) && RegionsDisjoint(space.memory.regions)
  {
  }

  lemma OwnerFits(m: Memory, owners: map<nat, Owner>, leaked: set<nat>, base: nat)
    requires Accounted(m, owners, leaked) && base in owners
    ensures owners[base].BlockOwner? ==> owners[base].block.ptr == base
    ensures owners[base].HugeOwner? ==> owners[base].allocation.ptr == base && owners[base].allocation.OwnedIn(m)
  {
    assert owners[base].Fits(m, base);
  }

  lemma NodeOutcome(op: Op, owners: map<nat, Owner>, usizeMax: nat)
    requires op.MakeBlockOnNode?
    ensures op.LeaksNull() <==> op.len > 0 && op.answer == MapAt(0)
    ensures op.Leaks(owners, usizeMax) ==
            if op.len > 0 && op.answer.MapAt? && (op.answer.base == 0 || (!op.bound && op.refused)) then {op.answer.base} else {}
    ensures OwnersAfter(owners, op, usizeMax) ==
            if op.len > 0 && op.answer.MapAt? && op.answer.base > 0 && op.bound
            then owners[op.answer.base := BlockOwner(MmapBlock(op.answer.base, op.len, Some(op.node)))] else owners
  {
  }

  /** What the outcome of a construction means for the books. */
  lemma HugeOutcome(op: Op, r: Creation, owners: map<nat, Owner>, usizeMax: nat)
    requires op.MakeHuge? && op.Valid() && CreationFits(r, op.count, op.layout, usizeMax, op.answer, op.produced)
    ensures op.Leaks(owners, usizeMax) == if GaveUp(r) && op.refused then {op.answer.base} else {}
    ensures OwnersAfter(owners, op, usizeMax) == if r.Built? then owners[r.allocation.ptr := HugeOwner(r.allocation)] else owners
    ensures GaveUp(r) || r.Built? ==>
              op.count > 0 && op.layout.size > 0 && MapLen(op.count, op.layout.size, usizeMax).Some? && op.answer.MapAt?
    ensures r.Built? ==>
              var mapLen := MapLen(op.count, op.layout.size, usizeMax).value;
              op.count <= |op.produced| && r.allocation == HugeAllocation(op.answer.base, op.count, mapLen, op.layout.size)
  {
  }

  /** What a construction leaves in memory, for each way it can go. */
  function AfterHuge(m: Memory, op: Op, r: Creation, usizeMax: nat): Memory
    requires op.MakeHuge? && op.Valid() && CreationFits(r, op.count, op.layout, usizeMax, op.answer, op.produced)
  {
    if r.Built? then
      var a := r.allocation;
      WithRow(Apply(m, Mapped(a.ptr, a.mapLen)), a.ptr, a.size, op.produced[..op.count])
    else if GaveUp(r) && op.refused then Apply(m, Mapped(op.answer.base, MapLen(op.count, op.layout.size, usizeMax).value))
    else m
  }

  /** The books after a construction. */
  lemma HugeBooks(m: Memory, owners: map<nat, Owner>, leaked: set<nat>, op: Op, r: Creation, usizeMax: nat)
    requires Sound(m) && Accounted(m, owners, leaked) && op.MakeHuge? && op.Valid()
    requires CreationFits(r, op.count, op.layout, usizeMax, op.answer, op.produced)
    requires op.Asks(usizeMax).Some? ==> KernelMay(m, op.Asks(usizeMax).value, op.answer)
    ensures Accounted(AfterHuge(m, op, r, usizeMax), OwnersAfter(owners, op, usizeMax), leaked + op.Leaks(owners, usizeMax))
  {
    HugeOutcome(op, r, owners, usizeMax);
    hide CreationFits, Sound, Accounted, Op.Leaks, OwnersAfter, WithRow, Apply;
    if r.Built? {
      MapLenIsLeastMultiple(op.count, op.layout.size, usizeMax);
      HugeAppears(m, owners, leaked, r.allocation, op.produced[..op.count]);
      assert leaked + {} == leaked;
    } else if GaveUp(r) && op.refused {
      var mapLen := MapLen(op.count, op.layout.size, usizeMax).value;
      FreshRegionIsVacant(m, op.answer.base, mapLen);
      RegionAppears(m, owners, leaked, op.answer.base, mapLen, MmapBlock(op.answer.base, mapLen, None));
    } else {
      assert leaked + {} == leaked;
    }
  }

  /** What allocations hold after a construction. */
  lemma HeldAfterHuge(m: Memory, owners: map<nat, Owner>, leaked: set<nat>, op: Op, r: Creation, usizeMax: nat)
    requires Sound(m) && Accounted(m, owners, leaked) && op.MakeHuge? && op.Valid()
    requires CreationFits(r, op.count, op.layout, usizeMax, op.answer, op.produced)
    requires op.Asks(usizeMax).Some? ==> KernelMay(m, op.Asks(usizeMax).value, op.answer)
    ensures Held(AfterHuge(m, op, r, usizeMax), OwnersAfter(owners, op, usizeMax)) == HeldAfter(Held(m, owners), op, usizeMax)
  {
    HugeOutcome(op, r, owners, usizeMax);
    assert HeldAfter(Held(m, owners), op, usizeMax) ==
           if r.Built? then Held(m, owners)[r.allocation.ptr := op.produced[..op.count]] else Held(m, owners);
    hide CreationFits, Sound, Accounted, Op.Leaks, OwnersAfter, HeldAfter, Held, WithRow, Apply;
    if r.Built? {
      MapLenIsLeastMultiple(op.count, op.layout.size, usizeMax);
      HeldWithHuge(m, owners, leaked, r.allocation, op.produced[..op.count]);
    } else if GaveUp(r) && op.refused {
      var mapLen := MapLen(op.count, op.layout.size, usizeMax).value;
      FreshRegionIsVacant(m, op.answer.base, mapLen);
      HeldWithBlock(m, owners, leaked, op.answer.base, mapLen, MmapBlock(op.answer.base, mapLen, None));
    }
  }

  /** What each kind of change does to the regions. */
  lemma RegionsChange(m: Memory, base: nat, len: nat, refused: bool)
    ensures Apply(m, Mapped(base, len)).regions == m.regions[base := len]
    ensures Apply(m, Unmap(base, len, refused)).regions == if refused then m.regions else m.regions - {base}
  {
  }

  lemma ElementsAreNoRegions(m: Memory, a: HugeAllocation, i: nat, v: Value)
    ensures WithoutFirst(m, a.ptr, a.size, a.count).regions == m.regions
    ensures Overwritten(m, a, i, v).regions == m.regions
  {
  }

  lemma HugeRegions(m: Memory, owners: map<nat, Owner>, op: Op, r: Creation, usizeMax: nat)
    requires op.MakeHuge? && op.Valid() && CreationFits(r, op.count, op.layout, usizeMax, op.answer, op.produced)
    ensures AfterHuge(m, op, r, usizeMax).regions == RegionsAfter(m.regions, owners, op, usizeMax)
  {
  }

  /** With no owner left only the leaked regions are there, and nothing is alive. */
  lemma NothingOwned(m: Memory, leaked: set<nat>)
    requires Accounted(m, map[], leaked)
    ensures m.regions.Keys == leaked && m.slots == map[]
  {
    forall s ensures s !in m.slots {
      assert !ElementOwned(map[], s);
    }
  }

  lemma SpaceBalanced(space: Space)
    requires space.Valid() && space.memory.slots == map[]
    ensures var all := multiset(space.log);
            && (forall addr, size, value :: all[Placed(addr, size, value)] == all[Dropped(addr, size, value)])
            && forall base, len | base !in space.memory.regions :: all[Mapped(base, len)] == all[Unmapped(base, len)]
  {
    Balanced(space.log);
  }

  // ----- the process ------------------------------------------------------------------------

  class Process {
    const space: Space
    const usizeMax: nat
    var owners: map<nat, Owner>
    ghost var leaked: set<nat>
    /** A block was once mapped at address 0. */
    ghost var atZero: bool

    /** The books agree with the memory; and what is leaked is the region at address 0, if a block was
        ever mapped there, and the regions whose release the kernel refused (`RefusedIff` says which
        these are, by the log), and nothing else. */
    ghost predicate Valid()
      reads this, space
    {
      && space.Valid()
      && Accounted(space.memory, owners, leaked)
      && leaked == RefusedBases(space.log) + Zero(atZero)
    }

    /** What the live allocations hold, by their base. */
    ghost function Contents(): map<nat, seq<Value>>
      reads this, space
    {
      Held(space.memory, owners)
    }

    constructor (usizeMax: nat)
      ensures Valid() && fresh(space) && owners == map[] && leaked == {} && !atZero && this.usizeMax == usizeMax
      ensures Contents() == map[]
    {
      space := new Space();
      this.usizeMax := usizeMax;
      owners, leaked, atZero := map[], {}, false;
    }

    /** Any operation, whatever the kernel answers, keeps the books, and does to the sequences in the
        allocations what it does to independent ones. */
    method Step(op: Op)
      requires Valid() && op.Valid()
      requires op.Asks(usizeMax).Some? ==> KernelMay(space.memory, op.Asks(usizeMax).value, op.answer)
      modifies this, space
      ensures Valid()
      ensures owners == OwnersAfter(old(owners), op, usizeMax)
      ensures leaked == old(leaked) + op.Leaks(old(owners), usizeMax)
      ensures Contents() == HeldAfter(old(Contents()), op, usizeMax)
      ensures space.memory.regions == RegionsAfter(old(space.memory.regions), old(owners), op, usizeMax)
      ensures atZero == (old(atZero) || op.LeaksNull())
    {
      hide Space.Valid, Accounted, RefusedBases, Held;
      match op
      case MakeBlock(_, _) => StepBlock(op);
      case MakeBlockOnNode(_, _, _, _, _) => StepBlockOnNode(op);
      case MakeHuge(_, _, _, _, _) => StepHuge(op);
      case DropOwner(base, refused) =>
        if base in owners {
          Drop(base, refused);
        } else {
          HeldAt(space.memory, owners, leaked, base);
          assert Contents() - {base} == Contents();
        }
      case StoreAt(base, i, v) =>
        Store(base, i, v);
    }

    method StepBlock(op: Op)
      requires Valid() && op.MakeBlock? && (op.len > 0 ==> KernelMay(space.memory, op.len, op.answer))
      modifies this, space
      ensures Valid()
      ensures owners == OwnersAfter(old(owners), op, usizeMax)
      ensures leaked == old(leaked) + op.Leaks(old(owners), usizeMax)
      ensures Contents() == HeldAfter(old(Contents()), op, usizeMax)
      ensures space.memory.regions == RegionsAfter(old(space.memory.regions), old(owners), op, usizeMax)
      ensures atZero == (old(atZero) || op.LeaksNull())
    {
      ghost var m, log := space.memory, space.log;
      SpaceIsSound(space);
      hide Space.Valid, Sound, Accounted, RefusedBases, Held;
      var r := NewBlock(space, op.len, op.answer);
      RefusedMapping(log, op.answer, op.len);
      Record(m, r, op.len, op.answer, op.LeaksNull(), op.LeaksNull());
    }

    method StepBlockOnNode(op: Op)
      requires Valid() && op.MakeBlockOnNode? && (op.len > 0 ==> KernelMay(space.memory, op.len, op.answer))
      modifies this, space
      ensures Valid()
      ensures owners == OwnersAfter(old(owners), op, usizeMax)
      ensures leaked == old(leaked) + op.Leaks(old(owners), usizeMax)
      ensures Contents() == HeldAfter(old(Contents()), op, usizeMax)
      ensures space.memory.regions == RegionsAfter(old(space.memory.regions), old(owners), op, usizeMax)
      ensures atZero == (old(atZero) || op.LeaksNull())
    {
      hide Space.Valid, Sound, Accounted, RefusedBases, Held, Op.Leaks, Op.GivesUp, Op.LeaksNull, OwnersAfter, Legal, Apply;
      ghost var m, log := space.memory, space.log;
      SpaceIsSound(space);
      if op.answer.MapAt? {
        RegionsChange(m, op.answer.base, op.len, op.refused);
      }
      var r := NewBlockOnNode(space, op.len, op.node, op.answer, op.bound, op.refused);
      ghost var lost := op.len > 0 && op.answer.MapAt? && (op.answer.base == 0 || (!op.bound && op.refused));
      NodeOutcome(op, owners, usizeMax);
      RefusedMapping(log, op.answer, op.len);
      RefusedBind(log, op.answer, op.len, op.refused);
      Record(m, r, op.len, op.answer, lost, op.LeaksNull());
    }

    method StepHuge(op: Op)
      requires Valid() && op.MakeHuge? && op.Valid()
      requires op.Asks(usizeMax).Some? ==> KernelMay(space.memory, op.Asks(usizeMax).value, op.answer)
      modifies this, space
      ensures Valid()
      ensures owners == OwnersAfter(old(owners), op, usizeMax)
      ensures leaked == old(leaked) + op.Leaks(old(owners), usizeMax)
      ensures Contents() == HeldAfter(old(Contents()), op, usizeMax)
      ensures space.memory.regions == RegionsAfter(old(space.memory.regions), old(owners), op, usizeMax)
      ensures atZero == old(atZero)
    {
      hide Space.Valid, Sound, Accounted, RefusedBases, CreationTrace, OwnersAfter, HeldAfter, RegionsAfter, Held, Op.Leaks, AfterHuge;
      ghost var m, log := space.memory, space.log;
      SpaceIsSound(space);
      var r := AllocateHuge(op);
      HugeBooks(m, owners, leaked, op, r, usizeMax);
      HeldAfterHuge(m, owners, leaked, op, r, usizeMax);
      HugeRegions(m, owners, op, r, usizeMax);
      HugeOutcome(op, r, owners, usizeMax);
      RefusedCreation(log, r, op.count, op.layout, usizeMax, op.answer, op.produced, op.refused);
      hide CreationFits;
      leaked := leaked + op.Leaks(owners, usizeMax);
      if r.Built? {
        owners := owners[r.allocation.ptr := HugeOwner(r.allocation)];
      }
    }

    method AllocateHuge(op: Op) returns (r: Creation)
      requires space.Valid() && op.MakeHuge? && op.Valid()
      requires op.Asks(usizeMax).Some? ==> KernelMay(space.memory, op.Asks(usizeMax).value, op.answer)
      modifies space
      ensures space.Valid() && CreationFits(r, op.count, op.layout, usizeMax, op.answer, op.produced)
      ensures space.memory == AfterHuge(old(space.memory), op, r, usizeMax)
      ensures space.log == old(space.log) + CreationTrace(r, op.count, op.layout, usizeMax, op.answer, op.produced, op.refused)
    {
      hide Space.Valid, CreationTrace, CreationFits, WithRow, Apply;
      r := NewHugeAllocation(space, op.count, op.layout, usizeMax, op.answer, op.produced, op.refused);
      HugeOutcome(op, r, map[], usizeMax);
    }

    /** Takes ownership of a block just made, or of the knowledge that its region was lost. */
    method Record(ghost m: Memory, r: Result<MmapBlock, BlockError>, len: nat, answer: MapAnswer,
                  ghost lost: bool, ghost zero: bool)
      requires space.Valid() && Sound(m) && Accounted(m, owners, leaked)
      requires r.Ok? ==> answer == MapAt(r.value.ptr) && r.value.len == len && !lost
      requires r.Ok? || lost ==>
                 && answer.MapAt? && Legal(m, Mapped(answer.base, len))
                 && space.memory == Apply(m, Mapped(answer.base, len))
      requires !r.Ok? && !lost ==> space.memory == m
      requires (if lost then leaked + {answer.base} else leaked) == RefusedBases(space.log) + Zero(atZero || zero)
      modifies this
      ensures Valid()
      ensures owners == if r.Ok? then old(owners)[r.value.ptr := BlockOwner(r.value)] else old(owners)
      ensures leaked == old(leaked) + if lost then {answer.base} else {}
      ensures atZero == (old(atZero) || zero)
      ensures Contents() == Held(m, old(owners))
    {
      hide Space.Valid, Sound, Accounted, RefusedBases, Held, Apply;
      atZero := atZero || zero;
      if r.Ok? {
        FreshRegionIsVacant(m, r.value.ptr, len);
        RegionAppears(m, owners, leaked, r.value.ptr, len, r.value);
        HeldWithBlock(m, owners, leaked, r.value.ptr, len, r.value);
        owners := owners[r.value.ptr := BlockOwner(r.value)];
      } else if lost {
        FreshRegionIsVacant(m, answer.base, len);
        RegionAppears(m, owners, leaked, answer.base, len, MmapBlock(answer.base, len, None));
        HeldWithBlock(m, owners, leaked, answer.base, len, MmapBlock(answer.base, len, None));
        leaked := leaked + {answer.base};
      }
    }

    /** Drops one owner: its elements once each, then its region, once, unless that is refused. */
    method Drop(base: nat, refused: bool)
      requires Valid() && base in owners
      modifies this, space
      ensures Valid() && owners == old(owners) - {base}
      ensures leaked == LeakedIf(old(leaked), base, refused) && atZero == old(atZero)
      ensures Contents() == old(Contents()) - {base}
      ensures space.memory.regions == if refused then old(space.memory.regions) else old(space.memory.regions) - {base}
    {
      hide Space.Valid, Accounted, RefusedBases, Held, Owner.Fits, Drops, HugeAllocation.OwnedIn, WithoutFirst, Apply;
      SpaceIsSound(space);
      OwnerFits(space.memory, owners, leaked, base);
      match owners[base] {
        case BlockOwner(block) =>
          BlockGoes(space.memory, owners, leaked, base, refused);
          HeldWithoutBlock(space.memory, owners, leaked, base, refused);
          RefusedUnmap(space.log, base, block.len, refused);
          RegionsChange(space.memory, base, block.len, refused);
          space.Perform(Unmap(block.ptr, block.len, refused));
        case HugeOwner(a) =>
          HugeGoes(space.memory, owners, leaked, base, refused);
          HeldWithoutHuge(space.memory, owners, leaked, base, refused);
          RefusedDrops(space.log, a, a.Contents(space.memory), refused);
          ElementsAreNoRegions(space.memory, a, 0, 0);
          RegionsChange(WithoutFirst(space.memory, a.ptr, a.size, a.count), a.ptr, a.mapLen, refused);
          DropHugeAllocation(space, a, refused);
      }
      owners, leaked := owners - {base}, LeakedIf(leaked, base, refused);
    }

    /** Stores through the mutable slice of an allocation; an index out of range panics, and a base
        without an allocation cannot be named. */
    method Store(base: nat, i: nat, v: Value)
      requires Valid()
      modifies space
      ensures Valid()
      ensures Contents() == HeldAfter(old(Contents()), StoreAt(base, i, v), usizeMax)
      ensures space.memory.regions == old(space.memory.regions)
    {
      hide Space.Valid, RefusedBases, Accounted, Held, HugeAllocation.OwnedIn, Overwritten;
      SpaceIsSound(space);
      HeldAt(space.memory, owners, leaked, base);
      if base in owners && owners[base].HugeOwner? && i < owners[base].allocation.count {
        var a := owners[base].allocation;
        ghost var m, log := space.memory, space.log;
        StoreBooks(m, owners, leaked, base, i, v);
        ElementsAreNoRegions(m, a, i, v);
        StoreElement(space, a, i, v);
        HeldWithStore(m, owners, leaked, base, i, v);
        RefusedStore(log, a, i, a.Contents(m)[i], v);
      }
    }

    /** An answer the kernel cannot give, and only such a one, is taken as a refusal. */
    method TryStep(op: Op) returns (happened: Op)
      requires Valid() && op.Valid()
      modifies this, space
      ensures Valid() && happened.Valid()
      ensures happened == Happens(old(space.memory.regions), op, usizeMax)
      ensures happened != op ==>
                op.Asks(usizeMax).Some? && !KernelMay(old(space.memory), op.Asks(usizeMax).value, op.answer)
      ensures owners == OwnersAfter(old(owners), happened, usizeMax)
      ensures leaked == old(leaked) + happened.Leaks(old(owners), usizeMax)
      ensures Contents() == HeldAfter(old(Contents()), happened, usizeMax)
      ensures space.memory.regions == RegionsAfter(old(space.memory.regions), old(owners), happened, usizeMax)
      ensures atZero == (old(atZero) || happened.LeaksNull())
    {
      hide Space.Valid, Accounted, RefusedBases, Held, HeldAfter, OwnersAfter, RegionsAfter;
      happened := op;
      var asks := op.Asks(usizeMax);
      if asks.Some? {
        KernelLooksAtRegions(space.memory, space.memory.regions, asks.value, op.answer);
      }
      if asks.Some? && !KernelMay(space.memory, asks.value, op.answer) {
        happened := Refused(op);
      }
      Step(happened);
    }

    /** Any sequence of operations, each happening as answered unless that answer is impossible by then:
        owners, leaks and the sequences in all live allocations come out as
        the operations say, each allocation as if it were alone. */
    method Run(ops: seq<Op>) returns (happened: seq<Op>)
      requires Valid() && AllValid(ops)
      modifies this, space
      ensures Valid() && AllValid(happened)
      ensures AsAnswered(old(space.memory.regions), old(owners), ops, happened, usizeMax)
      ensures owners == OwnersAfterAll(old(owners), happened, usizeMax)
      ensures leaked == old(leaked) + LeakedBy(old(owners), happened, usizeMax)
      ensures Contents() == HeldAfterAll(old(Contents()), happened, usizeMax)
      ensures atZero == (old(atZero) || AnyLeaksNull(happened))
      ensures space.memory.regions == RegionsAfterAll(old(space.memory.regions), old(owners), happened, usizeMax)
      decreases |ops|
    {
      hide Accounted, Space.Valid, RefusedBases, Held, HeldAfter, HeldAfterAll, OwnersAfter, OwnersAfterAll, LeakedBy, RegionsAfter, RegionsAfterAll, Happens, AsAnswered, AllValid,
        AnyLeaksNull, Op.Valid, Op.LeaksNull, Op.Leaks;
      if |ops| == 0 {
        NothingHappened(space.memory.regions, owners, Contents(), usizeMax);
        assert ops == [];
        return [];
      }
      AllButLast(ops);
      var before := Run(ops[..|ops| - 1]);
      var op := TryStep(ops[|ops| - 1]);
      OneMore(old(owners), old(Contents()), before, op, usizeMax);
      OneMoreHappened(old(space.memory.regions), old(owners), ops[..|ops| - 1], before, ops[|ops| - 1], op, usizeMax);
      return before + [op];
    }

    /** Dropping what is left, with some of the releases refused: every other region is released; no
        element survives a refusal, and over the whole history every element placed was dropped once
        and every mapping of a region that is not leaked was unmapped once. */
    method DropAll(refusals: set<nat>)
      requires Valid()
      modifies this, space
      ensures Valid() && owners == map[] && atZero == old(atZero)
      ensures leaked == old(leaked) + (old(owners).Keys * refusals)
      ensures space.memory.regions.Keys == leaked && space.memory.slots == map[]
      ensures var all := multiset(space.log);
              && (forall addr, size, value :: all[Placed(addr, size, value)] == all[Dropped(addr, size, value)])
              && forall base, len | base !in leaked :: all[Mapped(base, len)] == all[Unmapped(base, len)]
    {
      hide Space.Valid, Accounted, RefusedBases;
      while owners.Keys != {}
        invariant Valid() && atZero == old(atZero) && owners.Keys <= old(owners).Keys
        invariant leaked == old(leaked) + ((old(owners).Keys - owners.Keys) * refusals)
        decreases owners.Keys
      {
        var base :| base in owners.Keys;
        Drop(base, base in refusals);
      }
      assert owners == map[];
      NothingOwned(space.memory, leaked);
      SpaceBalanced(space);
    }
  }
}
