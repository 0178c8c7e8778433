/**
The process address space as kernelkit uses it: regions handed out by `mmap`, and typed
elements living in slots inside them.  Everything that happens is an event; the log of events
determines the memory, and an event may only be appended when it is legal in the memory so far,
so a double unmap, a second drop or a leaked element cannot be logged at all.
*/
module AddressSpace {
  /** An element's value, whatever its Rust type. */
  type Value = int

  datatype Event =
    | Mapped(base: nat, len: nat)
    | Unmapped(base: nat, len: nat)
    | UnmapRefused(base: nat, len: nat)
    | Placed(addr: nat, size: nat, value: Value)
    | Dropped(addr: nat, size: nat, value: Value)

  datatype Slot = Slot(size: nat, value: Value)

  datatype Memory = Memory(regions: map<nat, nat>, slots: map<nat, Slot>)

  predicate Disjoint(a: nat, n: nat, b: nat, k: nat) {
    a + n <= b || b + k <= a
  }

  /** No mapped region shares a byte with `[base, base + len)`. */
  predicate RegionFree(m: Memory, base: nat, len: nat) {
    forall b | b in m.regions :: Disjoint(base, len, b, m.regions[b])
  }

  /** No live element shares a byte with `[addr, addr + len)`. */
  predicate SlotFree(m: Memory, addr: nat, len: nat) {
    forall a | a in m.slots :: Disjoint(addr, len, a, m.slots[a].size)
  }

  predicate InRegion(m: Memory, addr: nat, size: nat) {
    exists b | b in m.regions :: b <= addr && addr + size <= b + m.regions[b]
  }

  predicate Legal(m: Memory, e: Event)
    decreases e.UnmapRefused?
  {
    match e
    case Mapped(base, len) => len > 0 && RegionFree(m, base, len)
    case Unmapped(base, len) => base in m.regions && m.regions[base] == len && SlotFree(m, base, len)
    case UnmapRefused(base, len) => Legal(m, Unmapped(base, len))
    case Placed(addr, size, _) => size > 0 && InRegion(m, addr, size) && SlotFree(m, addr, size)
    case Dropped(addr, size, value) => addr in m.slots && m.slots[addr] == Slot(size, value)
  }

  function Apply(m: Memory, e: Event): Memory {
    match e
    case Mapped(base, len) => m.(regions := m.regions[base := len])
    case Unmapped(base, _) => m.(regions := m.regions - {base})
    case UnmapRefused(_, _) => m
    case Placed(addr, size, value) => m.(slots := m.slots[addr := Slot(size, value)])
    case Dropped(addr, _, _) => m.(slots := m.slots - {addr})
  }

  /** What a `munmap` call comes to: the kernel may refuse it, and then nothing happens. */
  function Unmap(base: nat, len: nat, refused: bool): Event {
    if refused then UnmapRefused(base, len) else Unmapped(base, len)
  }

  function Replay(log: seq<Event>): Memory {
    if |log| == 0 then Memory(map[], map[]) else Apply(Replay(log[..|log| - 1]), log[|log| - 1])
  }

  predicate WellFormed(log: seq<Event>) {
    |log| == 0 || (WellFormed(log[..|log| - 1]) && Legal(Replay(log[..|log| - 1]), log[|log| - 1]))
  }

  // ----- what every log keeps -----------------------------------------------

  predicate RegionsDisjoint(regions: map<nat, nat>) {
    forall b, c | b in regions && c in regions && b != c :: Disjoint(b, regions[b], c, regions[c])
  }

  predicate SlotsDisjoint(slots: map<nat, Slot>) {
    forall a, c | a in slots && c in slots && a != c :: Disjoint(a, slots[a].size, c, slots[c].size)
  }

  /** Regions are non-empty and pairwise disjoint; elements are pairwise disjoint and mapped. */
  predicate Sound(m: Memory) {
    && (forall b | b in m.regions :: m.regions[b] > 0)
    && RegionsDisjoint(m.regions)
    && (forall a | a in m.slots :: m.slots[a].size > 0 && InRegion(m, a, m.slots[a].size))
    && SlotsDisjoint(m.slots)
  }

  /** An element stays inside the region it was in when any region it is not in goes away. */
  lemma StaysMapped(m: Memory, m': Memory, addr: nat, size: nat)
    requires InRegion(m, addr, size)
    requires forall b | b in m.regions && b <= addr && addr + size <= b + m.regions[b] ::
               b in m'.regions && m'.regions[b] == m.regions[b]
    ensures InRegion(m', addr, size)
  {
  }

  lemma RegionAdded(m: Memory, base: nat, len: nat)
    requires Sound(m) && len > 0 && RegionFree(m, base, len)
    ensures Sound(m.(regions := m.regions[base := len]))
  {
    var m' := m.(regions := m.regions[base := len]);
    assert base !in m.regions;
    forall a | a in m'.slots ensures InRegion(m', a, m'.slots[a].size) {
      StaysMapped(m, m', a, m.slots[a].size);
    }
  }

  lemma RegionRemoved(m: Memory, base: nat)
    requires Sound(m) && base in m.regions && SlotFree(m, base, m.regions[base])
    ensures Sound(m.(regions := m.regions - {base}))
  {
    var m' := m.(regions := m.regions - {base});
    forall a | a in m'.slots ensures InRegion(m', a, m'.slots[a].size) {
      StaysMapped(m, m', a, m.slots[a].size);
    }
  }

  lemma SlotAdded(m: Memory, addr: nat, slot: Slot)
    requires Sound(m) && slot.size > 0 && InRegion(m, addr, slot.size) && SlotFree(m, addr, slot.size)
    ensures Sound(m.(slots := m.slots[addr := slot]))
  {
    var m' := m.(slots := m.slots[addr := slot]);
    forall a | a in m'.slots ensures InRegion(m', a, m'.slots[a].size) {
      StaysMapped(m, m', a, m'.slots[a].size);
    }
    hide InRegion;
    assert SlotsDisjoint(m'.slots) && RegionsDisjoint(m'.regions);
  }

  lemma SlotRemoved(m: Memory, addr: nat)
    requires Sound(m)
    ensures Sound(m.(slots := m.slots - {addr}))
  {
    var m' := m.(slots := m.slots - {addr});
    forall a | a in m'.slots ensures InRegion(m', a, m'.slots[a].size) {
      StaysMapped(m, m', a, m.slots[a].size);
    }
  }

  lemma LegalKeepsSound(m: Memory, e: Event)
    requires Sound(m) && Legal(m, e)
    ensures Sound(Apply(m, e))
  {
    match e
    case Mapped(base, len) => RegionAdded(m, base, len);
    case Unmapped(base, _) => RegionRemoved(m, base);
    case UnmapRefused(_, _) =>
    case Placed(addr, size, value) => SlotAdded(m, addr, Slot(size, value));
    case Dropped(addr, _, _) => SlotRemoved(m, addr);
  }

  lemma {:induction false} LogIsSound(log: seq<Event>)
    requires WellFormed(log)
    ensures Sound(Replay(log))
  {
    if |log| == 0 {
    } else {
      LogIsSound(log[..|log| - 1]);
      LegalKeepsSound(Replay(log[..|log| - 1]), log[|log| - 1]);
    }
  }

  function One(b: bool): nat { if b then 1 else 0 }

  predicate Live(m: Memory, addr: nat, slot: Slot) { addr in m.slots && m.slots[addr] == slot }

  predicate IsMapped(m: Memory, base: nat, len: nat) { base in m.regions && m.regions[base] == len }

  lemma StepConserves(m: Memory, e: Event, addr: nat, slot: Slot, base: nat, len: nat)
    requires Sound(m) && Legal(m, e)
    ensures One(Live(Apply(m, e), addr, slot)) + One(e == Dropped(addr, slot.size, slot.value)) ==
            One(Live(m, addr, slot)) + One(e == Placed(addr, slot.size, slot.value))
    ensures One(IsMapped(Apply(m, e), base, len)) + One(e == Unmapped(base, len)) ==
            One(IsMapped(m, base, len)) + One(e == Mapped(base, len))
  {
    assert e.Placed? ==> e.addr !in m.slots;
    assert e.Mapped? ==> e.base !in m.regions;
  }

  /** Conservation: each element placed has been dropped once or is still live, and each mapping
      has been unmapped once or is still there. */
  lemma {:induction false} Conservation(log: seq<Event>, addr: nat, slot: Slot, base: nat, len: nat)
    requires WellFormed(log)
    ensures var placed, dropped := Placed(addr, slot.size, slot.value), Dropped(addr, slot.size, slot.value);
            multiset(log)[placed] == multiset(log)[dropped] + One(Live(Replay(log), addr, slot))
    ensures multiset(log)[Mapped(base, len)] ==
            multiset(log)[Unmapped(base, len)] + One(IsMapped(Replay(log), base, len))
  {
    if |log| == 0 {
    } else {
      var front, e := log[..|log| - 1], log[|log| - 1];
      assert log == front + [e];
      Conservation(front, addr, slot, base, len);
      LogIsSound(front);
      StepConserves(Replay(front), e, addr, slot, base, len);
    }
  }

  /** In a memory without live elements, every element placed was dropped, and every mapping of a
      region that is gone was unmapped, the same number of times. */
  lemma Balanced(log: seq<Event>)
    requires WellFormed(log) && Replay(log).slots == map[]
    ensures forall addr, size, value :: multiset(log)[Placed(addr, size, value)] == multiset(log)[Dropped(addr, size, value)]
    ensures forall base, len | base !in Replay(log).regions :: multiset(log)[Mapped(base, len)] == multiset(log)[Unmapped(base, len)]
  {
    forall addr, size, value
      ensures multiset(log)[Placed(addr, size, value)] == multiset(log)[Dropped(addr, size, value)]
    {
      Conservation(log, addr, Slot(size, value), 0, 0);
    }
    forall base, len | base !in Replay(log).regions
      ensures multiset(log)[Mapped(base, len)] == multiset(log)[Unmapped(base, len)]
    {
      Conservation(log, 0, Slot(0, 0), base, len);
    }
  }

  /** The regions whose release the kernel refused at some time. */
  function RefusedBases(log: seq<Event>): set<nat> {
    if |log| == 0 then {}
    else RefusedBases(log[..|log| - 1]) + if log[|log| - 1].UnmapRefused? then {log[|log| - 1].base} else {}
  }

  lemma {:induction false} RefusedAppend(a: seq<Event>, b: seq<Event>)
    ensures RefusedBases(a + b) == RefusedBases(a) + RefusedBases(b)
  {
    if |b| == 0 {
      assert a + b == a;
    } else {
      assert (a + b)[..|a + b| - 1] == a + b[..|b| - 1];
      RefusedAppend(a, b[..|b| - 1]);
    }
  }

  lemma {:induction false} RefusedIff(log: seq<Event>, base: nat)
    ensures base in RefusedBases(log) <==> exists i :: 0 <= i < |log| && log[i].UnmapRefused? && log[i].base == base
  {
    if |log| == 0 {
    } else {
      var front := log[..|log| - 1];
      RefusedIff(front, base);
      forall i | 0 <= i < |front| ensures front[i] == log[i] {
      }
    }
  }

  function CountPlaced(log: seq<Event>): nat {
    if |log| == 0 then 0 else CountPlaced(log[..|log| - 1]) + One(log[|log| - 1].Placed?)
  }

  function CountDropped(log: seq<Event>): nat {
    if |log| == 0 then 0 else CountDropped(log[..|log| - 1]) + One(log[|log| - 1].Dropped?)
  }

  /** Over any run, elements created = elements live + elements dropped. */
  lemma {:induction false} CreatedIsLivePlusDropped(log: seq<Event>)
    requires WellFormed(log)
    ensures CountPlaced(log) == |Replay(log).slots| + CountDropped(log)
  {
    if |log| == 0 {
    } else {
      var m, e := Replay(log[..|log| - 1]), log[|log| - 1];
      CreatedIsLivePlusDropped(log[..|log| - 1]);
      LogIsSound(log[..|log| - 1]);
      if e.Placed? {
        assert e.addr !in m.slots;
        assert Apply(m, e).slots.Keys == m.slots.Keys + {e.addr};
        assert |Apply(m, e).slots.Keys| == |m.slots.Keys| + 1;
      } else if e.Dropped? {
        assert Apply(m, e).slots.Keys == m.slots.Keys - {e.addr};
        assert |Apply(m, e).slots.Keys| == |m.slots.Keys| - 1;
      }
    }
  }

  // ----- the mutable space ---------------------------------------------------

  class Space {
    var memory: Memory
    ghost var log: seq<Event>

    ghost predicate Valid()
      reads this
    {
      WellFormed(log) && Replay(log) == memory && Sound(memory)
    }

    constructor ()
      ensures Valid() && log == []
    {
      memory, log := Memory(map[], map[]), [];
    }

    /** One primitive step: a system call, a write of a fresh element, or its destructor. */
    method Perform(e: Event)
      requires Valid() && Legal(memory, e)
      modifies this
      ensures Valid() && memory == Apply(old(memory), e) && log == old(log) + [e]
    {
      LegalKeepsSound(memory, e);
      memory := Apply(memory, e);
      ghost var before := log;
      log := before + [e];
      assert log[..|log| - 1] == before;
    }
  }
}
