/**
Huge-page backed vectors: one anonymous mapping, filled element by element with
`T::default()`, any call of which may panic; a guard cleans up the initialized prefix.
When no huge mapping is to be had the vector falls back to an ordinary `Vec`.
*/
module HugePages {
  import opened Wrappers
  import opened AddressSpace
  import opened Arithmetic

  const HUGEPAGE_BYTES: nat := 2 * 1024 * 1024

  /** The layout of an element type. */
  datatype Layout = Layout(size: nat, align: nat)
  {
    predicate Valid() { align > 0 }
  }

  // ----- layout arithmetic ----------------------------------------------------

  function CheckedLen(count: nat, size: nat, usizeMax: nat): Option<nat> {
    if count * size <= usizeMax then Some(count * size) else None
  }

  function AlignUp(value: nat, alignment: nat, usizeMax: nat): Option<nat>
    requires alignment > 0
  {
    var remainder := value % alignment;
    if remainder == 0 then Some(value)
    else if value + (alignment - remainder) <= usizeMax then Some(value + (alignment - remainder))
    else None
  }

  /** The length of the mapping that is to hold `count` elements, unless it overflows. */
  function MapLen(count: nat, size: nat, usizeMax: nat): Option<nat> {
    var byteLen := CheckedLen(count, size, usizeMax);
    if byteLen.None? then None else AlignUp(byteLen.value, HUGEPAGE_BYTES, usizeMax)
  }

  /** Of two multiples of `d`, one above `v` is not below the round-up of `v`. */
  lemma RoundUpIsLeast(v: nat, d: nat, k: nat)
    requires d > 0 && k * d >= v
    ensures v % d == 0 ==> v <= k * d
    ensures v % d != 0 ==> v + (d - v % d) <= k * d
  {
    var q := v / d;
    assert v == q * d + v % d;
    if v % d != 0 {
      if k <= q {
        MulMono(k, q, d);
      } else {
        MulMono(q + 1, k, d);
        Distribute(q, 1, d);
      }
    }
  }

  /** `MapLen` is the least multiple of the huge page size that holds the elements and fits
      `usize`; it is refused exactly when there is no such multiple. */
  lemma MapLenIsLeastMultiple(count: nat, size: nat, usizeMax: nat)
    ensures var r := MapLen(count, size, usizeMax);
            r.Some? ==> r.value % HUGEPAGE_BYTES == 0 && count * size <= r.value <= usizeMax
    ensures var r := MapLen(count, size, usizeMax);
            forall k: nat | count * size <= k * HUGEPAGE_BYTES <= usizeMax ::
              r.Some? && r.value <= k * HUGEPAGE_BYTES
  {
    var v, d := count * size, HUGEPAGE_BYTES;
    if v % d != 0 {
      DivModUnique(v + (d - v % d), d, v / d + 1, 0);
    }
    forall k: nat | v <= k * d <= usizeMax
      ensures var r := MapLen(count, size, usizeMax); r.Some? && r.value <= k * d
    {
      RoundUpIsLeast(v, d, k);
    }
  }

  /** The byte range of every element lies inside the mapping, and ahead of those of later elements. */
  lemma ElementsFitDisjointly(p: nat, count: nat, size: nat, usizeMax: nat, i: nat, j: nat)
    requires MapLen(count, size, usizeMax).Some? && i < count && j < count
    ensures p <= p + i * size && (p + i * size) + size <= p + MapLen(count, size, usizeMax).value
    ensures i < j ==> (p + i * size) + size <= p + j * size
  {
    MapLenIsLeastMultiple(count, size, usizeMax);
    NextElement(i, count, size);
    if i < j {
      NextElement(i, j, size);
    }
  }

  lemma NextElement(i: nat, j: nat, size: nat)
    requires i < j
    ensures i * size + size <= j * size
  {
    MulMono(i + 1, j, size);
    Distribute(i, 1, size);
  }

  // ----- rows of elements in memory --------------------------------------------

  function Places(p: nat, size: nat, values: seq<Value>): seq<Event> {
    if |values| == 0 then []
    else
      var n := |values| - 1;
      Places(p, size, values[..n]) + [Placed(p + n * size, size, values[n])]
  }

  function Drops(p: nat, size: nat, values: seq<Value>): seq<Event> {
    if |values| == 0 then []
    else
      var n := |values| - 1;
      Drops(p, size, values[..n]) + [Dropped(p + n * size, size, values[n])]
  }

  /** The elements are placed, and dropped, one after the other from the first on. */
  lemma {:induction false} InOrder(p: nat, size: nat, values: seq<Value>, i: nat)
    requires i < |values|
    ensures |Places(p, size, values)| == |Drops(p, size, values)| == |values|
    ensures Places(p, size, values)[i] == Placed(p + i * size, size, values[i])
    ensures Drops(p, size, values)[i] == Dropped(p + i * size, size, values[i])
    decreases |values|
  {
    var n := |values| - 1;
    RowLength(p, size, values[..n]);
    if i == n {
    } else {
      InOrder(p, size, values[..n], i);
    }
  }

  lemma {:induction false} RowLength(p: nat, size: nat, values: seq<Value>)
    ensures |Places(p, size, values)| == |Drops(p, size, values)| == |values|
  {
    if |values| == 0 {
    } else {
      RowLength(p, size, values[..|values| - 1]);
    }
  }

  /** The slots of a row of elements that starts at `p`. */
  function Row(p: nat, size: nat, values: seq<Value>): map<nat, Slot> {
    if |values| == 0 then map[]
    else
      var n := |values| - 1;
      Row(p, size, values[..n])[p + n * size := Slot(size, values[n])]
  }

  /** The addresses of `n` elements that start at `p`. */
  function Addresses(p: nat, size: nat, n: nat): set<nat> {
    if n == 0 then {} else Addresses(p, size, n - 1) + {p + (n - 1) * size}
  }

  lemma {:induction false} InAddresses(p: nat, size: nat, n: nat, a: nat)
    requires size > 0
    ensures a in Addresses(p, size, n) <==> exists i: nat :: i < n && a == p + i * size
  {
    if n == 0 {
    } else {
      InAddresses(p, size, n - 1, a);
      if a == p + (n - 1) * size {
        assert n - 1 < n;
      }
    }
  }

  lemma {:induction false} RowKeys(p: nat, size: nat, values: seq<Value>)
    ensures Row(p, size, values).Keys == Addresses(p, size, |values|)
  {
    if |values| == 0 {
    } else {
      RowKeys(p, size, values[..|values| - 1]);
    }
  }

  lemma {:induction false} RowAt(p: nat, size: nat, values: seq<Value>, i: nat)
    requires size > 0 && i < |values|
    ensures p + i * size in Row(p, size, values) && Row(p, size, values)[p + i * size] == Slot(size, values[i])
  {
    var n := |values| - 1;
    if i == n {
    } else {
      RowAt(p, size, values[..n], i);
      NextElement(i, n, size);
    }
  }

  /** A mapped region with nothing alive in it. */
  predicate Vacant(m: Memory, p: nat, len: nat) {
    Sound(m) && p in m.regions && m.regions[p] == len && SlotFree(m, p, len)
  }

  function WithRow(m: Memory, p: nat, size: nat, values: seq<Value>): Memory {
    m.(slots := m.slots + Row(p, size, values))
  }

  lemma RowSlot(p: nat, size: nat, values: seq<Value>, a: nat) returns (i: nat)
    requires size > 0 && a in Row(p, size, values)
    ensures i < |values| && a == p + i * size && Row(p, size, values)[a] == Slot(size, values[i])
  {
    RowKeys(p, size, values);
    InAddresses(p, size, |values|, a);
    i :| i < |values| && a == p + i * size;
    RowAt(p, size, values, i);
  }

  lemma NextPlaceIsLegal(m: Memory, p: nat, len: nat, size: nat, values: seq<Value>, v: Value)
    requires Vacant(m, p, len) && size > 0 && (|values| + 1) * size <= len
    ensures Legal(WithRow(m, p, size, values), Placed(p + |values| * size, size, v))
  {
    var m1, n := WithRow(m, p, size, values), |values|;
    var addr := p + n * size;
    Distribute(n, 1, size);
    assert InRegion(m1, addr, size) by {
      assert p in m1.regions && p <= addr && addr + size <= p + m1.regions[p];
    }
    OverlapsNone(m, p, len, addr, size);
    forall a | a in m1.slots
      ensures Disjoint(addr, size, a, m1.slots[a].size)
    {
      if a in Row(p, size, values) {
        var i := RowSlot(p, size, values, a);
        NextElement(i, n, size);
      }
    }
  }

  lemma NextPlaceExtendsRow(m: Memory, p: nat, size: nat, values: seq<Value>, i: nat)
    requires i < |values|
    ensures Apply(WithRow(m, p, size, values[..i]), Placed(p + i * size, size, values[i]))
            == WithRow(m, p, size, values[..i + 1])
  {
    assert values[..i + 1][..i] == values[..i];
  }

  function WithoutFirst(m: Memory, p: nat, size: nat, n: nat): Memory {
    m.(slots := m.slots - Addresses(p, size, n))
  }

  lemma DropNext(now: Memory, m: Memory, p: nat, size: nat, values: seq<Value>, i: nat)
    requires size > 0 && i < |values|
    requires now == WithoutFirst(WithRow(m, p, size, values), p, size, i)
    ensures Live(now, p + i * size, Slot(size, values[i]))
    ensures var e := Dropped(p + i * size, size, values[i]);
            Legal(now, e) && Apply(now, e) == WithoutFirst(WithRow(m, p, size, values), p, size, i + 1)
  {
    RowAt(p, size, values, i);
    InAddresses(p, size, i, p + i * size);
    forall j: nat | j < i ensures p + i * size != p + j * size {
      NextElement(j, i, size);
    }
  }

  lemma NothingDropped(m: Memory, log: seq<Event>, p: nat, size: nat, values: seq<Value>)
    ensures WithoutFirst(m, p, size, 0) == m && log + Drops(p, size, values[..0]) == log
  {
  }

  lemma DropsExtend(log: seq<Event>, p: nat, size: nat, values: seq<Value>, i: nat)
    requires i < |values|
    ensures log + Drops(p, size, values[..i + 1]) ==
            log + Drops(p, size, values[..i]) + [Dropped(p + i * size, size, values[i])]
  {
    assert values[..i + 1][..i] == values[..i];
  }

  lemma PlacesExtend(log: seq<Event>, p: nat, size: nat, values: seq<Value>, i: nat)
    requires i < |values|
    ensures log + Places(p, size, values[..i + 1]) ==
            log + Places(p, size, values[..i]) + [Placed(p + i * size, size, values[i])]
  {
    assert values[..i + 1][..i] == values[..i];
  }

  lemma VacantMayGo(m: Memory, p: nat, len: nat)
    requires Vacant(m, p, len)
    ensures forall refused :: Legal(m, Unmap(p, len, refused))
  {
  }

  lemma NothingPlaced(m: Memory, log: seq<Event>, p: nat, size: nat, values: seq<Value>)
    ensures WithRow(m, p, size, values[..0]) == m && log + Places(p, size, values[..0]) == log
  {
  }

  lemma Append(log: seq<Event>, a: seq<Event>, b: seq<Event>)
    ensures log + a + b == log + (a + b)
  {
  }

  lemma UnwindAppends(log: seq<Event>, base: nat, mapLen: nat, size: nat, values: seq<Value>, refused: bool)
    ensures log + Places(base, size, values) + Drops(base, size, values) + [Unmap(base, mapLen, refused)] ==
            log + UnwindTrace(base, mapLen, size, values, refused)
  {
  }

  lemma OverlapsNone(m: Memory, p: nat, len: nat, addr: nat, size: nat)
    requires Sound(m) && SlotFree(m, p, len) && p <= addr && addr + size <= p + len && size > 0
    ensures addr !in m.slots && SlotFree(m, addr, size)
  {
    assert addr in m.slots ==> Disjoint(p, len, addr, m.slots[addr].size);
  }

  lemma DropsComplete(m: Memory, p: nat, len: nat, size: nat, values: seq<Value>)
    requires Vacant(m, p, len) && size > 0 && |values| * size <= len
    ensures WithoutFirst(WithRow(m, p, size, values), p, size, |values|) == m
  {
    RowKeys(p, size, values);
    forall a | a in Addresses(p, size, |values|) ensures a !in m.slots {
      VacantHoldsNone(m, p, len, size, |values|, a);
    }
    hide Vacant, Row, Addresses;
    assert (m.slots + Row(p, size, values)) - Addresses(p, size, |values|) == m.slots;
  }

  lemma VacantHoldsNone(m: Memory, p: nat, len: nat, size: nat, n: nat, a: nat)
    requires Vacant(m, p, len) && size > 0 && n * size <= len && a in Addresses(p, size, n)
    ensures a !in m.slots
  {
    hide Sound, SlotFree, Addresses;
    InAddresses(p, size, n, a);
    var i: nat :| i < n && a == p + i * size;
    NextElement(i, n, size);
    OverlapsNone(m, p, len, a, size);
  }

  // ----- construction and destruction -------------------------------------------

  /** `drop_in_place` on the slice of the first `n` elements: each destructor runs once, in order. */
  method DropInPlace(space: Space, p: nat, size: nat, n: nat, ghost m: Memory, ghost values: seq<Value>)
    requires space.Valid() && space.memory == WithRow(m, p, size, values) && n == |values|
    requires size > 0 && WithoutFirst(WithRow(m, p, size, values), p, size, n) == m
    modifies space
    ensures space.Valid() && space.memory == m
    ensures space.log == old(space.log) + Drops(p, size, values)
  {
    hide Legal, Apply, WithRow, WithoutFirst, Drops, WellFormed, Sound;
    ghost var log := space.log;
    NothingDropped(WithRow(m, p, size, values), log, p, size, values);
    for i := 0 to n
      invariant space.Valid()
      invariant space.memory == WithoutFirst(WithRow(m, p, size, values), p, size, i)
      invariant space.log == log + Drops(p, size, values[..i])
    {
      DropNext(space.memory, m, p, size, values, i);
      DropsExtend(log, p, size, values, i);
      var addr := p + i * size;
      space.Perform(Dropped(addr, size, space.memory.slots[addr].value));
    }
    assert values[..n] == values;
  }

  /** Owns a mapping while its elements are being written. */
  class InitGuard {
    const ptr: nat
    const mapLen: nat
    const size: nat
    var initialized: nat

    constructor (ptr: nat, mapLen: nat, size: nat)
      ensures this.ptr == ptr && this.mapLen == mapLen && this.size == size && initialized == 0
    {
      this.ptr, this.mapLen, this.size := ptr, mapLen, size;
      initialized := 0;
    }

    /** Exactly the initialized prefix is dropped, then the mapping is unmapped, once; that the kernel
        may refuse, and nobody notices. */
    method Drop(space: Space, refused: bool, ghost m: Memory, ghost values: seq<Value>)
      requires space.Valid() && space.memory == WithRow(m, ptr, size, values) && initialized == |values|
      requires size > 0 && WithoutFirst(WithRow(m, ptr, size, values), ptr, size, initialized) == m
      requires Legal(m, Unmap(ptr, mapLen, refused))
      modifies space
      ensures space.Valid() && space.memory == Apply(m, Unmap(ptr, mapLen, refused))
      ensures space.log == old(space.log) + Drops(ptr, size, values) + [Unmap(ptr, mapLen, refused)]
    {
      hide Space.Valid, Legal, WithRow, WithoutFirst, Drops;
      if initialized > 0 {
        DropInPlace(space, ptr, size, initialized, m, values);
      } else {
        assert values == values[..0];
        NothingPlaced(m, space.log, ptr, size, values);
        NothingDropped(m, space.log, ptr, size, values);
      }
      space.Perform(Unmap(ptr, mapLen, refused));
    }
  }

  /** What the kernel answers to an `mmap` call. */
  datatype MapAnswer = MapFailed | MapAt(base: nat)

  /** The kernel never hands out an address range that is in use. */
  predicate KernelMay(m: Memory, len: nat, answer: MapAnswer) {
    answer.MapAt? ==> Legal(m, Mapped(answer.base, len))
  }

  /** Some byte lies in both ranges. */
  ghost predicate ShareByte(a: nat, n: nat, b: nat, k: nat) {
    exists x: nat :: HasByte(a, n, x) && HasByte(b, k, x)
  }

  predicate HasByte(base: nat, len: nat, x: nat) { base <= x < base + len }

  lemma DisjointIff(a: nat, n: nat, b: nat, k: nat)
    requires n > 0 && k > 0
    ensures Disjoint(a, n, b, k) <==> !ShareByte(a, n, b, k)
  {
    var x := if a < b then b else a;
    assert !Disjoint(a, n, b, k) ==> HasByte(a, n, x) && HasByte(b, k, x);
  }

  /** Any range of at least one byte is possible, unless one of its bytes is mapped already; and any call
      may fail. */
  lemma KernelMayIff(m: Memory, len: nat, answer: MapAnswer)
    requires Sound(m)
    ensures KernelMay(m, len, answer) <==>
            answer.MapFailed? ||
            (len > 0 && forall b | b in m.regions :: !ShareByte(answer.base, len, b, m.regions[b]))
  {
    if answer.MapAt? && len > 0 {
      forall b | b in m.regions
        ensures Disjoint(answer.base, len, b, m.regions[b]) <==> !ShareByte(answer.base, len, b, m.regions[b])
      {
        DisjointIff(answer.base, len, b, m.regions[b]);
      }
    }
  }

  /** The handle that owns a filled mapping. */
  datatype HugeAllocation = HugeAllocation(ptr: nat, count: nat, mapLen: nat, size: nat)
  {
    function At(i: nat): nat { ptr + i * size }

    function Elements(): set<nat> { Addresses(ptr, size, count) }

    /** The mapping is there, every element in it is live, and nothing else is. */
    predicate OwnedIn(m: Memory) {
      && size > 0 && count * size <= mapLen
      && IsMapped(m, ptr, mapLen)
      && (forall i: nat | i < count :: At(i) in m.slots && m.slots[At(i)].size == size)
      && SlotFree(WithoutFirst(m, ptr, size, count), ptr, mapLen)
    }

    function Contents(m: Memory): (values: seq<Value>)
      requires OwnedIn(m)
      ensures |values| == count && forall i: nat | i < count :: values[i] == m.slots[At(i)].value
    {
      seq(count, i requires 0 <= i < count => m.slots[At(i)].value)
    }
  }

  datatype Creation =
    | Built(allocation: HugeAllocation)
    | Unavailable  // no huge page wanted or to be had
    | Overflowed
    | Misaligned
    | NullMapping
    | Unwound      // some call of `T::default()` panicked

  /** The `mmap` call is made and answered with a usable address. */
  predicate Usable(count: nat, layout: Layout, usizeMax: nat, answer: MapAnswer)
    requires layout.Valid()
  {
    && count > 0 && layout.size > 0 && MapLen(count, layout.size, usizeMax).Some?
    && answer.MapAt? && answer.base % layout.align == 0 && answer.base != 0
  }

  /** Which way the construction goes, for every kernel answer and every panic.  The calls of
      `T::default()` return `produced`, in order; one more call panics. */
  predicate CreationFits(r: Creation, count: nat, layout: Layout, usizeMax: nat, answer: MapAnswer, produced: seq<Value>)
    requires layout.Valid()
  {
    var mapLen := MapLen(count, layout.size, usizeMax);
    var wanted := count > 0 && layout.size > 0;
    && (r.Unavailable? <==> !wanted || (mapLen.Some? && answer.MapFailed?))
    && (r.Overflowed? <==> wanted && mapLen.None?)
    && (r.Misaligned? <==> wanted && mapLen.Some? && answer.MapAt? && answer.base % layout.align != 0)
    && (r.NullMapping? <==> wanted && mapLen.Some? && answer == MapAt(0))
    && (r.Unwound? <==> Usable(count, layout, usizeMax, answer) && |produced| < count)
    && (r.Built? ==> r.allocation == HugeAllocation(answer.base, count, mapLen.value, layout.size))
  }

  /** The events of the construction, for each way it can go: in particular, when a call of
      `T::default()` panics, exactly the elements produced so far are dropped, in order and once
      each, and then the mapping is unmapped, once. */
  function CreationTrace(r: Creation, count: nat, layout: Layout, usizeMax: nat, answer: MapAnswer, produced: seq<Value>,
                         refused: bool)
    : seq<Event>
    requires layout.Valid() && CreationFits(r, count, layout, usizeMax, answer, produced)
  {
    if r.Unavailable? || r.Overflowed? then []
    else
      var base, mapLen := answer.base, MapLen(count, layout.size, usizeMax).value;
      [Mapped(base, mapLen)] + MappedTrace(r, base, mapLen, count, layout.size, produced, refused)
  }

  /** The events after the mapping. */
  function MappedTrace(r: Creation, base: nat, mapLen: nat, count: nat, size: nat, produced: seq<Value>, refused: bool)
    : seq<Event>
    requires r.Built? ==> count <= |produced|
  {
    match r
    case Built(_) => Places(base, size, produced[..count])
    case Unwound => UnwindTrace(base, mapLen, size, produced, refused)
    case _ => [Unmap(base, mapLen, refused)]
  }

  function UnwindTrace(base: nat, mapLen: nat, size: nat, values: seq<Value>, refused: bool): seq<Event> {
    Places(base, size, values) + Drops(base, size, values) + [Unmap(base, mapLen, refused)]
  }

  lemma MultiplesStep(ptr: nat, size: nat, align: nat, i: nat)
    requires align > 0 && ptr % align == 0 && size % align == 0
    ensures (ptr + i * size) % align == 0
  {
    var p, q := ptr / align, size / align;
    DivMod(ptr, align);
    DivMod(size, align);
    Distribute(p, i * q, align);
    assert i * size == (i * q) * align;
    DivModUnique(ptr + i * size, align, p + i * q, 0);
  }

  /** The test of the mapping's address suffices: in what is built every element is aligned, since
      the size of a type is a multiple of its alignment. */
  lemma BuiltIsAligned(r: Creation, count: nat, layout: Layout, usizeMax: nat, answer: MapAnswer, produced: seq<Value>, i: nat)
    requires layout.Valid() && CreationFits(r, count, layout, usizeMax, answer, produced) && r.Built?
    requires layout.size % layout.align == 0
    ensures r.allocation.At(i) % layout.align == 0
  {
    MultiplesStep(answer.base, layout.size, layout.align, i);
  }

  /** The construction got a mapping and gave it up again. */
  predicate GaveUp(r: Creation) { r.Misaligned? || r.NullMapping? || r.Unwound? }

  method NewHugeAllocation(space: Space, count: nat, layout: Layout, usizeMax: nat, answer: MapAnswer, produced: seq<Value>,
                           refused: bool)
    returns (r: Creation)
    requires space.Valid() && layout.Valid()
    requires var mapLen := MapLen(count, layout.size, usizeMax);
             count > 0 && layout.size > 0 && mapLen.Some? ==> KernelMay(space.memory, mapLen.value, answer)
    modifies space
    ensures space.Valid()
    ensures CreationFits(r, count, layout, usizeMax, answer, produced)
    ensures space.log == old(space.log) + CreationTrace(r, count, layout, usizeMax, answer, produced, refused)
    ensures GaveUp(r) ==>
              var mapped := Apply(old(space.memory), Mapped(answer.base, MapLen(count, layout.size, usizeMax).value));
              space.memory == if refused then mapped else old(space.memory)
    ensures !r.Built? && !GaveUp(r) ==> space.memory == old(space.memory)
    ensures r.Built? ==>
              var a := r.allocation;
              space.memory == WithRow(Apply(old(space.memory), Mapped(a.ptr, a.mapLen)), a.ptr, a.size, produced[..count])
  {
    if count == 0 || layout.size == 0 {
      return Unavailable;
    }
    var rounded := MapLen(count, layout.size, usizeMax);
    if rounded.None? {
      return Overflowed;
    }
    if answer.MapFailed? {
      return Unavailable;
    }
    MapLenIsLeastMultiple(count, layout.size, usizeMax);
    r := TakeMapping(space, answer.base, rounded.value, count, layout, produced, refused);
  }

  /** From the moment the kernel hands out the mapping. */
  method TakeMapping(space: Space, base: nat, mapLen: nat, count: nat, layout: Layout, produced: seq<Value>, refused: bool)
    returns (r: Creation)
    requires space.Valid() && Legal(space.memory, Mapped(base, mapLen))
    requires layout.Valid() && layout.size > 0 && count * layout.size <= mapLen
    modifies space
    ensures space.Valid()
    ensures r == if base % layout.align != 0 then Misaligned
                 else if base == 0 then NullMapping
                 else if |produced| < count then Unwound
                 else Built(HugeAllocation(base, count, mapLen, layout.size))
    ensures space.log == old(space.log) + ([Mapped(base, mapLen)] + MappedTrace(r, base, mapLen, count, layout.size, produced, refused))
    ensures space.memory == if r.Built?
                            then WithRow(Apply(old(space.memory), Mapped(base, mapLen)), base, layout.size, produced[..count])
                            else if refused then Apply(old(space.memory), Mapped(base, mapLen))
                            else old(space.memory)
  {
    FreshRegionIsVacant(space.memory, base, mapLen);
    hide Space.Valid, Legal, Apply, Vacant, WithRow, UnwindTrace, Places;
    ghost var log := space.log;
    space.Perform(Mapped(base, mapLen));
    if base % layout.align != 0 {
      space.Perform(Unmap(base, mapLen, refused));
      r := Misaligned;
    } else if base == 0 {
      space.Perform(Unmap(base, mapLen, refused));
      r := NullMapping;
    } else {
      r := Fill(space, base, mapLen, count, layout.size, produced, refused);
    }
    Append(log, [Mapped(base, mapLen)], MappedTrace(r, base, mapLen, count, layout.size, produced, refused));
  }

  /** The loop of the constructor, under its guard. */
  method Fill(space: Space, base: nat, mapLen: nat, count: nat, size: nat, produced: seq<Value>, refused: bool)
    returns (r: Creation)
    requires space.Valid() && Vacant(space.memory, base, mapLen)
    requires size > 0 && count * size <= mapLen
    modifies space
    ensures space.Valid()
    ensures r == if |produced| < count then Unwound else Built(HugeAllocation(base, count, mapLen, size))
    ensures r.Built? ==>
              && space.log == old(space.log) + Places(base, size, produced[..count])
              && space.memory == WithRow(old(space.memory), base, size, produced[..count])
    ensures r.Unwound? ==>
              && space.log == old(space.log) + UnwindTrace(base, mapLen, size, produced, refused)
              && space.memory == Apply(old(space.memory), Unmap(base, mapLen, refused))
  {
    VacantMayGo(space.memory, base, mapLen);
    hide Space.Valid, Legal, WithRow, WithoutFirst, Places, Drops, UnwindTrace, Vacant;
    var guard := new InitGuard(base, mapLen, size);
    ghost var m, log := space.memory, space.log;
    NothingPlaced(m, log, base, size, produced);
    for index := 0 to count
      invariant guard.initialized == index <= |produced|
      invariant space.Valid() && space.memory == WithRow(m, base, size, produced[..index])
      invariant space.log == log + Places(base, size, produced[..index])
    {
      MulMono(index + 1, count, size);
      if index == |produced| {
        assert produced[..index] == produced;
        MulMono(index, count, size);
        DropsComplete(m, base, mapLen, size, produced);
        guard.Drop(space, refused, m, produced);
        UnwindAppends(log, base, mapLen, size, produced, refused);
        return Unwound;
      }
      NextPlaceIsLegal(m, base, mapLen, size, produced[..index], produced[index]);
      NextPlaceExtendsRow(m, base, size, produced, index);
      PlacesExtend(log, base, size, produced, index);
      space.Perform(Placed(base + index * size, size, produced[index]));
      guard.initialized := guard.initialized + 1;
    }
    return Built(HugeAllocation(base, count, mapLen, size));
  }

  lemma FreshRegionIsVacant(m: Memory, base: nat, len: nat)
    requires Sound(m) && Legal(m, Mapped(base, len))
    ensures var m' := Apply(m, Mapped(base, len));
            && Vacant(m', base, len)
            && (forall refused :: Legal(m', Unmap(base, len, refused)))
            && Apply(m', UnmapRefused(base, len)) == m' && Apply(m', Unmapped(base, len)) == m
    ensures base !in m.regions
  {
    LegalKeepsSound(m, Mapped(base, len));
    NoSlotInFreshRegion(m, base, len);
    assert base in m.regions ==> !Disjoint(base, len, base, m.regions[base]);
    UnmapUndoesMap(m, base, len);
  }

  lemma NoSlotInFreshRegion(m: Memory, base: nat, len: nat)
    requires Sound(m) && RegionFree(m, base, len)
    ensures SlotFree(m, base, len)
  {
    forall a | a in m.slots ensures Disjoint(base, len, a, m.slots[a].size) {
      var b :| b in m.regions && b <= a && a + m.slots[a].size <= b + m.regions[b];
    }
  }

  lemma UnmapUndoesMap(m: Memory, base: nat, len: nat)
    requires base !in m.regions
    ensures Apply(Apply(m, Mapped(base, len)), Unmapped(base, len)) == m
  {
    assert m.regions[base := len] - {base} == m.regions;
  }

  /** A built allocation is owned, and holds what the calls of `T::default()` returned. */
  lemma BuiltIsOwned(m: Memory, a: HugeAllocation, values: seq<Value>)
    requires Vacant(m, a.ptr, a.mapLen) && a.size > 0 && |values| == a.count && a.count * a.size <= a.mapLen
    ensures var m' := WithRow(m, a.ptr, a.size, values);
            && a.OwnedIn(m') && a.Contents(m') == values
            && m'.slots.Keys == m.slots.Keys + a.Elements()
            && forall s | s in m.slots :: m'.slots[s] == m.slots[s]
  {
    var m' := WithRow(m, a.ptr, a.size, values);
    RowKeys(a.ptr, a.size, values);
    DropsComplete(m, a.ptr, a.mapLen, a.size, values);
    forall i: nat | i < a.count
      ensures a.At(i) in m'.slots && m'.slots[a.At(i)] == Slot(a.size, values[i])
    {
      RowAt(a.ptr, a.size, values, i);
    }
  }

  lemma OwnedIsRow(m: Memory, a: HugeAllocation)
    requires a.OwnedIn(m)
    ensures WithRow(WithoutFirst(m, a.ptr, a.size, a.count), a.ptr, a.size, a.Contents(m)) == m
  {
    var values := a.Contents(m);
    RowKeys(a.ptr, a.size, values);
    var m' := WithRow(WithoutFirst(m, a.ptr, a.size, a.count), a.ptr, a.size, values);
    forall x | x in a.Elements() ensures x in m.slots && m'.slots[x] == m.slots[x] {
      InAddresses(a.ptr, a.size, a.count, x);
      var i: nat :| i < a.count && x == a.ptr + i * a.size;
      assert x == a.At(i);
      RowAt(a.ptr, a.size, values, i);
    }
    assert m'.slots.Keys == m.slots.Keys;
  }

  /** Dropping the handle drops every element once, in order, and unmaps once. */
  method DropHugeAllocation(space: Space, a: HugeAllocation, refused: bool)
    requires space.Valid() && a.OwnedIn(space.memory)
    modifies space
    ensures space.Valid()
    ensures space.log == old(space.log) + Drops(a.ptr, a.size, a.Contents(old(space.memory))) + [Unmap(a.ptr, a.mapLen, refused)]
    ensures space.memory == Apply(WithoutFirst(old(space.memory), a.ptr, a.size, a.count), Unmap(a.ptr, a.mapLen, refused))
  {
    ghost var m, values := WithoutFirst(space.memory, a.ptr, a.size, a.count), a.Contents(space.memory);
    OwnedIsRow(space.memory, a);
    DropInPlace(space, a.ptr, a.size, a.count, m, values);
    space.Perform(Unmap(a.ptr, a.mapLen, refused));
  }

  lemma DistinctElements(a: HugeAllocation, i: nat, j: nat)
    requires a.size > 0 && i != j
    ensures a.At(i) != a.At(j)
  {
    NextElement(if i < j then i else j, if i < j then j else i, a.size);
  }

  lemma ReplacementIsLegal(m: Memory, a: HugeAllocation, i: nat, v: Value)
    requires Sound(m) && a.OwnedIn(m) && i < a.count
    ensures var e := Dropped(a.At(i), a.size, m.slots[a.At(i)].value);
            Legal(m, e) && Legal(Apply(m, e), Placed(a.At(i), a.size, v))
  {
    var m1 := m.(slots := m.slots - {a.At(i)});
    StaysMapped(m, m1, a.At(i), a.size);
  }

  /** One element replaced, seen as an allocation and as memory. */
  lemma ReplaceElement(m: Memory, a: HugeAllocation, i: nat, v: Value)
    requires a.OwnedIn(m) && i < a.count
    ensures var e1, e2 := Dropped(a.At(i), a.size, m.slots[a.At(i)].value), Placed(a.At(i), a.size, v);
            var m' := Apply(Apply(m, e1), e2);
            a.OwnedIn(m') && a.Contents(m') == a.Contents(m)[i := v]
  {
    var gone := Dropped(a.At(i), a.size, m.slots[a.At(i)].value);
    var m' := Apply(Apply(m, gone), Placed(a.At(i), a.size, v));
    InAddresses(a.ptr, a.size, a.count, a.At(i));
    assert WithoutFirst(m', a.ptr, a.size, a.count) == WithoutFirst(m, a.ptr, a.size, a.count);
    forall j: nat | j < a.count && j != i ensures a.At(j) != a.At(i) {
      DistinctElements(a, i, j);
    }
  }

  lemma ElementInRegion(m: Memory, a: HugeAllocation, s: nat)
    requires a.OwnedIn(m) && s in a.Elements()
    ensures s in m.slots && m.slots[s].size == a.size && a.ptr <= s && s + a.size <= a.ptr + a.mapLen
  {
    InAddresses(a.ptr, a.size, a.count, s);
    var i: nat :| i < a.count && s == a.ptr + i * a.size;
    assert s == a.At(i);
    NextElement(i, a.count, a.size);
  }

  /** Two allocations share no element. */
  lemma SeparateElements(m: Memory, a: HugeAllocation, b: HugeAllocation, s: nat)
    requires RegionsDisjoint(m.regions) && a.OwnedIn(m) && b.OwnedIn(m) && a.ptr != b.ptr
    requires s in a.Elements()
    ensures s !in b.Elements()
  {
    ElementInRegion(m, a, s);
    assert Disjoint(a.ptr, m.regions[a.ptr], b.ptr, m.regions[b.ptr]);
    if s in b.Elements() {
      ElementInRegion(m, b, s);
    }
  }

  /** Memory with one element overwritten. */
  function Overwritten(m: Memory, a: HugeAllocation, i: nat, v: Value): Memory {
    m.(slots := m.slots[a.At(i) := Slot(a.size, v)])
  }

  lemma ReplacedIsOverwritten(m: Memory, a: HugeAllocation, i: nat, v: Value)
    requires a.At(i) in m.slots
    ensures Apply(Apply(m, Dropped(a.At(i), a.size, m.slots[a.At(i)].value)), Placed(a.At(i), a.size, v)) ==
            Overwritten(m, a, i, v)
  {
    assert (m.slots - {a.At(i)})[a.At(i) := Slot(a.size, v)] == m.slots[a.At(i) := Slot(a.size, v)];
  }

  /** Overwriting an element keeps every allocation owned, and the values of every other one. */
  lemma OverwritingKeepsOthers(m: Memory, a: HugeAllocation, i: nat, v: Value, b: HugeAllocation)
    requires RegionsDisjoint(m.regions) && a.OwnedIn(m) && i < a.count && b.OwnedIn(m)
    ensures b.OwnedIn(Overwritten(m, a, i, v))
    ensures a.ptr != b.ptr ==> b.Contents(Overwritten(m, a, i, v)) == b.Contents(m)
  {
    var m' := Overwritten(m, a, i, v);
    var w, w' := WithoutFirst(m, b.ptr, b.size, b.count), WithoutFirst(m', b.ptr, b.size, b.count);
    assert m'.slots.Keys == m.slots.Keys;
    forall s | s in w'.slots ensures Disjoint(b.ptr, b.mapLen, s, w'.slots[s].size) {
      assert s in w.slots && w'.slots[s].size == w.slots[s].size;
    }
    InAddresses(a.ptr, a.size, a.count, a.At(i));
    if a.ptr != b.ptr {
      SeparateElements(m, a, b, a.At(i));
      forall j: nat | j < b.count ensures b.At(j) != a.At(i) {
        InAddresses(b.ptr, b.size, b.count, b.At(j));
      }
    }
  }

  /** Assignment through a mutable slice: the old element is dropped, the new one moved in. */
  method StoreElement(space: Space, a: HugeAllocation, i: nat, v: Value)
    requires space.Valid() && a.OwnedIn(space.memory) && i < a.count
    modifies space
    ensures space.Valid() && a.OwnedIn(space.memory)
    ensures a.Contents(space.memory) == a.Contents(old(space.memory))[i := v]
    ensures space.log == old(space.log)
                         + [Dropped(a.At(i), a.size, a.Contents(old(space.memory))[i]), Placed(a.At(i), a.size, v)]
    ensures space.memory == Overwritten(old(space.memory), a, i, v)
  {
    ReplacementIsLegal(space.memory, a, i, v);
    ReplaceElement(space.memory, a, i, v);
    ReplacedIsOverwritten(space.memory, a, i, v);
    hide Space.Valid, Legal, Apply, Overwritten;
    space.Perform(Dropped(a.At(i), a.size, space.memory.slots[a.At(i)].value));
    space.Perform(Placed(a.At(i), a.size, v));
  }

  // ----- the vector ---------------------------------------------------------------

  datatype Backing = Standard(values: seq<Value>) | Huge(allocation: HugeAllocation)

  /** Every allocation but the one behind `backing` is still owned, with the values it had. */
  ghost predicate OthersKeep(m: Memory, m': Memory, backing: Backing) {
    forall a: HugeAllocation | a.OwnedIn(m) && (backing.Huge? ==> a.ptr != backing.allocation.ptr) ::
      a.OwnedIn(m') && a.Contents(m') == a.Contents(m)
  }

  lemma OverwritingIsPrivate(m: Memory, a: HugeAllocation, i: nat, v: Value)
    requires Sound(m) && a.OwnedIn(m) && i < a.count
    ensures OthersKeep(m, Overwritten(m, a, i, v), Huge(a))
  {
    forall b: HugeAllocation | b.OwnedIn(m) && b.ptr != a.ptr
      ensures b.OwnedIn(Overwritten(m, a, i, v)) && b.Contents(Overwritten(m, a, i, v)) == b.Contents(m)
    {
      OverwritingKeepsOthers(m, a, i, v, b);
    }
  }

  /** Two vectors do not share an allocation. */
  predicate Apart(a: Backing, b: Backing) {
    a.Huge? && b.Huge? ==> a.allocation.ptr != b.allocation.ptr
  }

  /** Writing changes a `Vec` in place of itself, and leaves a mapping where it is. */
  predicate SameStorage(before: Backing, now: Backing) {
    before.Huge? == now.Huge? && (now.Huge? ==> now == before)
  }

  class HugePageVec {
    const space: Space
    var backing: Backing

    ghost predicate Valid()
      reads this, space
    {
      space.Valid() && (backing.Huge? ==> backing.allocation.OwnedIn(space.memory))
    }

    /** The sequence both backings stand for. */
    function Contents(): seq<Value>
      requires Valid()
      reads this, space
    {
      match backing
      case Standard(values) => values
      case Huge(a) => a.Contents(space.memory)
    }

    constructor (space: Space, backing: Backing)
      ensures this.space == space && this.backing == backing
    {
      this.space, this.backing := space, backing;
    }

    function Len(): nat
      reads this
    {
      match backing
      case Standard(values) => |values|
      case Huge(a) => a.count
    }

    /** `as_slice()[i]`; an index out of range panics. */
    method Read(i: nat) returns (v: Option<Value>)
      requires Valid()
      ensures v == if i < |Contents()| then Some(Contents()[i]) else None
    {
      if i >= Len() {
        return None;
      }
      match backing
      case Standard(values) => v := Some(values[i]);
      case Huge(a) => v := Some(space.memory.slots[a.At(i)].value);
    }

    /** `as_mut_slice()[i] = v`; an index out of range panics. */
    method Write(i: nat, v: Value) returns (ok: bool)
      requires Valid()
      modifies this, space
      ensures Valid() && ok == (i < |old(Contents())|)
      ensures Contents() == if ok then old(Contents())[i := v] else old(Contents())
      ensures Len() == old(Len()) && SameStorage(old(backing), backing)
      ensures OthersKeep(old(space.memory), space.memory, old(backing))
    {
      if i >= Len() {
        return false;
      }
      match backing {
        case Standard(values) => backing := Standard(values[i := v]);
        case Huge(a) =>
          OverwritingIsPrivate(space.memory, a, i, v);
          StoreElement(space, a, i, v);
      }
      return true;
    }
  }

  /** The three public constructors differ only in what they do when the ordinary allocator refuses. */
  datatype Flavor = NewFallible | New | TryNew
  {
    function Refusal(): VecOutcome {
      match this
      case NewFallible => AllocationOverflow
      case New => Aborted
      case TryNew => AllocationFailed
    }
  }

  datatype VecOutcome = Made(vec: HugePageVec) | AllocationOverflow | AllocationFailed | Aborted | DefaultPanicked

  /** Whatever the kernel and the allocator answer: every failure to get huge pages, errors
      included, falls back to a `Vec`, and with either backing the vector starts as the `count`
      values that `T::default()` returned.  Only a panic of `T::default()` passes through. */
  method Construct(flavor: Flavor, space: Space, count: nat, layout: Layout, usizeMax: nat,
                   answer: MapAnswer, reserved: bool, produced: seq<Value>, refused: bool)
    returns (r: VecOutcome, ghost creation: Creation)
    requires space.Valid() && layout.Valid()
    requires var mapLen := MapLen(count, layout.size, usizeMax);
             count > 0 && layout.size > 0 && mapLen.Some? ==> KernelMay(space.memory, mapLen.value, answer)
    modifies space
    ensures space.Valid()
    ensures CreationFits(creation, count, layout, usizeMax, answer, produced)
    ensures space.log == old(space.log) + CreationTrace(creation, count, layout, usizeMax, answer, produced, refused)
    ensures !Usable(count, layout, usizeMax, answer) && !reserved ==>
              match flavor
              case NewFallible => r.AllocationOverflow?
              case New => r.Aborted?
              case TryNew => r.AllocationFailed?
    ensures Usable(count, layout, usizeMax, answer) || reserved ==>
              r.DefaultPanicked? == (|produced| < count) && r.Made? == (count <= |produced|)
    ensures r.Made? ==>
              && fresh(r.vec) && r.vec.space == space && r.vec.Valid()
              && r.vec.Contents() == produced[..count]
              && r.vec.backing.Huge? == Usable(count, layout, usizeMax, answer)
    ensures r.Made? && r.vec.backing.Huge? <==> creation.Built?
    ensures !creation.Built? && !(GaveUp(creation) && refused) ==> space.memory == old(space.memory)
    ensures GaveUp(creation) && refused ==>
              space.memory == Apply(old(space.memory), Mapped(answer.base, MapLen(count, layout.size, usizeMax).value))
  {
    ghost var m := space.memory;
    var huge := NewHugeAllocation(space, count, layout, usizeMax, answer, produced, refused);
    creation := huge;
    if huge.Built? {
      var a := huge.allocation;
      FreshRegionIsVacant(m, a.ptr, a.mapLen);
      MapLenIsLeastMultiple(count, layout.size, usizeMax);
      BuiltIsOwned(Apply(m, Mapped(a.ptr, a.mapLen)), a, produced[..count]);
      var vec := new HugePageVec(space, Huge(a));
      return Made(vec), huge;
    }
    if huge.Unwound? {
      return DefaultPanicked, huge;
    }
    if !reserved {
      return flavor.Refusal(), huge;
    }
    var values: seq<Value> := [];
    for i := 0 to count
      invariant i <= |produced| && values == produced[..i]
    {
      if i == |produced| {
        return DefaultPanicked, huge;
      }
      values := values + [produced[i]];
    }
    var vec := new HugePageVec(space, Standard(values));
    return Made(vec), huge;
  }

  // ----- any client sees one sequence ------------------------------------------------

  datatype SliceOp = ReadAt(i: nat) | WriteAt(i: nat, v: Value) | Length

  datatype Reply = Got(v: Option<Value>) | Stored(ok: bool) | Count(n: nat)

  function Respond(contents: seq<Value>, op: SliceOp): Reply {
    match op
    case ReadAt(i) => Got(if i < |contents| then Some(contents[i]) else None)
    case WriteAt(i, _) => Stored(i < |contents|)
    case Length => Count(|contents|)
  }

  function AfterOne(contents: seq<Value>, op: SliceOp): seq<Value> {
    if op.WriteAt? && op.i < |contents| then contents[op.i := op.v] else contents
  }

  function After(contents: seq<Value>, ops: seq<SliceOp>): seq<Value> {
    if |ops| == 0 then contents else AfterOne(After(contents, ops[..|ops| - 1]), ops[|ops| - 1])
  }

  /** What a sequence is after a run: at each index the value last written there, if any was. */
  lemma {:induction false} LastWriteCounts(contents: seq<Value>, ops: seq<SliceOp>, i: nat, k: nat)
    requires i < |contents| && k <= |ops|
    requires k == 0 || (ops[k - 1].WriteAt? && ops[k - 1].i == i)
    requires forall j | k <= j < |ops| :: !(ops[j].WriteAt? && ops[j].i == i)
    ensures |After(contents, ops)| == |contents|
    ensures After(contents, ops)[i] == if k == 0 then contents[i] else ops[k - 1].v
    decreases |ops|
  {
    if |ops| == 0 {
    } else {
      AfterKeepsLength(contents, ops[..|ops| - 1]);
      if k < |ops| {
        LastWriteCounts(contents, ops[..|ops| - 1], i, k);
      }
    }
  }

  lemma {:induction false} AfterKeepsLength(contents: seq<Value>, ops: seq<SliceOp>)
    ensures |After(contents, ops)| == |contents|
  {
    if |ops| == 0 {
    } else {
      AfterKeepsLength(contents, ops[..|ops| - 1]);
    }
  }

  method RunOp(vec: HugePageVec, op: SliceOp) returns (reply: Reply)
    requires vec.Valid()
    modifies vec, vec.space
    ensures vec.Valid()
    ensures reply == Respond(old(vec.Contents()), op) && vec.Contents() == AfterOne(old(vec.Contents()), op)
    ensures SameStorage(old(vec.backing), vec.backing)
    ensures OthersKeep(old(vec.space.memory), vec.space.memory, old(vec.backing))
  {
    match op
    case ReadAt(i) =>
      var v := vec.Read(i);
      reply := Got(v);
    case WriteAt(i, v) =>
      var ok := vec.Write(i, v);
      reply := Stored(ok);
    case Length =>
      reply := Count(vec.Len());
  }

  /** Every run of reads and writes gets, on either backing, the replies of a plain sequence. */
  method RunOps(vec: HugePageVec, ops: seq<SliceOp>) returns (replies: seq<Reply>)
    requires vec.Valid()
    modifies vec, vec.space
    ensures vec.Valid() && vec.Contents() == After(old(vec.Contents()), ops)
    ensures |replies| == |ops|
    ensures forall k | 0 <= k < |ops| :: replies[k] == Respond(After(old(vec.Contents()), ops[..k]), ops[k])
  {
    hide HugePageVec.Contents, HugePageVec.Valid, Respond, AfterOne;
    replies := [];
    ghost var start := vec.Contents();
    for k := 0 to |ops|
      invariant vec.Valid() && vec.Contents() == After(start, ops[..k])
      invariant |replies| == k
      invariant forall j | 0 <= j < k :: replies[j] == Respond(After(start, ops[..j]), ops[j])
    {
      assert ops[..k + 1][..k] == ops[..k];
      var reply := RunOp(vec, ops[k]);
      replies := replies + [reply];
    }
    assert ops[..|ops|] == ops;
  }

  // ----- two vectors in one space --------------------------------------------------------

  /** The operations meant for one of the two vectors. */
  function Share(ops: seq<(bool, SliceOp)>, mine: bool): seq<SliceOp> {
    if |ops| == 0 then []
    else Share(ops[..|ops| - 1], mine) + if ops[|ops| - 1].0 == mine then [ops[|ops| - 1].1] else []
  }

  lemma ShareStep(contents: seq<Value>, ops: seq<(bool, SliceOp)>, k: nat, mine: bool)
    requires k < |ops|
    ensures After(contents, Share(ops[..k + 1], mine)) ==
            var before := After(contents, Share(ops[..k], mine));
            if ops[k].0 == mine then AfterOne(before, ops[k].1) else before
  {
    assert ops[..k + 1][..k] == ops[..k];
    var before := Share(ops[..k], mine);
    if ops[k].0 == mine {
      assert (before + [ops[k].1])[..|before|] == before;
    } else {
      assert before + [] == before;
    }
  }

  /** An operation on one vector leaves another one in the same space as it is. */
  method RunBeside(v: HugePageVec, w: HugePageVec, op: SliceOp) returns (reply: Reply)
    requires v.Valid() && w.Valid() && v != w && v.space == w.space && Apart(v.backing, w.backing)
    modifies v, v.space
    ensures v.Valid() && w.Valid() && Apart(v.backing, w.backing)
    ensures reply == Respond(old(v.Contents()), op) && v.Contents() == AfterOne(old(v.Contents()), op)
    ensures w.Contents() == old(w.Contents())
  {
    hide HugeAllocation.OwnedIn, HugeAllocation.Contents, Space.Valid, Respond, AfterOne;
    reply := RunOp(v, op);
  }

  /** However the operations on two vectors interleave, each vector gets the replies, and ends with the
      contents, of a plain sequence of its own. */
  method RunBoth(v: HugePageVec, w: HugePageVec, ops: seq<(bool, SliceOp)>) returns (replies: seq<Reply>)
    requires v.Valid() && w.Valid() && v != w && v.space == w.space && Apart(v.backing, w.backing)
    modifies v, w, v.space
    ensures v.Valid() && v.Contents() == After(old(v.Contents()), Share(ops, true))
    ensures w.Valid() && w.Contents() == After(old(w.Contents()), Share(ops, false))
    ensures |replies| == |ops|
    ensures forall k | 0 <= k < |ops| ::
              var start := if ops[k].0 then old(v.Contents()) else old(w.Contents());
              replies[k] == Respond(After(start, Share(ops[..k], ops[k].0)), ops[k].1)
  {
    hide HugePageVec.Contents, HugePageVec.Valid, Space.Valid, Respond, AfterOne, OthersKeep, Share, After;
    replies := [];
    ghost var startV, startW := v.Contents(), w.Contents();
    NothingShared(startV, startW, ops);
    for k := 0 to |ops|
      invariant v.Valid() && w.Valid() && Apart(v.backing, w.backing)
      invariant v.Contents() == After(startV, Share(ops[..k], true))
      invariant w.Contents() == After(startW, Share(ops[..k], false))
      invariant |replies| == k
      invariant forall j | 0 <= j < k ::
                  replies[j] == Respond(After(if ops[j].0 then startV else startW, Share(ops[..j], ops[j].0)), ops[j].1)
    {
      ShareStep(startV, ops, k, true);
      ShareStep(startW, ops, k, false);
      var reply;
      if ops[k].0 {
        reply := RunBeside(v, w, ops[k].1);
      } else {
        reply := RunBeside(w, v, ops[k].1);
      }
      replies := replies + [reply];
    }
    assert ops[..|ops|] == ops;
  }

  lemma NothingShared(a: seq<Value>, b: seq<Value>, ops: seq<(bool, SliceOp)>)
    ensures After(a, Share(ops[..0], true)) == a && After(b, Share(ops[..0], false)) == b
  {
  }
}
