/** libc/src/mem.c's heap as the code runs it: three wrapping 64-bit pointers over the byte memory,
    proved to follow HeapModel for every request of at most 2^63 - 16 bytes. */
module HeapImpl {
  import opened Machine
  import opened HeapModel
  import opened Memory
  import opened Options

  /** The largest request for which no 64-bit operation of malloc wraps. */
  const MAX_REQUEST: int := TWO_63 - 16

  /** What malloc decides before it asks the kernel anything. */
  datatype Plan = Fits(next: int) | Extend(len: int)

  function ExtendLen64(s: uint64): uint64 {
    if s < HEAP_INITIAL_SIZE then HEAP_INITIAL_SIZE else Mul64(s, 2)
  }

  function Plan64(ptr: uint64, end: uint64, size: uint64): Plan {
    var s := Align64(size);
    if Add64(ptr, s) > end then Extend(ExtendLen64(s)) else Fits(Add64(ptr, s))
  }

  function PlanExact(ptr: int, end: int, size: nat): Plan {
    var s := AlignUp(size);
    if ptr + s > end then Extend(ExtendLen(s)) else Fits(ptr + s)
  }

  lemma NothingWraps(ptr: uint64, size: uint64)
    requires ptr <= USER_SPACE_END && size <= MAX_REQUEST
    ensures Align64(size) == AlignUp(size) <= MAX_REQUEST
    ensures Add64(ptr, Align64(size)) == ptr + AlignUp(size)
    ensures ExtendLen64(Align64(size)) == ExtendLen(AlignUp(size))
  {
    AlignUpIsLeast(size, MAX_REQUEST);
    var s := AlignUp(size);
    assert Align64(size) == s by { AlignExact(size); }
    assert Add64(ptr, s) == ptr + s;
    assert ExtendLen64(s) == ExtendLen(s);
  }

  /** calloc's block holds all that was asked for exactly when the product fits 64 bits. */
  lemma ProductIsExact(nmemb: uint64, size: uint64)
    ensures Mul64(nmemb, size) == nmemb * size <==> nmemb * size < TWO_64
  {
    var x: nat := nmemb * size;
    assert Mul64(nmemb, size) == x % 0x1_0000_0000_0000_0000;
    hide Mul64;
    ReduceIsExact(x);
  }

  lemma ReduceIsExact(x: nat)
    ensures x % 0x1_0000_0000_0000_0000 == x <==> x < TWO_64
  {
  }

  lemma AlignedModulo(size: uint64)
    ensures Align64(size) % 16 == 0
  {
    var m := Add64(size, 15);
    hide Add64;
    assert m - m % 16 == 16 * (m / 16);
  }

  lemma AlignedIsFixed(s: nat)
    requires s % 16 == 0
    ensures AlignUp(s) == s
  {
  }

  /** Aligning first makes no difference to the model. */
  lemma AlignedRequest(size: uint64)
    requires size <= MAX_REQUEST
    ensures Align64(size) <= MAX_REQUEST
    ensures forall h: Heap, extension: Reply | h.regions != [] ::
              MallocReady(h, Align64(size), extension) == MallocReady(h, size, extension)
  {
    NothingWraps(0, size);
    AlignedModulo(size);
    AlignedIsFixed(Align64(size));
    hide Align64, AlignUp;
  }

  /** The wrapping decision is the exact one for requests up to 2^63 - 16, and for no larger one. */
  lemma PlanIsExactUpTo(ptr: uint64, end: uint64, size: uint64)
    requires 0 < ptr <= end <= USER_SPACE_END
    ensures Plan64(ptr, end, size) == PlanExact(ptr, end, size) <==> size <= MAX_REQUEST
  {
    if size <= MAX_REQUEST {
      NothingWraps(ptr, size);
    } else {
      AlignUpIsLeast(size, AlignUp(size));
      assert AlignUp(size) >= TWO_63;
      assert PlanExact(ptr, end, size) == Extend(AlignUp(size) * 2);
    }
  }

  /** The plan has room for the request. */
  predicate Serves(plan: Plan, ptr: int, size: int) {
    match plan
    case Fits(next) => ptr + size <= next
    case Extend(len) => size <= len
  }

  /** The limit is one of safety: any larger request is promised bytes that the heap does not set aside. */
  lemma ServesUpTo(ptr: uint64, end: uint64, size: uint64)
    requires 0 < ptr <= end <= USER_SPACE_END
    ensures Serves(Plan64(ptr, end, size), ptr, size) <==> size <= MAX_REQUEST
  {
    if size <= MAX_REQUEST {
      NothingWraps(ptr, size);
      AlignUpIsLeast(size, AlignUp(size));
    } else if size > TWO_64 - 16 {
      assert Align64(size) == 0;
    } else {
      AlignExact(size);
      AlignUpIsLeast(size, TWO_64 - 16);
      OversizedPlan(ptr, end, AlignUp(size));
    }
  }

  /** What the code makes of an aligned size of 2^63 or more: a region shorter than it, or a bump pointer
      that moves backwards. */
  lemma OversizedPlan(ptr: uint64, end: uint64, s: uint64)
    requires 0 < ptr <= end <= USER_SPACE_END && TWO_63 <= s <= TWO_64 - 16
    ensures ExtendLen64(s) == 2 * s - TWO_64
    ensures Add64(ptr, s) == if ptr + s < TWO_64 then ptr + s else ptr + s - TWO_64
    ensures Add64(ptr, s) > end || Add64(ptr, s) < ptr
  {
    assert Mul64(s, 2) == 2 * s - TWO_64;
  }

  /** At the first size past the limit the aligned size is 2^63 and the extension length is 0. */
  lemma FirstWrappingRequest(ptr: uint64, end: uint64)
    requires 0 < ptr <= end <= USER_SPACE_END
    ensures Align64(MAX_REQUEST + 1) == TWO_63 && ExtendLen64(TWO_63) == 0
    ensures Plan64(ptr, end, MAX_REQUEST + 1) == (if ptr == TWO_63 then Fits(0) else Extend(0))
  {
  }

  // ---- The three pointers, for every size ----

  datatype Pointers = Pointers(base: uint64, ptr: uint64, end: uint64)

  /** The address of a reply is a machine word. */
  predicate Addressable(reply: Reply) {
    reply.Granted? ==> 0 < reply.addr < TWO_64
  }

  function MemInit64(h: Pointers, first: Reply): Option<Pointers>
    requires Addressable(first)
  {
    if first.Denied? then None
    else Some(Pointers(first.addr, first.addr, Add64(first.addr, HEAP_INITIAL_SIZE)))
  }

  /** The pointers after malloc, and what it returns; None if the process panics. */
  function Malloc64(h: Pointers, size: uint64, first: Reply, extension: Reply): Option<(Pointers, uint64)>
    requires Addressable(first) && Addressable(extension)
  {
    var h' := if h.base == 0 then MemInit64(h, first) else Some(h);
    if h'.None? then None else Some(MallocReady64(h'.value, size, extension))
  }

  function MallocReady64(h: Pointers, size: uint64, extension: Reply): (Pointers, uint64)
    requires Addressable(extension)
  {
    match Plan64(h.ptr, h.end, size)
    case Fits(next) => (h.(ptr := next), h.ptr)
    case Extend(len) =>
      if extension.Denied? then (h, 0)
      else
        var a: uint64 := extension.addr;
        (Pointers(h.base, Add64(a, Align64(size)), Add64(a, len)), a)
  }

  /** Past the limit safety is lost: in a fresh region at a, malloc(32), malloc(2^64 - 32), malloc(32)
      return a, a + 32, and a once more, and the kernel is not asked for anything. */
  lemma LiveBlockReturnedTwice(a: uint64, unasked: Reply)
    requires 0 < a && a % 16 == 0 && a + HEAP_INITIAL_SIZE <= USER_SPACE_END && Addressable(unasked)
    ensures var h := Pointers(a, a, a + HEAP_INITIAL_SIZE);
      var (h1, p1) := MallocReady64(h, 32, unasked);
      var (h2, p2) := MallocReady64(h1, TWO_64 - 32, unasked);
      var (h3, p3) := MallocReady64(h2, 32, unasked);
      p1 == p3 == a && p2 == a + 32 && h2 == h && h3 == h1
  {
    var end := a + HEAP_INITIAL_SIZE;
    assert Plan64(a, end, 32) == Fits(a + 32);
    assert Plan64(a + 32, end, TWO_64 - 32) == Fits(a);
  }

  // ---- The memory behind the heap ----

  /** Every byte of every region is mapped. */
  ghost predicate RegionsMapped(regions: seq<Range>, m: map<int, byte>) {
    forall i | 0 <= i < |regions| :: MappedIn(m, regions[i].base, regions[i].len)
  }

  /** m' has all of m, byte for byte. */
  ghost predicate Extends(m: map<int, byte>, m': map<int, byte>) {
    forall x | x in m :: x in m' && m'[x] == m[x]
  }

  /** From m to m', [p, p + n) became zero and nothing else that was mapped changed. */
  ghost predicate Cleared(m: map<int, byte>, m': map<int, byte>, p: int, n: int) {
    && (forall x | p <= x < p + n :: x in m' && m'[x] == 0)
    && (forall x | x in m :: x in m' && (p <= x < p + n || m'[x] == m[x]))
  }

  lemma RegionsStayMapped(regions: seq<Range>, m: map<int, byte>, m': map<int, byte>)
    requires RegionsMapped(regions, m) && forall x | x in m :: x in m'
    ensures RegionsMapped(regions, m')
  {
    forall i | 0 <= i < |regions|
      ensures MappedIn(m', regions[i].base, regions[i].len)
    {
      assert MappedIn(m, regions[i].base, regions[i].len);
    }
  }

  lemma NewRegionMapped(regions: seq<Range>, m: map<int, byte>, r: Range)
    requires RegionsMapped(regions, m) && MappedIn(m, r.base, r.len)
    ensures RegionsMapped(regions + [r], m)
  {
  }

  /** The kernel may grant only unmapped pages of user space. */
  ghost predicate KernelMayAnswer(m: map<int, byte>, len: nat, reply: Reply) {
    reply.Granted? ==>
      && 0 < reply.addr && reply.addr % PAGE_SIZE == 0 && reply.addr + len <= USER_SPACE_END
      && forall x | reply.addr <= x < reply.addr + len :: x !in m
  }

  lemma GrantIsAddressable(m: map<int, byte>, len: nat, reply: Reply)
    requires KernelMayAnswer(m, len, reply)
    ensures reply.Granted? ==> 0 < reply.addr && reply.addr + len <= USER_SPACE_END
  {
  }

  /** A region of unmapped pages is apart from every region granted before. */
  lemma UnmappedIsGrantable(regions: seq<Range>, m: map<int, byte>, len: nat, reply: Reply)
    requires RegionsSound(regions) && RegionsMapped(regions, m)
    requires KernelMayAnswer(m, len, reply) && 0 < len
    ensures Grantable(regions, len, reply)
  {
    if reply.Granted? {
      forall i | 0 <= i < |regions|
        ensures regions[i].Apart(Range(reply.addr, len))
      {
        var r := regions[i];
        var x := if r.base < reply.addr then reply.addr else r.base;
        assert MappedIn(m, r.base, r.len);
        assert r.base <= x < r.base + r.len ==> x in m;
        assert 0 < r.len;
      }
    }
  }

  /** A granted region extends a sound heap to a sound heap, and all of it is mapped. */
  lemma GrantKeepsSound(h: Heap, m: map<int, byte>, m': map<int, byte>, len: nat, reply: Reply)
    requires Sound(h) && RegionsMapped(h.regions, m)
    requires reply.Granted? && KernelMayAnswer(m, len, reply) && 0 < len
    requires Extends(m, m') && MappedIn(m', reply.addr, len)
    ensures Sound(AddRegion(h, Range(reply.addr, len)))
    ensures RegionsMapped(AddRegion(h, Range(reply.addr, len)).regions, m')
  {
    UnmappedIsGrantable(h.regions, m, len, reply);
    AddRegionKeepsSound(h, len, reply);
    RegionsStayMapped(h.regions, m, m');
    NewRegionMapped(h.regions, m', Range(reply.addr, len));
  }

  lemma ClearedMaps(m: map<int, byte>, m': map<int, byte>, p: int, n: int)
    requires Cleared(m, m', p, n)
    ensures MappedIn(m', p, n)
  {
  }

  lemma ExtendsTransitive(m0: map<int, byte>, m1: map<int, byte>, m2: map<int, byte>)
    requires Extends(m0, m1) && Extends(m1, m2)
    ensures Extends(m0, m2)
  {
  }

  lemma ExtendsThenCleared(m0: map<int, byte>, m1: map<int, byte>, m2: map<int, byte>, p: int, n: int)
    requires Extends(m0, m1) && Cleared(m1, m2, p, n)
    ensures Cleared(m0, m2, p, n)
  {
  }

  /** A block of a sound heap is mapped. */
  lemma BlockMapped(h: Heap, m: map<int, byte>, b: Range)
    requires Sound(h) && RegionsMapped(h.regions, m) && b in h.blocks
    ensures MappedIn(m, b.base, b.len)
  {
    var k :| 0 <= k < |h.blocks| && h.blocks[k] == b;
    assert BlockSound(h, h.blocks[k]);
    var i :| 0 <= i < |h.regions| && b.Inside(h.regions[i]);
    assert MappedIn(m, h.regions[i].base, h.regions[i].len);
  }

  class Heap64 {
    var heapBase: uint64
    var heapPtr: uint64
    var heapEnd: uint64
    const memory: ByteMemory
    /** The heap of the model that the three pointers stand for, and the calls that led to it. */
    ghost var model: Heap
    ghost var calls: seq<Call>

    /** heapBase keeps naming the first region; heapEnd is the end of the current one. */
    ghost predicate Represents()
      reads this
    {
      && heapPtr == model.ptr
      && (model.regions == [] ==> heapBase == heapEnd == 0)
      && (model.regions != [] ==> heapBase == model.regions[0].base != 0 && heapEnd == model.End())
    }

    /** What holds inside a call as well. */
    ghost predicate Consistent()
      reads this, memory
    {
      Represents() && Sound(model) && RegionsMapped(model.regions, memory.bytes)
    }

    /** The model is where a run of the calls leads. */
    ghost predicate Reached()
      reads this
    {
      Possible(EMPTY_HEAP, calls) && Run(EMPTY_HEAP, calls) == Returned(model, 0)
    }

    ghost predicate Valid()
      reads this, memory
    {
      Consistent() && Reached()
    }

    function Ptrs(): Pointers
      reads this
    {
      Pointers(heapBase, heapPtr, heapEnd)
    }

    constructor (memory: ByteMemory)
      ensures Valid() && this.memory == memory && model == EMPTY_HEAP && calls == []
    {
      heapBase, heapPtr, heapEnd := 0, 0, 0;
      this.memory := memory;
      model, calls := EMPTY_HEAP, [];
    }

    /** The space bound holds of every heap that the class can reach. */
    lemma SpaceIsBounded()
      requires Valid()
      ensures Total(model.regions) <= 2 * Total(model.blocks) + Max(HEAP_INITIAL_SIZE, InCurrent(model))
    {
      SpaceBound(calls);
    }

    ghost method Record(before: Heap, call: Call)
      requires Consistent() && Possible(EMPTY_HEAP, calls) && Run(EMPTY_HEAP, calls) == Returned(before, 0)
      requires Answered(before, call) && Step(before, call).Returned? && Step(before, call).heap == model
      modifies this`calls
      ensures Valid() && calls == old(calls) + [call]
    {
      hide Answered, Step, Possible, Run, Sound, RegionsMapped;
      RunSnoc(EMPTY_HEAP, calls, before, call);
      calls := calls + [call];
    }

    // ---- Inside a call ----

    /** `julius_vm_allocate`: on success the pages appear zero-filled, and nothing else changes. */
    method VmAllocate(len: nat, reply: Reply)
      requires KernelMayAnswer(memory.bytes, len, reply)
      modifies memory
      ensures reply.Denied? ==> memory.bytes == old(memory.bytes)
      ensures Extends(old(memory.bytes), memory.bytes)
      ensures reply.Granted? ==>
                && memory.bytes.Keys == old(memory.bytes.Keys) + Addresses(reply.addr, len)
                && Cleared(old(memory.bytes), memory.bytes, reply.addr, len)
    {
      if reply.Granted? {
        memory.bytes := memory.bytes + map x | x in Addresses(reply.addr, len) :: 0;
      }
    }

    /** Returns whether the heap came up; if not, the process has panicked. */
    method InitHeap(reply: Reply) returns (up: bool)
      requires Consistent() && model.regions == []
      requires KernelMayAnswer(memory.bytes, HEAP_INITIAL_SIZE, reply)
      modifies `heapBase, `heapPtr, `heapEnd, `model, memory
      ensures Consistent() && Extends(old(memory.bytes), memory.bytes)
      ensures var o := HeapModel.MemInit(old(model), reply);
              if up then o == Returned(model, 0) else o.Panicked? && model == old(model)
      ensures Addressable(reply)
      ensures if up then MemInit64(old(Ptrs()), reply) == Some(Ptrs()) else Ptrs() == old(Ptrs())
      ensures up ==>
                memory.bytes.Keys == old(memory.bytes.Keys) + Addresses(reply.addr, HEAP_INITIAL_SIZE)
    {
      VmAllocate(HEAP_INITIAL_SIZE, reply);
      if reply.Denied? {
        return false;
      }
      AddRegionKeepsSound(model, HEAP_INITIAL_SIZE, reply);
      heapBase, heapPtr := reply.addr, reply.addr;
      heapEnd := Add64(heapBase, HEAP_INITIAL_SIZE);
      model := AddRegion(model, Range(reply.addr, HEAP_INITIAL_SIZE));
      up := true;
    }

    /** The extension branch of malloc: a new current region, whose predecessor's tail is abandoned. */
    method ExtendHeap(s: uint64, reply: Reply) returns (up: bool)
      requires Consistent() && model.regions != []
      requires KernelMayAnswer(memory.bytes, ExtendLen64(s), reply)
      modifies `heapPtr, `heapEnd, `model, memory
      ensures Extends(old(memory.bytes), memory.bytes)
      ensures up == reply.Granted?
      ensures !up ==> Consistent() && model == old(model) && Ptrs() == old(Ptrs())
      ensures up ==> model == AddRegion(old(model), Range(reply.addr, ExtendLen64(s)))
      ensures up ==> Addressable(reply) && heapPtr == reply.addr && heapEnd == Add64(reply.addr, ExtendLen64(s))
      ensures up && ExtendLen64(s) > 0 ==> Consistent()
    {
      var extend := if s < HEAP_INITIAL_SIZE then HEAP_INITIAL_SIZE else Mul64(s, 2);
      GrantIsAddressable(memory.bytes, extend, reply);
      hide Sound, RegionsMapped, KernelMayAnswer;
      ghost var m0 := memory.bytes;
      VmAllocate(extend, reply);
      if reply.Denied? {
        return false;
      }
      if extend > 0 {
        ClearedMaps(m0, memory.bytes, reply.addr, extend);
        GrantKeepsSound(model, m0, memory.bytes, extend, reply);
      }
      Adopt(reply.addr, extend);
      up := true;
    }

    /** The new region becomes the current one. */
    method Adopt(addr: uint64, len: uint64)
      requires Represents() && model.regions != [] && 0 < addr && addr + len <= USER_SPACE_END
      modifies `heapPtr, `heapEnd, `model
      ensures Represents() && model == AddRegion(old(model), Range(addr, len))
      ensures heapPtr == addr && heapEnd == Add64(addr, len)
    {
      heapPtr := addr;
      heapEnd := Add64(heapPtr, len);
      model := AddRegion(model, Range(addr, len));
    }

    /** Hands out s bytes at the bump pointer. */
    method Bump(s: uint64) returns (p: uint64)
      modifies `heapPtr, `model
      ensures p == old(heapPtr) && heapPtr == Add64(p, s) && model == Carve(old(model), s)
      ensures old(Represents()) && model.regions != [] && p + s < TWO_64 ==> Represents()
    {
      p := heapPtr;
      heapPtr := Add64(heapPtr, s);
      model := Carve(model, s);
    }

    /** The part of malloc after the alignment, on an initialised heap; s is the aligned size. */
    method AllocateAligned(s: uint64, ghost size: uint64, extension: Reply) returns (p: uint64)
      requires Consistent() && model.regions != [] && s == Align64(size)
      requires KernelMayAnswer(memory.bytes, ExtendLen64(s), extension)
      modifies `heapPtr, `heapEnd, `model, memory
      ensures s <= MAX_REQUEST ==> Consistent() && Returned(model, p) == MallocReady(old(model), s, extension)
      ensures Addressable(extension) && (Ptrs(), p) == MallocReady64(old(Ptrs()), size, extension)
      ensures Extends(old(memory.bytes), memory.bytes)
    {
      AlignedModulo(size);
      AlignedIsFixed(s);
      GrantIsAddressable(memory.bytes, ExtendLen64(s), extension);
      hide Align64, AlignUp;
      if s <= MAX_REQUEST {
        NothingWraps(heapPtr, s);
      }
      if Add64(heapPtr, s) > heapEnd {
        var up := ExtendHeap(s, extension);
        if !up {
          return 0;
        }
      }
      if s <= MAX_REQUEST {
        CarveKeepsSound(model, s);
      }
      p := Bump(s);
    }

    /** What the kernel may answer to one malloc: the second region, if any, is apart from the first. */
    ghost predicate KernelAnswers(size: uint64, first: Reply, extension: Reply)
      reads this, memory
    {
      var len := ExtendLen64(Align64(size));
      && KernelMayAnswer(memory.bytes, len, extension)
      && (model.regions == [] ==> KernelMayAnswer(memory.bytes, HEAP_INITIAL_SIZE, first))
      && (model.regions == [] && first.Granted? && extension.Granted? ==>
            Range(first.addr, HEAP_INITIAL_SIZE).Apart(Range(extension.addr, len)))
    }

    /** The first line of malloc. What the kernel may answer to the extension is still so. */
    method EnsureInit(first: Reply, ghost len: nat, ghost extension: Reply) returns (up: bool)
      requires Consistent() && KernelMayAnswer(memory.bytes, len, extension)
      requires model.regions == [] ==> KernelMayAnswer(memory.bytes, HEAP_INITIAL_SIZE, first)
      requires model.regions == [] && first.Granted? && extension.Granted? ==>
                 Range(first.addr, HEAP_INITIAL_SIZE).Apart(Range(extension.addr, len))
      modifies `heapBase, `heapPtr, `heapEnd, `model, memory
      ensures Consistent() && Extends(old(memory.bytes), memory.bytes)
      ensures up <==> model.regions != []
      ensures up ==> KernelMayAnswer(memory.bytes, len, extension)
      ensures if old(model).regions != [] then model == old(model)
              else if up then HeapModel.MemInit(old(model), first) == Returned(model, 0)
              else model == old(model) && HeapModel.MemInit(old(model), first).Panicked?
      ensures if old(heapBase) != 0 then up && Ptrs() == old(Ptrs())
              else Addressable(first) && MemInit64(old(Ptrs()), first) == if up then Some(Ptrs()) else None
      ensures !up ==> Ptrs() == old(Ptrs())
    {
      up := true;
      if heapBase == 0 {
        up := InitHeap(first);
      }
    }

    /** The pointers and the result are those of the 64-bit arithmetic, whatever the size. */
    ghost predicate Computes(h: Pointers, size: uint64, first: Reply, extension: Reply, p: uint64, panicked: bool)
      reads this
    {
      var f := if h.base == 0 then first else Denied;
      && Addressable(f) && Addressable(extension)
      && Malloc64(h, size, f, extension) == (if panicked then None else Some((Ptrs(), p)))
      && (panicked ==> Ptrs() == h)
    }

    /** The state and result are those of the model's malloc. */
    ghost predicate Follows(h: Heap, size: nat, first: Reply, extension: Reply, p: uint64, panicked: bool)
      reads this
    {
      var o := HeapModel.Malloc(h, size, first, extension);
      if panicked then o.Panicked? && model == h else o == Returned(model, p)
    }

    /** Malloc, as far as a caller inside the library sees it. */
    method Allocate(size: uint64, first: Reply, extension: Reply) returns (p: uint64, panicked: bool)
      requires Consistent() && KernelAnswers(size, first, extension)
      modifies `heapBase, `heapPtr, `heapEnd, `model, memory
      ensures size <= MAX_REQUEST ==> Consistent() && Follows(old(model), size, first, extension, p, panicked)
      ensures Computes(old(Ptrs()), size, first, extension, p, panicked)
      ensures Extends(old(memory.bytes), memory.bytes)
    {
      var s := Align64(size);
      if size <= MAX_REQUEST {
        AlignedRequest(size);
      }
      GrantIsAddressable(memory.bytes, ExtendLen64(s), extension);
      hide Consistent, Extends, KernelMayAnswer, MallocReady, MallocReady64, MemInit64, Align64, AlignUp;
      ghost var m0 := memory.bytes;
      var up := EnsureInit(first, ExtendLen64(s), extension);
      if !up {
        return 0, true;
      }
      panicked := false;
      ghost var m1 := memory.bytes;
      p := AllocateAligned(s, size, extension);
      ExtendsTransitive(m0, m1, memory.bytes);
    }

    /** The kernel contract of the class implies the one of the model. */
    lemma MallocAnswered(size: uint64, first: Reply, extension: Reply)
      requires Consistent() && KernelAnswers(size, first, extension) && size <= MAX_REQUEST
      ensures MallocAnswers(model, size, first, extension)
    {
      NothingWraps(0, size);
      UnmappedIsGrantable(model.regions, memory.bytes, ExtendLen(AlignUp(size)), extension);
      if model.regions == [] {
        UnmappedIsGrantable(model.regions, memory.bytes, HEAP_INITIAL_SIZE, first);
      }
    }

    /** A block that malloc has just returned is mapped, and apart from every older block. */
    lemma FreshBlock(h: Heap, size: uint64, first: Reply, extension: Reply, p: uint64)
      requires Sound(h) && MallocAnswers(h, size, first, extension)
      requires Consistent() && HeapModel.Malloc(h, size, first, extension) == Returned(model, p) && p != 0
      ensures MappedIn(memory.bytes, p, size)
      ensures forall b | b in h.blocks :: b.Apart(Range(p, size))
    {
      MallocSound(h, size, first, extension);
      assert model.blocks[|h.blocks|] == Range(p, AlignUp(size));
      BlockMapped(model, memory.bytes, Range(p, AlignUp(size)));
    }

    method ClearBlock(p: uint64, n: nat)
      requires Consistent() && MappedIn(memory.bytes, p, n)
      modifies memory
      ensures Consistent() && Cleared(old(memory.bytes), memory.bytes, p, n)
    {
      ghost var m := memory.bytes;
      var _ := memory.Memset(p, 0, n);
      RegionsStayMapped(model.regions, m, memory.bytes);
    }

    /** The part of calloc after the multiplication, for a block that malloc can serve. */
    method ZeroedBlock(total: uint64, first: Reply, extension: Reply) returns (p: uint64, panicked: bool)
      requires Consistent() && KernelAnswers(total, first, extension) && total <= MAX_REQUEST
      modifies `heapBase, `heapPtr, `heapEnd, `model, memory
      ensures Consistent() && Follows(old(model), total, first, extension, p, panicked)
      ensures Computes(old(Ptrs()), total, first, extension, p, panicked)
      ensures if panicked || p == 0 then Extends(old(memory.bytes), memory.bytes)
              else Cleared(old(memory.bytes), memory.bytes, p, total)
      ensures !panicked && p != 0 ==> forall b | b in old(model).blocks :: b.Apart(Range(p, total))
    {
      MallocAnswered(total, first, extension);
      hide Sound;
      ghost var h, m0 := model, memory.bytes;
      p, panicked := Allocate(total, first, extension);
      if !panicked && p != 0 {
        FreshBlock(h, total, first, extension, p);
        ghost var m1 := memory.bytes;
        ClearBlock(p, total);
        ExtendsThenCleared(m0, m1, memory.bytes, p, total);
      }
    }

    // ---- The calls ----

    /** A call that followed the model's malloc is that step of a run. */
    lemma FollowedIsStep(h: Heap, size: nat, first: Reply, extension: Reply, p: uint64, call: Call)
      requires Follows(h, size, first, extension, p, false) && MallocAnswers(h, size, first, extension)
      requires || call == CallMalloc(size, first, extension)
               || (call.CallCalloc? && size == Mul64(call.nmemb, call.each)
                   && call.first == first && call.extension == extension)
      ensures Answered(h, call) && Step(h, call).Returned? && Step(h, call).heap == model
    {
      hide HeapModel.Malloc, MallocAnswers, Mul64;
    }

    /** Returns whether the heap came up; if not, the process has panicked. */
    method MemInit(reply: Reply) returns (up: bool)
      requires Valid() && model.regions == []
      requires KernelMayAnswer(memory.bytes, HEAP_INITIAL_SIZE, reply)
      modifies this, memory
      ensures Valid() && Extends(old(memory.bytes), memory.bytes)
      ensures calls == old(calls) + if up then [CallInit(reply)] else []
      ensures var o := HeapModel.MemInit(old(model), reply);
              if up then o == Returned(model, 0) else o.Panicked? && model == old(model)
      ensures up ==>
                memory.bytes.Keys == old(memory.bytes.Keys) + Addresses(reply.addr, HEAP_INITIAL_SIZE)
    {
      UnmappedIsGrantable(model.regions, memory.bytes, HEAP_INITIAL_SIZE, reply);
      hide Consistent, Extends, KernelMayAnswer, Possible, Run;
      ghost var h := model;
      up := InitHeap(reply);
      if up {
        Record(h, CallInit(reply));
      }
    }

    /** Follows the model for every request up to MAX_REQUEST, and never disturbs mapped bytes. For a
        larger one the new pointers and the result are what the wrapping arithmetic makes them. */
    method Malloc(size: uint64, first: Reply, extension: Reply) returns (p: uint64, panicked: bool)
      requires Valid() && KernelAnswers(size, first, extension)
      modifies this, memory
      ensures size <= MAX_REQUEST ==> Valid() && Follows(old(model), size, first, extension, p, panicked)
      ensures size <= MAX_REQUEST ==>
                calls == old(calls) + if panicked then [] else [CallMalloc(size, first, extension)]
      ensures Computes(old(Ptrs()), size, first, extension, p, panicked)
      ensures Extends(old(memory.bytes), memory.bytes)
    {
      if size <= MAX_REQUEST {
        MallocAnswered(size, first, extension);
      }
      hide Consistent, Extends, KernelAnswers, MallocAnswers, Computes, Possible, Run, Answered, Step;
      ghost var h := model;
      p, panicked := Allocate(size, first, extension);
      if size <= MAX_REQUEST && !panicked {
        FollowedIsStep(h, size, first, extension, p, CallMalloc(size, first, extension));
        hide Follows;
        Record(h, CallMalloc(size, first, extension));
      }
    }

    /** A no-op, as in the source. */
    method Free(p: uint64)
      requires Valid()
      modifies `calls
      ensures Valid() && calls == old(calls) + [CallFree(p)]
    {
      hide Consistent, Possible, Run;
      Record(model, CallFree(p));
    }

    /** A block of the 64-bit product of the arguments, whose every byte is zero; every byte outside it
        that was mapped is left alone, and every block handed out before is outside it. If malloc returns a
        pointer for a product that it cannot serve, the block ends outside user space: `wild` says so, and
        nothing is said of what the memset does then. */
    method Calloc(nmemb: uint64, size: uint64, first: Reply, extension: Reply)
      returns (p: uint64, panicked: bool, wild: bool)
      requires Valid() && KernelAnswers(Mul64(nmemb, size), first, extension)
      modifies this, memory
      ensures Computes(old(Ptrs()), Mul64(nmemb, size), first, extension, p, panicked)
      ensures wild <==> !panicked && p != 0 && Mul64(nmemb, size) > MAX_REQUEST
      ensures wild ==> p + Mul64(nmemb, size) > USER_SPACE_END
      ensures Mul64(nmemb, size) <= MAX_REQUEST ==>
                && Valid() && Follows(old(model), Mul64(nmemb, size), first, extension, p, panicked)
                && calls == old(calls) + if panicked then [] else [CallCalloc(nmemb, size, first, extension)]
      ensures if panicked || p == 0 || wild then Extends(old(memory.bytes), memory.bytes)
              else Cleared(old(memory.bytes), memory.bytes, p, Mul64(nmemb, size))
      ensures !panicked && p != 0 && !wild ==>
                forall b | b in old(model).blocks :: b.Apart(Range(p, Mul64(nmemb, size)))
    {
      var total := Mul64(nmemb, size);
      wild := false;
      if total > MAX_REQUEST {
        p, panicked := Oversized(total, first, extension);
        wild := !panicked && p != 0;
        return;
      }
      MallocAnswered(total, first, extension);
      hide Consistent, Extends, Cleared, KernelAnswers, MallocAnswers, Computes, Possible, Run, Answered, Step, Mul64;
      ghost var h := model;
      p, panicked := ZeroedBlock(total, first, extension);
      if !panicked {
        FollowedIsStep(h, total, first, extension, p, CallCalloc(nmemb, size, first, extension));
        hide Follows;
        Record(h, CallCalloc(nmemb, size, first, extension));
      }
    }

    /** A pointer that malloc returns for a request that it cannot serve is at least 16. */
    method Oversized(total: uint64, first: Reply, extension: Reply) returns (p: uint64, panicked: bool)
      requires Consistent() && KernelAnswers(total, first, extension) && total > MAX_REQUEST
      modifies `heapBase, `heapPtr, `heapEnd, `model, memory
      ensures Computes(old(Ptrs()), total, first, extension, p, panicked)
      ensures Extends(old(memory.bytes), memory.bytes)
      ensures !panicked && p != 0 ==> p + total > USER_SPACE_END
    {
      PointerAligned(model);
      GrantAligned(memory.bytes, HEAP_INITIAL_SIZE, first);
      GrantAligned(memory.bytes, ExtendLen64(Align64(total)), extension);
      hide Sound, RegionsMapped, Extends, KernelMayAnswer, Malloc64, ExtendLen64, Align64;
      ghost var h := Ptrs();
      p, panicked := Allocate(total, first, extension);
      PointerAtLeast16(h, total, if h.base == 0 then first else Denied, extension);
    }
  }

  lemma PointerAligned(h: Heap)
    requires Sound(h)
    ensures h.ptr % 16 == 0 && (h.regions != [] ==> h.ptr > 0)
  {
    if h.regions != [] { assert h.Current() == h.regions[|h.regions| - 1]; }
  }

  lemma PointerAtLeast16(h: Pointers, size: uint64, first: Reply, extension: Reply)
    requires Addressable(first) && Addressable(extension)
    requires (first.Granted? ==> first.addr >= 16) && (extension.Granted? ==> extension.addr >= 16)
    requires h.base != 0 ==> h.ptr >= 16
    ensures var r := Malloc64(h, size, first, extension); r.Some? ==> r.value.1 == 0 || r.value.1 >= 16
  {
    hide Plan64;
  }

  lemma GrantAligned(m: map<int, byte>, len: nat, reply: Reply)
    ensures KernelMayAnswer(m, len, reply) && reply.Granted? ==> 16 <= reply.addr
  {
  }
}
