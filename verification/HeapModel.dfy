/** The bump heap of libc/src/mem.c on unbounded integers: what each call does to the regions
    and blocks, what every run keeps, and how much the heap asks of the kernel. */
module HeapModel {
  import opened Machine

  const HEAP_INITIAL_SIZE: nat := 0x10_0000
  const PAGE_SIZE: nat := 0x1000
  const USER_SPACE_END: int := TWO_63

  /** Address ranges: the first is what the kernel granted, the second what a caller was handed
      (its size is the aligned one). */
  datatype Range = Range(base: int, len: int) {
    predicate Apart(other: Range) {
      base + len <= other.base || other.base + other.len <= base
    }
    predicate Inside(other: Range) {
      other.base <= base && base + len <= other.base + other.len
    }
  }

  /** What the kernel answers to one allocation request. */
  datatype Reply = Denied | Granted(addr: int)

  /** No regions means that the heap is not initialised yet. The last region is the current one. */
  datatype Heap = Heap(regions: seq<Range>, ptr: int, blocks: seq<Range>) {
    function Current(): Range
      requires regions != []
    {
      regions[|regions| - 1]
    }
    function End(): int
      requires regions != []
    {
      Current().base + Current().len
    }
  }

  /** Panicked: the process has stopped inside `julius_panic`. */
  datatype Outcome = Panicked | Returned(heap: Heap, p: int)

  const EMPTY_HEAP := Heap([], 0, [])

  /** The length of the region that a request of s aligned bytes asks for when it does not fit. */
  function ExtendLen(s: nat): nat {
    if s < HEAP_INITIAL_SIZE then HEAP_INITIAL_SIZE else s * 2
  }

  function AddRegion(h: Heap, r: Range): Heap {
    Heap(h.regions + [r], r.base, h.blocks)
  }

  /** Hands out s bytes at the bump pointer. */
  function Carve(h: Heap, s: nat): Heap {
    Heap(h.regions, h.ptr + s, h.blocks + [Range(h.ptr, s)])
  }

  function MemInit(h: Heap, reply: Reply): Outcome {
    if reply.Denied? then Panicked
    else Returned(AddRegion(h, Range(reply.addr, HEAP_INITIAL_SIZE)), 0)
  }

  /** `julius_malloc` on an initialised heap; 0 is NULL. */
  function MallocReady(h: Heap, size: nat, reply: Reply): Outcome
    requires h.regions != []
  {
    var s := AlignUp(size);
    if h.ptr + s <= h.End() then Returned(Carve(h, s), h.ptr)
    else if reply.Denied? then Returned(h, 0)
    else
      var h' := AddRegion(h, Range(reply.addr, ExtendLen(s)));
      Returned(Carve(h', s), h'.ptr)
  }

  /** `julius_malloc`: the first call initialises the heap when nobody has. The replies are what
      the kernel answers if it is asked for the first region and for an extension. */
  function Malloc(h: Heap, size: nat, first: Reply, extension: Reply): Outcome {
    if h.regions != [] then MallocReady(h, size, extension)
    else
      var o := MemInit(h, first);
      if o.Panicked? then Panicked else MallocReady(o.heap, size, extension)
  }

  /** What the kernel may answer: pages that belong to no earlier region, below the end of user
      space and not at address 0. */
  ghost predicate Grantable(regions: seq<Range>, len: nat, reply: Reply) {
    reply.Granted? ==>
      && 0 < reply.addr && reply.addr % PAGE_SIZE == 0 && reply.addr + len <= USER_SPACE_END
      && forall i | 0 <= i < |regions| :: regions[i].Apart(Range(reply.addr, len))
  }

  ghost predicate MallocAnswers(h: Heap, size: nat, first: Reply, extension: Reply) {
    && (h.regions == [] ==> Grantable([], HEAP_INITIAL_SIZE, first))
    && (h.regions == [] && first.Granted? ==>
          Grantable([Range(first.addr, HEAP_INITIAL_SIZE)], ExtendLen(AlignUp(size)), extension))
    && (h.regions != [] ==> Grantable(h.regions, ExtendLen(AlignUp(size)), extension))
  }

  /** Malloc stops the process, instead of returning NULL, exactly when it has to initialise the heap and
      the first region is refused; the empty heap is such a case. */
  lemma MallocPanics(h: Heap, size: nat, first: Reply, extension: Reply)
    ensures Malloc(h, size, first, extension).Panicked? <==> h.regions == [] && first.Denied?
    ensures Malloc(EMPTY_HEAP, size, Denied, extension) == Panicked
    ensures MallocAnswers(EMPTY_HEAP, size, Denied, extension)
  {
    hide AlignUp, ExtendLen;
  }

  // ---- Safety ----

  ghost predicate RegionsSound(regions: seq<Range>) {
    && (forall i | 0 <= i < |regions| ::
          && 0 < regions[i].base && regions[i].base % 16 == 0
          && 0 < regions[i].len && regions[i].base + regions[i].len <= USER_SPACE_END)
    && (forall i, j | 0 <= i < j < |regions| :: regions[i].Apart(regions[j]))
  }

  ghost predicate InSomeRegion(regions: seq<Range>, b: Range) {
    exists i :: 0 <= i < |regions| && b.Inside(regions[i])
  }

  /** A block is aligned, lies wholly inside one region, and does not reach into the free part of
      the current one. */
  ghost predicate BlockSound(h: Heap, b: Range) {
    && b.base % 16 == 0 && b.len % 16 == 0 && 0 <= b.len && b.base != 0
    && InSomeRegion(h.regions, b)
    && (h.regions != [] ==> b.Apart(Range(h.ptr, h.End() - h.ptr)))
  }

  ghost predicate BlocksSound(h: Heap) {
    && (forall k | 0 <= k < |h.blocks| :: BlockSound(h, h.blocks[k]))
    && (forall k, l | 0 <= k < l < |h.blocks| :: h.blocks[k].Apart(h.blocks[l]))
  }

  ghost predicate Sound(h: Heap) {
    && RegionsSound(h.regions)
    && (h.regions == [] ==> h.ptr == 0 && h.blocks == [])
    && (h.regions != [] ==> h.Current().base <= h.ptr <= h.End() && h.ptr % 16 == 0)
    && BlocksSound(h)
  }

  /** A block that is sound stays sound when a region is added. */
  lemma AddRegionKeepsBlock(h: Heap, r: Range, b: Range)
    requires BlockSound(h, b) && forall i | 0 <= i < |h.regions| :: h.regions[i].Apart(r)
    ensures BlockSound(AddRegion(h, r), b)
  {
    var h' := AddRegion(h, r);
    var i :| 0 <= i < |h.regions| && b.Inside(h.regions[i]);
    assert h.regions[i].Apart(r);
    assert h'.regions[i] == h.regions[i];
  }

  lemma PageIsAligned(a: int)
    ensures a % PAGE_SIZE == 0 ==> a % 16 == 0
  {
  }

  lemma RegionsSoundPush(regions: seq<Range>, r: Range)
    requires RegionsSound(regions) && forall i | 0 <= i < |regions| :: regions[i].Apart(r)
    requires 0 < r.base && r.base % 16 == 0 && 0 < r.len && r.base + r.len <= USER_SPACE_END
    ensures RegionsSound(regions + [r])
  {
    hide Range.Apart;
  }

  lemma AddRegionKeepsSound(h: Heap, len: nat, reply: Reply)
    requires Sound(h) && reply.Granted? && Grantable(h.regions, len, reply) && 0 < len
    ensures Sound(AddRegion(h, Range(reply.addr, len)))
  {
    hide BlockSound;
    var r := Range(reply.addr, len);
    var h' := AddRegion(h, r);
    PageIsAligned(reply.addr);
    RegionsSoundPush(h.regions, r);
    hide RegionsSound, Range.Apart;
    forall k | 0 <= k < |h'.blocks|
      ensures BlockSound(h', h'.blocks[k])
    {
      AddRegionKeepsBlock(h, r, h.blocks[k]);
    }
    assert BlocksSound(h');
  }

  lemma CarveKeepsSound(h: Heap, s: nat)
    requires Sound(h) && h.regions != [] && s % 16 == 0 && h.ptr + s <= h.End()
    ensures Sound(Carve(h, s))
  {
    var h' := Carve(h, s);
    var b := Range(h.ptr, s);
    assert b.Inside(h'.regions[|h'.regions| - 1]);
    forall k | 0 <= k < |h.blocks|
      ensures BlockSound(h', h.blocks[k]) && h.blocks[k].Apart(b)
    {
      assert BlockSound(h, h.blocks[k]);
    }
  }

  /** The pointer that malloc returned: aligned, backed by one region, apart from every block
      handed out before; and a refused extension returns NULL with the heap as it was. */
  ghost predicate MallocDelivers(h: Heap, size: nat, o: Outcome) {
    o.Returned? ==>
      && (o.p == 0 ==> o.heap.blocks == h.blocks && (h.regions != [] ==> o.heap == h))
      && (o.p != 0 ==>
            && o.heap.blocks == h.blocks + [Range(o.p, AlignUp(size))]
            && o.p % 16 == 0 && size <= AlignUp(size)
            && InSomeRegion(o.heap.regions, Range(o.p, AlignUp(size)))
            && forall k | 0 <= k < |h.blocks| :: h.blocks[k].Apart(Range(o.p, AlignUp(size))))
  }

  lemma MallocReadySound(h: Heap, size: nat, reply: Reply)
    requires Sound(h) && h.regions != []
    requires Grantable(h.regions, ExtendLen(AlignUp(size)), reply)
    ensures var o := MallocReady(h, size, reply); Sound(o.heap) && MallocDelivers(h, size, o)
  {
    var s := AlignUp(size);
    if h.ptr + s <= h.End() {
      CarveKeepsSound(h, s);
    } else if reply.Granted? {
      AddRegionKeepsSound(h, ExtendLen(s), reply);
      CarveKeepsSound(AddRegion(h, Range(reply.addr, ExtendLen(s))), s);
    }
    var o := MallocReady(h, size, reply);
    if o.p != 0 {
      var b := Range(o.p, s);
      assert o.heap.blocks[|h.blocks|] == b;
      assert BlockSound(o.heap, b);
      forall k | 0 <= k < |h.blocks|
        ensures h.blocks[k].Apart(b)
      {
        assert o.heap.blocks[k] == h.blocks[k];
      }
    }
  }

  lemma MallocSound(h: Heap, size: nat, first: Reply, extension: Reply)
    requires Sound(h) && MallocAnswers(h, size, first, extension)
    ensures var o := Malloc(h, size, first, extension);
      (o.Returned? ==> Sound(o.heap)) && MallocDelivers(h, size, o)
  {
    if h.regions != [] {
      MallocReadySound(h, size, extension);
    } else if first.Granted? {
      AddRegionKeepsSound(h, HEAP_INITIAL_SIZE, first);
      MallocReadySound(MemInit(h, first).heap, size, extension);
    }
  }

  // ---- What a region has room for ----

  /** An aligned request is served at the bump pointer, and no region is added, exactly when it fits into
      what is left; otherwise the kernel decides. */
  lemma ServedInPlace(h: Heap, t: nat, reply: Reply)
    requires h.regions != [] && t % 16 == 0
    ensures var o := MallocReady(h, t, reply);
      if t <= h.End() - h.ptr then
        o.p == h.ptr && o.heap.regions == h.regions && o.heap.ptr == h.ptr + t
      else
        o.p == (if reply.Denied? then 0 else reply.addr) && (reply.Denied? ==> o.heap == h)
  {
    assert AlignUp(t) == t;
  }

  /** What an extending malloc leaves behind: its block stands at the start of the new region, and the next
      aligned request t is served right after it, whatever the kernel answers, exactly when both together
      are within 1 MiB, or, for a block s of 1 MiB or more, within twice s. */
  lemma ExtensionLeaves(h: Heap, size: nat, a: int, t: nat, reply: Reply)
    requires h.regions != [] && t % 16 == 0
    requires (size + 15) / 16 * 16 > h.End() - h.ptr
    ensures var s := (size + 15) / 16 * 16;
      var o := MallocReady(h, size, Granted(a));
      && o.p == a && o.heap.regions != []
      && var next := MallocReady(o.heap, t, reply);
         if s + t <= (if s < 0x10_0000 then 0x10_0000 else 2 * s) then
           next.p == a + s && next.heap.regions == o.heap.regions
         else next.p == if reply.Denied? then 0 else reply.addr
  {
    var o := MallocReady(h, size, Granted(a));
    ServedInPlace(o.heap, t, reply);
    hide AlignUp;
  }

  /** And the first region has room for 1 MiB. */
  lemma FirstRegionHolds(a: int, t: nat, reply: Reply)
    requires t % 16 == 0
    ensures var o := Malloc(EMPTY_HEAP, t, Granted(a), reply);
      o.Returned? && o.p == if t <= 0x10_0000 then a else if reply.Denied? then 0 else reply.addr
  {
    ServedInPlace(MemInit(EMPTY_HEAP, Granted(a)).heap, t, reply);
  }

  // ---- Runs ----

  /** A call, with what the kernel answers should it be asked. */
  datatype Call =
    | CallInit(first: Reply)
    | CallMalloc(size: nat, first: Reply, extension: Reply)
    | CallCalloc(nmemb: uint64, each: uint64, first: Reply, extension: Reply)
    | CallFree(p: int)

  function Step(h: Heap, c: Call): Outcome {
    match c
    case CallInit(first) => MemInit(h, first)
    case CallMalloc(size, first, extension) => Malloc(h, size, first, extension)
    case CallCalloc(nmemb, each, first, extension) => Malloc(h, Mul64(nmemb, each), first, extension)
    case CallFree(_) => Returned(h, 0)
  }

  /** The kernel keeps its side, and the heap is initialised at most once. */
  ghost predicate Answered(h: Heap, c: Call) {
    match c
    case CallInit(first) => h.regions == [] && Grantable([], HEAP_INITIAL_SIZE, first)
    case CallMalloc(size, first, extension) => MallocAnswers(h, size, first, extension)
    case CallCalloc(nmemb, each, first, extension) => MallocAnswers(h, Mul64(nmemb, each), first, extension)
    case CallFree(_) => true
  }

  /** The calls run one after the other; nothing runs after a panic. */
  function Run(h: Heap, calls: seq<Call>): Outcome
    decreases calls
  {
    if calls == [] then Returned(h, 0)
    else
      var o := Step(h, calls[0]);
      if o.Panicked? then Panicked else Run(o.heap, calls[1..])
  }

  ghost predicate Possible(h: Heap, calls: seq<Call>)
    decreases calls
  {
    calls != [] ==>
      && Answered(h, calls[0])
      && (Step(h, calls[0]).Returned? ==> Possible(Step(h, calls[0]).heap, calls[1..]))
  }

  lemma {:induction false} RunSnoc(h: Heap, calls: seq<Call>, g: Heap, c: Call)
    requires Possible(h, calls) && Run(h, calls) == Returned(g, 0)
    requires Answered(g, c) && Step(g, c).Returned?
    ensures Possible(h, calls + [c]) && Run(h, calls + [c]) == Returned(Step(g, c).heap, 0)
    decreases calls
  {
    hide Step, Answered;
    if calls == [] {
      assert [] + [c] == [c] && [c][1..] == [];
      assert Run(Step(g, c).heap, []) == Returned(Step(g, c).heap, 0);
    } else {
      assert (calls + [c])[1..] == calls[1..] + [c];
      RunSnoc(Step(h, calls[0]).heap, calls[1..], g, c);
    }
  }

  /** The first call that needs the heap finds its first region refused. */
  predicate StartsRefused(calls: seq<Call>) {
    calls != [] && if calls[0].CallFree? then StartsRefused(calls[1..]) else calls[0].first.Denied?
  }

  /** A run stops in a panic exactly when it begins without a heap and the first call to need one has
      the first region refused: no refusal after that can stop the process. */
  lemma {:induction false} RunPanics(h: Heap, calls: seq<Call>)
    requires Possible(h, calls)
    ensures Run(h, calls).Panicked? <==> h.regions == [] && StartsRefused(calls)
    decreases calls
  {
    if calls != [] {
      StepPanics(h, calls[0]);
      hide Step, Answered;
      if Step(h, calls[0]).Returned? { RunPanics(Step(h, calls[0]).heap, calls[1..]); }
    }
  }

  lemma StepPanics(h: Heap, c: Call)
    requires Answered(h, c)
    ensures Step(h, c).Panicked? <==> h.regions == [] && !c.CallFree? && c.first.Denied?
    ensures Step(h, c).Returned? && !c.CallFree? ==> Step(h, c).heap.regions != []
    ensures c.CallFree? ==> Step(h, c) == Returned(h, 0)
    ensures Step(h, c).Returned? && h.regions != [] ==> Step(h, c).heap.regions != []
  {
    hide AlignUp, ExtendLen, Grantable, Mul64;
  }

  lemma StepSound(h: Heap, c: Call)
    requires Sound(h) && Answered(h, c)
    ensures Step(h, c).Returned? ==> Sound(Step(h, c).heap) && h.blocks <= Step(h, c).heap.blocks
  {
    match c
    case CallInit(first) =>
      if first.Granted? { AddRegionKeepsSound(h, HEAP_INITIAL_SIZE, first); }
    case CallMalloc(size, first, extension) => MallocSound(h, size, first, extension);
    case CallCalloc(nmemb, each, first, extension) => MallocSound(h, Mul64(nmemb, each), first, extension);
    case CallFree(_) =>
  }

  /** Whatever is called and whatever the kernel refuses: every block ever handed out stays aligned,
      inside one region, and apart from every other block. */
  lemma {:induction false} EveryRunIsSound(h: Heap, calls: seq<Call>)
    requires Sound(h) && Possible(h, calls)
    ensures Run(h, calls).Returned? ==> Sound(Run(h, calls).heap) && h.blocks <= Run(h, calls).heap.blocks
    decreases calls
  {
    if calls != [] {
      StepSound(h, calls[0]);
      if Step(h, calls[0]).Returned? {
        EveryRunIsSound(Step(h, calls[0]).heap, calls[1..]);
      }
    }
  }

  // ---- Space ----

  /** The bytes of a list of ranges. */
  function Total(rs: seq<Range>): int {
    if rs == [] then 0 else Total(rs[..|rs| - 1]) + rs[|rs| - 1].len
  }

  lemma TotalPush(rs: seq<Range>, r: Range)
    ensures Total(rs + [r]) == Total(rs) + r.len
  {
    assert (rs + [r])[..|rs|] == rs;
  }

  /** The aligned bytes handed out of the current region. */
  function InCurrent(h: Heap): int {
    if h.regions == [] then 0 else h.ptr - h.Current().base
  }

  function Max(a: int, b: int): int {
    if a < b then b else a
  }

  /** The next-fit account: `opener` is the request that opened the current region (0 for the first
      region); each abandoned region is paid for by its own blocks and the opener of the next. */
  ghost predicate SpaceInv(h: Heap, opener: int) {
    && (h.regions == [] ==> h.blocks == [])
    && (h.regions != [] ==>
          && 0 <= opener <= InCurrent(h)
          && h.Current().len == ExtendLen(opener)
          && Total(h.regions[..|h.regions| - 1]) <= 2 * (Total(h.blocks) - InCurrent(h)) + opener)
  }

  lemma InitSpace(h: Heap, reply: Reply)
    requires h.regions == [] && h.blocks == [] && reply.Granted?
    ensures SpaceInv(MemInit(h, reply).heap, 0)
  {
    var h' := MemInit(h, reply).heap;
    assert h'.regions[..0] == [];
  }

  lemma MallocReadySpace(h: Heap, size: nat, reply: Reply, opener: int) returns (opener': int)
    requires h.regions != [] && SpaceInv(h, opener)
    ensures SpaceInv(MallocReady(h, size, reply).heap, opener')
  {
    var s := AlignUp(size);
    var h' := MallocReady(h, size, reply).heap;
    opener' := opener;
    if h.ptr + s <= h.End() {
      TotalPush(h.blocks, Range(h.ptr, s));
    } else if reply.Granted? {
      TotalPush(h.blocks, Range(reply.addr, s));
      opener' := s;
      assert h'.regions[..|h'.regions| - 1] == h.regions;
      assert h.regions == h.regions[..|h.regions| - 1] + [h.Current()];
    }
  }

  lemma StepSpace(h: Heap, c: Call, opener: int) returns (opener': int)
    requires SpaceInv(h, opener) && Answered(h, c)
    ensures Step(h, c).Returned? ==> SpaceInv(Step(h, c).heap, opener')
  {
    opener' := opener;
    match c
    case CallInit(first) =>
      if first.Granted? { InitSpace(h, first); opener' := 0; }
    case CallMalloc(size, first, extension) => opener' := MallocSpace(h, size, first, extension, opener);
    case CallCalloc(nmemb, each, first, extension) =>
      opener' := MallocSpace(h, Mul64(nmemb, each), first, extension, opener);
    case CallFree(_) =>
  }

  lemma MallocSpace(h: Heap, size: nat, first: Reply, extension: Reply, opener: int) returns (opener': int)
    requires SpaceInv(h, opener)
    ensures Malloc(h, size, first, extension).Returned? ==>
              SpaceInv(Malloc(h, size, first, extension).heap, opener')
  {
    opener' := opener;
    if h.regions != [] {
      opener' := MallocReadySpace(h, size, extension, opener);
    } else if first.Granted? {
      InitSpace(h, first);
      opener' := MallocReadySpace(MemInit(h, first).heap, size, extension, 0);
    }
  }

  lemma {:induction false} RunSpace(h: Heap, calls: seq<Call>, opener: int) returns (opener': int)
    requires SpaceInv(h, opener) && Possible(h, calls)
    ensures Run(h, calls).Returned? ==> SpaceInv(Run(h, calls).heap, opener')
    decreases calls
  {
    opener' := opener;
    if calls != [] {
      opener' := StepSpace(h, calls[0], opener);
      if Step(h, calls[0]).Returned? {
        opener' := RunSpace(Step(h, calls[0]).heap, calls[1..], opener');
      }
    }
  }

  /** The space bound of the next-fit heap, over every run from the empty heap: what the kernel
      granted is at most twice what was handed out, plus the larger of 1 MiB and what was handed
      out of the current region. */
  lemma SpaceBound(calls: seq<Call>)
    requires Possible(EMPTY_HEAP, calls) && Run(EMPTY_HEAP, calls).Returned?
    ensures var h := Run(EMPTY_HEAP, calls).heap;
      Total(h.regions) <= 2 * Total(h.blocks) + Max(HEAP_INITIAL_SIZE, InCurrent(h))
  {
    var opener := RunSpace(EMPTY_HEAP, calls, 0);
    var h := Run(EMPTY_HEAP, calls).heap;
    if h.regions != [] {
      assert h.regions == h.regions[..|h.regions| - 1] + [h.Current()];
    }
  }

  // ---- The factor two cannot be improved ----

  /** The current region has no 32 bytes left, and every region lies below a. */
  ghost predicate Exhausted(h: Heap, a: int) {
    && (h.regions == [] ==> h == EMPTY_HEAP)
    && (h.regions != [] ==> h.End() - h.ptr < 32)
    && 0 < a && a % PAGE_SIZE == 0
    && forall i | 0 <= i < |h.regions| :: h.regions[i].base + h.regions[i].len <= a
  }

  /** The heap after a request of s bytes opened a 1 MiB region at a. */
  function Opened(h: Heap, a: int, s: nat): Heap {
    Heap(h.regions + [Range(a, HEAP_INITIAL_SIZE)], a + s, h.blocks + [Range(a, s)])
  }

  lemma OpenRegion(h: Heap, a: int, s: nat) returns (c: Call)
    requires Exhausted(h, a) && a + HEAP_INITIAL_SIZE <= USER_SPACE_END
    requires 32 <= s < HEAP_INITIAL_SIZE && s % 16 == 0
    ensures Answered(h, c) && Step(h, c) == Returned(Opened(h, a, s), a)
    ensures Total(Opened(h, a, s).regions) == Total(h.regions) + HEAP_INITIAL_SIZE
    ensures Total(Opened(h, a, s).blocks) == Total(h.blocks) + s
  {
    assert AlignUp(s) == s;
    c := CallMalloc(s, Granted(a), if h.regions == [] then Denied else Granted(a));
    TotalPush(h.regions, Range(a, HEAP_INITIAL_SIZE));
    TotalPush(h.blocks, Range(a, s));
  }

  /** A request that only a fresh region can hold, when 32 bytes of the current one are in use. */
  lemma OpenAfterSmall(h: Heap, a: int) returns (c: Call)
    requires Exhausted(h, a) && a + 2 * HEAP_INITIAL_SIZE <= USER_SPACE_END
    ensures var g, s := Opened(h, a, 32), HEAP_INITIAL_SIZE - 16;
      && Answered(g, c)
      && Step(g, c) == Returned(Opened(g, a + HEAP_INITIAL_SIZE, s), a + HEAP_INITIAL_SIZE)
      && Exhausted(Opened(g, a + HEAP_INITIAL_SIZE, s), a + 2 * HEAP_INITIAL_SIZE)
      && Total(Opened(g, a + HEAP_INITIAL_SIZE, s).regions) == Total(g.regions) + HEAP_INITIAL_SIZE
      && Total(Opened(g, a + HEAP_INITIAL_SIZE, s).blocks) == Total(g.blocks) + s
  {
    var g, s := Opened(h, a, 32), HEAP_INITIAL_SIZE - 16;
    assert AlignUp(s) == s;
    c := CallMalloc(s, Denied, Granted(a + HEAP_INITIAL_SIZE));
    TotalPush(g.regions, Range(a + HEAP_INITIAL_SIZE, HEAP_INITIAL_SIZE));
    TotalPush(g.blocks, Range(a + HEAP_INITIAL_SIZE, s));
  }

  lemma RunCons(h: Heap, c: Call, rest: seq<Call>)
    requires Answered(h, c) && Step(h, c).Returned? && Possible(Step(h, c).heap, rest)
    ensures Possible(h, [c] + rest) && Run(h, [c] + rest) == Run(Step(h, c).heap, rest)
  {
    assert ([c] + rest)[1..] == rest;
  }

  /** A 32-byte request, then one that only a fresh region can hold, n times over: two regions for
      little more than one region's worth of blocks. */
  lemma {:induction false} WastefulRun(h: Heap, a: int, n: nat) returns (calls: seq<Call>, f: Heap)
    requires Exhausted(h, a) && a + n * 0x20_0000 <= USER_SPACE_END
    ensures Possible(h, calls) && Run(h, calls).Returned? && Run(h, calls).heap == f
    ensures Total(f.regions) == Total(h.regions) + n * 0x20_0000
    ensures Total(f.blocks) == Total(h.blocks) + n * 0x10_0010
    decreases n
  {
    if n == 0 {
      calls, f := [], h;
    } else {
      var c1 := OpenRegion(h, a, 32);
      var c2 := OpenAfterSmall(h, a);
      var h1 := Opened(h, a, 32);
      var h2 := Opened(h1, a + HEAP_INITIAL_SIZE, HEAP_INITIAL_SIZE - 16);
      var rest;
      rest, f := WastefulRun(h2, a + 2 * HEAP_INITIAL_SIZE, n - 1);
      calls := [c1] + ([c2] + rest);
      RunCons(h1, c2, rest);
      RunCons(h, c1, [c2] + rest);
    }
  }

  /** There are runs, as long as the address space allows, whose granted bytes are twice the bytes
      handed out but for 32 bytes in each two regions: the factor in SpaceBound is the right one. */
  lemma FactorTwoIsReached(n: nat) returns (calls: seq<Call>)
    requires n <= 0x1_0000_0000
    ensures Possible(EMPTY_HEAP, calls) && Run(EMPTY_HEAP, calls).Returned?
    ensures var h := Run(EMPTY_HEAP, calls).heap;
      && Total(h.regions) == n * (2 * HEAP_INITIAL_SIZE)
      && Total(h.regions) == 2 * Total(h.blocks) - 32 * n
  {
    var f;
    calls, f := WastefulRun(EMPTY_HEAP, PAGE_SIZE, n);
  }
}
