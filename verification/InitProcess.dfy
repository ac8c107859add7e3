/** init/src/main.c: how PID 1 boots and serves, over what the kernel answers. */
module InitProcess {
  import opened Machine
  import opened Memory
  import opened HeapModel
  import opened HeapImpl
  import opened MachMessages

  /** A call to the kernel, with its answer. */
  datatype KernelCall =
    | VmAllocate(len: nat, reply: Reply)
    | PortAllocate(right: uint32, kr: int, name: uint32)
    | InsertRight(name: uint32, poly: uint32, kind: uint32, kr: int)
    | SetBootstrapPort(port: uint32, kr: int)
    | Receive(port: uint32, answer: Receipt)
    | Send(message: Header)

  /** What the kernel answers during the boot. */
  datatype BootAnswers = BootAnswers(heap: Reply, allocate: int, name: uint32, insert: int, bootstrap: int)

  datatype BootEnd = Looping | PanickedNoHeap | PanickedNoPort | PanickedNoRight | PanickedSelfTest

  /** The kernel calls of the port set-up, each only after the one before it succeeded; that the
      registration of the bootstrap port may fail is of no consequence. */
  function SetupCalls(a: BootAnswers): seq<KernelCall> {
    [PortAllocate(MACH_PORT_RIGHT_RECEIVE, a.allocate, a.name)] +
    if a.allocate != KERN_SUCCESS then []
    else
      [InsertRight(a.name, a.name, MACH_MSG_TYPE_MAKE_SEND, a.insert)] +
      if a.insert != KERN_SUCCESS then [] else [SetBootstrapPort(a.name, a.bootstrap)]
  }

  function BootCalls(a: BootAnswers): seq<KernelCall> {
    [VmAllocate(HEAP_INITIAL_SIZE, a.heap)] + if a.heap.Denied? then [] else SetupCalls(a)
  }

  predicate BootSucceeds(a: BootAnswers) {
    a.heap.Granted? && a.allocate == KERN_SUCCESS && a.insert == KERN_SUCCESS
  }

  /** The kernel calls of one round of the loop. */
  function Round(port: uint32, r: Receipt): seq<KernelCall> {
    if r.Received? && WantsReply(r.header) then [Receive(port, r), Send(SimpleMessage(r.header.remote, PONG))]
    else [Receive(port, r)]
  }

  /** The kernel calls of the loop over the given answers. */
  function LoopCalls(port: uint32, answers: seq<Receipt>): seq<KernelCall> {
    if answers == [] then []
    else LoopCalls(port, answers[..|answers| - 1]) + Round(port, answers[|answers| - 1])
  }

  function Sent(calls: seq<KernelCall>): seq<Header> {
    if calls == [] then []
    else
      var n := |calls| - 1;
      Sent(calls[..n]) + (if calls[n].Send? then [calls[n].message] else [])
  }

  lemma {:induction false} SentAppend(c: seq<KernelCall>, d: seq<KernelCall>)
    ensures Sent(c + d) == Sent(c) + Sent(d)
  {
    if d == [] {
      assert c + d == c;
    } else {
      assert (c + d)[..|c + d| - 1] == c + d[..|d| - 1];
      SentAppend(c, d[..|d| - 1]);
    }
  }

  lemma RoundSends(port: uint32, r: Receipt)
    ensures Sent(Round(port, r)) ==
            if r.Received? && WantsReply(r.header) then [SimpleMessage(r.header.remote, PONG)] else []
  {
    var c := Round(port, r);
    assert c[..1] == [Receive(port, r)];
    assert Sent([Receive(port, r)]) == [];
  }

  lemma InboxStep(answers: seq<Receipt>)
    requires answers != []
    ensures var r := answers[|answers| - 1];
      Replies(Inbox(answers)) == Replies(Inbox(answers[..|answers| - 1])) +
      if r.Received? && WantsReply(r.header) then [SimpleMessage(r.header.remote, PONG)] else []
  {
    var r, inbox := answers[|answers| - 1], Inbox(answers[..|answers| - 1]);
    if r.Received? {
      assert (inbox + [r.header])[..|inbox|] == inbox;
    } else {
      assert inbox + [] == inbox;
    }
  }

  /** Whatever errors come between, what the loop sends is the replies to the messages received. */
  lemma {:induction false} LoopSendsReplies(port: uint32, answers: seq<Receipt>)
    ensures Sent(LoopCalls(port, answers)) == Replies(Inbox(answers))
  {
    if answers != [] {
      var n := |answers| - 1;
      InboxStep(answers);
      LoopSendsReplies(port, answers[..n]);
      RoundSends(port, answers[n]);
      SentAppend(LoopCalls(port, answers[..n]), Round(port, answers[n]));
    }
  }

  /** What the kernel answered to the receives, in order. */
  function Receipts(calls: seq<KernelCall>): seq<Receipt> {
    if calls == [] then []
    else
      var n := |calls| - 1;
      Receipts(calls[..n]) + (if calls[n].Receive? then [calls[n].answer] else [])
  }

  lemma RoundReceives(c: seq<KernelCall>, port: uint32, r: Receipt)
    ensures Receipts(c + Round(port, r)) == Receipts(c) + [r]
  {
    var d := c + [Receive(port, r)];
    assert d[..|c|] == c;
    assert Receipts(d) == Receipts(c) + [r];
    if r.Received? && WantsReply(r.header) {
      var send := Send(SimpleMessage(r.header.remote, PONG));
      assert c + Round(port, r) == d + [send];
      assert (d + [send])[..|d|] == d;
    }
  }

  /** The loop receives once for each answer, whatever the answers are: no error ends it. */
  lemma {:induction false} LoopReceivesEach(port: uint32, answers: seq<Receipt>)
    ensures Receipts(LoopCalls(port, answers)) == answers
  {
    if answers != [] {
      var n := |answers| - 1;
      LoopReceivesEach(port, answers[..n]);
      RoundReceives(LoopCalls(port, answers[..n]), port, answers[n]);
      assert answers == answers[..n] + [answers[n]];
      hide Receipts, Round;
    }
  }

  /** The two receives have the same outcome, except for what a failure leaves in the buffer and why. */
  predicate SameOutcome(r: Receipt, r': Receipt) {
    if r.Received? then r == r' else r'.Failed?
  }

  /** The buffer is used again for every receive, but what a failed one leaves there, be it an old ping,
      never causes a reply. */
  lemma {:induction false} LeftoversAreNotAnswered(port: uint32, answers: seq<Receipt>, answers': seq<Receipt>)
    requires |answers| == |answers'|
    requires forall i | 0 <= i < |answers| :: SameOutcome(answers[i], answers'[i])
    ensures Inbox(answers) == Inbox(answers')
    ensures Sent(LoopCalls(port, answers)) == Sent(LoopCalls(port, answers'))
  {
    LoopSendsReplies(port, answers);
    LoopSendsReplies(port, answers');
    if answers != [] {
      var n := |answers| - 1;
      hide LoopCalls, Sent, Replies;
      LeftoversAreNotAnswered(port, answers[..n], answers'[..n]);
      assert SameOutcome(answers[n], answers'[n]);
    }
  }

  /** Before position i the port was allocated with a receive right and then given a send right, and both
      succeeded. */
  ghost predicate OwnedBefore(calls: seq<KernelCall>, i: int, port: uint32) {
    exists j, k :: Owned(calls, j, k, port) && k < i
  }

  predicate Owned(calls: seq<KernelCall>, j: int, k: int, port: uint32) {
    0 <= j < k < |calls| && calls[j] == PortAllocate(1, 0, port) && calls[k] == InsertRight(port, port, 20, 0)
  }

  predicate Registers(call: KernelCall, port: uint32) {
    call.SetBootstrapPort? && call.port == port
  }

  /** A call whose failure ends the boot. */
  predicate IsFatal(call: KernelCall) {
    match call
    case VmAllocate(_, reply) => reply.Denied?
    case PortAllocate(_, kr, _) => kr != 0
    case InsertRight(_, _, _, kr) => kr != 0
    case _ => false
  }

  /** At any time: a receive is on a port that was registered as the bootstrap port before; what is
      registered is a port allocated and given a send right before, and nothing is registered twice; any
      send answers the ping received just before it, to the port that the ping names; and nothing is called
      after a failure of the allocations or of the send right. */
  ghost predicate WellOrdered(calls: seq<KernelCall>) {
    && (forall i | 0 <= i < |calls| && calls[i].Receive? ::
          exists l :: 0 <= l < i && Registers(calls[l], calls[i].port))
    && (forall l | 0 <= l < |calls| && calls[l].SetBootstrapPort? :: OwnedBefore(calls, l, calls[l].port))
    && (forall l, m | 0 <= l < m < |calls| :: !calls[l].SetBootstrapPort? || !calls[m].SetBootstrapPort?)
    && (forall i | 0 <= i < |calls| && calls[i].Send? :: AnswersPing(calls, i))
    && (forall i | 0 <= i < |calls| && IsFatal(calls[i]) :: i == |calls| - 1)
  }

  /** The call at i sends the answer to the ping received just before. */
  predicate AnswersPing(calls: seq<KernelCall>, i: int)
    requires 0 <= i < |calls|
  {
    && i > 0 && calls[i - 1].Receive? && calls[i - 1].answer.Received? && calls[i].Send?
    && var ping, pong := calls[i - 1].answer.header, calls[i].message;
       && ping.id == 0x4A4C_0001 && ping.remote != 0
       && pong.id == 0x4A4C_8001 && pong.remote == ping.remote
       && pong.bits == 19 && pong.size == 24 && pong.local == 0 && pong.voucher == 0
  }

  lemma {:induction false} LoopCallsAre(port: uint32, answers: seq<Receipt>, i: nat)
    requires i < |LoopCalls(port, answers)|
    ensures var c := LoopCalls(port, answers);
      if c[i].Send? then AnswersPing(c, i) else c[i].Receive? && c[i].port == port
  {
    var n := |answers| - 1;
    var before := LoopCalls(port, answers[..n]);
    if i < |before| {
      LoopCallsAre(port, answers[..n], i);
    }
  }

  lemma BootCallsAre(a: BootAnswers, i: nat)
    requires i < |BootCalls(a)|
    ensures var b := BootCalls(a);
      && b[0] == VmAllocate(0x10_0000, a.heap) && !b[i].Receive? && !b[i].Send?
      && (b[i].SetBootstrapPort? ==> i == 3 && Registers(b[3], a.name) && Owned(b, 1, 2, a.name))
      && (BootSucceeds(a) <==> |b| == 4) && (|b| == 4 ==> b[3].SetBootstrapPort?)
      && (IsFatal(b[i]) ==> i == |b| - 1 && !BootSucceeds(a))
  {
  }

  lemma CallIs(a: BootAnswers, answers: seq<Receipt>, i: nat)
    requires BootSucceeds(a) || answers == []
    requires i < |BootCalls(a) + LoopCalls(a.name, answers)|
    ensures var c := BootCalls(a) + LoopCalls(a.name, answers);
      && (c[i].Send? ==> AnswersPing(c, i))
      && (c[i].Receive? ==> c[i].port == a.name && BootSucceeds(a) && i > 3 && Registers(c[3], a.name))
      && (c[i].SetBootstrapPort? ==> i == 3 && c[i].port == a.name && Owned(c, 1, 2, a.name))
      && (IsFatal(c[i]) ==> i == |c| - 1)
  {
    var b, l := BootCalls(a), LoopCalls(a.name, answers);
    var c := b + l;
    BootCallsAre(a, 0);
    if i < |b| {
      BootCallsAre(a, i);
      assert c[i] == b[i];
    } else {
      LoopCallsAre(a.name, answers, i - |b|);
      assert c[i] == l[i - |b|];
      if i > |b| { assert c[i - 1] == l[i - 1 - |b|]; }
    }
  }

  /** Over every boot and every run of the loop that follows a successful boot; and a successful boot does
      register its port. */
  lemma EveryRunIsWellOrdered(a: BootAnswers, answers: seq<Receipt>)
    requires BootSucceeds(a) || answers == []
    ensures WellOrdered(BootCalls(a) + LoopCalls(a.name, answers))
    ensures BootSucceeds(a) <==> exists l :: 0 <= l < |BootCalls(a)| && Registers(BootCalls(a)[l], a.name)
    ensures |BootCalls(a)| > 0 && BootCalls(a)[0] == VmAllocate(0x10_0000, a.heap)
  {
    BootCallsAre(a, 0);
    var c, b := BootCalls(a) + LoopCalls(a.name, answers), BootCalls(a);
    hide BootCalls, LoopCalls, AnswersPing, Registers, Owned, IsFatal;
    forall i: nat | i < |c|
      ensures c[i].Send? ==> AnswersPing(c, i)
      ensures c[i].Receive? ==> exists l :: 0 <= l < i && Registers(c[l], c[i].port)
      ensures c[i].SetBootstrapPort? ==> i == 3 && OwnedBefore(c, i, c[i].port)
      ensures IsFatal(c[i]) ==> i == |c| - 1
    {
      CallIs(a, answers, i);
    }
    BootRegisters(a);
  }

  lemma BootRegisters(a: BootAnswers)
    ensures BootSucceeds(a) <==> exists l :: 0 <= l < |BootCalls(a)| && Registers(BootCalls(a)[l], a.name)
  {
    var b := BootCalls(a);
    forall l: nat | l < |b|
      ensures Registers(b[l], a.name) ==> BootSucceeds(a)
      ensures BootSucceeds(a) ==> |b| == 4 && Registers(b[3], a.name)
    {
      BootCallsAre(a, l);
    }
    BootCallsAre(a, 0);
  }

  /** The heap after mem_init. */
  lemma FirstHeap(reply: Reply, h: Heap)
    ensures HeapModel.MemInit(EMPTY_HEAP, reply) == Returned(h, 0) ==>
              && reply.Granted? && h.regions == [Range(reply.addr, 0x10_0000)]
              && h.ptr == reply.addr && h.blocks == []
    ensures HeapModel.MemInit(EMPTY_HEAP, reply).Panicked? <==> reply.Denied?
  {
  }

  class Init {
    var bootstrapPort: uint32
    const heap: Heap64
    ghost var calls: seq<KernelCall>

    constructor (heap: Heap64)
      ensures this.heap == heap && bootstrapPort == MACH_PORT_NULL && calls == []
    {
      bootstrapPort := MACH_PORT_NULL;
      this.heap := heap;
      calls := [];
    }

    /** The end of the boot that the answers lead to; the process goes on only if it is Looping. */
    method SetupBootstrapPort(a: BootAnswers) returns (end: BootEnd)
      modifies this
      ensures calls == old(calls) + SetupCalls(a)
      ensures end == if a.allocate != 0 then PanickedNoPort else if a.insert != 0 then PanickedNoRight else Looping
      ensures bootstrapPort == if end.Looping? then a.name else old(bootstrapPort)
    {
      var kr := a.allocate;
      calls := calls + [PortAllocate(MACH_PORT_RIGHT_RECEIVE, kr, a.name)];
      if kr != KERN_SUCCESS {
        return PanickedNoPort;
      }
      var portName := a.name;
      kr := a.insert;
      calls := calls + [InsertRight(portName, portName, MACH_MSG_TYPE_MAKE_SEND, kr)];
      if kr != KERN_SUCCESS {
        return PanickedNoRight;
      }
      // A refused registration is only reported.
      calls := calls + [SetBootstrapPort(portName, a.bootstrap)];
      bootstrapPort := portName;
      end := Looping;
    }

    /** Builds the message field by field in a local struct and hands it to the kernel. */
    method SendSimple(remote: uint32, id: uint32)
      modifies this`calls
      ensures calls == old(calls) + [Send(Header(19, 24, remote, 0, 0, id))]
    {
      var msg: Header := *;
      msg := msg.(bits := MACH_MSG_TYPE_COPY_SEND + 0x100 * 0);
      msg := msg.(size := 24);
      msg := msg.(remote := remote);
      msg := msg.(local := MACH_PORT_NULL);
      msg := msg.(voucher := 0);
      msg := msg.(id := id);
      calls := calls + [Send(msg)];
    }

    method RecvSimple(port: uint32, answer: Receipt) returns (kr: int, out: Header)
      modifies this`calls
      ensures calls == old(calls) + [Receive(port, answer)]
      ensures kr == Code(answer) && out == Buffer(answer)
    {
      calls := calls + [Receive(port, answer)];
      kr, out := Code(answer), Buffer(answer);
    }

    /** As many rounds of the endless loop as there are answers. */
    method ServiceLoop(answers: seq<Receipt>)
      requires forall i | 0 <= i < |answers| :: Genuine(answers[i])
      modifies this`calls
      ensures calls == old(calls) + LoopCalls(bootstrapPort, answers)
    {
      var msg: Header := *;
      var i := 0;
      while i < |answers|
        invariant 0 <= i <= |answers|
        invariant calls == old(calls) + LoopCalls(bootstrapPort, answers[..i])
      {
        assert answers[..i + 1][..i] == answers[..i];
        assert LoopCalls(bootstrapPort, answers[..i + 1])
            == LoopCalls(bootstrapPort, answers[..i]) + Round(bootstrapPort, answers[i]);
        assert Genuine(answers[i]);
        hide LoopCalls, SimpleMessage;
        var kr;
        kr, msg := RecvSimple(bootstrapPort, answers[i]);
        i := i + 1;
        if kr != KERN_SUCCESS {
          continue;
        }
        if msg.id == PING {
          if msg.remote != MACH_PORT_NULL {
            SendSimple(msg.remote, PING + 0x8000);
          }
        }
      }
      assert answers[..i] == answers;
    }

    /** `mem_init`: after it the heap is one empty region. */
    method InitHeap(a: BootAnswers) returns (up: bool)
      requires heap.Valid() && heap.model == EMPTY_HEAP
      requires KernelMayAnswer(heap.memory.bytes, HEAP_INITIAL_SIZE, a.heap)
      modifies this`calls, heap, heap.memory
      ensures heap.Valid() && up == a.heap.Granted?
      ensures calls == old(calls) + [VmAllocate(HEAP_INITIAL_SIZE, a.heap)]
      ensures up ==>
                && heap.model.regions == [Range(a.heap.addr, HEAP_INITIAL_SIZE)]
                && heap.model.ptr == a.heap.addr > 0 && heap.model.blocks == []
    {
      GrantIsAddressable(heap.memory.bytes, HEAP_INITIAL_SIZE, a.heap);
      hide Heap64.Consistent, Heap64.Reached, KernelMayAnswer, Extends, Addresses;
      hide Possible, Run, Sound, RegionsMapped, HeapModel.MemInit;
      up := heap.MemInit(a.heap);
      FirstHeap(a.heap, heap.model);
      calls := calls + [VmAllocate(HEAP_INITIAL_SIZE, a.heap)];
    }

    /** 63 letters J and a NUL. */
    method Fill(buf: uint64)
      requires heap.Valid() && MappedIn(heap.memory.bytes, buf, 64)
      modifies heap.memory
      ensures heap.Valid() && IsCString(heap.memory.bytes, buf, 63)
      ensures forall x | buf <= x < buf + 63 :: heap.memory.bytes[x] == 0x4A
    {
      ghost var m := heap.memory.bytes;
      var _ := heap.memory.Memset(buf, 'J' as int, 63);
      heap.memory.bytes := heap.memory.bytes[buf + 63 := 0];
      hide Possible, Run, Sound, RegionsMapped;
      RegionsStayMapped(heap.model.regions, m, heap.memory.bytes);
    }

    /** malloc(64), filled with 63 letters and a NUL. The fresh heap has room, so the kernel is not
        asked for more. */
    method SelfTest() returns (ok: bool)
      requires heap.Valid() && heap.model.regions != [] && heap.model.blocks == []
      requires heap.model.ptr + 64 <= heap.model.End() && heap.model.ptr > 0
      modifies heap, heap.memory
      ensures ok && heap.Valid()
      ensures heap.model.blocks == [Range(old(heap.model).ptr, 64)]
      ensures IsCString(heap.memory.bytes, old(heap.model).ptr, 63)
      ensures forall x | 0 <= x - old(heap.model).ptr < 63 :: heap.memory.bytes[x] == 0x4A
    {
      hide Possible, Run, Sound, Heap64.Computes, Extends;
      ghost var h := heap.model;
      var buf, panicked := heap.Malloc(64, Denied, Denied);
      assert buf == h.ptr && !panicked;
      if buf == 0 {
        return false;
      }
      heap.FreshBlock(h, 64, Denied, Denied, buf);
      Fill(buf);
      ok := true;
    }

    /** `julius_start`, up to the loop and then through the given rounds of it. It reaches the loop
        exactly when the heap, the port and its send right all came; the self-test never fails. */
    method JuliusStart(a: BootAnswers, answers: seq<Receipt>) returns (end: BootEnd)
      requires heap.Valid() && heap.model == EMPTY_HEAP && calls == []
      requires KernelMayAnswer(heap.memory.bytes, HEAP_INITIAL_SIZE, a.heap)
      requires forall i | 0 <= i < |answers| :: Genuine(answers[i])
      modifies this, heap, heap.memory
      ensures end == if a.heap.Denied? then PanickedNoHeap else if a.allocate != 0 then PanickedNoPort
                     else if a.insert != 0 then PanickedNoRight else Looping
      ensures calls == BootCalls(a) + (if end.Looping? then LoopCalls(a.name, answers) else [])
      ensures end.Looping? ==>
                && bootstrapPort == a.name && heap.Valid()
                && heap.model.blocks == [Range(a.heap.addr, 64)]
                && IsCString(heap.memory.bytes, a.heap.addr, 63)
                && forall x | 0 <= x - a.heap.addr < 63 :: heap.memory.bytes[x] == 0x4A
    {
      assert BootCalls(a) + [] == BootCalls(a);
      hide Heap64.Valid, KernelMayAnswer, LoopCalls, Genuine, IsCString;
      var up := InitHeap(a);
      if !up {
        assert BootCalls(a) == [VmAllocate(HEAP_INITIAL_SIZE, a.heap)];
        return PanickedNoHeap;
      }
      end := SetupBootstrapPort(a);
      if !end.Looping? {
        return;
      }
      var ok := SelfTest();
      if !ok {
        return PanickedSelfTest;
      }
      ServiceLoop(answers);
    }
  }
}
