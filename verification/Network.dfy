/** A network of service loops that exchange header-only messages: whatever the order of delivery and
    whatever fails, it falls silent, and when nothing fails everybody hears the same things. */
module Network {
  import opened Machine
  import opened MachMessages
  import InitProcess

  /** A message on its way to the port `dest`; `reply` is the port its sender wants answers on. */
  datatype Flight = Flight(dest: uint32, reply: uint32, id: uint32)

  /** The header that the receiver of a flight sees: the kernel swaps the two ports. */
  function Delivered(f: Flight): Header {
    Header(0, 24, f.reply, f.dest, 0, f.id)
  }

  /** The flight that a sent header becomes. */
  function Launched(h: Header): Flight {
    Flight(h.remote, h.local, h.id)
  }

  /** What a service loop sends on receiving the flight. */
  function Answer(f: Flight): seq<Flight> {
    var h := Delivered(f);
    if WantsReply(h) then [Launched(SimpleMessage(h.remote, PONG))] else []
  }

  /** It is what a round of `service_loop` sends: a pong to the port the ping names, which names none. */
  lemma AnswerIsWhatTheLoopSends(f: Flight)
    ensures Answer(f) == if f.id == 0x4A4C_0001 && f.reply != 0 then [Flight(f.reply, 0, 0x4A4C_8001)] else []
    ensures var sent := InitProcess.Sent(InitProcess.Round(f.dest, Received(Delivered(f))));
      |sent| == |Answer(f)| && forall i | 0 <= i < |sent| :: Launched(sent[i]) == Answer(f)[i]
  {
    InitProcess.RoundSends(f.dest, Received(Delivered(f)));
  }

  /** One delivery: which flight arrives, whether the receive succeeds, and whether what is sent in
      answer gets under way. */
  datatype Delivery = Delivery(index: nat, received: bool, launched: bool)

  predicate CanDeliver(air: seq<Flight>, d: Delivery) {
    d.index < |air|
  }

  function Remove(air: seq<Flight>, i: nat): seq<Flight>
    requires i < |air|
  {
    air[..i] + air[i + 1..]
  }

  function Deliver(air: seq<Flight>, d: Delivery): seq<Flight>
    requires CanDeliver(air, d)
  {
    Remove(air, d.index) + (if d.received && d.launched then Answer(air[d.index]) else [])
  }

  ghost predicate IsRun(air: seq<Flight>, run: seq<Delivery>)
    decreases run
  {
    run != [] ==> CanDeliver(air, run[0]) && IsRun(Deliver(air, run[0]), run[1..])
  }

  function InTheAir(air: seq<Flight>, run: seq<Delivery>): seq<Flight>
    requires IsRun(air, run)
    decreases run
  {
    if run == [] then air else InTheAir(Deliver(air, run[0]), run[1..])
  }

  /** The flights received in the run, in order. */
  function Heard(air: seq<Flight>, run: seq<Delivery>): seq<Flight>
    requires IsRun(air, run)
    decreases run
  {
    if run == [] then []
    else (if run[0].received then [air[run[0].index]] else []) + Heard(Deliver(air, run[0]), run[1..])
  }

  // ---- It falls silent ----

  function Weight(f: Flight): nat {
    if f.id == PING then 2 else 1
  }

  function TotalWeight(air: seq<Flight>): nat {
    if air == [] then 0 else TotalWeight(air[..|air| - 1]) + Weight(air[|air| - 1])
  }

  lemma {:induction false} WeightAppend(a: seq<Flight>, b: seq<Flight>)
    ensures TotalWeight(a + b) == TotalWeight(a) + TotalWeight(b)
  {
    if b == [] {
      assert a + b == a;
    } else {
      assert (a + b)[..|a + b| - 1] == a + b[..|b| - 1];
      WeightAppend(a, b[..|b| - 1]);
    }
  }

  lemma WeightOne(f: Flight)
    ensures TotalWeight([f]) == Weight(f)
  {
    assert [f][..0] == [];
  }

  lemma Pieces(air: seq<Flight>, i: nat)
    requires i < |air|
    ensures air == air[..i] + [air[i]] + air[i + 1..]
  {
  }

  lemma WeightOfPieces(a: seq<Flight>, f: Flight, b: seq<Flight>)
    ensures TotalWeight(a + [f] + b) == TotalWeight(a + b) + Weight(f)
  {
    hide TotalWeight, Weight;
    WeightAppend(a + [f], b);
    WeightAppend(a, [f]);
    WeightAppend(a, b);
    WeightOne(f);
  }

  lemma WeightRemove(air: seq<Flight>, i: nat)
    requires i < |air|
    ensures TotalWeight(air) == TotalWeight(Remove(air, i)) + Weight(air[i])
  {
    Pieces(air, i);
    hide TotalWeight, Weight;
    WeightOfPieces(air[..i], air[i], air[i + 1..]);
  }

  lemma AnswerIsLight(f: Flight)
    ensures TotalWeight(Answer(f)) < Weight(f)
  {
    if Answer(f) != [] { WeightOne(Answer(f)[0]); }
  }

  /** Every delivery makes the air lighter: an answer weighs less than the ping it answers. */
  lemma DeliveryIsLighter(air: seq<Flight>, d: Delivery)
    requires CanDeliver(air, d)
    ensures TotalWeight(Deliver(air, d)) < TotalWeight(air)
  {
    WeightRemove(air, d.index);
    var f, rest := air[d.index], Remove(air, d.index);
    WeightAppend(rest, Answer(f));
    AnswerIsLight(f);
    assert rest + [] == rest;
    hide TotalWeight, Answer, Remove;
  }

  /** No run has more deliveries than twice the pings plus the other messages in the air at its start. */
  lemma {:induction false} EveryRunEnds(air: seq<Flight>, run: seq<Delivery>)
    requires IsRun(air, run)
    ensures |run| + TotalWeight(InTheAir(air, run)) <= TotalWeight(air)
    decreases run
  {
    if run != [] {
      DeliveryIsLighter(air, run[0]);
      EveryRunEnds(Deliver(air, run[0]), run[1..]);
    }
  }

  // ---- What the flights lead to ----

  /** The answers to all the flights. */
  function Answers(air: seq<Flight>): seq<Flight> {
    if air == [] then [] else Answers(air[..|air| - 1]) + Answer(air[|air| - 1])
  }

  lemma {:induction false} AnswersAppend(a: seq<Flight>, b: seq<Flight>)
    ensures Answers(a + b) == Answers(a) + Answers(b)
  {
    if b == [] {
      assert a + b == a;
    } else {
      assert (a + b)[..|a + b| - 1] == a + b[..|b| - 1];
      AnswersAppend(a, b[..|b| - 1]);
    }
  }

  lemma AnswersOne(f: Flight)
    ensures Answers([f]) == Answer(f)
    ensures Answers(Answer(f)) == []
  {
    assert [f][..0] == [];
    var a := Answer(f);
    if a != [] { assert a[..0] == []; }
  }

  lemma AnswersOfOne(air: seq<Flight>, i: nat)
    requires i < |air|
    ensures |Answers(air)| == |Answers(Remove(air, i))| + |Answer(air[i])|
  {
    Pieces(air, i);
    hide Answers, Answer;
    AnswersAppend(air[..i] + [air[i]], air[i + 1..]);
    AnswersAppend(air[..i], [air[i]]);
    AnswersAppend(air[..i], air[i + 1..]);
    AnswersOne(air[i]);
  }

  /** The answers are as many as the pings in the air that name a port. */
  lemma AnswersStep(air: seq<Flight>)
    requires air != []
    ensures var f := air[|air| - 1];
      |Answers(air)| == |Answers(air[..|air| - 1])| + if f.id == 0x4A4C_0001 && f.reply != 0 then 1 else 0
  {
    AnswerIsWhatTheLoopSends(air[|air| - 1]);
  }

  /** No run, whatever is lost in it, has more deliveries than there are flights at its start and answers to
      them. */
  lemma {:induction false} DeliveriesAreBounded(air: seq<Flight>, run: seq<Delivery>)
    requires IsRun(air, run)
    ensures |run| + |InTheAir(air, run)| <= |air| + |Answers(air)|
    decreases run
  {
    if run != [] {
      var d := run[0];
      var rest, answer := Remove(air, d.index), Answer(air[d.index]);
      AnswersOfOne(air, d.index);
      AnswersAppend(rest, answer);
      AnswersOne(air[d.index]);
      assert rest + [] == rest;
      DeliveriesAreBounded(Deliver(air, d), run[1..]);
      hide Answers, Answer;
    }
  }

  /** What is in the air at the end was there at the start, or answers a flight that was heard: whatever is
      lost, nothing else is ever sent. */
  lemma {:induction false} OnlyAnswersAreSent(air: seq<Flight>, run: seq<Delivery>)
    requires IsRun(air, run)
    ensures multiset(InTheAir(air, run)) <= multiset(air) + multiset(Answers(Heard(air, run)))
    decreases run
  {
    if run == [] {
      assert multiset(air) <= multiset(air) + multiset(Answers([]));
    } else {
      var d, rest := run[0], Heard(Deliver(air, run[0]), run[1..]);
      var heard := if d.received then [air[d.index]] else [];
      OnlyAnswersAreSent(Deliver(air, d), run[1..]);
      MultisetDeliver(air, d);
      AnswersAppend(heard, rest);
      AnswersOne(air[d.index]);
      assert Answers([]) == [];
      hide Answers, Answer, Deliver, InTheAir;
    }
  }

  lemma MultisetDeliver(air: seq<Flight>, d: Delivery)
    requires CanDeliver(air, d)
    ensures var sent := if d.received && d.launched then Answer(air[d.index]) else [];
      multiset(Deliver(air, d)) == multiset(air) - multiset{air[d.index]} + multiset(sent)
  {
    MultisetRemove(air, d.index);
    hide Answers, Answer;
  }

  // ---- When nothing fails ----

  /** The flights in the air and all that will ever come of them. */
  function Future(air: seq<Flight>): multiset<Flight> {
    multiset(air) + multiset(Answers(air))
  }

  lemma MultisetRemove(air: seq<Flight>, i: nat)
    requires i < |air|
    ensures multiset(air) == multiset(Remove(air, i)) + multiset{air[i]}
    ensures multiset(Answers(air)) == multiset(Answers(Remove(air, i))) + multiset(Answer(air[i]))
  {
    Pieces(air, i);
    hide Answers, Answer;
    AnswersOfPieces(air[..i], air[i], air[i + 1..]);
  }

  lemma AnswersOfPieces(a: seq<Flight>, f: Flight, b: seq<Flight>)
    ensures multiset(a + [f] + b) == multiset(a + b) + multiset{f}
    ensures multiset(Answers(a + [f] + b)) == multiset(Answers(a + b)) + multiset(Answer(f))
  {
    hide Answers, Answer;
    AnswersAppend(a + [f], b);
    AnswersAppend(a, [f]);
    AnswersAppend(a, b);
    AnswersOne(f);
  }

  /** A lossless delivery takes exactly the delivered flight out of the future. */
  lemma DeliveryConserves(air: seq<Flight>, d: Delivery)
    requires CanDeliver(air, d) && d.received && d.launched
    ensures Future(air) == multiset{air[d.index]} + Future(Deliver(air, d))
  {
    var f, rest := air[d.index], Remove(air, d.index);
    MultisetRemove(air, d.index);
    AnswersOne(f);
    AnswersAppend(rest, Answer(f));
  }

  ghost predicate Lossless(run: seq<Delivery>) {
    forall i | 0 <= i < |run| :: run[i].received && run[i].launched
  }

  /** Conservation over every lossless run: what was heard and what is still to come is what was to
      come at the start. */
  lemma {:induction false} RunConserves(air: seq<Flight>, run: seq<Delivery>)
    requires IsRun(air, run) && Lossless(run)
    ensures multiset(Heard(air, run)) + Future(InTheAir(air, run)) == Future(air)
    ensures |Heard(air, run)| == |run|
    decreases run
  {
    if run != [] {
      DeliveryConserves(air, run[0]);
      RunConserves(Deliver(air, run[0]), run[1..]);
      hide Future, Deliver;
    }
  }

  lemma RunToSilence(air: seq<Flight>, run: seq<Delivery>)
    requires IsRun(air, run) && Lossless(run) && InTheAir(air, run) == []
    ensures multiset(Heard(air, run)) == multiset(air) + multiset(Answers(air))
    ensures |run| == |air| + |Answers(air)|
  {
    RunConserves(air, run);
    assert Future([]) == multiset{};
    var heard := Heard(air, run);
    hide Heard, IsRun, Lossless, InTheAir, Answers;
    assert multiset(heard) == multiset(air) + multiset(Answers(air));
    assert |multiset(heard)| == |heard|;
    assert |multiset(air) + multiset(Answers(air))| == |air| + |Answers(air)|;
  }

  /** So any two lossless runs to silence, whatever their order, deliver the same messages, and
      equally many. */
  lemma OrderDoesNotMatter(air: seq<Flight>, run: seq<Delivery>, other: seq<Delivery>)
    requires IsRun(air, run) && IsRun(air, other) && Lossless(run) && Lossless(other)
    requires InTheAir(air, run) == [] && InTheAir(air, other) == []
    ensures multiset(Heard(air, run)) == multiset(Heard(air, other)) == multiset(air) + multiset(Answers(air))
    ensures |run| == |other| == |air| + |Answers(air)|
  {
    RunToSilence(air, run);
    RunToSilence(air, other);
  }
}
