/** Histories in which the serial driver's time-outs bite. */
module Witnesses {
  import opened Machine
  import opened Pl011
  import opened Discipline
  import opened Newlines
  import opened Baud
  import opened SerialCalls
  import opened Registers
  import Driver

  // ---- Histories, piece by piece ----

  lemma {:induction false} HistoryAppend(d: Device, g: seq<Event>, h: seq<Event>)
    requires Possible(d, g) && Possible(After(d, g), h)
    ensures Possible(d, g + h) && After(d, g + h) == After(After(d, g), h)
    ensures Accesses(g + h) == Accesses(g) + Accesses(h)
    decreases |h|
  {
    if h == [] {
      assert g + h == g && Accesses(g) + [] == Accesses(g);
    } else {
      var n := |h| - 1;
      assert (g + h)[..|g + h| - 1] == g + h[..n];
      HistoryAppend(d, g, h[..n]);
      hide CanHappen, Apply;
    }
  }

  lemma OneEvent(d: Device, e: Event)
    requires CanHappen(d, e)
    ensures Possible(d, [e]) && After(d, [e]) == Apply(d, e)
    ensures Accesses([e]) == if e.Acc? then [e.access] else []
  {
    assert [e][..0] == [];
    assert Possible(d, []) && After(d, []) == d && Accesses([]) == [];
  }

  lemma HistorySnoc(d: Device, g: seq<Event>, e: Event)
    requires Possible(d, g) && CanHappen(After(d, g), e)
    ensures Possible(d, g + [e]) && After(d, g + [e]) == Apply(After(d, g), e)
    ensures Accesses(g + [e]) == Accesses(g) + (if e.Acc? then [e.access] else [])
  {
    OneEvent(After(d, g), e);
    hide CanHappen, Apply, Possible, After, Accesses;
    HistoryAppend(d, g, [e]);
  }

  /** Any number of polls, between which the device does nothing. */
  lemma {:induction false} Polls(d: Device, n: nat) returns (h: seq<Event>)
    ensures Possible(d, h) && After(d, h) == d && |Accesses(h)| == n
    ensures forall i | 0 <= i < n :: Accesses(h)[i] == Rd(FR, d.Flags())
  {
    h := [];
    if n > 0 {
      var g := Polls(d, n - 1);
      h := g + [Acc(Rd(FR, d.Flags()))];
      hide Device.Flags, Possible, Accesses, After;
      HistorySnoc(d, g, Acc(Rd(FR, d.Flags())));
    }
  }

  /** What the device holds, as far as no setting changes it. */
  predicate SameData(d: Device, d': Device) {
    d'.depth == d.depth && d'.tx == d.tx && d'.sent == d.sent && d'.shifting == d.shifting && d'.rx == d.rx
  }

  lemma SettingStep(d: Device, a: Access)
    requires a.Wr? && a.offset != DR
    ensures CanHappen(d, Acc(a)) && SameData(d, Apply(d, Acc(a)))
  {
    hide Stored, Device.Receiving;
  }

  /** Settings can always be written, and leave the data alone. */
  lemma {:induction false} SettingsHappen(d: Device, t: seq<Access>) returns (h: seq<Event>)
    requires forall i | 0 <= i < |t| :: t[i].Wr? && t[i].offset != DR
    ensures Possible(d, h) && Accesses(h) == t && SameData(d, After(d, h))
  {
    h := [];
    if t != [] {
      var n := |t| - 1;
      var g := SettingsHappen(d, t[..n]);
      hide Possible, Accesses, After, CanHappen, Apply;
      SettingStep(After(d, g), t[n]);
      HistorySnoc(d, g, Acc(t[n]));
      assert t == t[..n] + [t[n]];
      h := g + [Acc(t[n])];
    }
  }

  // ---- A poll that comes too late ----

  /** The transmitter makes room only after poll 100000: poll 100001 sees it, and the character is
      dropped all the same. */
  lemma LateRoomIsDropped(d: Device, c: byte) returns (h: seq<Event>)
    requires |d.tx| == d.Capacity() > 0 && !d.shifting && UartEnabled(d.cr) && TxEnabled(d.cr)
    ensures Possible(d, h) && IsPutChar(c, false, Accesses(h))
    ensures |Accesses(h)| == 100_001 && SeesRoom(Accesses(h)[100_000]) && After(d, h).tx == d.tx[1..]
  {
    var g := Polls(d, POLL_LIMIT);
    HistorySnoc(d, g, LoadShifter);
    var d' := Apply(d, LoadShifter);
    HistorySnoc(d, g + [LoadShifter], Acc(Rd(FR, d'.Flags())));
    FlagsTell(d);
    FlagsTell(d');
    h := g + [LoadShifter] + [Acc(Rd(FR, d'.Flags()))];
    hide Possible, Accesses, After, Bit, Device.Flags;
  }

  // ---- A byte still queued when hw_init switches the UART off ----

  /** Nothing under way. */
  predicate Idle(d: Device) {
    1 <= d.depth && d.tx == [] && !d.shifting && d.rx == []
  }

  lemma DrainAndConfigure(d: Device, baud: uint32) returns (h: seq<Event>)
    requires Divides(baud)
    ensures Possible(d, h) && Accesses(h) == [Rd(FR, d.Flags())] + ConfigWrites(baud) && SameData(d, After(d, h))
  {
    OneEvent(d, Acc(Rd(FR, d.Flags())));
    var poll := [Acc(Rd(FR, d.Flags()))];
    var writes := SettingsHappen(d, ConfigWrites(baud));
    HistoryAppend(d, poll, writes);
    h := poll + writes;
    hide Device.Flags, Possible, ConfigWrites, Accesses, After;
  }

  /** hw_init with nothing to receive: one poll if nothing is being sent, and otherwise all of them. */
  lemma HwInitHappens(d: Device, baud: uint32) returns (wait: seq<Event>, rest: seq<Event>)
    requires d.rx == [] && Divides(baud)
    ensures var h := [Acc(Wr(CR, 0))] + wait + rest;
      && Possible(d, h) && IsHwInit(baud, d.depth, Accesses(h)) && SameData(d, After(d, h))
    ensures IsBusyWait(Accesses(wait))
    ensures |Accesses(wait)| == if d.tx == [] && !d.shifting then 1 else POLL_LIMIT + 1
  {
    var off, d0 := Acc(Wr(CR, 0)), Apply(d, Acc(Wr(CR, 0)));
    SettingStep(d, Wr(CR, 0));
    OneEvent(d, off);
    wait := AllPolls(d0);
    rest := DrainAndConfigure(d0, baud);
    hide Possible, Accesses, After, Apply, CanHappen, Device.Flags, ConfigWrites, IsBusyWait, Divides, IsHwInit;
    HistoryAppend(d, [off], wait);
    HistoryAppend(d, [off] + wait, rest);
    DrainOfNothing(d0);
    HwInitFrom(baud, d.depth, Accesses(wait), [Rd(FR, d0.Flags())], 0);
    Associative([Wr(CR, 0)] + Accesses(wait), [Rd(FR, d0.Flags())], ConfigWrites(baud));
  }

  lemma AllPolls(d: Device) returns (wait: seq<Event>)
    ensures Possible(d, wait) && After(d, wait) == d && IsBusyWait(Accesses(wait))
    ensures |Accesses(wait)| == if d.tx == [] && !d.shifting then 1 else POLL_LIMIT + 1
  {
    FlagsTell(d);
    hide Possible, Accesses, After, Device.Flags, Bit, Busy;
    wait := Polls(d, if d.tx == [] && !d.shifting then 1 else POLL_LIMIT + 1);
  }

  lemma DrainOfNothing(d: Device)
    requires d.rx == []
    ensures IsDrain([Rd(FR, d.Flags())], 0)
  {
    FlagsTell(d);
    hide Device.Flags, RxEmpty;
    assert IsDraining([Rd(FR, d.Flags())], 0, d.Flags());
  }

  /** Ready to send. */
  predicate Ready(d: Device) {
    Idle(d) && UartEnabled(d.cr) && TxEnabled(d.cr)
  }

  /** One character into an idle transmitter. */
  lemma PutCharHappens(d: Device, c: byte) returns (h: seq<Event>)
    requires Idle(d)
    ensures Possible(d, h) && IsPutChar(c, true, Accesses(h)) && After(d, h) == d.(tx := [c])
  {
    FlagsTell(d);
    OneEvent(d, Acc(Rd(FR, d.Flags())));
    HistorySnoc(d, [Acc(Rd(FR, d.Flags()))], Acc(Wr(DR, c)));
    h := [Acc(Rd(FR, d.Flags()))] + [Acc(Wr(DR, c))];
    assert Accesses(h) == [Rd(FR, d.Flags()), Wr(DR, c)];
    hide Possible, Accesses, After, Bit, Device.Flags;
  }

  /** And out of it again. */
  lemma SendHappens(d: Device, c: byte) returns (h: seq<Event>)
    requires Ready(d)
    ensures Possible(d, h) && IsPutChar(c, true, Accesses(h)) && Ready(After(d, h)) && After(d, h).depth == d.depth
  {
    var g := PutCharHappens(d, c);
    var d1 := d.(tx := [c]);
    HistorySnoc(d, g, LoadShifter);
    HistorySnoc(d, g + [LoadShifter], ShiftDone);
    h := g + [LoadShifter] + [ShiftDone];
    hide Possible, Accesses, After, IsPutChar, Bit;
  }

  /** A string, each character of which finds the transmitter idle. */
  lemma {:induction false} PutAllHappens(d: Device, s: seq<byte>) returns (h: seq<Event>, sent: seq<bool>)
    requires Ready(d)
    ensures Possible(d, h) && |sent| == |s| && IsPutAll(s, sent, Accesses(h))
    ensures Ready(After(d, h)) && After(d, h).depth == d.depth
  {
    h, sent := [], [];
    if s != [] {
      var n := |s| - 1;
      hide Ready, IsPutChar, IsPutAll, Possible, Accesses, After;
      var g, sent' := PutAllHappens(d, s[..n]);
      var one := SendHappens(After(d, g), s[n]);
      HistoryAppend(d, g, one);
      PutAllSnoc(s[..n], sent', Accesses(g), s[n], true, Accesses(one));
      assert s == s[..n] + [s[n]];
      h, sent := g + one, sent' + [true];
    }
  }

  /** A start, on a device with nothing under way. */
  lemma StartHappens(d: Device) returns (h: seq<Event>)
    requires Idle(d)
    ensures Possible(d, h) && IsCall(false, d.depth, Call.Start(true, true, true), Accesses(h))
    ensures Ready(After(d, h)) && After(d, h).depth == d.depth
  {
    DefaultRate();
    hide IsCall, StartBanner, Expand, IsPutAll, IsHwInit, IsBusyWait, Possible, Accesses, After, Bit, Divides;
    var wait, rest := HwInitHappens(d, DEFAULT_BAUD);
    var g := [Acc(Wr(CR, 0))] + wait + rest;
    assert [] + Accesses(g) == Accesses(g);
    HwInitConfigures(d, g, [], DEFAULT_BAUD, d.depth, Accesses(g));
    ConfiguredBits(After(d, g), DEFAULT_BAUD);
    var banner, sent := PutAllHappens(After(d, g), Expand(StartBanner()));
    HistoryAppend(d, g, banner);
    Driver.StartIsCall(d.depth, Accesses(g), sent, Accesses(banner));
    h := g + banner;
  }

  lemma EmptyRun(depth: nat)
    ensures IsRun(false, depth, [], []) && !MappedAfterAll(false, [])
  {
  }

  lemma StartAndPutMapped(c: byte, baud: uint32)
    requires Divides(baud)
    ensures var start, put := Call.Start(true, true, true), Call.PutChar(c);
      && MayCall(false, start) && MayCall(true, put)
      && MappedAfterAll(false, [start]) && MappedAfterAll(false, [start, put])
      && MayCall(true, Call.SetBaud(baud))
  {
    var start, put := Call.Start(true, true, true), Call.PutChar(c);
    MappedStep(false, [], start);
    MappedStep(false, [start], put);
    assert [] + [start] == [start] && [start] + [put] == [start, put];
  }

  lemma RunOfThree(depth: nat, c: byte, baud: uint32, t: seq<Access>, u: seq<Access>, v: seq<Access>)
    requires IsCall(false, depth, Call.Start(true, true, true), t)
    requires IsPutChar(c, true, u) && IsHwInit(baud, depth, v) && Divides(baud)
    ensures IsRun(false, depth, [Call.Start(true, true, true), Call.PutChar(c)], t + u)
    ensures IsRun(false, depth, [Call.Start(true, true, true), Call.PutChar(c), Call.SetBaud(baud)], t + u + v)
  {
    var start, put, change := Call.Start(true, true, true), Call.PutChar(c), Call.SetBaud(baud);
    hide IsCall, IsRun, IsHwInit, IsPutChar, MayCall, MappedAfter, MappedAfterAll, Divides, StartBanner, StopBanner;
    StartAndPutMapped(c, baud);
    EmptyRun(depth);
    Driver.PutCharIsCall(depth, c, true, u);
    Driver.SetBaudIsCall(depth, baud, v);
    Driver.RunSnoc(depth, [], [], start, t);
    assert [] + [start] == [start] && [] + t == t;
    Driver.RunSnoc(depth, [start], t, put, u);
    assert [start] + [put] == [start, put];
    Driver.RunSnoc(depth, [start, put], t + u, change, v);
    assert [start, put] + [change] == [start, put, change];
  }

  /** A run of the driver, from before its first start, that reaches hw_init with a byte queued: the busy
      wait makes all its polls, and the byte is still there after it. */
  lemma ByteQueuedAtHwInit(d: Device, c: byte, baud: uint32)
    returns (before: seq<Event>, wait: seq<Event>, rest: seq<Event>)
    requires Idle(d) && Divides(baud)
    ensures var h := before + ([Acc(Wr(CR, 0))] + wait + rest);
      && Possible(d, h) && After(d, h).tx == [c]
      && IsRun(false, d.depth, [Call.Start(true, true, true), Call.PutChar(c), Call.SetBaud(baud)], Accesses(h))
    ensures IsRun(false, d.depth, [Call.Start(true, true, true), Call.PutChar(c)], Accesses(before))
    ensures After(d, before).tx == [c] && IsBusyWait(Accesses(wait)) && |Accesses(wait)| == 100_001
  {
    var g := StartHappens(d);
    var d1 := After(d, g);
    var p := PutCharHappens(d1, c);
    HistoryAppend(d, g, p);
    before := g + p;
    wait, rest := HwInitHappens(d1.(tx := [c]), baud);
    HistoryAppend(d, before, [Acc(Wr(CR, 0))] + wait + rest);
    hide IsCall, IsRun, IsHwInit, IsPutChar, IsBusyWait, Possible, Accesses, After;
    RunOfThree(d.depth, c, baud, Accesses(g), Accesses(p), Accesses([Acc(Wr(CR, 0))] + wait + rest));
  }
}
