/** Step 2 of hw_init: the wait for a transmission in progress, with the UART already switched off. */
module BusyWait {
  import opened Pl011
  import opened SerialCalls

  /** With the UART off nothing leaves the transmit FIFO, so a device with bytes queued stays busy. */
  lemma {:induction false} QueuedStaysBusy(d: Device, h: seq<Event>)
    requires Possible(d, h) && !UartEnabled(d.cr) && d.tx != []
    requires forall i | 0 <= i < |Accesses(h)| :: IsRead(Accesses(h)[i], FR)
    ensures After(d, h).cr == d.cr && After(d, h).tx == d.tx
    ensures forall i | 0 <= i < |Accesses(h)| :: Busy(Accesses(h)[i].value)
  {
    if h != [] {
      var g, e := h[..|h| - 1], h[|h| - 1];
      var t, u := Accesses(g), Accesses(h);
      assert t <= u;
      forall i | 0 <= i < |t|
        ensures IsRead(t[i], FR)
      {
        assert t[i] == u[i];
      }
      QueuedStaysBusy(d, g);
      if e.Acc? { assert u[|t|] == e.access; }
      hide Apply, CanHappen, Busy, UartEnabled;
      OffStep(After(d, g), e, t, u);
    }
  }

  lemma OffStep(d: Device, e: Event, t: seq<Access>, u: seq<Access>)
    requires CanHappen(d, e) && !UartEnabled(d.cr) && d.tx != []
    requires u == if e.Acc? then t + [e.access] else t
    requires forall i | 0 <= i < |t| :: Busy(t[i].value)
    requires e.Acc? ==> IsRead(e.access, FR)
    ensures Apply(d, e).cr == d.cr && Apply(d, e).tx == d.tx
    ensures forall i | 0 <= i < |u| :: Busy(u[i].value)
  {
    FlagsTell(d);
    hide Bit, Busy, Device.Flags;
  }

  /** So if a byte was queued when the UART was switched off, the wait runs to its limit, whatever the
      device does. */
  lemma QueuedWaitTimesOut(d: Device, h: seq<Event>)
    requires Possible(d, h) && !UartEnabled(d.cr) && d.tx != []
    requires IsBusyWait(Accesses(h))
    ensures |Accesses(h)| == 100_001
  {
    QueuedStaysBusy(d, h);
  }

  /** And if none was queued, one poll can be enough, once the shift register is done. */
  lemma EmptyWaitCanEnd(d: Device) returns (h: seq<Event>)
    requires !UartEnabled(d.cr) && d.tx == []
    ensures Possible(d, h) && IsBusyWait(Accesses(h)) && |Accesses(h)| == 1
  {
    var idle := d.(shifting := false);
    var poll := Rd(FR, idle.Flags());
    FlagsTell(idle);
    hide Bit, Device.Flags;
    h := [Acc(poll)];
    assert h[..0] == [];
    if d.shifting {
      var before := [ShiftDone];
      assert before[..|before| - 1] == [];
      assert After(d, before) == Apply(After(d, []), ShiftDone);
      assert Possible(d, before) && After(d, before) == idle && Accesses(before) == [];
      h := before + [Acc(poll)];
      Snoc(before, Acc(poll));
    }
    assert Accesses(h) == [poll];
  }
}
