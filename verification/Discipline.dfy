/** The register discipline of the PL011 (ARM DDI 0183, sections 3.3.6 to 3.3.8) over a whole trace of
    accesses: as a property of positions, and as a monitor that watches the trace go by. */
module Discipline {
  import opened Machine
  import opened Pl011

  predicate IsWrite(a: Access, o: int) {
    a.Wr? && a.offset == o
  }

  /** The transmit FIFO was seen to have room. */
  predicate SeesRoom(a: Access) {
    a.Rd? && a.offset == FR && !TxFull(a.value)
  }

  predicate SwitchesOff(a: Access) {
    IsWrite(a, CR) && !UartEnabled(a.value)
  }

  /** Position j of t is after the last control-register write before position i. */
  ghost predicate SinceControl(t: seq<Access>, j: int, i: int) {
    0 <= j < i <= |t| && forall k | j <= k < i :: !IsWrite(t[k], CR)
  }

  /** The last control-register write before position i cleared UARTEN. (Before the first one, whatever
      ran before may have left the UART on.) */
  ghost predicate OffAt(t: seq<Access>, i: int) {
    exists j :: 0 <= j < i <= |t| && SwitchesOff(t[j]) && forall k | j < k < i :: !IsWrite(t[k], CR)
  }

  ghost predicate WrittenSince(t: seq<Access>, i: int, o: int) {
    exists j :: SinceControl(t, j, i) && IsWrite(t[j], o)
  }

  /** The rules for the access at position i:
      - data is written only right after a poll that saw room;
      - divisors and line control are written only while the UART is off, the fraction after the
        integer part, and line control after both;
      - the UART is switched on only after all three have been written. */
  ghost predicate ObeysAt(t: seq<Access>, i: int)
    requires 0 <= i < |t|
  {
    && (IsWrite(t[i], DR) ==> i > 0 && SeesRoom(t[i - 1]))
    && (IsWrite(t[i], IBRD) ==> OffAt(t, i))
    && (IsWrite(t[i], FBRD) ==> OffAt(t, i) && WrittenSince(t, i, IBRD))
    && (IsWrite(t[i], LCRH) ==> OffAt(t, i) && WrittenSince(t, i, IBRD) && WrittenSince(t, i, FBRD))
    && (IsWrite(t[i], CR) && UartEnabled(t[i].value) ==>
          OffAt(t, i) && WrittenSince(t, i, IBRD) && WrittenSince(t, i, FBRD) && WrittenSince(t, i, LCRH))
  }

  ghost predicate Disciplined(t: seq<Access>) {
    forall i | 0 <= i < |t| :: ObeysAt(t, i)
  }

  // ---- The monitor ----

  datatype Monitor = Monitor(off: bool, ibrd: bool, fbrd: bool, lcrh: bool, room: bool, ok: bool)

  const UNKNOWN := Monitor(false, false, false, false, false, true)

  function Watch(m: Monitor, a: Access): Monitor {
    match a
    case Rd(_, _) => m.(room := SeesRoom(a))
    case Wr(o, v) =>
      if o == DR then m.(room := false, ok := m.ok && m.room)
      else if o == IBRD then m.(room := false, ibrd := true, ok := m.ok && m.off)
      else if o == FBRD then m.(room := false, fbrd := true, ok := m.ok && m.off && m.ibrd)
      else if o == LCRH then m.(room := false, lcrh := true, ok := m.ok && m.off && m.ibrd && m.fbrd)
      else if o == CR then
        Monitor(!UartEnabled(v), false, false, false, false,
                m.ok && (UartEnabled(v) ==> m.off && m.ibrd && m.fbrd && m.lcrh))
      else m.(room := false)
  }

  function WatchAll(m: Monitor, t: seq<Access>): Monitor {
    if t == [] then m else Watch(WatchAll(m, t[..|t| - 1]), t[|t| - 1])
  }

  lemma {:induction false} WatchAppend(m: Monitor, t: seq<Access>, u: seq<Access>)
    ensures WatchAll(m, t + u) == WatchAll(WatchAll(m, t), u)
  {
    if u == [] {
      assert t + u == t;
    } else {
      assert (t + u)[..|t + u| - 1] == t + u[..|u| - 1];
      WatchAppend(m, t, u[..|u| - 1]);
    }
  }

  /** What a position property of a trace owes to its last access. */
  lemma LastAccess(t: seq<Access>, a: Access, o: int)
    requires o != CR
    ensures var u := t + [a];
      && (OffAt(u, |u|) <==> if IsWrite(a, CR) then SwitchesOff(a) else OffAt(t, |t|))
      && (WrittenSince(u, |u|, o) <==> !IsWrite(a, CR) && (IsWrite(a, o) || WrittenSince(t, |t|, o)))
  {
    var u := t + [a];
    if OffAt(t, |t|) && !IsWrite(a, CR) {
      var j :| 0 <= j < |t| && SwitchesOff(t[j]) && forall k | j < k < |t| :: !IsWrite(t[k], CR);
      assert SwitchesOff(u[j]);
    }
    if SwitchesOff(a) { assert SwitchesOff(u[|t|]); }
    if OffAt(u, |u|) {
      var j :| 0 <= j < |u| && SwitchesOff(u[j]) && forall k | j < k < |u| :: !IsWrite(u[k], CR);
      if j < |t| {
        assert !IsWrite(u[|t|], CR);
        assert forall k | j < k < |t| :: t[k] == u[k];
        assert SwitchesOff(t[j]);
      }
    }
    if WrittenSince(t, |t|, o) && !IsWrite(a, CR) {
      var j :| SinceControl(t, j, |t|) && IsWrite(t[j], o);
      assert SinceControl(u, j, |u|) && IsWrite(u[j], o);
    }
    if IsWrite(a, o) { assert SinceControl(u, |t|, |u|) && IsWrite(u[|t|], o); }
    if WrittenSince(u, |u|, o) {
      var j :| SinceControl(u, j, |u|) && IsWrite(u[j], o);
      assert !IsWrite(u[|t|], CR);
      if j < |t| {
        assert forall k | j <= k < |t| :: t[k] == u[k];
        assert SinceControl(t, j, |t|) && IsWrite(t[j], o);
      }
    }
  }

  /** The rules at a position look only at the trace up to it. */
  lemma PrefixDecides(t: seq<Access>, u: seq<Access>, i: int, o: int)
    requires 0 <= i <= |t|
    ensures OffAt(t + u, i) <==> OffAt(t, i)
    ensures WrittenSince(t + u, i, o) <==> WrittenSince(t, i, o)
  {
    var w := t + u;
    assert forall k | 0 <= k < i :: w[k] == t[k];
    if OffAt(t, i) {
      var j :| 0 <= j < i && SwitchesOff(t[j]) && forall k | j < k < i :: !IsWrite(t[k], CR);
      assert SwitchesOff(w[j]);
    }
    if OffAt(w, i) {
      var j :| 0 <= j < i && SwitchesOff(w[j]) && forall k | j < k < i :: !IsWrite(w[k], CR);
      assert SwitchesOff(t[j]);
    }
    if WrittenSince(t, i, o) {
      var j :| SinceControl(t, j, i) && IsWrite(t[j], o);
      assert SinceControl(w, j, i) && IsWrite(w[j], o);
    }
    if WrittenSince(w, i, o) {
      var j :| SinceControl(w, j, i) && IsWrite(w[j], o);
      assert SinceControl(t, j, i) && IsWrite(t[j], o);
    }
  }

  lemma PrefixObeys(t: seq<Access>, u: seq<Access>, i: int)
    requires 0 <= i < |t|
    ensures ObeysAt(t + u, i) <==> ObeysAt(t, i)
  {
    PrefixDecides(t, u, i, IBRD);
    PrefixDecides(t, u, i, FBRD);
    PrefixDecides(t, u, i, LCRH);
    hide OffAt, WrittenSince;
    assert (t + u)[i] == t[i];
    assert i > 0 ==> (t + u)[i - 1] == t[i - 1];
  }

  /** The monitor's flags are the position properties at the end of the trace, and it is content
      exactly when every position obeys the rules. */
  ghost predicate Tracks(m: Monitor, t: seq<Access>) {
    && m.off == OffAt(t, |t|) && m.ibrd == WrittenSince(t, |t|, IBRD)
    && m.fbrd == WrittenSince(t, |t|, FBRD) && m.lcrh == WrittenSince(t, |t|, LCRH)
    && m.room == (|t| > 0 && SeesRoom(t[|t| - 1]))
    && m.ok == Disciplined(t)
  }

  lemma TracksStep(m: Monitor, s: seq<Access>, a: Access)
    requires Tracks(m, s)
    ensures Tracks(Watch(m, a), s + [a])
  {
    hide OffAt, WrittenSince, Disciplined, ObeysAt, Bit, SinceControl;
    LastAccess(s, a, IBRD);
    LastAccess(s, a, FBRD);
    LastAccess(s, a, LCRH);
    LastObeys(s, a);
    DisciplinedSnoc(s, a);
  }

  lemma {:induction false} MonitorIsDiscipline(t: seq<Access>)
    ensures Tracks(WatchAll(UNKNOWN, t), t)
  {
    if t != [] {
      var s, a := t[..|t| - 1], t[|t| - 1];
      assert t == s + [a];
      MonitorIsDiscipline(s);
      hide Tracks, Watch;
      TracksStep(WatchAll(UNKNOWN, s), s, a);
    }
  }

  lemma LastObeys(s: seq<Access>, a: Access)
    ensures ObeysAt(s + [a], |s|) <==>
      && (IsWrite(a, DR) ==> |s| > 0 && SeesRoom(s[|s| - 1]))
      && (IsWrite(a, IBRD) ==> OffAt(s, |s|))
      && (IsWrite(a, FBRD) ==> OffAt(s, |s|) && WrittenSince(s, |s|, IBRD))
      && (IsWrite(a, LCRH) ==> OffAt(s, |s|) && WrittenSince(s, |s|, IBRD) && WrittenSince(s, |s|, FBRD))
      && (IsWrite(a, CR) && UartEnabled(a.value) ==>
            OffAt(s, |s|) && WrittenSince(s, |s|, IBRD) && WrittenSince(s, |s|, FBRD) && WrittenSince(s, |s|, LCRH))
  {
    PrefixDecides(s, [a], |s|, IBRD);
    PrefixDecides(s, [a], |s|, FBRD);
    PrefixDecides(s, [a], |s|, LCRH);
    hide OffAt, WrittenSince;
    assert (s + [a])[|s|] == a;
    assert |s| > 0 ==> (s + [a])[|s| - 1] == s[|s| - 1];
  }

  lemma DisciplinedSnoc(s: seq<Access>, a: Access)
    ensures Disciplined(s + [a]) <==> Disciplined(s) && ObeysAt(s + [a], |s|)
  {
    forall i | 0 <= i < |s|
      ensures ObeysAt(s + [a], i) <==> ObeysAt(s, i)
    {
      PrefixObeys(s, [a], i);
    }
    hide ObeysAt;
    if Disciplined(s + [a]) {
      forall i | 0 <= i < |s| ensures ObeysAt(s, i) {
        assert ObeysAt(s + [a], i);
      }
    }
  }

  // ---- What discipline buys at the device ----

  /** Under the discipline no byte is ever written to a full FIFO, whatever the device does between
      accesses, and the bytes written are the bytes sent, in order, plus those still queued. */
  lemma NoByteLost(d: Device, h: seq<Event>)
    requires Possible(d, h) && Disciplined(Accesses(h))
    ensures After(d, h).lost == d.lost
    ensures After(d, h).sent + After(d, h).tx == d.sent + d.tx + DrBytes(Accesses(h))
  {
    MonitorIsDiscipline(Accesses(h));
    KeepsBytes(d, h);
  }

  /** d' is d after the given bytes were queued, none of them lost; a poll that saw room was right. */
  ghost predicate Kept(d: Device, d': Device, written: seq<byte>, room: bool) {
    && d'.lost == d.lost
    && (room ==> |d'.tx| < d'.Capacity())
    && d'.sent + d'.tx == d.sent + d.tx + written
  }

  lemma {:induction false} KeepsBytes(d: Device, h: seq<Event>)
    requires Possible(d, h) && WatchAll(UNKNOWN, Accesses(h)).ok
    ensures Kept(d, After(d, h), DrBytes(Accesses(h)), WatchAll(UNKNOWN, Accesses(h)).room)
  {
    if h == [] {
      assert d.sent + d.tx + [] == d.sent + d.tx;
    } else {
      var g, e := h[..|h| - 1], h[|h| - 1];
      var t := Accesses(g);
      if e.Acc? {
        Snoc(t, e.access);
        assert Accesses(h) == t + [e.access];
        WatchedBefore(WatchAll(UNKNOWN, t), e.access);
        hide Watch, Apply, Kept, CanHappen;
        KeepsBytes(d, g);
        AccessKeeps(d, After(d, g), DrBytes(t), WatchAll(UNKNOWN, t), e.access);
      } else {
        assert Accesses(h) == t;
        hide Watch, Apply, Kept, CanHappen;
        KeepsBytes(d, g);
        EnvironmentKeeps(d, After(d, g), DrBytes(t), WatchAll(UNKNOWN, t).room, e);
      }
    }
  }

  lemma WatchedBefore(m: Monitor, a: Access)
    requires Watch(m, a).ok
    ensures m.ok
  {
    hide Bit;
  }

  lemma EnvironmentKeeps(d: Device, d': Device, written: seq<byte>, room: bool, e: Event)
    requires Kept(d, d', written, room) && CanHappen(d', e) && !e.Acc?
    ensures Kept(d, Apply(d', e), written, room)
  {
    if e.LoadShifter? {
      assert d'.sent + [d'.tx[0]] + d'.tx[1..] == d'.sent + d'.tx;
    }
  }

  /** What the monitor makes of a poll, and what it asks of a data write. */
  lemma WatchRoom(m: Monitor, a: Access)
    ensures Watch(m, a).room <==> SeesRoom(a)
    ensures Watch(m, a).ok && IsWrite(a, DR) ==> m.room
  {
    hide Bit;
  }

  lemma AccessKeeps(d: Device, d': Device, written: seq<byte>, m: Monitor, a: Access)
    requires Kept(d, d', written, m.room) && CanHappen(d', Acc(a)) && Watch(m, a).ok
    ensures Kept(d, Apply(d', Acc(a)), Written(written, a), Watch(m, a).room)
  {
    FlagsTell(d');
    WatchRoom(m, a);
    hide Bit, Device.Flags, Device.Receiving, Stored, Watch;
    if IsWrite(a, DR) {
      assert d'.sent + (d'.tx + [a.value % 0x100]) == d'.sent + d'.tx + [a.value % 0x100];
    }
  }

  /** The bytes written, one access later. */
  function Written(written: seq<byte>, a: Access): seq<byte> {
    written + (if IsWrite(a, DR) then [a.value % 0x100] else [])
  }
}
