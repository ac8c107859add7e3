/** What each call of the serial driver does to the UART's registers, as a relation on the trace, and
    what every run of calls keeps. */
module SerialCalls {
  import opened Machine
  import opened Pl011
  import opened Discipline
  import opened Newlines
  import opened Baud

  const POLL_LIMIT: nat := 100_000

  /** 8 data bits, FIFOs enabled; transmit, receive and UART enabled. */
  const LCRH_SETTING: uint32 := 0x70
  const CR_SETTING: uint32 := 0x301

  function Ascii(s: string): seq<byte> {
    seq(|s|, i requires 0 <= i < |s| => s[i] as int % 0x100)
  }

  function StartBanner(): seq<byte> {
    Ascii("\r\n[JuliusSerial] UART driver started. JULIUS OS serial console ready.\r\n")
  }

  function StopBanner(): seq<byte> {
    Ascii("\r\n[JuliusSerial] UART driver stopping.\r\n")
  }

  predicate IsRead(a: Access, o: int) {
    a.Rd? && a.offset == o
  }

  predicate AllReads(t: seq<Access>) {
    forall i | 0 <= i < |t| :: t[i].Rd?
  }

  predicate SeesFull(a: Access) {
    IsRead(a, FR) && TxFull(a.value)
  }

  // ---- putChar ----

  /** The polls of putChar: all but the last saw a full FIFO. The character is written exactly when
      one of the first POLL_LIMIT polls sees room; a poll after that comes too late. */
  ghost predicate IsPutChar(c: byte, sent: bool, t: seq<Access>) {
    if sent then
      var n := |t| - 1;
      && 1 <= n <= POLL_LIMIT && t[n] == Wr(DR, c)
      && SeesRoom(t[n - 1]) && forall i | 0 <= i < n - 1 :: SeesFull(t[i])
    else
      && |t| == POLL_LIMIT + 1 && IsRead(t[POLL_LIMIT], FR)
      && forall i | 0 <= i < POLL_LIMIT :: SeesFull(t[i])
  }

  /** One write exactly when some poll among the first 100000 saw room; otherwise 100001 polls. All the rest
      of the accesses are polls of the flag register, and none of them but the last saw room. */
  lemma SentIffRoomInTime(c: byte, sent: bool, t: seq<Access>)
    requires IsPutChar(c, sent, t)
    ensures sent <==> exists i :: 0 <= i < |t| && i < 100_000 && SeesRoom(t[i])
    ensures DrBytes(t) == if sent then [c] else []
    ensures var polls := if sent then |t| - 1 else |t|;
      && 1 <= polls <= 100_001 && (sent ==> t[polls] == Wr(0x00, c)) && (!sent ==> polls == 100_001)
      && (forall i | 0 <= i < polls :: t[i].Rd? && t[i].offset == 0x18)
      && (forall i | 0 <= i < polls - 1 :: TxFull(t[i].value)) && (sent ==> !TxFull(t[polls - 1].value))
  {
    if sent {
      assert SeesRoom(t[|t| - 2]);
      ReadsWriteNothing(t[..|t| - 1]);
    } else {
      ReadsWriteNothing(t);
    }
  }

  lemma {:induction false} ReadsWriteNothing(t: seq<Access>)
    requires AllReads(t)
    ensures DrBytes(t) == []
  {
    if t != [] { ReadsWriteNothing(t[..|t| - 1]); }
  }

  // ---- putString ----

  /** One putChar after the other for the given bytes, with the given outcomes. */
  ghost predicate IsPutAll(s: seq<byte>, sent: seq<bool>, t: seq<Access>)
    requires |s| == |sent|
  {
    if s == [] then t == []
    else
      var n := |s| - 1;
      exists k :: 0 <= k <= |t| && IsPutAll(s[..n], sent[..n], t[..k]) && IsPutChar(s[n], sent[n], t[k..])
  }

  lemma PutAllSnoc(s: seq<byte>, sent: seq<bool>, t: seq<Access>, c: byte, ok: bool, u: seq<Access>)
    requires |s| == |sent| && IsPutAll(s, sent, t) && IsPutChar(c, ok, u)
    ensures IsPutAll(s + [c], sent + [ok], t + u)
  {
    assert (s + [c])[..|s|] == s && (sent + [ok])[..|s|] == sent;
    assert (t + u)[..|t|] == t && (t + u)[|t|..] == u;
  }

  lemma NothingPut()
    ensures Expand([]) == [] && IsPutAll([], [], [])
  {
  }

  lemma OnePut(c: byte, ok: bool, t: seq<Access>)
    requires IsPutChar(c, ok, t)
    ensures IsPutAll([c], [ok], t)
  {
    hide IsPutChar;
    PutAllSnoc([], [], [], c, ok, t);
    assert [] + [c] == [c] && [] + [ok] == [ok] && [] + t == t;
  }

  lemma {:induction false} PutAllAppend(s: seq<byte>, sent: seq<bool>, t: seq<Access>,
                                        s': seq<byte>, sent': seq<bool>, t': seq<Access>)
    requires |s| == |sent| && |s'| == |sent'| && IsPutAll(s, sent, t) && IsPutAll(s', sent', t')
    ensures IsPutAll(s + s', sent + sent', t + t')
    decreases |s'|
  {
    if s' == [] {
      assert s + s' == s && sent + sent' == sent && t + t' == t;
    } else {
      var n := |s'| - 1;
      var u, v := LastPut(s', sent', t');
      hide IsPutChar, IsPutAll;
      PutAllAppend(s, sent, t, s'[..n], sent'[..n], u);
      PutAllSnoc(s + s'[..n], sent + sent'[..n], t + u, s'[n], sent'[n], v);
      AppendLast(s, s');
      AppendLast(sent, sent');
      Associative(t, u, v);
    }
  }

  lemma Associative<T>(a: seq<T>, b: seq<T>, c: seq<T>)
    ensures (a + b) + c == a + (b + c)
  {
  }

  lemma AppendLast<T>(s: seq<T>, s': seq<T>)
    requires s' != []
    ensures (s + s'[..|s'| - 1]) + [s'[|s'| - 1]] == s + s'
  {
  }

  lemma LastPut(s: seq<byte>, sent: seq<bool>, t: seq<Access>) returns (u: seq<Access>, v: seq<Access>)
    requires |s| == |sent| && IsPutAll(s, sent, t) && s != []
    ensures t == u + v && IsPutChar(s[|s| - 1], sent[|s| - 1], v)
    ensures IsPutAll(s[..|s| - 1], sent[..|s| - 1], u)
  {
    hide IsPutChar;
    var n := |s| - 1;
    var k :| 0 <= k <= |t| && IsPutAll(s[..n], sent[..n], t[..k]) && IsPutChar(s[n], sent[n], t[k..]);
    u, v := t[..k], t[k..];
  }

  /** The data written is the characters that went through, in order. */
  lemma {:induction false} PutAllWrites(s: seq<byte>, sent: seq<bool>, t: seq<Access>)
    requires |s| == |sent| && IsPutAll(s, sent, t)
    ensures DrBytes(t) == Select(s, sent)
  {
    if s != [] {
      var n := |s| - 1;
      var u, v := LastPut(s, sent, t);
      hide IsPutChar, IsPutAll;
      PutAllWrites(s[..n], sent[..n], u);
      SentIffRoomInTime(s[n], sent[n], v);
      DrBytesAppend(u, v);
    }
  }

  /** What putString puts on the wire: an in-order part of the newline expansion, and all of it exactly
      when no character times out. */
  lemma PutStringWrites(s: seq<byte>, sent: seq<bool>, t: seq<Access>)
    requires |Expand(s)| == |sent| && IsPutAll(Expand(s), sent, t)
    ensures IsSubsequence(DrBytes(t), Expand(s))
    ensures DrBytes(t) == Expand(s) <==> forall i | 0 <= i < |sent| :: sent[i]
    ensures (forall i | 0 <= i < |sent| :: sent[i]) ==> Collapse(DrBytes(t)) == s
  {
    PutAllWrites(Expand(s), sent, t);
    SelectKeepsOrder(Expand(s), sent);
    CollapseExpand(s);
  }

  // ---- hw_init ----

  /** The register writes that configure the UART, in this order. */
  function ConfigWrites(baud: uint32): seq<Access>
    requires Divides(baud)
  {
    [Wr(IBRD, Ibrd(baud)), Wr(FBRD, Fbrd(baud) % 0x1_0000_0000), Wr(LCRH, LCRH_SETTING),
     Wr(IMSC, 0), Wr(ICR, 0x7FF), Wr(CR, CR_SETTING)]
  }

  /** The six writes, one at a time. */
  lemma SixWrites(t: seq<Access>, baud: uint32)
    requires Divides(baud)
    ensures var c := ConfigWrites(baud);
      t + [c[0]] + [c[1]] + [c[2]] + [c[3]] + [c[4]] + [c[5]] == t + c
  {
    hide Ibrd, Fbrd, Divides;
  }

  /** Step 2: polls until the UART is not busy, at most POLL_LIMIT + 1 of them. */
  ghost predicate IsBusyWait(t: seq<Access>) {
    && 1 <= |t| <= POLL_LIMIT + 1
    && (forall i | 0 <= i < |t| :: IsRead(t[i], FR))
    && (forall i | 0 <= i < |t| - 1 :: Busy(t[i].value))
    && (Busy(t[|t| - 1].value) ==> |t| == POLL_LIMIT + 1)
  }

  /** Step 3, under way: n words read, each after a poll that saw one, and a last poll. */
  ghost predicate IsDraining(t: seq<Access>, n: nat, flags: uint32) {
    && |t| == 2 * n + 1
    && (forall i | 0 <= i < n :: IsRead(t[2 * i], FR) && !RxEmpty(t[2 * i].value) && IsRead(t[2 * i + 1], DR))
    && t[2 * n] == Rd(FR, flags)
  }

  lemma DrainingStep(t: seq<Access>, n: nat, flags: uint32, w: uint32, flags': uint32)
    requires IsDraining(t, n, flags) && !RxEmpty(flags)
    ensures IsDraining(t + [Rd(DR, w), Rd(FR, flags')], n + 1, flags')
  {
    hide Bit, RxEmpty;
    var u := t + [Rd(DR, w), Rd(FR, flags')];
    forall i | 0 <= i < n + 1
      ensures IsRead(u[2 * i], FR) && !RxEmpty(u[2 * i].value) && IsRead(u[2 * i + 1], DR)
    {
      if i < n {
        assert u[2 * i] == t[2 * i] && u[2 * i + 1] == t[2 * i + 1];
      } else {
        assert u[2 * n] == t[2 * n] && u[2 * n + 1] == Rd(DR, w);
      }
    }
  }

  /** Step 3: it stops at the first poll that sees no word. */
  ghost predicate IsDrain(t: seq<Access>, n: nat) {
    exists flags :: IsDraining(t, n, flags) && RxEmpty(flags)
  }

  /** hw_init on a device whose FIFOs hold depth entries. */
  ghost predicate IsHwInit(baud: uint32, depth: nat, t: seq<Access>) {
    && Divides(baud)
    && exists wait, drain, n: nat ::
         && t == [Wr(CR, 0)] + wait + drain + ConfigWrites(baud)
         && IsBusyWait(wait) && IsDrain(drain, n) && n <= depth + 1
  }

  lemma HwInitFrom(baud: uint32, depth: nat, wait: seq<Access>, drain: seq<Access>, n: nat)
    requires Divides(baud) && IsBusyWait(wait) && IsDrain(drain, n) && n <= depth + 1
    ensures IsHwInit(baud, depth, [Wr(CR, 0)] + wait + drain + ConfigWrites(baud))
  {
  }

  lemma DrainReads(t: seq<Access>, n: nat)
    requires IsDrain(t, n)
    ensures AllReads(t)
  {
    var flags :| IsDraining(t, n, flags) && RxEmpty(flags);
    forall i | 0 <= i < |t|
      ensures t[i].Rd?
    {
      if i % 2 == 0 {
        assert i == 2 * (i / 2);
      } else {
        assert i == 2 * (i / 2) + 1;
        assert IsRead(t[2 * (i / 2) + 1], DR);
      }
    }
  }

  // ---- The calls ----

  datatype Call =
    | Start(superStarted: bool, described: bool, mappable: bool)
    | Stop
    | PutChar(c: byte)
    | GetChar
    | PutString(s: seq<byte>)
    | SetBaud(baud: uint32)

  /** The driver is told to start only while stopped, and to change the rate only while it has its
      registers mapped, to a rate that hw_init can divide by. */
  predicate MayCall(mapped: bool, call: Call) {
    match call
    case Start(_, _, _) => !mapped
    case SetBaud(baud) => mapped && Divides(baud)
    case _ => true
  }

  predicate MappedAfter(mapped: bool, call: Call) {
    match call
    case Start(s, d, m) => s && d && m
    case Stop => false
    case _ => mapped
  }

  ghost predicate IsPutString(s: seq<byte>, t: seq<Access>) {
    exists sent :: |sent| == |Expand(s)| && IsPutAll(Expand(s), sent, t)
  }

  /** The register accesses of one call; without mapped registers there are none. */
  ghost predicate IsCall(mapped: bool, depth: nat, call: Call, t: seq<Access>) {
    match call
    case Start(s, d, m) =>
      if s && d && m then
        exists k :: 0 <= k <= |t| && IsHwInit(DEFAULT_BAUD, depth, t[..k]) && IsPutString(StartBanner(), t[k..])
      else t == []
    case Stop =>
      if mapped then t != [] && IsPutString(StopBanner(), t[..|t| - 1]) && t[|t| - 1] == Wr(CR, 0)
      else t == []
    case PutChar(c) => if mapped then exists sent :: IsPutChar(c, sent, t) else t == []
    case GetChar =>
      if mapped then
        && 1 <= |t| <= 2 && IsRead(t[0], FR)
        && (|t| == 2 <==> !RxEmpty(t[0].value)) && (|t| == 2 ==> IsRead(t[1], DR))
      else t == []
    case PutString(s) => if mapped then IsPutString(s, t) else t == []
    case SetBaud(baud) => IsHwInit(baud, depth, t)
  }

  function MappedAfterAll(mapped: bool, calls: seq<Call>): bool {
    if calls == [] then mapped else MappedAfter(MappedAfterAll(mapped, calls[..|calls| - 1]), calls[|calls| - 1])
  }

  /** A run of calls, each with its piece of the trace. */
  ghost predicate IsRun(mapped: bool, depth: nat, calls: seq<Call>, t: seq<Access>) {
    if calls == [] then t == []
    else
      var n := |calls| - 1;
      var before := MappedAfterAll(mapped, calls[..n]);
      && MayCall(before, calls[n])
      && exists k ::
           0 <= k <= |t| && IsRun(mapped, depth, calls[..n], t[..k]) && IsCall(before, depth, calls[n], t[k..])
  }

  lemma LastCall(mapped: bool, depth: nat, calls: seq<Call>, t: seq<Access>)
    returns (u: seq<Access>, v: seq<Access>)
    requires IsRun(mapped, depth, calls, t) && calls != []
    ensures t == u + v && IsRun(mapped, depth, calls[..|calls| - 1], u)
    ensures MayCall(MappedAfterAll(mapped, calls[..|calls| - 1]), calls[|calls| - 1])
    ensures IsCall(MappedAfterAll(mapped, calls[..|calls| - 1]), depth, calls[|calls| - 1], v)
  {
    hide IsCall;
    var n := |calls| - 1;
    var before := MappedAfterAll(mapped, calls[..n]);
    var k :| 0 <= k <= |t| && IsRun(mapped, depth, calls[..n], t[..k]) && IsCall(before, depth, calls[n], t[k..]);
    u, v := t[..k], t[k..];
  }

  // ---- What the monitor says of a call ----

  lemma {:induction false} WatchReads(m: Monitor, t: seq<Access>)
    requires AllReads(t)
    ensures var m' := WatchAll(m, t);
      && m'.ok == m.ok && m'.off == m.off && m'.ibrd == m.ibrd && m'.fbrd == m.fbrd && m'.lcrh == m.lcrh
      && (t != [] ==> m'.room == SeesRoom(t[|t| - 1]))
  {
    if t != [] { WatchReads(m, t[..|t| - 1]); }
  }

  lemma WatchPutChar(m: Monitor, c: byte, sent: bool, t: seq<Access>)
    requires m.ok && IsPutChar(c, sent, t)
    ensures WatchAll(m, t).ok
  {
    if sent {
      WatchReads(m, t[..|t| - 1]);
      hide Bit;
    } else {
      WatchReads(m, t);
    }
  }

  lemma {:induction false} WatchPutAll(m: Monitor, s: seq<byte>, sent: seq<bool>, t: seq<Access>)
    requires m.ok && |s| == |sent| && IsPutAll(s, sent, t)
    ensures WatchAll(m, t).ok
  {
    if s != [] {
      var n := |s| - 1;
      var u, v := LastPut(s, sent, t);
      hide IsPutChar, IsPutAll, Watch;
      WatchPutAll(m, s[..n], sent[..n], u);
      hide WatchAll;
      WatchPutChar(WatchAll(m, u), s[n], sent[n], v);
      WatchAppend(m, u, v);
    }
  }

  lemma WatchPutString(m: Monitor, s: seq<byte>, t: seq<Access>)
    requires m.ok && IsPutString(s, t)
    ensures WatchAll(m, t).ok
  {
    var sent :| |sent| == |Expand(s)| && IsPutAll(Expand(s), sent, t);
    WatchPutAll(m, Expand(s), sent, t);
  }

  lemma WatchOne(m: Monitor, t: seq<Access>, a: Access)
    ensures WatchAll(m, t + [a]) == Watch(WatchAll(m, t), a)
  {
    Snoc(t, a);
  }

  lemma WatchConfig(m: Monitor, baud: uint32)
    requires m.ok && m.off && Divides(baud)
    ensures WatchAll(m, ConfigWrites(baud)).ok
  {
    var c := ConfigWrites(baud);
    assert UartEnabled(CR_SETTING);
    hide Bit;
    assert WatchAll(m, []) == m;
    WatchOne(m, [], c[0]);
    WatchOne(m, [] + [c[0]], c[1]);
    WatchOne(m, [] + [c[0]] + [c[1]], c[2]);
    WatchOne(m, [] + [c[0]] + [c[1]] + [c[2]], c[3]);
    WatchOne(m, [] + [c[0]] + [c[1]] + [c[2]] + [c[3]], c[4]);
    WatchOne(m, [] + [c[0]] + [c[1]] + [c[2]] + [c[3]] + [c[4]], c[5]);
    hide WatchAll, Ibrd, Fbrd, Divides;
    assert c == [] + [c[0]] + [c[1]] + [c[2]] + [c[3]] + [c[4]] + [c[5]];
  }

  lemma WatchOff(m: Monitor, t: seq<Access>)
    ensures WatchAll(m, t + [Wr(CR, 0)]) == Monitor(true, false, false, false, false, WatchAll(m, t).ok)
  {
    WatchOne(m, t, Wr(CR, 0));
    assert !UartEnabled(0);
  }

  lemma WatchPieces(m: Monitor, a: seq<Access>, b: seq<Access>, c: seq<Access>)
    ensures WatchAll(m, a + b + c) == WatchAll(WatchAll(WatchAll(m, a), b), c)
  {
    WatchAppend(m, a + b, c);
    WatchAppend(m, a, b);
  }

  lemma WatchHwInit(m: Monitor, baud: uint32, depth: nat, t: seq<Access>)
    requires m.ok && IsHwInit(baud, depth, t)
    ensures WatchAll(m, t).ok
  {
    var wait, drain, n: nat :|
      && t == [Wr(CR, 0)] + wait + drain + ConfigWrites(baud)
      && IsBusyWait(wait) && IsDrain(drain, n) && n <= depth + 1;
    DrainReads(drain, n);
    BusyWaitReads(wait);
    assert AllReads(wait + drain);
    var off := [Wr(CR, 0)];
    assert t == off + (wait + drain) + ConfigWrites(baud);
    WatchOff(m, []);
    assert [] + off == off;
    assert WatchAll(m, []) == m;
    hide ConfigWrites, IsBusyWait, IsDrain, AllReads, Watch, WatchAll, IsHwInit;
    WatchPieces(m, off, wait + drain, ConfigWrites(baud));
    WatchReads(WatchAll(m, off), wait + drain);
    WatchConfig(WatchAll(WatchAll(m, off), wait + drain), baud);
  }

  lemma BusyWaitReads(t: seq<Access>)
    requires IsBusyWait(t)
    ensures AllReads(t)
  {
    forall i | 0 <= i < |t|
      ensures t[i].Rd?
    {
      assert IsRead(t[i], FR);
    }
  }

  lemma WatchStart(m: Monitor, depth: nat, t: seq<Access>, k: nat)
    requires m.ok && k <= |t|
    requires IsHwInit(DEFAULT_BAUD, depth, t[..k]) && IsPutString(StartBanner(), t[k..])
    ensures WatchAll(m, t).ok
  {
    hide IsHwInit, IsPutString, WatchAll, StartBanner;
    WatchHwInit(m, DEFAULT_BAUD, depth, t[..k]);
    WatchPutString(WatchAll(m, t[..k]), StartBanner(), t[k..]);
    WatchAppend(m, t[..k], t[k..]);
    assert t == t[..k] + t[k..];
  }

  lemma WatchStop(m: Monitor, t: seq<Access>)
    requires m.ok && t != []
    requires IsPutString(StopBanner(), t[..|t| - 1]) && t[|t| - 1] == Wr(CR, 0)
    ensures WatchAll(m, t).ok
  {
    hide IsPutString, WatchAll, StopBanner;
    WatchPutString(m, StopBanner(), t[..|t| - 1]);
    WatchOff(m, t[..|t| - 1]);
    assert t == t[..|t| - 1] + [Wr(CR, 0)];
  }

  lemma WatchCall(m: Monitor, mapped: bool, depth: nat, call: Call, t: seq<Access>)
    requires m.ok && IsCall(mapped, depth, call, t)
    ensures WatchAll(m, t).ok
  {
    if t != [] {
      hide IsHwInit, IsPutString, WatchAll, StartBanner, StopBanner, IsPutChar;
      match call
      case Start(_, _, _) =>
        var k :| 0 <= k <= |t| && IsHwInit(DEFAULT_BAUD, depth, t[..k]) && IsPutString(StartBanner(), t[k..]);
        WatchStart(m, depth, t, k);
      case Stop => WatchStop(m, t);
      case PutChar(c) =>
        var sent :| IsPutChar(c, sent, t);
        WatchPutChar(m, c, sent, t);
      case GetChar =>
        assert AllReads(t);
        WatchReads(m, t);
      case PutString(s) => WatchPutString(m, s, t);
      case SetBaud(baud) => WatchHwInit(m, baud, depth, t);
    }
  }

  lemma {:induction false} WatchRun(mapped: bool, depth: nat, calls: seq<Call>, t: seq<Access>)
    requires IsRun(mapped, depth, calls, t)
    ensures WatchAll(UNKNOWN, t).ok
  {
    if calls != [] {
      var n := |calls| - 1;
      var u, v := LastCall(mapped, depth, calls, t);
      hide IsCall, IsRun;
      WatchRun(mapped, depth, calls[..n], u);
      hide WatchAll;
      WatchCall(WatchAll(UNKNOWN, u), MappedAfterAll(mapped, calls[..n]), depth, calls[n], v);
      WatchAppend(UNKNOWN, u, v);
    }
  }

  /** Every run of driver calls obeys the register discipline at every access. */
  lemma EveryRunIsDisciplined(mapped: bool, depth: nat, calls: seq<Call>, t: seq<Access>)
    requires IsRun(mapped, depth, calls, t)
    ensures Disciplined(t)
  {
    WatchRun(mapped, depth, calls, t);
    MonitorIsDiscipline(t);
  }

  /** So no run loses a byte at the transmit FIFO, whatever the device does between the accesses. */
  lemma EveryRunKeepsItsBytes(mapped: bool, depth: nat, calls: seq<Call>, d: Device, h: seq<Event>)
    requires Possible(d, h) && IsRun(mapped, depth, calls, Accesses(h))
    ensures After(d, h).lost == d.lost
    ensures After(d, h).sent + After(d, h).tx == d.sent + d.tx + DrBytes(Accesses(h))
  {
    EveryRunIsDisciplined(mapped, depth, calls, Accesses(h));
    NoByteLost(d, h);
  }

  /** A call that finds the registers unmapped, and leaves them so, touches none. */
  lemma QuietCall(depth: nat, call: Call, t: seq<Access>)
    requires IsCall(false, depth, call, t) && MayCall(false, call) && !MappedAfter(false, call)
    ensures t == []
  {
  }

  lemma StopEndsOff(mapped: bool, depth: nat, t: seq<Access>)
    requires IsCall(mapped, depth, Stop, t)
    ensures mapped ==> t != [] && t[|t| - 1] == Wr(CR, 0)
  {
    hide IsPutString, StopBanner;
  }

  lemma StopUnmaps(mapped: bool)
    ensures !MappedAfter(mapped, Stop)
  {
  }

  lemma MappedStep(mapped: bool, calls: seq<Call>, call: Call)
    ensures MappedAfterAll(mapped, calls + [call]) == MappedAfter(MappedAfterAll(mapped, calls), call)
  {
    Snoc(calls, call);
  }

  /** Before the first successful start no register is touched. */
  lemma {:induction false} QuietWhileUnmapped(depth: nat, calls: seq<Call>, t: seq<Access>)
    requires IsRun(false, depth, calls, t)
    requires forall i | 0 <= i < |calls| :: !MappedAfter(false, calls[i])
    ensures t == [] && !MappedAfterAll(false, calls)
  {
    if calls != [] {
      var n := |calls| - 1;
      var u, v := LastCall(false, depth, calls, t);
      hide IsRun, IsCall, MayCall, MappedAfter;
      QuietWhileUnmapped(depth, calls[..n], u);
      QuietCall(depth, calls[n], v);
    }
  }

  /** Nor, in any run, after a stop and until the next successful start: the calls after the stop add
      nothing to the trace, and if the registers were mapped it ends with the UART being switched off. */
  lemma {:induction false} QuietAfterStop(mapped: bool, depth: nat, a: seq<Call>, b: seq<Call>, t: seq<Access>)
    requires IsRun(mapped, depth, a + [Stop] + b, t)
    requires forall i | 0 <= i < |b| :: !MappedAfter(false, b[i])
    ensures IsRun(mapped, depth, a + [Stop], t) && !MappedAfterAll(mapped, a + [Stop] + b)
    ensures MappedAfterAll(mapped, a) ==> t != [] && t[|t| - 1] == Wr(CR, 0)
    decreases |b|
  {
    hide IsRun, IsCall, MayCall, MappedAfter, MappedAfterAll;
    if b == [] {
      assert a + [Stop] + b == a + [Stop];
      Snoc(a, Stop);
      var u, v := LastCall(mapped, depth, a + [Stop], t);
      StopEndsOff(MappedAfterAll(mapped, a), depth, v);
      MappedStep(mapped, a, Stop);
      StopUnmaps(MappedAfterAll(mapped, a));
    } else {
      var n := |b| - 1;
      var before := a + [Stop] + b[..n];
      assert a + [Stop] + b == before + [b[n]];
      Snoc(before, b[n]);
      var u, v := LastCall(mapped, depth, before + [b[n]], t);
      QuietAfterStop(mapped, depth, a, b[..n], u);
      QuietCall(depth, b[n], v);
      assert t == u;
      MappedStep(mapped, before, b[n]);
    }
  }
}
