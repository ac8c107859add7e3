/** What the UART's registers hold after a history, and what hw_init leaves in them. */
module Registers {
  import opened Machine
  import opened Pl011
  import opened Baud
  import opened Newlines
  import opened SerialCalls

  predicate IsSetting(o: int) {
    o == IBRD || o == FBRD || o == LCRH || o == CR
  }

  function Setting(d: Device, o: int): uint32
    requires IsSetting(o)
  {
    if o == IBRD then d.ibrd else if o == FBRD then d.fbrd else if o == LCRH then d.lcrh else d.cr
  }

  /** What a register holds of the value last written to it, or what it had before. */
  function LastWritten(t: seq<Access>, o: int, before: uint32): uint32 {
    if t == [] then before
    else
      var a := t[|t| - 1];
      if a.Wr? && a.offset == o then Stored(o, a.value) else LastWritten(t[..|t| - 1], o, before)
  }

  /** Whatever the device does by itself, its settings are the values last written to them. */
  lemma {:induction false} SettingsAreTheLastWritten(d: Device, h: seq<Event>, o: int)
    requires Possible(d, h) && IsSetting(o)
    ensures Setting(After(d, h), o) == LastWritten(Accesses(h), o, Setting(d, o))
  {
    if h != [] {
      var g, e := h[..|h| - 1], h[|h| - 1];
      SettingsAreTheLastWritten(d, g, o);
      EventSets(After(d, g), e, o);
      if e.Acc? {
        Snoc(Accesses(g), e.access);
      }
      hide Setting, Apply, CanHappen, IsSetting;
    }
  }

  lemma EventSets(d: Device, e: Event, o: int)
    requires IsSetting(o)
    ensures Setting(Apply(d, e), o) ==
            if e.Acc? && e.access.Wr? && e.access.offset == o then Stored(o, e.access.value) else Setting(d, o)
  {
    hide Bit;
  }

  lemma {:induction false} LastWrittenAppend(t: seq<Access>, u: seq<Access>, o: int, before: uint32)
    ensures LastWritten(t + u, o, before) == LastWritten(u, o, LastWritten(t, o, before))
  {
    if u == [] {
      assert t + u == t;
    } else {
      assert (t + u)[..|t + u| - 1] == t + u[..|u| - 1];
      LastWrittenAppend(t, u[..|u| - 1], o, before);
    }
  }

  lemma LastWrittenSnoc(t: seq<Access>, a: Access, o: int, before: uint32)
    ensures LastWritten(t + [a], o, before) ==
            if a.Wr? && a.offset == o then Stored(o, a.value) else LastWritten(t, o, before)
  {
    Snoc(t, a);
  }

  lemma StoredSettings(baud: uint32)
    requires Divides(baud)
    ensures Stored(IBRD, Ibrd(baud)) == Ibrd(baud) % 0x1_0000
    ensures Stored(FBRD, Fbrd(baud) % 0x1_0000_0000) == Fbrd(baud) % 64
    ensures Stored(LCRH, LCRH_SETTING) == LCRH_SETTING && Stored(CR, CR_SETTING) == CR_SETTING
  {
    hide Ibrd, Fbrd;
  }

  lemma ConfigSets(baud: uint32, o: int, before: uint32)
    requires Divides(baud) && IsSetting(o)
    ensures LastWritten(ConfigWrites(baud), o, before) ==
            if o == IBRD then Ibrd(baud) % 0x1_0000 else if o == FBRD then Fbrd(baud) % 64
            else if o == LCRH then LCRH_SETTING else CR_SETTING
  {
    var c := ConfigWrites(baud);
    var c1 := [] + [c[0]];
    var c2 := c1 + [c[1]];
    var c3 := c2 + [c[2]];
    var c4 := c3 + [c[3]];
    var c5 := c4 + [c[4]];
    assert c == c5 + [c[5]];
    assert LastWritten([], o, before) == before;
    StoredSettings(baud);
    hide LastWritten, Ibrd, Fbrd, Divides, Stored;
    LastWrittenSnoc([], c[0], o, before);
    LastWrittenSnoc(c1, c[1], o, before);
    LastWrittenSnoc(c2, c[2], o, before);
    LastWrittenSnoc(c3, c[3], o, before);
    LastWrittenSnoc(c4, c[4], o, before);
    LastWrittenSnoc(c5, c[5], o, before);
  }

  /** The device that hw_init leaves: the divisors of the rate as far as the registers hold them; in the line
      control 8-bit words and FIFOs, and neither break, parity, two stop bits nor stick parity; in the
      control register the UART, its transmitter and its receiver, and nothing else. */
  ghost predicate Configured(d: Device, baud: uint32)
    requires Divides(baud)
  {
    && d.ibrd == Ibrd(baud) % 0x1_0000 && d.fbrd == Fbrd(baud) % 64
    && 64 * d.ibrd + d.fbrd == HeldPair(baud)
    && d.lcrh == 0x40 + 0x20 + 0x10 && d.cr == 0x200 + 0x100 + 0x1
  }

  lemma ConfiguredBits(d: Device, baud: uint32)
    requires Divides(baud) && Configured(d, baud)
    ensures Bit(d.lcrh, 64) && Bit(d.lcrh, 32) && FifosEnabled(d.lcrh)
    ensures !Bit(d.lcrh, 1) && !Bit(d.lcrh, 2) && !Bit(d.lcrh, 4) && !Bit(d.lcrh, 8) && !Bit(d.lcrh, 128)
    ensures d.Receiving() && TxEnabled(d.cr)
    ensures !Bit(d.cr, 2) && !Bit(d.cr, 4) && !Bit(d.cr, 8) && !Bit(d.cr, 16) && !Bit(d.cr, 32) && !Bit(d.cr, 64)
    ensures !Bit(d.cr, 128) && d.cr < 1024
  {
    hide Ibrd, Fbrd, Divides;
  }

  /** However the device was set before and whatever it does meanwhile. */
  lemma HwInitConfigures(d: Device, h: seq<Event>, before: seq<Access>, baud: uint32, depth: nat, t: seq<Access>)
    requires Possible(d, h) && Accesses(h) == before + t && IsHwInit(baud, depth, t)
    ensures Configured(After(d, h), baud)
  {
    assert before + t + [] == before + t;
    NothingSet();
    hide IsHwInit, Possible, Divides, Configured, SetsNothing;
    ConfiguredAfter(d, h, before, baud, depth, t, []);
  }

  /** A piece of a trace that leaves every setting as it is. */
  ghost predicate SetsNothing(t: seq<Access>) {
    forall o, before | IsSetting(o) :: LastWritten(t, o, before) == before
  }

  lemma NothingSet()
    ensures SetsNothing([])
  {
  }

  lemma ConfiguredAfter(d: Device, h: seq<Event>, before: seq<Access>, baud: uint32, depth: nat, t: seq<Access>,
                        v: seq<Access>)
    requires Possible(d, h) && Accesses(h) == before + t + v && IsHwInit(baud, depth, t) && SetsNothing(v)
    ensures Configured(After(d, h), baud)
  {
    var wait, drain, n: nat :|
      && t == [Wr(CR, 0)] + wait + drain + ConfigWrites(baud)
      && IsBusyWait(wait) && IsDrain(drain, n) && n <= depth + 1;
    var u := before + ([Wr(CR, 0)] + wait + drain);
    assert Accesses(h) == u + ConfigWrites(baud) + v;
    hide IsBusyWait, IsDrain, ConfigWrites, IsHwInit, Possible, Divides, SetsNothing;
    SettingIs(d, h, u, baud, v, IBRD);
    SettingIs(d, h, u, baud, v, FBRD);
    SettingIs(d, h, u, baud, v, LCRH);
    SettingIs(d, h, u, baud, v, CR);
    hide After, LastWritten, Ibrd, Fbrd;
  }

  /** The accesses of hw_init, by register offset: the UART goes off first; k polls of the flag register, up
      to the first that does not see it busy, or 100001; n words read, each after a poll that saw one, and a
      poll that saw none; and six writes. */
  lemma HwInitAccesses(baud: uint32, depth: nat, t: seq<Access>) returns (k: nat, n: nat)
    requires IsHwInit(baud, depth, t)
    ensures 1 <= k <= 100_001 && n <= depth + 1 && |t| == 1 + k + (2 * n + 1) + 6 && t[0] == Wr(0x30, 0)
    ensures forall i | 1 <= i <= k :: t[i].Rd? && t[i].offset == 0x18 && (Busy(t[i].value) || i == k)
    ensures Busy(t[k].value) ==> k == 100_001
    ensures forall j | 0 <= j <= n ::
              var i := k + 1 + 2 * j;
              && t[i].Rd? && t[i].offset == 0x18 && (RxEmpty(t[i].value) <==> j == n)
              && (j < n ==> t[i + 1].Rd? && t[i + 1].offset == 0x00)
    ensures t[|t| - 6..] == [Wr(0x24, Ibrd(baud)), Wr(0x28, Fbrd(baud) % 0x1_0000_0000), Wr(0x2C, 0x70),
                             Wr(0x38, 0), Wr(0x44, 0x7FF), Wr(0x30, 0x301)]
  {
    hide Ibrd, Fbrd, Divides, Busy, RxEmpty;
    var wait: seq<Access>, drain: seq<Access>, m: nat :|
      && t == [Wr(CR, 0)] + wait + drain + ConfigWrites(baud)
      && IsBusyWait(wait) && IsDrain(drain, m) && m <= depth + 1;
    k, n := |wait|, m;
    var flags :| IsDraining(drain, n, flags) && RxEmpty(flags);
    assert forall i | 1 <= i <= k :: t[i] == wait[i - 1];
    forall j | 0 <= j <= n
      ensures var i := k + 1 + 2 * j;
        && t[i].Rd? && t[i].offset == 0x18 && (RxEmpty(t[i].value) <==> j == n)
        && (j < n ==> t[i + 1].Rd? && t[i + 1].offset == 0x00)
    {
      assert t[k + 1 + 2 * j] == drain[2 * j];
      if j < n { assert t[k + 2 + 2 * j] == drain[2 * j + 1]; }
    }
  }

  /** The divisor that the device is left with is the nearest one exactly when the drift of the coded
      fraction is small. */
  lemma HwInitIsNearest(d: Device, h: seq<Event>, before: seq<Access>, baud: uint32, depth: nat, t: seq<Access>)
    requires Possible(d, h) && Accesses(h) == before + t && IsHwInit(baud, depth, t) && Supported(baud)
    ensures var d', k := After(d, h), Fbrd(baud);
      && d'.ibrd == Ibrd(baud)
      && (Nearest(baud, 64 * d'.ibrd + d'.fbrd) <==> DriftIsSmall(Drift(k), k * baud, 64 * Rest(baud)))
  {
    hide IsHwInit, Possible, After, Accesses, Ibrd, Rest, Fbrd, Nearest, DriftIsSmall, Drift, Bit, Device.Receiving;
    HwInitConfigures(d, h, before, baud, depth, t);
    IbrdInRange(baud);
    HeldPairIsNearest(baud);
  }

  lemma SettingIs(d: Device, h: seq<Event>, u: seq<Access>, baud: uint32, v: seq<Access>, o: int)
    requires Divides(baud) && Possible(d, h) && Accesses(h) == u + ConfigWrites(baud) + v
    requires SetsNothing(v) && IsSetting(o)
    ensures Setting(After(d, h), o) ==
            if o == IBRD then Ibrd(baud) % 0x1_0000 else if o == FBRD then Fbrd(baud) % 64
            else if o == LCRH then LCRH_SETTING else CR_SETTING
  {
    hide ConfigWrites, Possible, Ibrd, Fbrd, LastWritten, After, Divides;
    SettingsAreTheLastWritten(d, h, o);
    LastWrittenAppend(u + ConfigWrites(baud), v, o, Setting(d, o));
    LastWrittenAppend(u, ConfigWrites(baud), o, Setting(d, o));
    ConfigSets(baud, o, LastWritten(u, o, Setting(d, o)));
  }

  // ---- What whole runs leave ----

  lemma {:induction false} NoSettingWritten(t: seq<Access>, o: int, before: uint32)
    requires IsSetting(o) && forall i | 0 <= i < |t| :: t[i].Rd? || t[i].offset == DR
    ensures LastWritten(t, o, before) == before
  {
    if t != [] { NoSettingWritten(t[..|t| - 1], o, before); }
  }

  lemma PutCharSetsNothing(c: byte, sent: bool, t: seq<Access>)
    requires IsPutChar(c, sent, t)
    ensures SetsNothing(t)
  {
    SentIffRoomInTime(c, sent, t);
    hide IsPutChar;
    forall o, before | IsSetting(o)
      ensures LastWritten(t, o, before) == before
    {
      NoSettingWritten(t, o, before);
    }
  }

  lemma SetsNothingAppend(u: seq<Access>, v: seq<Access>)
    requires SetsNothing(u) && SetsNothing(v)
    ensures SetsNothing(u + v)
  {
    forall o, before | IsSetting(o)
      ensures LastWritten(u + v, o, before) == before
    {
      LastWrittenAppend(u, v, o, before);
    }
  }

  /** putString writes no setting. */
  lemma {:induction false} PutAllSetsNothing(s: seq<byte>, sent: seq<bool>, t: seq<Access>)
    requires |s| == |sent| && IsPutAll(s, sent, t)
    ensures SetsNothing(t)
  {
    if s != [] {
      var n := |s| - 1;
      var u, v := LastPut(s, sent, t);
      hide IsPutAll, IsPutChar, SetsNothing;
      PutAllSetsNothing(s[..n], sent[..n], u);
      PutCharSetsNothing(s[n], sent[n], v);
      SetsNothingAppend(u, v);
    }
  }

  /** What putString writes, whatever times out, is an in-order part of the expansion. */
  lemma PutStringIs(s: seq<byte>, t: seq<Access>)
    requires IsPutString(s, t)
    ensures SetsNothing(t) && IsSubsequence(DrBytes(t), Expand(s))
  {
    var sent :| |sent| == |Expand(s)| && IsPutAll(Expand(s), sent, t);
    hide IsPutAll, IsSubsequence, Expand, SetsNothing;
    PutAllSetsNothing(Expand(s), sent, t);
    PutStringWrites(s, sent, t);
  }

  lemma {:induction false} NoDataWritten(t: seq<Access>)
    requires forall i | 0 <= i < |t| :: t[i].Rd? || t[i].offset != DR
    ensures DrBytes(t) == []
  {
    if t != [] { NoDataWritten(t[..|t| - 1]); }
  }

  lemma HwInitWritesNothing(baud: uint32, depth: nat, t: seq<Access>)
    requires IsHwInit(baud, depth, t)
    ensures DrBytes(t) == []
  {
    var wait, drain, n: nat :|
      && t == [Wr(CR, 0)] + wait + drain + ConfigWrites(baud)
      && IsBusyWait(wait) && IsDrain(drain, n) && n <= depth + 1;
    BusyWaitReads(wait);
    DrainReads(drain, n);
    hide IsHwInit, IsBusyWait, IsDrain, Ibrd, Fbrd, Divides;
    NoDataWritten(t);
  }

  /** After a run that ends in a reconfiguration the device is configured for that rate. */
  lemma SetBaudConfigures(d: Device, h: seq<Event>, mapped: bool, depth: nat, calls: seq<Call>, baud: uint32)
    requires Possible(d, h) && IsRun(mapped, depth, calls + [SetBaud(baud)], Accesses(h))
    ensures Divides(baud) && Configured(After(d, h), baud)
  {
    hide IsRun, IsHwInit, Possible, Configured, Divides, StartBanner, StopBanner;
    Snoc(calls, SetBaud(baud));
    var u, v := LastCall(mapped, depth, calls + [SetBaud(baud)], Accesses(h));
    HwInitDivides(baud, depth, v);
    HwInitConfigures(d, h, u, baud, depth, v);
  }

  lemma HwInitDivides(baud: uint32, depth: nat, t: seq<Access>)
    requires IsHwInit(baud, depth, t)
    ensures Divides(baud)
  {
  }

  lemma StartParts(mapped: bool, depth: nat, t: seq<Access>) returns (init: seq<Access>, banner: seq<Access>)
    requires IsCall(mapped, depth, Start(true, true, true), t)
    ensures t == init + banner && IsHwInit(115_200, depth, init)
    ensures IsPutString(Ascii("\r\n[JuliusSerial] UART driver started. JULIUS OS serial console ready.\r\n"), banner)
  {
    hide IsHwInit, IsPutString, Ascii;
    var k :| 0 <= k <= |t| && IsHwInit(DEFAULT_BAUD, depth, t[..k]) && IsPutString(StartBanner(), t[k..]);
    init, banner := t[..k], t[k..];
  }

  /** After a run that ends in a successful start the device is configured for 115200. The start switches the
      UART off first, and writes no byte but those of the banner, or an in-order part of its expansion. */
  lemma StartConfigures(d: Device, h: seq<Event>, mapped: bool, depth: nat, calls: seq<Call>)
    returns (u: seq<Access>, v: seq<Access>)
    requires Possible(d, h) && IsRun(mapped, depth, calls + [Start(true, true, true)], Accesses(h))
    ensures Divides(115_200) && Configured(After(d, h), 115_200)
    ensures Accesses(h) == u + v && IsRun(mapped, depth, calls, u) && v != [] && v[0] == Wr(0x30, 0)
    ensures IsSubsequence(DrBytes(v), Expand(Ascii(
              "\r\n[JuliusSerial] UART driver started. JULIUS OS serial console ready.\r\n")))
  {
    hide IsRun, IsCall, IsHwInit, IsPutString, Possible, Configured, Divides, Expand, IsSubsequence, Ascii;
    hide SetsNothing, Accesses, DrBytes;
    var start := Start(true, true, true);
    Snoc(calls, start);
    u, v := LastCall(mapped, depth, calls + [start], Accesses(h));
    var init, banner := StartParts(MappedAfterAll(mapped, calls), depth, v);
    HwInitDivides(115_200, depth, init);
    var _, _ := HwInitAccesses(115_200, depth, init);
    HwInitWritesNothing(115_200, depth, init);
    PutStringIs(Ascii("\r\n[JuliusSerial] UART driver started. JULIUS OS serial console ready.\r\n"), banner);
    Associative(u, init, banner);
    ConfiguredAfter(d, h, u, 115_200, depth, init, banner);
    DrBytesAppend(init, banner);
    assert [] + DrBytes(banner) == DrBytes(banner);
  }

  lemma StopParts(depth: nat, t: seq<Access>) returns (banner: seq<Access>)
    requires IsCall(true, depth, Stop, t)
    ensures t == banner + [Wr(0x30, 0)]
    ensures IsPutString(Ascii("\r\n[JuliusSerial] UART driver stopping.\r\n"), banner)
  {
    hide IsPutString, Ascii;
    banner := t[..|t| - 1];
  }

  /** After a run that ends in a stop of a started driver the UART, its transmitter and its receiver are off,
      and nothing but the banner, or an in-order part of its expansion, was written last. */
  lemma StopSwitchesOff(d: Device, h: seq<Event>, mapped: bool, depth: nat, calls: seq<Call>)
    returns (u: seq<Access>, v: seq<Access>)
    requires Possible(d, h) && IsRun(mapped, depth, calls + [Stop], Accesses(h)) && MappedAfterAll(mapped, calls)
    ensures After(d, h).cr == 0 && Accesses(h) == u + v && IsRun(mapped, depth, calls, u)
    ensures IsSubsequence(DrBytes(v), Expand(Ascii("\r\n[JuliusSerial] UART driver stopping.\r\n")))
  {
    hide IsRun, IsCall, IsPutString, Possible, Expand, IsSubsequence, Ascii, SetsNothing, Accesses;
    Snoc(calls, Stop);
    u, v := LastCall(mapped, depth, calls + [Stop], Accesses(h));
    var banner := StopParts(depth, v);
    PutStringIs(Ascii("\r\n[JuliusSerial] UART driver stopping.\r\n"), banner);
    SettingsAreTheLastWritten(d, h, CR);
    Associative(u, banner, [Wr(0x30, 0)]);
    LastWrittenSnoc(u + banner, Wr(0x30, 0), CR, Setting(d, CR));
    NoDataAfter(banner);
    hide LastWritten, After, DrBytes;
  }

  lemma NoDataAfter(t: seq<Access>)
    ensures DrBytes(t + [Wr(0x30, 0)]) == DrBytes(t)
  {
    Snoc(t, Wr(0x30, 0));
  }
}
