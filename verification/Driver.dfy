/** kexts/JuliusSerial/src/JuliusSerial.cpp, run against the UART. */
module Driver {
  import opened Machine
  import opened Pl011
  import opened Discipline
  import opened Newlines
  import opened Baud
  import opened SerialCalls

  class JuliusSerialDriver {
    const uart: Uart
    /** `_mmioMap` and `_regs` are not null. */
    var mmioMap: bool
    var regs: bool
    /** The calls made so far. */
    ghost var calls: seq<Call>

    /** The trace is that of a run of the calls. */
    ghost predicate Valid()
      reads this, uart
    {
      && uart.Valid() && mmioMap == regs == MappedAfterAll(false, calls)
      && IsRun(false, uart.dev.depth, calls, uart.trace)
    }

    constructor (uart: Uart)
      requires uart.Valid() && uart.trace == []
      ensures Valid() && this.uart == uart && calls == []
    {
      this.uart := uart;
      mmioMap, regs, calls := false, false, [];
    }

    /** A valid driver's trace obeys the discipline, and its UART has lost nothing. */
    lemma ValidIsDisciplined()
      requires Valid()
      ensures Disciplined(uart.trace)
      ensures uart.dev.lost == uart.start.lost
      ensures uart.dev.sent + uart.dev.tx == uart.start.sent + uart.start.tx + DrBytes(uart.trace)
    {
      EveryRunIsDisciplined(false, uart.dev.depth, calls, uart.trace);
      NoByteLost(uart.start, uart.history);
    }

    ghost method Record(call: Call, u: seq<Access>, t: seq<Access>)
      requires uart.Valid() && uart.trace == u + t
      requires mmioMap == regs == MappedAfter(MappedAfterAll(false, calls), call)
      requires MayCall(MappedAfterAll(false, calls), call)
      requires IsRun(false, uart.dev.depth, calls, u)
      requires IsCall(MappedAfterAll(false, calls), uart.dev.depth, call, t)
      modifies this`calls
      ensures Valid() && calls == old(calls) + [call]
    {
      hide Uart.Valid, IsCall, IsRun, MayCall, MappedAfter;
      RunSnoc(uart.dev.depth, calls, u, call, t);
      calls := calls + [call];
    }

    method TxReady() returns (ready: bool, ghost poll: Access)
      requires uart.Valid()
      modifies uart
      ensures uart.Valid() && uart.trace == old(uart.trace) + [poll]
      ensures uart.dev.depth == old(uart.dev.depth)
      ensures if ready then SeesRoom(poll) else SeesFull(poll)
    {
      var flags := uart.Read(FR);
      ready := !TxFull(flags);
      poll := Rd(FR, flags);
    }

    /** The body of putChar once the registers are known to be mapped. */
    method EmitChar(c: byte) returns (ghost sent: bool, ghost t: seq<Access>)
      requires uart.Valid() && regs
      modifies uart
      ensures uart.Valid() && uart.dev.depth == old(uart.dev.depth)
      ensures uart.trace == old(uart.trace) + t && IsPutChar(c, sent, t)
    {
      ghost var t0 := uart.trace;
      t := [];
      var timeout := 100_000;
      while true
        invariant uart.Valid() && uart.dev.depth == old(uart.dev.depth)
        invariant uart.trace == t0 + t && timeout == POLL_LIMIT - |t| >= 0
        invariant forall i | 0 <= i < |t| :: SeesFull(t[i])
        decreases timeout
      {
        ghost var poll;
        var ready;
        ready, poll := TxReady();
        assert (t0 + t) + [poll] == t0 + (t + [poll]);
        t := t + [poll];
        if ready {
          break;
        }
        timeout := timeout - 1;
        if timeout + 1 <= 0 {
          break;
        }
      }
      if timeout <= 0 {
        sent := false;
        return;
      }
      uart.Write(DR, c);
      assert (t0 + t) + [Wr(DR, c)] == t0 + (t + [Wr(DR, c)]);
      t := t + [Wr(DR, c)];
      sent := true;
    }

    /** One round of putString: a carriage return first if the character is a line feed. */
    method EmitExpanded(c: byte) returns (ghost sent: seq<bool>, ghost t: seq<Access>)
      requires uart.Valid() && regs
      modifies uart
      ensures uart.Valid() && uart.dev.depth == old(uart.dev.depth)
      ensures uart.trace == old(uart.trace) + t
      ensures |sent| == |ExpandByte(c)| && IsPutAll(ExpandByte(c), sent, t)
    {
      hide Uart.Valid, IsPutChar, IsPutAll;
      if c == LF {
        ghost var ok, u := EmitChar(CARRIAGE);
        ghost var ok', u' := EmitChar(c);
        OnePut(CARRIAGE, ok, u);
        OnePut(c, ok', u');
        PutAllAppend([CARRIAGE], [ok], u, [c], [ok'], u');
        sent, t := [ok] + [ok'], u + u';
        assert ExpandByte(c) == [CARRIAGE] + [c];
      } else {
        ghost var ok, u := EmitChar(c);
        OnePut(c, ok, u);
        sent, t := [ok], u;
      }
    }

    /** The body of putString once the registers are known to be mapped; s is the string without its
        NUL. */
    method EmitString(s: seq<byte>) returns (ghost sent: seq<bool>, ghost t: seq<Access>)
      requires uart.Valid() && regs
      modifies uart
      ensures uart.Valid() && uart.dev.depth == old(uart.dev.depth)
      ensures uart.trace == old(uart.trace) + t
      ensures |sent| == |Expand(s)| && IsPutAll(Expand(s), sent, t)
    {
      hide Uart.Valid, IsPutAll, Expand, ExpandByte;
      ghost var t0 := uart.trace;
      sent, t := [], [];
      NothingPut();
      assert s[..0] == [];
      var i := 0;
      while i < |s|
        invariant 0 <= i <= |s|
        invariant uart.Valid() && uart.dev.depth == old(uart.dev.depth) && uart.trace == t0 + t
        invariant |sent| == |Expand(s[..i])| && IsPutAll(Expand(s[..i]), sent, t)
      {
        ExpandStep(s, i);
        ghost var sent', t' := EmitExpanded(s[i]);
        PutAllAppend(Expand(s[..i]), sent, t, ExpandByte(s[i]), sent', t');
        assert t0 + t + t' == t0 + (t + t');
        sent, t := sent + sent', t + t';
        i := i + 1;
      }
      assert s[..i] == s;
    }

    /** Step 2 of hw_init. */
    method AwaitIdle() returns (ghost t: seq<Access>)
      requires uart.Valid()
      modifies uart
      ensures uart.Valid() && uart.dev.depth == old(uart.dev.depth) && uart.dev.cr == old(uart.dev.cr)
      ensures uart.dev.Receiving() || uart.dev.Pending() <= old(uart.dev.Pending())
      ensures uart.trace == old(uart.trace) + t && IsBusyWait(t)
    {
      ghost var t0 := uart.trace;
      t := [];
      var timeout := 100_000;
      while true
        invariant uart.Valid() && uart.dev.depth == old(uart.dev.depth) && uart.dev.cr == old(uart.dev.cr)
        invariant uart.dev.Receiving() || uart.dev.Pending() <= old(uart.dev.Pending())
        invariant uart.trace == t0 + t && timeout == POLL_LIMIT - |t| >= 0
        invariant forall i | 0 <= i < |t| :: IsRead(t[i], FR) && Busy(t[i].value)
        decreases timeout
      {
        var flags := uart.Read(FR);
        assert (t0 + t) + [Rd(FR, flags)] == t0 + (t + [Rd(FR, flags)]);
        t := t + [Rd(FR, flags)];
        if !Busy(flags) {
          break;
        }
        timeout := timeout - 1;
        if timeout + 1 <= 0 {
          break;
        }
      }
    }

    /** A poll for received words, of which none is taken. */
    method RxPoll() returns (flags: uint32)
      requires uart.Valid()
      modifies uart
      ensures uart.Valid() && uart.dev.depth == old(uart.dev.depth)
      ensures uart.trace == old(uart.trace) + [Rd(FR, flags)]
      ensures RxEmpty(flags) <==> uart.dev.rx == []
      ensures old(uart.dev).rx <= uart.dev.rx
      ensures !old(uart.dev).Receiving() ==>
                !uart.dev.Receiving() && uart.dev.Pending() <= old(uart.dev).Pending()
    {
      ghost var before := uart.dev;
      flags := uart.Read(FR);
      FlagsTell(uart.dev);
      StillNotReceiving(before, uart.dev);
    }

    /** One round of the drain loop: a word is taken, and the next one polled for. */
    method DrainOne() returns (ghost w: uint32, flags: uint32)
      requires uart.Valid() && !uart.dev.Receiving() && uart.dev.rx != []
      modifies uart
      ensures uart.Valid() && uart.dev.depth == old(uart.dev.depth)
      ensures !uart.dev.Receiving() && uart.dev.Pending() < old(uart.dev).Pending()
      ensures uart.trace == old(uart.trace) + [Rd(DR, w), Rd(FR, flags)]
      ensures RxEmpty(flags) <==> uart.dev.rx == []
    {
      ghost var before := uart.dev;
      hide Uart.Valid, Device.Pending, RxEmpty;
      w := uart.Read(DR);
      StillNotReceiving(before, uart.dev);
      hide Device.Receiving;
      flags := RxPoll();
    }

    /** Step 3 of hw_init. It ends because reception is off: each word read is one less to come. */
    method DrainReceiver() returns (ghost t: seq<Access>, ghost n: nat)
      requires uart.Valid() && !uart.dev.Receiving()
      modifies uart
      ensures uart.Valid() && uart.dev.depth == old(uart.dev.depth)
      ensures uart.trace == old(uart.trace) + t && IsDrain(t, n) && n <= old(uart.dev.Pending())
    {
      hide RxEmpty, Device.Receiving, Device.Pending, Uart.Valid;
      ghost var t0 := uart.trace;
      n := 0;
      var flags := RxPoll();
      t := [Rd(FR, flags)];
      while !RxEmpty(flags)
        invariant uart.Valid() && uart.dev.depth == old(uart.dev.depth) && !uart.dev.Receiving()
        invariant uart.trace == t0 + t && n + uart.dev.Pending() <= old(uart.dev.Pending())
        invariant RxEmpty(flags) <==> uart.dev.rx == []
        invariant IsDraining(t, n, flags)
        decreases uart.dev.Pending()
      {
        ghost var w;
        ghost var f := flags;
        w, flags := DrainOne();
        DrainingStep(t, n, f, w, flags);
        hide IsDraining;
        t, n := t + [Rd(DR, w), Rd(FR, flags)], n + 1;
      }
      assert IsDraining(t, n, flags);
    }

    method Configure(baud: uint32)
      requires uart.Valid() && Divides(baud)
      modifies uart
      ensures uart.Valid() && uart.dev.depth == old(uart.dev.depth)
      ensures uart.trace == old(uart.trace) + ConfigWrites(baud)
    {
      ghost var t0 := uart.trace;
      IbrdIsWord(baud);
      SixWrites(t0, baud);
      var ibrd := CLOCK_HZ / ((16 * baud) % 0x1_0000_0000);
      var fbrd := ((CLOCK_HZ % ((16 * baud) % 0x1_0000_0000)) * 64 + baud / 2) / baud % 0x1_0000_0000;
      assert ibrd == Ibrd(baud) && fbrd == Fbrd(baud) % 0x1_0000_0000;
      hide Uart.Valid, Ibrd, Fbrd, Divides;
      uart.Write(IBRD, ibrd);
      uart.Write(FBRD, fbrd);
      uart.Write(LCRH, 0x60 + 0x10);
      uart.Write(IMSC, 0);
      uart.Write(ICR, 0x7FF);
      uart.Write(CR, 0x100 + 0x200 + 0x1);
    }

    /** Steps 1 to 3 of hw_init. */
    method Quiesce() returns (ghost wait: seq<Access>, ghost drain: seq<Access>, ghost n: nat)
      requires uart.Valid()
      modifies uart
      ensures uart.Valid() && uart.dev.depth == old(uart.dev.depth)
      ensures uart.trace == old(uart.trace) + [Wr(CR, 0)] + wait + drain
      ensures IsBusyWait(wait) && IsDrain(drain, n) && n <= uart.dev.depth + 1
    {
      uart.Write(CR, 0);
      NotReceiving(uart);
      hide IsBusyWait, IsDrain, Bit, Uart.Valid, Device.Receiving, Device.Pending;
      wait := AwaitIdle();
      NotReceiving(uart);
      drain, n := DrainReceiver();
    }

    method HwInit(baud: uint32) returns (ghost t: seq<Access>)
      requires uart.Valid() && regs && Divides(baud)
      modifies uart
      ensures uart.Valid() && uart.dev.depth == old(uart.dev.depth)
      ensures uart.trace == old(uart.trace) + t && IsHwInit(baud, uart.dev.depth, t)
    {
      hide IsBusyWait, IsDrain, ConfigWrites, Uart.Valid, Divides, IsHwInit;
      ghost var t0 := uart.trace;
      ghost var wait, drain, n := Quiesce();
      Configure(baud);
      t := [Wr(CR, 0)] + wait + drain + ConfigWrites(baud);
      HwInitFrom(baud, uart.dev.depth, wait, drain, n);
      assert t0 + [Wr(CR, 0)] + wait + drain + ConfigWrites(baud) == t0 + t;
    }

    /** What start does to the UART once its registers are mapped. */
    method BringUp() returns (ghost t: seq<Access>)
      requires uart.Valid() && regs
      modifies uart
      ensures uart.Valid() && uart.dev.depth == old(uart.dev.depth)
      ensures uart.trace == old(uart.trace) + t
      ensures IsCall(false, uart.dev.depth, Call.Start(true, true, true), t)
    {
      hide Uart.Valid, IsHwInit, IsPutAll, StartBanner, Expand, Divides, IsCall;
      ghost var u := uart.trace;
      DefaultRate();
      t := HwInit(DEFAULT_BAUD);
      ghost var sent, v := EmitString(StartBanner());
      StartIsCall(uart.dev.depth, t, sent, v);
      assert u + t + v == u + (t + v);
      t := t + v;
    }

    /** `provider` plumbing is reduced to whether the super class starts, a descriptor is made, and
        the registers can be mapped. */
    method Start(superStarted: bool, described: bool, mappable: bool) returns (ok: bool)
      requires Valid() && !regs
      modifies this, uart
      ensures Valid() && calls == old(calls) + [Call.Start(superStarted, described, mappable)]
      ensures ok == regs == (superStarted && described && mappable)
    {
      ghost var u, t, call := uart.trace, [], Call.Start(superStarted, described, mappable);
      assert u + t == u;
      hide Uart.Valid, IsRun, IsCall;
      if superStarted && described {
        mmioMap := mappable;
        if mmioMap {
          regs := true;
          t := BringUp();
        }
      }
      ok := regs;
      if !ok { FailedStartIsCall(uart.dev.depth, call); }
      Record(call, u, t);
    }

    /** What stop does to the UART while its registers are mapped. */
    method TakeDown() returns (ghost t: seq<Access>)
      requires uart.Valid() && regs
      modifies uart
      ensures uart.Valid() && uart.dev.depth == old(uart.dev.depth)
      ensures uart.trace == old(uart.trace) + t && IsCall(true, uart.dev.depth, Call.Stop, t)
    {
      hide Uart.Valid, IsPutAll, StopBanner, Expand, IsCall;
      ghost var u := uart.trace;
      ghost var sent, v := EmitString(StopBanner());
      uart.Write(CR, 0);
      StopIsCall(uart.dev.depth, sent, v);
      t := v + [Wr(CR, 0)];
      assert u + v + [Wr(CR, 0)] == u + t;
    }

    method Stop()
      requires Valid()
      modifies this, uart
      ensures Valid() && calls == old(calls) + [Call.Stop] && !regs
    {
      ghost var u, t := uart.trace, [];
      assert u + t == u;
      UnmappedIsQuiet(uart.dev.depth, Call.Stop);
      hide Uart.Valid, IsRun, IsCall;
      if regs {
        t := TakeDown();
      }
      if mmioMap {
        mmioMap := false;
        regs := false;
      }
      Record(Call.Stop, u, t);
    }

    method PutChar(c: byte) returns (ghost sent: bool)
      requires Valid()
      modifies this`calls, uart
      ensures Valid() && calls == old(calls) + [Call.PutChar(c)]
      ensures DrBytes(uart.trace) == DrBytes(old(uart.trace)) + (if regs && sent then [c] else [])
    {
      ghost var u, t := uart.trace, [];
      assert u + t == u;
      UnmappedIsQuiet(uart.dev.depth, Call.PutChar(c));
      hide Uart.Valid, IsRun, IsPutChar, IsCall;
      sent := false;
      if regs {
        sent, t := EmitChar(c);
        SentIffRoomInTime(c, sent, t);
        PutCharIsCall(uart.dev.depth, c, sent, t);
      }
      DrBytesAppend(u, t);
      Record(Call.PutChar(c), u, t);
    }

    /** The body of getChar once the registers are known to be mapped. */
    method FetchChar() returns (ok: bool, c: byte, ghost t: seq<Access>)
      requires uart.Valid() && regs
      modifies uart
      ensures uart.Valid() && uart.dev.depth == old(uart.dev.depth)
      ensures uart.trace == old(uart.trace) + t && IsCall(true, uart.dev.depth, Call.GetChar, t) && t != []
      ensures |t| == (if ok then 2 else 1) && IsRead(t[0], FR) && (ok <==> !RxEmpty(t[0].value))
      ensures ok ==> IsRead(t[1], DR) && c == t[1].value % 0x100
      ensures old(uart.dev).rx != [] ==> ok && c == old(uart.dev).rx[0] % 0x100
    {
      hide Uart.Valid, IsCall, RxEmpty, Device.Receiving, Device.Pending;
      ok, c := false, 0;
      ghost var u := uart.trace;
      var flags := RxPoll();
      t := [Rd(FR, flags)];
      if !RxEmpty(flags) {
        var w := uart.Read(DR);
        Associative(u, t, [Rd(DR, w)]);
        t := t + [Rd(DR, w)];
        ok, c := true, w % 0x100;
      }
      GetCharIsCall(uart.dev.depth, t);
    }

    method GetChar() returns (ok: bool, c: byte)
      requires Valid()
      modifies this`calls, uart
      ensures Valid() && calls == old(calls) + [Call.GetChar]
      ensures regs ==>
                var n := |old(uart.trace)|;
                && |uart.trace| == n + (if ok then 2 else 1) && old(uart.trace) <= uart.trace
                && IsRead(uart.trace[n], 0x18) && (ok <==> !RxEmpty(uart.trace[n].value))
                && (ok ==> IsRead(uart.trace[n + 1], 0x00) && c == uart.trace[n + 1].value % 0x100)
      ensures !regs ==> !ok && uart.trace == old(uart.trace)
      ensures regs && old(uart.dev).rx != [] ==> ok && c == old(uart.dev).rx[0] % 0x100
    {
      ghost var u, t := uart.trace, [];
      assert u + t == u;
      UnmappedIsQuiet(uart.dev.depth, Call.GetChar);
      hide Uart.Valid, IsRun, IsCall, RxEmpty;
      ok, c := false, 0;
      if regs {
        ok, c, t := FetchChar();
      }
      Record(Call.GetChar, u, t);
    }

    /** Whatever times out, the wire gets an in-order part of the expansion; it gets all of it exactly
        when nothing does. */
    method PutString(s: seq<byte>) returns (ghost sent: seq<bool>)
      requires Valid()
      modifies this`calls, uart
      ensures Valid() && calls == old(calls) + [Call.PutString(s)]
      ensures !regs ==> uart.trace == old(uart.trace)
      ensures regs ==>
                && |sent| == |Expand(s)|
                && DrBytes(uart.trace) == DrBytes(old(uart.trace)) + Select(Expand(s), sent)
    {
      ghost var u, t := uart.trace, [];
      assert u + t == u;
      UnmappedIsQuiet(uart.dev.depth, Call.PutString(s));
      hide Uart.Valid, IsRun, IsPutAll, Expand, IsCall;
      sent := [];
      if regs {
        sent, t := EmitString(s);
        PutAllWrites(Expand(s), sent, t);
        DrBytesAppend(u, t);
        PutStringIsCall(uart.dev.depth, s, sent, t);
      }
      Record(Call.PutString(s), u, t);
    }

    method SetBaud(baud: uint32)
      requires Valid() && regs && Divides(baud)
      modifies this`calls, uart
      ensures Valid() && calls == old(calls) + [Call.SetBaud(baud)]
    {
      ghost var u := uart.trace;
      hide Uart.Valid, IsRun, IsHwInit, IsCall, Divides;
      ghost var t := HwInit(baud);
      SetBaudIsCall(uart.dev.depth, baud, t);
      Record(Call.SetBaud(baud), u, t);
    }
  }

  /** Without mapped registers a call touches none. */
  lemma UnmappedIsQuiet(depth: nat, call: Call)
    requires !call.Start? && !call.SetBaud?
    ensures IsCall(false, depth, call, [])
  {
  }

  lemma FailedStartIsCall(depth: nat, call: Call)
    requires call.Start? && !(call.superStarted && call.described && call.mappable)
    ensures IsCall(false, depth, call, [])
  {
  }

  lemma RunSnoc(depth: nat, calls: seq<Call>, u: seq<Access>, call: Call, t: seq<Access>)
    requires IsRun(false, depth, calls, u) && MayCall(MappedAfterAll(false, calls), call)
    requires IsCall(MappedAfterAll(false, calls), depth, call, t)
    ensures IsRun(false, depth, calls + [call], u + t)
  {
    hide IsCall;
    Snoc(calls, call);
    assert (u + t)[..|u|] == u && (u + t)[|u|..] == t;
  }

  lemma StartIsCall(depth: nat, t: seq<Access>, sent: seq<bool>, u: seq<Access>)
    requires IsHwInit(DEFAULT_BAUD, depth, t)
    requires |sent| == |Expand(StartBanner())| && IsPutAll(Expand(StartBanner()), sent, u)
    ensures IsCall(false, depth, Call.Start(true, true, true), t + u)
  {
    hide IsHwInit, IsPutAll, StartBanner, Expand;
    assert (t + u)[..|t|] == t && (t + u)[|t|..] == u;
    assert IsPutString(StartBanner(), u);
  }

  lemma PutCharIsCall(depth: nat, c: byte, sent: bool, t: seq<Access>)
    requires IsPutChar(c, sent, t)
    ensures IsCall(true, depth, Call.PutChar(c), t)
  {
    hide IsPutChar, StartBanner, StopBanner;
  }

  lemma GetCharIsCall(depth: nat, t: seq<Access>)
    requires 1 <= |t| <= 2 && IsRead(t[0], FR)
    requires |t| == 2 <==> !RxEmpty(t[0].value)
    requires |t| == 2 ==> IsRead(t[1], DR)
    ensures IsCall(true, depth, Call.GetChar, t)
  {
    hide StartBanner, StopBanner;
  }

  lemma PutStringIsCall(depth: nat, s: seq<byte>, sent: seq<bool>, t: seq<Access>)
    requires |sent| == |Expand(s)| && IsPutAll(Expand(s), sent, t)
    ensures IsCall(true, depth, Call.PutString(s), t)
  {
    hide IsPutAll, Expand, StartBanner, StopBanner;
    assert IsPutString(s, t);
  }

  lemma SetBaudIsCall(depth: nat, baud: uint32, t: seq<Access>)
    requires IsHwInit(baud, depth, t)
    ensures IsCall(true, depth, Call.SetBaud(baud), t)
  {
    hide IsHwInit, StartBanner, StopBanner;
  }

  lemma StopIsCall(depth: nat, sent: seq<bool>, u: seq<Access>)
    requires |sent| == |Expand(StopBanner())| && IsPutAll(Expand(StopBanner()), sent, u)
    ensures IsCall(true, depth, Call.Stop, u + [Wr(CR, 0)])
  {
    hide IsPutAll, StopBanner, Expand;
    Snoc(u, Wr(CR, 0));
    assert IsPutString(StopBanner(), u);
  }

  /** With the control register clear reception is off, and little is left to drain. */
  lemma NotReceiving(uart: Uart)
    requires uart.Valid()
    ensures uart.dev.cr == 0 ==> !uart.dev.Receiving()
    ensures uart.dev.Pending() <= uart.dev.depth + 1
  {
  }

  lemma StillNotReceiving(d: Device, d': Device)
    requires d'.cr == d.cr
    ensures d'.Receiving() == d.Receiving()
  {
  }

  lemma IbrdIsWord(baud: uint32)
    requires Divides(baud)
    ensures Ibrd(baud) < 0x1_0000_0000
  {
    QuotientTimes(CLOCK_HZ, Scaled(baud));
    MulLe(Ibrd(baud), 1, Scaled(baud));
  }
}
