/** The PL011 as the driver sees it (ARM DDI 0183): registers, the two FIFOs, and what the device may
    do on its own between two register accesses. */
module Pl011 {
  import opened Machine

  const DR: int := 0x000
  const FR: int := 0x018
  const IBRD: int := 0x024
  const FBRD: int := 0x028
  const LCRH: int := 0x02C
  const CR: int := 0x030
  const IMSC: int := 0x038
  const ICR: int := 0x044

  function Bit(v: uint32, weight: nat): bool
    requires weight > 0
  {
    v / weight % 2 == 1
  }

  /** Flag register bits (section 3.3.3). */
  predicate TxFull(flags: uint32) { Bit(flags, 32) }
  predicate RxEmpty(flags: uint32) { Bit(flags, 16) }
  predicate Busy(flags: uint32) { Bit(flags, 8) }

  /** Control register bits (section 3.3.8) and the FIFO enable of LCR_H (section 3.3.7). */
  predicate UartEnabled(cr: uint32) { Bit(cr, 1) }
  predicate TxEnabled(cr: uint32) { Bit(cr, 256) }
  predicate RxEnabled(cr: uint32) { Bit(cr, 512) }
  predicate FifosEnabled(lcrh: uint32) { Bit(lcrh, 16) }

  /** The bits by their place: what is above and below them does not matter. */
  lemma FlagBits(a: nat, r: nat)
    requires 64 * a + 63 < 0x1_0000_0000
    ensures r < 32 ==> TxFull(64 * a + 32 + r) && !TxFull(64 * a + r)
    ensures r < 16 ==> RxEmpty(32 * a + 16 + r) && !RxEmpty(32 * a + r)
    ensures r < 8 ==> Busy(16 * a + 8 + r) && !Busy(16 * a + r)
  {
    BitAt(2 * a, 32, r);
    BitAt(2 * a, 16, r);
    BitAt(2 * a, 8, r);
    hide Bit;
  }

  lemma ControlBits(a: nat, r: nat)
    requires 1024 * a + 1023 < 0x1_0000_0000
    ensures UartEnabled(2 * a + 1) && !UartEnabled(2 * a)
    ensures r < 256 ==> TxEnabled(512 * a + 256 + r) && !TxEnabled(512 * a + r)
    ensures r < 512 ==> RxEnabled(1024 * a + 512 + r) && !RxEnabled(1024 * a + r)
    ensures r < 16 ==> FifosEnabled(32 * a + 16 + r) && !FifosEnabled(32 * a + r)
  {
    BitAt(2 * a, 1, 0);
    BitAt(2 * a, 256, r);
    BitAt(2 * a, 512, r);
    BitAt(2 * a, 16, r);
    hide Bit;
  }

  /** Bit w of an even multiple of w and of the odd one after it, with a rest below w. */
  lemma BitAt(q: nat, w: nat, r: nat)
    requires q % 2 == 0 && 0 < w && q * w + 2 * w <= 0x1_0000_0000
    ensures r < w ==> Bit(q * w + w + r, w) && !Bit(q * w + r, w)
  {
    if r < w {
      QuotientIs(q * w + r, w, q, r);
      QuotientIs(q * w + w + r, w, q + 1, r);
    }
  }

  lemma QuotientIs(x: nat, w: nat, q: nat, r: nat)
    requires 0 < w && x == q * w + r && r < w
    ensures x / w == q
  {
    QuotientTimes(x, w);
    MultiplesApart(w, x / w, q);
  }

  datatype Access = Rd(offset: int, value: uint32) | Wr(offset: int, value: uint32)

  datatype Device = Device(
    depth: nat,          // FIFO depth
    cr: uint32, ibrd: uint32, fbrd: uint32, lcrh: uint32,
    tx: seq<byte>,       // transmit FIFO
    sent: seq<byte>,     // bytes that have left it for the shift register
    shifting: bool,
    rx: seq<uint32>,     // receive FIFO: a byte with its error bits
    lastRx: bool,        // reception was switched off in mid-character: that one may still arrive
    lost: seq<byte>)     // bytes written while the transmit FIFO was full
  {
    function Capacity(): nat {
      if FifosEnabled(lcrh) then depth else 1
    }

    predicate Receiving() {
      UartEnabled(cr) && RxEnabled(cr)
    }

    function Flags(): uint32 {
      (if tx == [] then 128 else 0) + (if |rx| >= Capacity() then 64 else 0)
      + (if |tx| >= Capacity() then 32 else 0) + (if rx == [] then 16 else 0)
      + (if tx != [] || shifting then 8 else 0)
    }

    ghost predicate WellFormed() {
      1 <= depth && |rx| <= depth
    }

    /** How many words the receive FIFO can still yield if reception is off. */
    function Pending(): nat {
      |rx| + (if lastRx then 1 else 0)
    }
  }

  /** The flag register tells the state of the FIFOs. */
  lemma FlagsTell(d: Device)
    ensures TxFull(d.Flags()) <==> |d.tx| >= d.Capacity()
    ensures RxEmpty(d.Flags()) <==> d.rx == []
    ensures Busy(d.Flags()) <==> d.tx != [] || d.shifting
    ensures Bit(d.Flags(), 128) <==> d.tx == []
    ensures Bit(d.Flags(), 64) <==> |d.rx| >= d.Capacity()
    ensures d.Flags() < 256 && d.Flags() % 8 == 0
  {
  }

  /** What happens at the device: three things of its own accord, and the driver's accesses. */
  datatype Event = LoadShifter | ShiftDone | Arrive(word: uint32) | Acc(access: Access)

  predicate CanHappen(d: Device, e: Event) {
    match e
    case LoadShifter => d.tx != [] && !d.shifting && UartEnabled(d.cr) && TxEnabled(d.cr)
    case ShiftDone => d.shifting
    case Arrive(_) => d.Receiving() || d.lastRx
    case Acc(Rd(o, v)) => (o == FR ==> v == d.Flags()) && (o == DR && d.rx != [] ==> v == d.rx[0])
    case Acc(Wr(_, _)) => true
  }

  /** What a setting's register keeps of a word written to it: 16 bits of IBRD and CR, 6 of FBRD and 8
      of LCR_H (table 3-1). */
  function Stored(o: int, v: uint32): uint32 {
    if o == IBRD || o == CR then v % 0x1_0000
    else if o == FBRD then v % 64
    else if o == LCRH then v % 0x100
    else v
  }

  function WriteEffect(d: Device, o: int, v: uint32): Device {
    if o == DR then
      if |d.tx| < d.Capacity() then d.(tx := d.tx + [v % 0x100]) else d.(lost := d.lost + [v % 0x100])
    else if o == IBRD then d.(ibrd := Stored(IBRD, v))
    else if o == FBRD then d.(fbrd := Stored(FBRD, v))
    else if o == LCRH then d.(lcrh := Stored(LCRH, v))
    else if o == CR then
      var d' := d.(cr := Stored(CR, v));
      d'.(lastRx := !d'.Receiving() && (d.lastRx || d.Receiving()))
    else d
  }

  function Apply(d: Device, e: Event): Device {
    match e
    case LoadShifter => if d.tx == [] then d else d.(sent := d.sent + [d.tx[0]], tx := d.tx[1..], shifting := true)
    case ShiftDone => d.(shifting := false)
    case Arrive(w) =>
      var d' := if |d.rx| < d.Capacity() then d.(rx := d.rx + [w]) else d;
      d'.(lastRx := false)
    case Acc(Rd(o, _)) => if o == DR && d.rx != [] then d.(rx := d.rx[1..]) else d
    case Acc(Wr(o, v)) => WriteEffect(d, o, v)
  }

  /** The device after a history, the earliest event first. */
  function After(d: Device, h: seq<Event>): Device {
    if h == [] then d else Apply(After(d, h[..|h| - 1]), h[|h| - 1])
  }

  ghost predicate Possible(d: Device, h: seq<Event>) {
    h != [] ==> Possible(d, h[..|h| - 1]) && CanHappen(After(d, h[..|h| - 1]), h[|h| - 1])
  }

  /** The driver's part of a history. */
  function Accesses(h: seq<Event>): seq<Access> {
    if h == [] then []
    else
      var rest := Accesses(h[..|h| - 1]);
      if h[|h| - 1].Acc? then rest + [h[|h| - 1].access] else rest
  }

  /** The bytes written to the data register. */
  function DrBytes(t: seq<Access>): seq<byte> {
    if t == [] then []
    else
      var a := t[|t| - 1];
      DrBytes(t[..|t| - 1]) + (if a.Wr? && a.offset == DR then [a.value % 0x100] else [])
  }

  lemma Snoc<T>(s: seq<T>, x: T)
    ensures (s + [x])[..|s|] == s && (s + [x])[|s|] == x
  {
  }

  lemma {:induction false} DrBytesAppend(t: seq<Access>, u: seq<Access>)
    ensures DrBytes(t + u) == DrBytes(t) + DrBytes(u)
  {
    if u == [] {
      assert t + u == t;
    } else {
      assert (t + u)[..|t + u| - 1] == t + u[..|u| - 1];
      DrBytesAppend(t, u[..|u| - 1]);
    }
  }

  /** From d to d' the device went its own way: it may send, and receive; it never gains or loses a
      byte to transmit, and with reception off it takes in at most the one character under way. */
  ghost predicate Drifted(d: Device, d': Device) {
    && d'.cr == d.cr && d'.ibrd == d.ibrd && d'.fbrd == d.fbrd && d'.lcrh == d.lcrh
    && d'.depth == d.depth && d'.lost == d.lost
    && |d'.tx| <= |d.tx| && d'.sent + d'.tx == d.sent + d.tx
    && d.rx <= d'.rx
    && (!d.Receiving() ==> d'.Pending() <= d.Pending())
  }

  lemma DriftStep(d: Device, d': Device, e: Event)
    requires d'.WellFormed() && Drifted(d, d') && !e.Acc? && CanHappen(d', e)
    ensures Drifted(d, Apply(d', e)) && Apply(d', e).WellFormed()
  {
    if e.LoadShifter? {
      assert d'.tx == [d'.tx[0]] + d'.tx[1..];
      assert d'.sent + [d'.tx[0]] + d'.tx[1..] == d'.sent + d'.tx;
    }
  }

  /** The hardware: a device, driven through its registers. Between accesses it goes its own way. */
  class Uart {
    var dev: Device
    ghost const start: Device
    ghost var history: seq<Event>
    ghost var trace: seq<Access>

    ghost predicate Valid()
      reads this
    {
      && dev.WellFormed()
      && Possible(start, history) && dev == After(start, history) && trace == Accesses(history)
    }

    constructor (d: Device)
      requires d.WellFormed() && |d.rx| <= d.depth
      ensures Valid() && trace == [] && dev == d
    {
      dev, start, history, trace := d, d, [], [];
    }

    ghost method Record(e: Event)
      requires Valid() && CanHappen(dev, e) && Apply(dev, e).WellFormed()
      modifies this`history, this`trace
      ensures history == old(history) + [e]
      ensures Possible(start, history) && After(start, history) == Apply(dev, e)
      ensures trace == Accesses(history) == if e.Acc? then old(trace) + [e.access] else old(trace)
    {
      Snoc(history, e);
      history := history + [e];
      trace := if e.Acc? then trace + [e.access] else trace;
    }

    /** The device does something of its own accord. */
    method Tick(e: Event)
      requires Valid() && !e.Acc? && CanHappen(dev, e)
      modifies this
      ensures Valid() && trace == old(trace) && dev == Apply(old(dev), e)
    {
      DriftStep(dev, dev, e);
      Record(e);
      dev := Apply(dev, e);
    }

    method Settle()
      requires Valid()
      modifies this
      ensures Valid() && trace == old(trace) && Drifted(old(dev), dev)
    {
      ghost var d := dev;
      var n: nat := *;
      while n > 0
        invariant Valid() && trace == old(trace) && Drifted(d, dev)
      {
        var choice: int := *;
        var w: uint32 := *;
        var e := if choice == 0 then LoadShifter else if choice == 1 then ShiftDone else Arrive(w);
        if CanHappen(dev, e) {
          DriftStep(d, dev, e);
          hide Drifted;
          Tick(e);
        }
        n := n - 1;
      }
    }

    method Read(o: int) returns (v: uint32)
      requires Valid()
      modifies this
      ensures Valid() && trace == old(trace) + [Rd(o, v)]
      ensures dev.depth == old(dev).depth && dev.cr == old(dev).cr
      ensures o == FR ==> v == dev.Flags() && Drifted(old(dev), dev)
      ensures o == DR && old(dev).rx != [] ==> v == old(dev).rx[0] && old(dev).rx[1..] <= dev.rx
      ensures o == DR ==>
                (!old(dev).Receiving() && old(dev).rx != [] ==> dev.Pending() < old(dev).Pending())
    {
      Settle();
      if o == FR {
        v := dev.Flags();
      } else if o == DR && dev.rx != [] {
        v := dev.rx[0];
      } else {
        v := *;
      }
      Record(Acc(Rd(o, v)));
      dev := Apply(dev, Acc(Rd(o, v)));
    }

    method Write(o: int, v: uint32)
      requires Valid()
      modifies this
      ensures Valid() && trace == old(trace) + [Wr(o, v)]
      ensures dev.depth == old(dev).depth
      ensures dev.cr == if o == CR then Stored(CR, v) else old(dev).cr
    {
      Settle();
      hide Stored, Device.Receiving, Device.Capacity;
      Record(Acc(Wr(o, v)));
      dev := WriteEffect(dev, o, v);
    }
  }
}
