/** What the panic parser reads back of printed frames. */
module PrintedLogs {
  import opened Machine
  import opened Numerals
  import opened NumberText
  import opened Options
  import opened Text
  import opened Frames
  import opened PanicLog
  import opened LogLayout

  // ---- Addresses printed by the library ----

  lemma HexDigitCount(v: uint64)
    ensures var n := |NatText(v, Hex)|; 1 <= n <= 16 && (8 <= n <==> v >= 0x1000_0000)
  {
    assert Hex.Pow(4) == 0x1_0000;
    assert Hex.Pow(7) == 0x1000_0000;
    assert Hex.Pow(12) == 0x1_0000_0000_0000;
    assert Hex.Pow(16) == TWO_64;
    hide Digits, NumeralText, Base.Pow;
    DigitsOfNothing(v, Hex);
    DigitCount(v, Hex, 7);
    DigitCount(v, Hex, 16);
  }

  lemma HexTextIsHex(v: nat)
    ensures HexText(v) == "0x" + NatText(v, Hex) && HexOnly(NatText(v, Hex))
  {
    var s := NatText(v, Hex);
    HexTextIsLowerCase(v);
    hide NatText;
    forall i | 0 <= i < |s|
      ensures IsHex(s[i])
    {
      assert s[i] == HexText(v)[i + 2];
    }
  }

  /** A frame whose address is printed by `julius_put_hex` is read back exactly when the address has its
      eight digits; a smaller one is padded by no zeros, and its line is taken for no frame. */
  lemma PrintedAddressIsRead(v: uint64, w: string, w': string, sym: string, e: string)
    requires Blank(w) && Blank(w') && IsSymbol(sym) && HexOnly(e) && (e != "" || !HasOffset(sym))
    ensures var line := HexText(v) + w + ":" + w' + sym + (if e == "" then "" else "+0x" + e);
      && Trimmed(line)
      && MatchFrame(line) == if v >= 0x1000_0000 then Some(Frame(HexText(v), sym)) else None
  {
    HexDigitCount(v);
    HexTextIsHex(v);
    hide HexText, NatText, Blank, IsSymbol, HexOnly, HasOffset, MatchFrame, Trimmed;
    RenderRoundTrip(NatText(v, Hex), w, w', sym, e);
  }

  // ---- Lines and logs ----

  /** The pieces of a printed line: white space, a frame, white space. */
  datatype Printed = Printed(indent: string, d: string, w: string, w': string, sym: string, e: string, end: string)
  {
    function Line(): string {
      indent + FrameLine(d, w, w', sym, e) + end
    }

    ghost predicate Valid() {
      && Blank(indent) && Blank(w) && Blank(w') && Blank(end)
      && HexOnly(d) && 8 <= |d| <= 16 && IsSymbol(sym) && HexOnly(e) && (e != "" || !HasOffset(sym))
    }

    function Frame(): Frame {
      Frames.Frame.Frame("0x" + d, sym)
    }
  }

  lemma FrameLineIsBare(d: string, w: string, w': string, sym: string, e: string)
    requires Trimmed(FrameLine(d, w, w', sym, e))
    ensures Bare(FrameLine(d, w, w', sym, e))
  {
    assert FrameLine(d, w, w', sym, e)[0] == '0';
  }

  /** A printed line gives its frame. */
  lemma PrintedLineIsRead(p: Printed)
    requires p.Valid()
    ensures FrameOf(p.Line()) == Some(p.Frame())
  {
    hide Blank, IsSymbol, HexOnly, HasOffset, MatchFrame, Trimmed, FrameLine, Strip, Bare;
    RenderRoundTrip(p.d, p.w, p.w', p.sym, p.e);
    FrameLineIsBare(p.d, p.w, p.w', p.sym, p.e);
    StripTakesWhiteSpace(p.indent, FrameLine(p.d, p.w, p.w', p.sym, p.e), p.end);
  }

  /** The frames that were printed. */
  function FramesPrinted(ps: seq<Printed>): (fs: seq<Frame>)
    ensures |fs| == |ps| && forall k | 0 <= k < |fs| :: fs[k] == ps[k].Frame()
  {
    seq(|ps|, k requires 0 <= k < |ps| => ps[k].Frame())
  }

  lemma PrintedStep(body: seq<string>, ps: seq<Printed>)
    requires |ps| == |body| != 0 && FramesIn(body[..|body| - 1]) == FramesPrinted(ps[..|body| - 1])
    requires FrameOf(body[|body| - 1]) == Some(ps[|body| - 1].Frame())
    ensures FramesIn(body) == FramesPrinted(ps)
  {
    hide FrameOf, FramesPrinted, Printed.Frame;
    PrintedLast(ps);
  }

  lemma PrintedLast(ps: seq<Printed>)
    requires ps != []
    ensures FramesPrinted(ps) == FramesPrinted(ps[..|ps| - 1]) + [ps[|ps| - 1].Frame()]
  {
    hide FramesPrinted, Printed.Frame;
  }

  lemma NoFrames()
    ensures FramesIn([]) == FramesPrinted([]) == []
  {
  }

  /** And the lines of a backtrace give its frames, all of them and in order. */
  lemma {:induction false} PrintedBodyIsRead(body: seq<string>, ps: seq<Printed>)
    requires |ps| == |body| && forall k | 0 <= k < |ps| :: ps[k].Valid() && body[k] == ps[k].Line()
    ensures FramesIn(body) == FramesPrinted(ps)
  {
    hide FrameOf, FramesIn, FramesPrinted, Printed.Valid, Printed.Line;
    if body == [] {
      NoFrames();
    } else {
      var n := |body| - 1;
      PrintedBodyIsRead(body[..n], ps[..n]);
      PrintedLineIsRead(ps[n]);
      PrintedStep(body, ps);
    }
  }
}
