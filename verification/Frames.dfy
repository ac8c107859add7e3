/** The backtrace-frame pattern of tools/panic-parse.py, and what it matches on a stripped line. */
module Frames {
  import opened Options
  import opened Text
  import opened Regex

  datatype Frame = Frame(addr: string, sym: string)

  // ---- The pattern, each piece followed by the rest ----

  function EndItem(): seq<Item> { [AtEnd] + [] }

  function OffsetItems(rest: seq<Item>): seq<Item> {
    [One(Exactly('+'))] + ([One(Exactly('0'))] + ([One(Exactly('x'))] + ([Many(HexDigit, 1, Unbounded, true)] + rest)))
  }

  function TailItems(): seq<Item> { [Optional(OffsetItems([]))] + EndItem() }

  function SymbolItems(): seq<Item> { [Many(AnyButNewline, 1, Unbounded, false)] + TailItems() }

  function GapItems(): seq<Item> { [Many(Space, 0, Unbounded, true)] + SymbolItems() }

  function ColonItems(): seq<Item> { [One(Exactly(':'))] + GapItems() }

  function SpacesItems(): seq<Item> { [Many(Space, 0, Unbounded, true)] + ColonItems() }

  function DigitItems(): seq<Item> { [Many(HexDigit, 8, AtMost(16), true)] + SpacesItems() }

  /** BACKTRACE_RE: the address is group 1, which ends with item 2; the symbol is group 2, item 6. */
  function FramePattern(): seq<Item> { [One(Exactly('0'))] + ([One(Exactly('x'))] + DigitItems()) }

  // ---- What the pieces match ----

  /** The string does not end in white space. */
  predicate Trimmed(s: string) {
    s != "" ==> !IsSpace(s[|s| - 1])
  }

  /** From i to the end the string is a plus sign and a hex number. */
  predicate OffsetAt(s: string, i: nat) {
    i + 3 < |s| && s[i] == '+' && s[i + 1] == '0' && s[i + 2] == 'x' && RunLength(HexDigit, s, i + 3) == |s| - (i + 3)
  }

  predicate TailAt(s: string, i: nat)
    requires i <= |s|
  {
    i == |s| || OffsetAt(s, i)
  }

  /** The first place, from i on, where only an offset or nothing is left. */
  function FirstTail(s: string, i: nat): (e: nat)
    requires i <= |s|
    ensures i <= e <= |s| && TailAt(s, e)
    ensures forall j: nat | i <= j < e :: !TailAt(s, j)
    decreases |s| - i
  {
    if TailAt(s, i) then i else FirstTail(s, i + 1)
  }

  lemma MatchEnd(s: string, i: nat)
    requires i <= |s| && Trimmed(s)
    ensures Match(EndItem(), s, i).Some? <==> i == |s|
  {
    MatchAtEnd([], s, i);
  }

  lemma MatchHexToEnd(s: string, i: nat)
    requires i <= |s| && Trimmed(s)
    ensures Match([Many(HexDigit, 1, Unbounded, true)] + EndItem(), s, i).Some?
            <==> 0 < RunLength(HexDigit, s, i) == |s| - i
  {
    var n := RunLength(HexDigit, s, i);
    MatchMany(HexDigit, 1, Unbounded, true, EndItem(), s, i);
    forall j: nat | i < j <= i + n
      ensures Match(EndItem(), s, j).Some? <==> j == |s|
    {
      MatchEnd(s, j);
    }
    hide EndItem;
    if n >= 1 {
      if i + n == |s| {
        OnlyTheLongest(EndItem(), s, i + 1, i + n);
      } else {
        NoneBelow(EndItem(), s, i + 1, i + n);
      }
    }
  }

  lemma MatchOffset(s: string, i: nat)
    requires i <= |s| && Trimmed(s)
    ensures Match(OffsetItems(EndItem()), s, i).Some? <==> OffsetAt(s, i)
  {
    var hex := [Many(HexDigit, 1, Unbounded, true)] + EndItem();
    var x := [One(Exactly('x'))] + hex;
    var zero := [One(Exactly('0'))] + x;
    MatchOne(Exactly('+'), zero, s, i);
    if i + 1 <= |s| { MatchOne(Exactly('0'), x, s, i + 1); }
    if i + 2 <= |s| { MatchOne(Exactly('x'), hex, s, i + 2); }
    if i + 3 <= |s| { MatchHexToEnd(s, i + 3); }
    hide Match, EndItem;
  }

  lemma MatchTail(s: string, i: nat)
    requires i <= |s| && Trimmed(s)
    ensures Match(TailItems(), s, i).Some? <==> TailAt(s, i)
  {
    MatchOptional(OffsetItems([]), EndItem(), s, i);
    assert OffsetItems([]) + EndItem() == OffsetItems(EndItem());
    MatchOffset(s, i);
    MatchEnd(s, i);
    hide Match, OffsetItems, EndItem;
  }

  /** No newline from i to the end. */
  predicate OneLine(s: string, i: nat)
    requires i <= |s|
  {
    RunLength(AnyButNewline, s, i) == |s| - i
  }

  lemma OneLineMeans(s: string, i: nat)
    requires i <= |s|
    ensures OneLine(s, i) <==> forall k | i <= k < |s| :: s[k] != '\n'
  {
    var n := RunLength(AnyButNewline, s, i);
    assert forall k | i <= k < i + n :: In(s[k], AnyButNewline);
    if i + n < |s| { assert s[i + n] == '\n'; }
  }

  lemma OffsetIsOneLine(s: string, i: nat)
    requires OffsetAt(s, i)
    ensures OneLine(s, i)
  {
    forall k | i <= k < |s|
      ensures s[k] != '\n'
    {
      if k >= i + 3 { assert In(s[k], HexDigit); }
    }
    OneLineMeans(s, i);
  }

  lemma NoTailBeforeNewline(s: string, i: nat, k: nat)
    requires i <= k < |s| && s[k] == '\n'
    ensures forall j: nat | i <= j <= k :: !TailAt(s, j)
  {
    hide RunLength;
    forall j: nat | i <= j <= k
      ensures !TailAt(s, j)
    {
      if OffsetAt(s, j) { OffsetIsOneLine(s, j); }
      OneLineMeans(s, j);
    }
  }

  lemma TailsWithin(s: string, i: nat, n: nat)
    requires i + n <= |s| && Trimmed(s)
    ensures forall j: nat | i < j <= i + n :: Match(TailItems(), s, j).Some? <==> TailAt(s, j)
  {
    hide Match, TailItems, TailAt;
    forall j: nat | i < j <= i + n
      ensures Match(TailItems(), s, j).Some? <==> TailAt(s, j)
    {
      MatchTail(s, j);
    }
  }

  lemma RunToNewline(s: string, i: nat)
    requires i <= |s|
    ensures var n := RunLength(AnyButNewline, s, i);
      if OneLine(s, i) then i + n == |s| else i + n < |s| && s[i + n] == '\n'
  {
  }

  /** The lazy symbol stops at the first tail; with a newline ahead there is none in reach. */
  lemma MatchSymbol(s: string, i: nat)
    requires i <= |s| && Trimmed(s)
    ensures Match(SymbolItems(), s, i).Some? <==> i < |s| && OneLine(s, i)
    ensures i < |s| && OneLine(s, i) ==>
              var e := FirstTail(s, i + 1);
              Match(SymbolItems(), s, i) == Prefix(e, Match(TailItems(), s, e))
  {
    hide Match, TailItems, RunLength, OneLine, TailAt, Trimmed, FirstTail;
    var n := RunLength(AnyButNewline, s, i);
    RunToNewline(s, i);
    MatchMany(AnyButNewline, 1, Unbounded, false, TailItems(), s, i);
    TailsWithin(s, i, n);
    if n >= 1 {
      if OneLine(s, i) {
        TheShortest(TailItems(), s, i + 1, FirstTail(s, i + 1), i + n);
      } else {
        NoTailBeforeNewline(s, i, i + n);
        NoUpMatch(TailItems(), s, i + 1, i + n);
      }
    }
  }

  lemma {:induction false} NoUpMatch(rest: seq<Item>, s: string, lo: nat, hi: nat)
    requires lo <= hi <= |s|
    requires forall j: nat | lo <= j <= hi :: Match(rest, s, j).None?
    ensures TryUp(rest, s, lo, hi).None?
    decreases hi - lo
  {
    if lo < hi { NoUpMatch(rest, s, lo + 1, hi); }
  }

  /** The white space before the symbol is taken whole. */
  lemma MatchGap(s: string, i: nat)
    requires i <= |s| && Trimmed(s)
    ensures var b := i + RunLength(Space, s, i);
      Match(GapItems(), s, i) == Prefix(b, Match(SymbolItems(), s, b))
  {
    var b := i + RunLength(Space, s, i);
    MatchMany(Space, 0, Unbounded, true, SymbolItems(), s, i);
    MatchSymbol(s, b);
    assert b > i ==> In(s[b - 1], Space);
    if Match(SymbolItems(), s, b).None? {
      forall j: nat | i <= j < b
        ensures Match(SymbolItems(), s, j).None?
      {
        MatchSymbol(s, j);
        OneLineMeans(s, j);
        OneLineMeans(s, b);
      }
      OnlyTheLongest(SymbolItems(), s, i, b);
    }
  }

  lemma MatchColon(s: string, i: nat)
    requires i <= |s|
    ensures Match(ColonItems(), s, i) ==
            if i < |s| && s[i] == ':' then Prefix(i + 1, Match(GapItems(), s, i + 1)) else None
  {
    MatchOne(Exactly(':'), GapItems(), s, i);
  }

  lemma MatchSpaces(s: string, i: nat)
    requires i <= |s|
    ensures var a := i + RunLength(Space, s, i);
      Match(SpacesItems(), s, i) == Prefix(a, Match(ColonItems(), s, a))
  {
    hide Match, ColonItems, GapItems, RunLength, Prefix, IsSpace;
    forall j: nat | i <= j < i + RunLength(Space, s, i)
      ensures Match(ColonItems(), s, j).None?
    {
      assert In(s[j], Space);
      SpaceIsNoColon(s[j]);
      MatchColon(s, j);
    }
    WholeRunOrNothing(Space, 0, Unbounded, ColonItems(), s, i);
  }

  lemma SpaceIsNoColon(c: char)
    requires IsSpace(c)
    ensures c != ':'
  {
  }

  /** In front of a hex digit there is no colon, whatever white space is skipped. */
  lemma NoColonBeforeDigit(s: string, j: nat)
    requires j < |s| && IsHex(s[j])
    ensures Match(SpacesItems(), s, j).None?
  {
    DigitIsNoSpace(s, j);
    MatchSpaces(s, j);
    MatchColon(s, j);
    hide Match, SpacesItems, ColonItems, GapItems, RunLength;
  }

  lemma DigitIsNoSpace(s: string, j: nat)
    requires j < |s| && IsHex(s[j])
    ensures RunLength(Space, s, j) == 0 && s[j] != ':'
  {
  }

  lemma NoMatchInsideDigits(s: string, i: nat)
    requires i <= |s|
    ensures forall j: nat | i <= j < i + RunLength(HexDigit, s, i) :: Match(SpacesItems(), s, j).None?
  {
    hide Match, SpacesItems;
    forall j: nat | i <= j < i + RunLength(HexDigit, s, i)
      ensures Match(SpacesItems(), s, j).None?
    {
      assert In(s[j], HexDigit);
      NoColonBeforeDigit(s, j);
    }
  }

  /** Nothing but the whole run of digits will do, and it must not be longer than 16. */
  lemma MatchDigits(s: string, i: nat)
    requires i <= |s|
    ensures var h := RunLength(HexDigit, s, i);
      Match(DigitItems(), s, i) ==
      if 8 <= h <= 16 then Prefix(i + h, Match(SpacesItems(), s, i + h)) else None
  {
    hide Match, SpacesItems, RunLength, Prefix, In;
    NoMatchInsideDigits(s, i);
    WholeRunOrNothing(HexDigit, 8, AtMost(16), SpacesItems(), s, i);
  }

  /** From just after the colon: where the symbol begins and ends. */
  function ScanSymbol(s: string, i: nat): (r: Option<(nat, nat)>)
    requires i <= |s|
    ensures r.Some? ==> i <= r.value.0 < r.value.1 <= |s|
  {
    var b := i + RunLength(Space, s, i);
    if b == |s| || !OneLine(s, b) then None else Some((b, FirstTail(s, b + 1)))
  }

  /** From just after the address. */
  function ScanColon(s: string, i: nat): (r: Option<(nat, nat)>)
    requires i <= |s|
    ensures r.Some? ==> i < r.value.0 < r.value.1 <= |s|
  {
    var a := i + RunLength(Space, s, i);
    if a == |s| || s[a] != ':' then None else ScanSymbol(s, a + 1)
  }

  /** The end of the address and both ends of the symbol, read off in one pass. */
  function Scan(s: string): (r: Option<(nat, nat, nat)>)
    ensures r.Some? ==> 2 < r.value.0 < r.value.1 < r.value.2 <= |s|
  {
    if |s| < 2 || s[0] != '0' || s[1] != 'x' then None
    else
      var h := RunLength(HexDigit, s, 2);
      if h < 8 || h > 16 then None
      else
        var r := ScanColon(s, 2 + h);
        if r.None? then None else Some((2 + h, r.value.0, r.value.1))
  }

  lemma PrefixMeans(i: nat, r: Option<seq<nat>>)
    ensures Prefix(i, r).Some? <==> r.Some?
    ensures r.Some? ==> |Prefix(i, r).value| == |r.value| + 1 && Prefix(i, r).value[0] == i
    ensures r.Some? ==> forall k | 0 <= k < |r.value| :: Prefix(i, r).value[k + 1] == r.value[k]
  {
  }

  lemma GapIsScan(s: string, i: nat)
    requires i <= |s| && Trimmed(s)
    ensures var r := Match(GapItems(), s, i);
      && (r.Some? <==> ScanSymbol(s, i).Some?)
      && (r.Some? ==> |r.value| >= 2 && (r.value[0], r.value[1]) == ScanSymbol(s, i).value)
  {
    hide Match, GapItems, SymbolItems, TailItems, OneLine, RunLength, Prefix, FirstTail;
    var b := i + RunLength(Space, s, i);
    MatchGap(s, i);
    MatchSymbol(s, b);
    PrefixMeans(b, Match(SymbolItems(), s, b));
    if b < |s| {
      PrefixMeans(FirstTail(s, b + 1), Match(TailItems(), s, FirstTail(s, b + 1)));
    }
  }

  lemma SpacesIsScan(s: string, i: nat)
    requires i <= |s| && Trimmed(s)
    ensures var r := Match(SpacesItems(), s, i);
      && (r.Some? <==> ScanColon(s, i).Some?)
      && (r.Some? ==> |r.value| >= 4 && (r.value[2], r.value[3]) == ScanColon(s, i).value)
  {
    hide Match, SpacesItems, ColonItems, GapItems, ScanSymbol, RunLength, Prefix;
    MatchSpaces(s, i);
    var a := i + RunLength(Space, s, i);
    MatchColon(s, a);
    PrefixMeans(a, Match(ColonItems(), s, a));
    if a < |s| {
      GapIsScan(s, a + 1);
      PrefixMeans(a + 1, Match(GapItems(), s, a + 1));
    }
  }

  lemma MatchFromDigits(s: string)
    requires 2 <= |s| && Trimmed(s) && s[0] == '0' && s[1] == 'x'
    ensures var r := Match(DigitItems(), s, 2);
      && (r.Some? <==> Scan(s).Some?)
      && (r.Some? ==> |r.value| >= 5 && (r.value[0], r.value[3], r.value[4]) == Scan(s).value)
  {
    hide Match, DigitItems, SpacesItems, ScanColon, RunLength, Prefix;
    var p := 2 + RunLength(HexDigit, s, 2);
    MatchDigits(s, 2);
    SpacesIsScan(s, p);
    PrefixMeans(p, Match(SpacesItems(), s, p));
  }

  lemma PrefixShift(i: nat, r: Option<seq<nat>>)
    requires r.Some? ==> |r.value| >= 6
    ensures var q := Prefix(i, r);
      && (q.Some? <==> r.Some?)
      && (r.Some? ==>
            |q.value| >= 7 && q.value[2] == r.value[1] && q.value[5] == r.value[4] && q.value[6] == r.value[5])
  {
  }

  lemma ScanNeedsPrefix(s: string)
    ensures Scan(s).Some? ==> 2 <= |s| && s[0] == '0' && s[1] == 'x'
  {
  }

  lemma MatchAfterZero(s: string)
    requires Trimmed(s)
    ensures 1 <= |s| && s[0] == '0' ==>
      var r := Match([One(Exactly('x'))] + DigitItems(), s, 1);
      && (r.Some? <==> Scan(s).Some?)
      && (r.Some? ==> |r.value| >= 6 && (r.value[1], r.value[4], r.value[5]) == Scan(s).value)
  {
    ScanNeedsPrefix(s);
    if 1 <= |s| {
      MatchOne(Exactly('x'), DigitItems(), s, 1);
      hide Match, DigitItems, Scan, Prefix;
      if 2 <= |s| {
        PrefixMeans(2, Match(DigitItems(), s, 2));
        if s[0] == '0' && s[1] == 'x' { MatchFromDigits(s); }
      }
    }
  }

  /** The backtracking engine and the one-pass scan agree on every stripped line. */
  lemma EngineIsScan(s: string)
    requires Trimmed(s)
    ensures var r := Match(FramePattern(), s, 0);
      && (r.Some? <==> Scan(s).Some?)
      && (r.Some? ==> |r.value| >= 7 && (r.value[2], r.value[5], r.value[6]) == Scan(s).value)
  {
    MatchAfterZero(s);
    ScanNeedsPrefix(s);
    var x := [One(Exactly('x'))] + DigitItems();
    MatchOne(Exactly('0'), x, s, 0);
    assert FramePattern() == [One(Exactly('0'))] + x;
    hide Match, DigitItems, Scan, Prefix, FramePattern;
    if 1 <= |s| && s[0] == '0' {
      PrefixShift(1, Match(x, s, 1));
    }
  }

  /** `BACKTRACE_RE.match` on a stripped line, and the two groups, the second one stripped. */
  function MatchFrame(s: string): Option<Frame>
    requires Trimmed(s)
  {
    EngineIsScan(s);
    var r := Match(FramePattern(), s, 0);
    if r.None? then None else Some(Frame(s[..r.value[2]], Strip(s[r.value[5]..r.value[6]])))
  }

  // ---- What a frame is ----

  /** From i to the end: "+0x" and at least one hex digit, and nothing else. */
  predicate IsOffsetAt(s: string, i: nat) {
    i + 3 < |s| && s[i] == '+' && s[i + 1] == '0' && s[i + 2] == 'x' && AllIn(s, i + 3, |s|, HexDigit)
  }

  /** The first p characters: "0x" and 8 to 16 hex digits. */
  predicate IsAddressTo(s: string, p: nat) {
    10 <= p <= 18 && p <= |s| && s[0] == '0' && s[1] == 'x' && AllIn(s, 2, p, HexDigit)
  }

  /** From p to b: a colon, with any white space on both sides. */
  ghost predicate IsColonBetween(s: string, p: nat, b: nat)
    requires p <= b <= |s|
  {
    exists a: nat :: p <= a < b && AllIn(s, p, a, Space) && s[a] == ':' && AllIn(s, a + 1, b, Space)
  }

  /** A symbol from b to e that does not begin with white space, and then nothing or one offset; and no
      shorter non-empty symbol would do. */
  ghost predicate IsSymbolFrom(s: string, b: nat, e: nat) {
    && b < e <= |s| && !IsSpace(s[b]) && AllIn(s, b, e, AnyButNewline)
    && (e == |s| || IsOffsetAt(s, e))
    && forall j: nat | b < j < e :: !IsOffsetAt(s, j)
  }

  /** s is an address up to p, a colon, and a symbol from b to e. */
  ghost predicate IsFrame(s: string, p: nat, b: nat, e: nat) {
    p < b < e <= |s| && IsAddressTo(s, p) && IsColonBetween(s, p, b) && IsSymbolFrom(s, b, e)
  }

  lemma OffsetAtIs(s: string, i: nat)
    ensures OffsetAt(s, i) <==> IsOffsetAt(s, i)
  {
    if IsOffsetAt(s, i) { RunIs(HexDigit, s, i + 3, |s| - (i + 3)); }
  }

  lemma FirstTailIs(s: string, i: nat, e: nat)
    requires i <= e <= |s| && (e == |s| || IsOffsetAt(s, e)) && forall j: nat | i <= j < e :: !IsOffsetAt(s, j)
    ensures FirstTail(s, i) == e
  {
    OffsetAtIs(s, e);
    assert TailAt(s, e);
    var f := FirstTail(s, i);
    OffsetAtIs(s, f);
    assert TailAt(s, f);
  }

  lemma SymbolScanned(s: string, i: nat)
    requires i <= |s| && ScanSymbol(s, i).Some?
    ensures var (b, e) := ScanSymbol(s, i).value; AllIn(s, i, b, Space) && IsSymbolFrom(s, b, e)
  {
    var (b, e) := ScanSymbol(s, i).value;
    assert AllIn(s, i, b, Space);
    assert !In(s[b], Space);
    OneLineMeans(s, b);
    OffsetAtIs(s, e);
    hide IsOffsetAt, OffsetAt, RunLength, OneLine, IsSpace;
    forall j: nat | b < j < e
      ensures !IsOffsetAt(s, j)
    {
      OffsetAtIs(s, j);
      assert !TailAt(s, j);
    }
  }

  lemma ScanColonFinds(s: string, i: nat) returns (a: nat)
    requires i <= |s| && ScanColon(s, i).Some?
    ensures i <= a < |s| && AllIn(s, i, a, Space) && s[a] == ':' && ScanColon(s, i) == ScanSymbol(s, a + 1)
  {
    a := i + RunLength(Space, s, i);
    hide ScanSymbol;
  }

  lemma ColonBetween(s: string, p: nat, a: nat, b: nat)
    requires p <= a < b <= |s| && AllIn(s, p, a, Space) && s[a] == ':' && AllIn(s, a + 1, b, Space)
    ensures IsColonBetween(s, p, b)
  {
  }

  lemma ColonScanned(s: string, i: nat)
    requires i <= |s| && ScanColon(s, i).Some?
    ensures var (b, e) := ScanColon(s, i).value; IsColonBetween(s, i, b) && IsSymbolFrom(s, b, e)
  {
    hide AllIn, IsSymbolFrom, ScanSymbol, ScanColon, RunLength, IsColonBetween;
    var a := ScanColonFinds(s, i);
    SymbolScanned(s, a + 1);
    ColonBetween(s, i, a, ScanColon(s, i).value.0);
  }

  /** What the scan finds is a frame. */
  lemma ScanFindsFrame(s: string)
    requires Scan(s).Some?
    ensures var (p, b, e) := Scan(s).value; IsFrame(s, p, b, e)
  {
    var p := Scan(s).value.0;
    assert AllIn(s, 2, p, HexDigit);
    ColonScanned(s, p);
    hide AllIn, IsColonBetween, IsSymbolFrom, ScanColon, RunLength;
  }

  lemma SymbolFound(s: string, i: nat, b: nat, e: nat)
    requires i <= b < e <= |s| && AllIn(s, i, b, Space) && IsSymbolFrom(s, b, e)
    ensures ScanSymbol(s, i) == Some((b, e))
  {
    RunIs(Space, s, i, b - i);
    OffsetAtIs(s, e);
    if OffsetAt(s, e) {
      OffsetIsOneLine(s, e);
      OneLineMeans(s, e);
    }
    OneLineMeans(s, b);
    FirstTailIs(s, b + 1, e);
  }

  /** And a frame is found by the scan, at its own places. */
  lemma FrameIsFound(s: string, p: nat, b: nat, e: nat)
    requires IsFrame(s, p, b, e)
    ensures Scan(s) == Some((p, b, e))
  {
    hide IsSymbolFrom, IsAddressTo, IsColonBetween, ScanColon, RunLength;
    AddressFound(s, p, b);
    ColonFound(s, p, b, e);
    AddressBounds(s, p);
  }

  lemma AddressBounds(s: string, p: nat)
    requires IsAddressTo(s, p)
    ensures 10 <= p <= 18 && p <= |s| && s[0] == '0' && s[1] == 'x'
  {
  }

  lemma ColonFound(s: string, p: nat, b: nat, e: nat)
    requires p < b < e <= |s| && IsColonBetween(s, p, b) && IsSymbolFrom(s, b, e)
    ensures ScanColon(s, p) == Some((b, e))
  {
    var a: nat :| p <= a < b && AllIn(s, p, a, Space) && s[a] == ':' && AllIn(s, a + 1, b, Space);
    hide IsSymbolFrom, AllIn;
    ColonFoundAt(s, p, a, b, e);
  }

  lemma ColonFoundAt(s: string, p: nat, a: nat, b: nat, e: nat)
    requires p <= a < b < e <= |s| && AllIn(s, p, a, Space) && s[a] == ':' && AllIn(s, a + 1, b, Space)
    requires IsSymbolFrom(s, b, e)
    ensures ScanColon(s, p) == Some((b, e))
  {
    hide IsSymbolFrom, AllIn, ScanSymbol, RunLength;
    SymbolFound(s, a + 1, b, e);
    RunIs(Space, s, p, a - p);
  }

  lemma AddressFound(s: string, p: nat, b: nat)
    requires p < b <= |s| && IsAddressTo(s, p) && IsColonBetween(s, p, b)
    ensures RunLength(HexDigit, s, 2) == p - 2
  {
    var a: nat :| p <= a < b && AllIn(s, p, a, Space) && s[a] == ':' && AllIn(s, a + 1, b, Space);
    assert a > p ==> In(s[p], Space);
    RunIs(HexDigit, s, 2, p - 2);
  }

  /** The pattern matches a stripped line exactly when the line is a frame, and its groups are the
      address and the (stripped) symbol of that frame, which is the only one. */
  lemma MatchFrameIsFrame(s: string, p: nat, b: nat, e: nat)
    requires Trimmed(s) && IsFrame(s, p, b, e)
    ensures MatchFrame(s) == Some(Frame(s[..p], Strip(s[b..e])))
  {
    FrameIsFound(s, p, b, e);
    EngineIsScan(s);
  }

  lemma MatchedIsFrame(s: string) returns (p: nat, b: nat, e: nat)
    requires Trimmed(s) && MatchFrame(s).Some?
    ensures IsFrame(s, p, b, e)
    ensures MatchFrame(s) == Some(Frame(s[..p], Strip(s[b..e])))
  {
    EngineIsScan(s);
    ScanFindsFrame(s);
    p, b, e := Scan(s).value.0, Scan(s).value.1, Scan(s).value.2;
  }

  // ---- Round trip ----

  /** A frame as a kernel prints it: an address, a colon with white space around it, a symbol, an offset. */
  function Render(addr: string, w: string, w': string, sym: string, off: string): string {
    Head(addr, w, w') + (sym + off)
  }

  function Head(addr: string, w: string, w': string): string {
    addr + w + ":" + w'
  }

  /** A symbol on one line with no white space at its ends. */
  predicate IsSymbol(sym: string) {
    && sym != "" && !IsSpace(sym[0]) && !IsSpace(sym[|sym| - 1])
    && forall i | 0 <= i < |sym| :: sym[i] != '\n'
  }

  predicate IsOffsetText(off: string) {
    off == "" || IsOffsetAt(off, 0)
  }

  lemma SuffixOffset(a: string, b: string, i: nat)
    requires i <= |b|
    ensures IsOffsetAt(a + b, |a| + i) <==> IsOffsetAt(b, i)
  {
    var s, k := a + b, |a| + i;
    assert forall j | k <= j < |s| :: s[j] == b[j - |a|];
    if IsOffsetAt(b, i) {
      assert AllIn(s, k + 3, |s|, HexDigit);
    }
    if IsOffsetAt(s, k) {
      assert forall j | i + 3 <= j < |b| :: b[j] == s[j + |a|];
    }
  }

  /** No offset begins where another plus sign follows. */
  lemma NoOffsetBeforePlus(s: string, j: nat, k: nat)
    requires j < k < |s| && s[k] == '+'
    ensures !IsOffsetAt(s, j)
  {
    assert !In(s[k], HexDigit);
  }

  lemma ShiftSymbol(a: string, t: string, e: nat)
    requires IsSymbolFrom(t, 0, e)
    ensures IsSymbolFrom(a + t, |a|, |a| + e)
  {
    var s, b := a + t, |a|;
    assert s[b] == t[0];
    assert AllIn(s, b, b + e, AnyButNewline) by {
      assert forall k | b <= k < b + e :: s[k] == t[k - b];
    }
    SuffixOffset(a, t, e);
    hide IsOffsetAt, AllIn, IsSpace;
    forall j: nat | b < j < b + e
      ensures !IsOffsetAt(s, j)
    {
      SuffixOffset(a, t, j - b);
    }
  }

  lemma RenderedHead(addr: string, w: string, w': string, t: string)
    requires IsAddressTo(addr, |addr|) && Blank(w) && Blank(w')
    ensures var s, p, b := Head(addr, w, w') + t, |addr|, |Head(addr, w, w')|;
      IsAddressTo(s, p) && IsColonBetween(s, p, b)
  {
    var s, p, b := Head(addr, w, w') + t, |addr|, |Head(addr, w, w')|;
    var a := p + |w|;
    assert forall k | 0 <= k < p :: s[k] == addr[k];
    assert forall k | p <= k < a :: s[k] == w[k - p];
    assert forall k | a + 1 <= k < b :: s[k] == w'[k - a - 1];
    hide IsSpace, IsHex;
    assert AllIn(s, p, a, Space) && s[a] == ':' && AllIn(s, a + 1, b, Space);
  }

  lemma SymbolThenOffset(sym: string, off: string, e: nat)
    requires IsSymbol(sym) && IsOffsetText(off)
    requires 0 < e <= |sym| && (e == |sym| || IsOffsetAt(sym + off, e))
    requires forall j: nat | 0 < j < e :: !IsOffsetAt(sym + off, j)
    ensures IsSymbolFrom(sym + off, 0, e)
  {
    var t := sym + off;
    SuffixOffset(sym, off, 0);
    assert forall k | 0 <= k < |sym| :: t[k] == sym[k];
    hide IsOffsetAt, IsSpace;
  }

  /** The rendered line is a frame whose symbol ends at e, if nothing before e is an offset. */
  lemma RenderedFrame(addr: string, w: string, w': string, sym: string, off: string, e: nat)
    requires IsAddressTo(addr, |addr|) && Blank(w) && Blank(w') && IsSymbol(sym) && IsOffsetText(off)
    requires 0 < e <= |sym| && (e == |sym| || IsOffsetAt(sym + off, e))
    requires forall j: nat | 0 < j < e :: !IsOffsetAt(sym + off, j)
    ensures var b := |Head(addr, w, w')|; IsFrame(Render(addr, w, w', sym, off), |addr|, b, b + e)
  {
    hide IsSymbolFrom, IsOffsetAt, IsSymbol, IsOffsetText, IsAddressTo, IsColonBetween, Blank;
    var t := sym + off;
    SymbolThenOffset(sym, off, e);
    RenderedHead(addr, w, w', t);
    ShiftSymbol(Head(addr, w, w'), t, e);
    SymbolEnds(t, e);
  }

  lemma SymbolEnds(t: string, e: nat)
    requires IsSymbolFrom(t, 0, e)
    ensures 0 < e <= |t|
  {
  }

  lemma RenderedIsTrimmed(addr: string, w: string, w': string, sym: string, off: string)
    requires IsSymbol(sym) && IsOffsetText(off)
    ensures Trimmed(Render(addr, w, w', sym, off))
  {
    var s, t := Render(addr, w, w', sym, off), sym + off;
    assert s[|s| - 1] == t[|t| - 1];
    if off == "" {
      assert t[|t| - 1] == sym[|sym| - 1];
    } else {
      assert t[|t| - 1] == off[|off| - 1];
      assert In(off[|off| - 1], HexDigit);
    }
  }

  lemma RenderedSlices(addr: string, w: string, w': string, sym: string, off: string, e: nat)
    requires e <= |sym|
    ensures var s, b := Render(addr, w, w', sym, off), |Head(addr, w, w')|;
      |addr| < b && b + e <= |s| && s[..|addr|] == addr && s[b..b + e] == sym[..e]
  {
    var s, h, t := Render(addr, w, w', sym, off), Head(addr, w, w'), sym + off;
    assert s[..|addr|] == h[..|addr|] == addr;
    assert s[|h|..|h| + e] == t[..e] == sym[..e];
  }

  /** The symbol has an offset of its own at the end, after at least one other character. */
  ghost predicate EndsInOffset(sym: string) {
    exists j: nat :: 0 < j < |sym| && IsOffsetAt(sym, j)
  }

  lemma RenderedIsRead(addr: string, w: string, w': string, sym: string, off: string)
    requires IsAddressTo(addr, |addr|) && Blank(w) && Blank(w') && IsSymbol(sym) && IsOffsetText(off)
    ensures var s := Render(addr, w, w', sym, off);
      Trimmed(s) && MatchFrame(s).Some?
      && (MatchFrame(s) == Some(Frame(addr, sym)) <==> off != "" || !EndsInOffset(sym))
  {
    hide IsAddressTo, IsSymbol, IsOffsetText, IsOffsetAt, IsFrame, Render, Head, MatchFrame, Trimmed, Strip, Blank;
    RenderedIsTrimmed(addr, w, w', sym, off);
    if off != "" || !EndsInOffset(sym) {
      WholeSymbol(addr, w, w', sym, off);
    } else {
      assert sym + off == sym;
      var e := LeastOffset(sym);
      var b := |Head(addr, w, w')|;
      RenderedFrame(addr, w, w', sym, off, e);
      RenderedSlices(addr, w, w', sym, off, e);
      MatchFrameIsFrame(Render(addr, w, w', sym, off), |addr|, b, b + e);
      StripIsShort(sym[..e]);
    }
  }

  lemma StripIsShort(s: string)
    ensures |Strip(s)| <= |s|
  {
  }

  lemma NoEarlierOffset(sym: string, off: string)
    requires IsOffsetText(off) && (off != "" || !EndsInOffset(sym))
    ensures forall j: nat | 0 < j < |sym| :: !IsOffsetAt(sym + off, j)
  {
    if off == "" {
      assert sym + off == sym;
      hide IsOffsetAt;
    } else {
      assert (sym + off)[|sym|] == '+';
      hide IsOffsetAt;
      forall j: nat | 0 < j < |sym|
        ensures !IsOffsetAt(sym + off, j)
      {
        NoOffsetBeforePlus(sym + off, j, |sym|);
      }
    }
  }

  lemma StripSymbol(sym: string)
    requires IsSymbol(sym)
    ensures Strip(sym) == sym && sym[..|sym|] == sym && |sym| > 0
  {
  }

  lemma WholeSymbol(addr: string, w: string, w': string, sym: string, off: string)
    requires IsAddressTo(addr, |addr|) && Blank(w) && Blank(w') && IsSymbol(sym) && IsOffsetText(off)
    requires off != "" || !EndsInOffset(sym)
    ensures Trimmed(Render(addr, w, w', sym, off))
    ensures MatchFrame(Render(addr, w, w', sym, off)) == Some(Frame(addr, sym))
  {
    hide IsAddressTo, IsSymbol, IsOffsetText, IsOffsetAt, EndsInOffset, IsFrame;
    hide Render, Head, MatchFrame, Trimmed, Strip, Blank;
    var n, b := |sym|, |Head(addr, w, w')|;
    RenderedIsTrimmed(addr, w, w', sym, off);
    NoEarlierOffset(sym, off);
    StripSymbol(sym);
    RenderedFrame(addr, w, w', sym, off, n);
    RenderedSlices(addr, w, w', sym, off, n);
    MatchFrameIsFrame(Render(addr, w, w', sym, off), |addr|, b, b + n);
  }

  lemma LeastOffset(sym: string) returns (e: nat)
    requires EndsInOffset(sym)
    ensures 0 < e < |sym| && IsOffsetAt(sym, e) && forall j: nat | 0 < j < e :: !IsOffsetAt(sym, j)
  {
    e := 1;
    while !IsOffsetAt(sym, e)
      invariant 0 < e < |sym|
      invariant forall j: nat | 0 < j < e :: !IsOffsetAt(sym, j)
      decreases |sym| - e
    {
      var k: nat :| 0 < k < |sym| && IsOffsetAt(sym, k);
      assert e < k;
      e := e + 1;
    }
  }

  // ---- Round trip, spelled out ----

  /** A line made of an address of the digits d, a colon, a symbol, and an offset of the digits e, if any. */
  function FrameLine(d: string, w: string, w': string, sym: string, e: string): string {
    "0x" + d + w + ":" + w' + sym + (if e == "" then "" else "+0x" + e)
  }

  /** A symbol ends in an offset: it is something, "+0x", and hex digits. */
  ghost predicate HasOffset(sym: string) {
    exists t: string, e: string :: IsSplit(sym, t, e)
  }

  predicate IsSplit(sym: string, t: string, e: string) {
    t != "" && e != "" && HexOnly(e) && sym == t + "+0x" + e
  }

  lemma OffsetTextIs(e: string)
    requires HexOnly(e)
    ensures IsOffsetText(if e == "" then "" else "+0x" + e)
  {
    var off := "+0x" + e;
    assert forall k | 3 <= k < |off| :: off[k] == e[k - 3];
    hide IsHex;
  }

  lemma HasOffsetIff(sym: string)
    ensures HasOffset(sym) <==> EndsInOffset(sym)
  {
    if EndsInOffset(sym) {
      var j: nat :| 0 < j < |sym| && IsOffsetAt(sym, j);
      SplitAt(sym, j);
    }
    if t: string, e: string :| IsSplit(sym, t, e) {
      OffsetTextIs(e);
      assert sym == t + ("+0x" + e);
      SuffixOffset(t, "+0x" + e, 0);
    }
  }

  lemma SplitAt(sym: string, j: nat)
    requires 0 < j < |sym| && IsOffsetAt(sym, j)
    ensures IsSplit(sym, sym[..j], sym[j + 3..])
  {
    assert sym[j..j + 3] == "+0x";
    assert sym == sym[..j] + sym[j..j + 3] + sym[j + 3..];
    var e := sym[j + 3..];
    forall i | 0 <= i < |e|
      ensures IsHex(e[i])
    {
      assert e[i] == sym[j + 3 + i] && In(sym[j + 3 + i], HexDigit);
    }
    hide IsHex;
  }

  lemma AddressTextIs(d: string)
    requires HexOnly(d) && 8 <= |d| <= 16
    ensures IsAddressTo("0x" + d, |d| + 2)
  {
    var s := "0x" + d;
    assert forall k | 2 <= k < |s| :: s[k] == d[k - 2];
    hide IsHex;
  }

  /** An address of fewer than 8 or more than 16 digits is no address. */
  lemma WrongLength(d: string, w: string, rest: string)
    requires HexOnly(d) && Blank(w) && !(8 <= |d| <= 16) && Trimmed("0x" + d + w + ":" + rest)
    ensures MatchFrame("0x" + d + w + ":" + rest).None?
  {
    var s := "0x" + d + w + ":" + rest;
    DigitRun(d, w, rest);
    EngineIsScan(s);
    hide Match, FramePattern, ScanColon, RunLength, IsHex, IsSpace;
  }

  lemma DigitRun(d: string, w: string, rest: string)
    requires HexOnly(d) && Blank(w)
    ensures var s := "0x" + d + w + ":" + rest;
      |s| >= 3 && s[0] == '0' && s[1] == 'x' && RunLength(HexDigit, s, 2) == |d|
  {
    var s := "0x" + d + w + ":" + rest;
    var n := |d|;
    assert forall k | 2 <= k < n + 2 :: s[k] == d[k - 2];
    assert s[n + 2] == if w == "" then ':' else w[0];
    assert !IsHex(s[n + 2]);
    hide IsHex, IsSpace;
    RunIs(HexDigit, s, 2, n);
  }

  /** Printing and matching: the line matches exactly when the address has 8 to 16 digits; then the address
      comes back, and the symbol does exactly when an offset was printed or the symbol does not itself end
      in one: one offset is stripped, and only one. */
  lemma RenderRoundTrip(d: string, w: string, w': string, sym: string, e: string)
    requires HexOnly(d) && HexOnly(e) && Blank(w) && Blank(w') && IsSymbol(sym)
    ensures var s := FrameLine(d, w, w', sym, e);
      && Trimmed(s)
      && (MatchFrame(s).Some? <==> 8 <= |d| <= 16)
      && (8 <= |d| <= 16 ==>
            (MatchFrame(s) == Some(Frame("0x" + d, sym)) <==> e != "" || !HasOffset(sym)))
  {
    var off := if e == "" then "" else "+0x" + e;
    FrameLineIs(d, w, w', sym, e);
    OffsetTextIs(e);
    HasOffsetIff(sym);
    hide HexOnly, Blank, IsSymbol, IsOffsetText, IsAddressTo, HasOffset, EndsInOffset;
    hide Render, FrameLine, MatchFrame, Trimmed;
    RenderedIsTrimmed("0x" + d, w, w', sym, off);
    if 8 <= |d| <= 16 {
      AddressTextIs(d);
      RenderedIsRead("0x" + d, w, w', sym, off);
    } else {
      WrongLength(d, w, w' + sym + off);
    }
  }

  lemma ColonAtTheEnd(d: string, w: string)
    requires HexOnly(d) && Blank(w)
    ensures var s := "0x" + d + w + ":"; Trimmed(s) && forall k | 0 <= k < |s| - 1 :: s[k] != ':'
  {
    var s := "0x" + d + w + ":";
    assert forall k | 2 <= k < |d| + 2 :: s[k] == d[k - 2];
    assert forall k | |d| + 2 <= k < |s| - 1 :: s[k] == w[k - |d| - 2];
  }

  /** The colon of a frame has at least one character after it. */
  lemma FrameHasColon(s: string, p: nat, b: nat, e: nat) returns (a: nat)
    requires IsFrame(s, p, b, e)
    ensures a < |s| - 1 && s[a] == ':'
  {
    hide IsAddressTo, IsSymbolFrom, AllIn;
    a :| p <= a < b && AllIn(s, p, a, Space) && s[a] == ':' && AllIn(s, a + 1, b, Space);
  }

  /** Without a symbol there is no frame. */
  lemma NoSymbolNoFrame(d: string, w: string)
    requires HexOnly(d) && Blank(w)
    ensures Trimmed("0x" + d + w + ":") && MatchFrame("0x" + d + w + ":").None?
  {
    hide HexOnly, Blank, Trimmed, MatchFrame, IsFrame;
    var s := "0x" + d + w + ":";
    ColonAtTheEnd(d, w);
    if MatchFrame(s).Some? {
      var p, b, e := MatchedIsFrame(s);
      var a := FrameHasColon(s, p, b, e);
    }
  }

  lemma FrameLineIs(d: string, w: string, w': string, sym: string, e: string)
    ensures var off := if e == "" then "" else "+0x" + e;
      FrameLine(d, w, w', sym, e) == Render("0x" + d, w, w', sym, off) == "0x" + d + w + ":" + (w' + sym + off)
  {
  }
}
