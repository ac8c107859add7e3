/** What the panic parser makes of a log that is laid out in the usual way, part by part. */
module LogLayout {
  import opened Options
  import opened Text
  import opened Frames
  import opened Kexts
  import opened PanicLog

  /** What has been read off the first lines of a log, and whether a section is open after them. */
  datatype Reading = Reading(raw: seq<string>, summary: seq<nat>, frames: seq<Frame>, kexts: seq<Kext>, open: bool)

  ghost function Read(log: seq<string>, n: nat): Reading
    requires n <= |log|
  {
    Reading(RawOf(log, n), SummaryOf(log, n), FramesOf(log, n), KextsOf(log, n), InSection(log, n))
  }

  // ---- The lists of a part by itself ----

  /** The explanation of a line, if it mentions a known panic. */
  function Explanation(line: string): seq<nat> {
    if FirstKnown(line, 0).Some? then [FirstKnown(line, 0).value] else []
  }

  function SummaryIn(part: seq<string>): seq<nat> {
    if part == [] then []
    else
      var n := |part| - 1;
      SummaryIn(part[..n]) + Explanation(part[n])
  }

  function FramesIn(part: seq<string>): seq<Frame> {
    if part == [] then []
    else
      var n := |part| - 1;
      FramesIn(part[..n]) + (if FrameOf(part[n]).Some? then [FrameOf(part[n]).value] else [])
  }

  function KextsIn(part: seq<string>): seq<Kext> {
    if part == [] then []
    else
      var n := |part| - 1;
      KextsIn(part[..n]) + (if FindKext(part[n]).Some? then [FindKext(part[n]).value] else [])
  }

  // ---- One line ----

  /** Neither a start nor a header. */
  predicate Plain(line: string) {
    !IsStart(line) && !IsHeader(line)
  }

  /** After a line that starts a panic: it is kept twice, explained once, and closes the section. */
  function Starting(r: Reading, line: string): Reading {
    Reading(r.raw + [line, line], r.summary + SummaryIn([line]), r.frames, r.kexts, false)
  }

  /** Only if it is a header as well, a section is open after it. */
  lemma StartLine(log: seq<string>, i: nat)
    requires i < |log| && IsStart(log[i])
    ensures Read(log, i + 1) == Starting(Read(log, i), log[i]).(open := IsHeader(log[i]))
  {
    hide RawOf, SummaryOf, FramesOf, KextsOf, InSection, IsStart, IsHeader, SummaryIn, FirstKnown, FindKext, FrameOf;
    LineStep(log, i);
    OneLine(log[i]);
  }

  lemma OneLine(line: string)
    ensures SummaryIn([line]) == Explanation(line)
  {
    hide Explanation;
    assert [line][..0] == [];
    assert SummaryIn([]) == [];
  }

  /** Lines that are described, once a panic has started. */
  function Describing(r: Reading, part: seq<string>): Reading {
    if r.raw == [] then r else r.(raw := r.raw + part, summary := r.summary + SummaryIn(part))
  }

  /** A header opens a section, and is described unless one was open. */
  lemma HeaderLine(log: seq<string>, i: nat)
    requires i < |log| && IsHeader(log[i]) && !IsStart(log[i])
    ensures var r := Read(log, i);
      Read(log, i + 1) == (if r.open then r else Describing(r, [log[i]])).(open := true)
  {
    hide RawOf, SummaryOf, FramesOf, KextsOf, InSection, IsStart, IsHeader, SummaryIn, FirstKnown, FindKext, FrameOf;
    LineStep(log, i);
    OneLine(log[i]);
  }

  lemma KextIsNotBlank(s: string, i: nat, n: nat, a: nat, b: nat, e: nat)
    requires IsKext(s, i, n, a, b, e)
    ensures !Blank(s)
  {
    assert !IsSpace(s[i]);
  }

  lemma BlankIsEmpty(line: string)
    requires Blank(line)
    ensures FrameOf(line).None? && FindKext(line).None? && Strip(line) == ""
  {
    BlankStrips(line);
    BlankHasNoFrame(line);
    hide FindKext, FrameOf, Strip, Blank, IsKext;
    if FindKext(line).Some? {
      var i, n, a, b, e := FoundIsFirstKext(line);
      KextIsNotBlank(line, i, n, a, b, e);
    }
  }

  lemma BlankLine(log: seq<string>, i: nat)
    requires i < |log| && Blank(log[i]) && Plain(log[i]) && Read(log, i).open
    ensures Read(log, i + 1) == Read(log, i).(open := Read(log, i).frames == [])
  {
    hide RawOf, SummaryOf, FramesOf, KextsOf, InSection, IsStart, IsHeader, FirstKnown, FindKext, FrameOf, Strip, Blank;
    LineStep(log, i);
    BlankIsEmpty(log[i]);
  }

  // ---- Part after part ----

  /** The part stands in the log from line i on. */
  predicate StandsAt(log: seq<string>, i: nat, part: seq<string>) {
    i + |part| <= |log| && log[i..i + |part|] == part
  }

  lemma LastOfPart(log: seq<string>, i: nat, part: seq<string>)
    requires StandsAt(log, i, part) && part != []
    ensures StandsAt(log, i, part[..|part| - 1]) && log[i + |part| - 1] == part[|part| - 1]
  {
    var n := |part| - 1;
    assert part[n] == log[i..i + |part|][n];
    assert part[..n] == log[i..i + |part|][..n];
  }

  /** A plain line outside a section is described, once a panic has started. */
  lemma PlainLine(log: seq<string>, i: nat)
    requires i < |log| && Plain(log[i]) && !Read(log, i).open
    ensures Read(log, i + 1) == Describing(Read(log, i), [log[i]])
  {
    hide RawOf, SummaryOf, FramesOf, KextsOf, InSection, IsStart, IsHeader, SummaryIn, FirstKnown, FindKext, FrameOf;
    LineStep(log, i);
    OneLine(log[i]);
  }

  lemma LastIn<T>(a: seq<T>, part: seq<T>)
    requires part != []
    ensures a + part[..|part| - 1] + [part[|part| - 1]] == a + part
  {
  }

  lemma Associative<T>(a: seq<T>, b: seq<T>, c: seq<T>)
    ensures (a + b) + c == a + (b + c)
  {
  }

  lemma SummaryOfLast(part: seq<string>)
    requires part != []
    ensures SummaryIn(part) == SummaryIn(part[..|part| - 1]) + SummaryIn([part[|part| - 1]])
  {
    hide Explanation;
    OneLine(part[|part| - 1]);
  }

  lemma SummaryStep(a: seq<nat>, part: seq<string>)
    requires part != []
    ensures a + SummaryIn(part[..|part| - 1]) + SummaryIn([part[|part| - 1]]) == a + SummaryIn(part)
  {
    hide Explanation;
    SummaryOfLast(part);
    hide SummaryIn;
    Associative(a, SummaryIn(part[..|part| - 1]), SummaryIn([part[|part| - 1]]));
  }

  /** Outside a section plain lines are described, once a panic has started, and nothing else. */
  lemma {:induction false} DescribedPart(log: seq<string>, i: nat, part: seq<string>)
    requires StandsAt(log, i, part) && !Read(log, i).open
    requires forall k | 0 <= k < |part| :: Plain(part[k])
    ensures Read(log, i + |part|) == Describing(Read(log, i), part)
  {
    hide Read, Plain, SummaryIn, StandsAt;
    StandsWithin(log, i, part);
    if part == [] {
      NothingDescribed(Read(log, i));
    } else {
      var n := |part| - 1;
      LastOfPart(log, i, part);
      DescribedPart(log, i, part[..n]);
      PlainLine(log, i + n);
      DescribingStep(Read(log, i), part);
    }
  }

  lemma StandsWithin(log: seq<string>, i: nat, part: seq<string>)
    requires StandsAt(log, i, part)
    ensures i + |part| <= |log|
  {
  }

  lemma NothingDescribed(r: Reading)
    ensures Describing(r, []) == r
  {
    assert SummaryIn([]) == [];
  }

  lemma DescribingStep(r: Reading, part: seq<string>)
    requires part != []
    ensures var q := Describing(r, part[..|part| - 1]);
      Describing(q, [part[|part| - 1]]) == Describing(r, part)
  {
    LastIn(r.raw, part);
    SummaryStep(r.summary, part);
    hide SummaryIn;
  }

  /** Blank lines before the first frame change nothing. */
  lemma {:induction false} GapPart(log: seq<string>, i: nat, part: seq<string>)
    requires StandsAt(log, i, part) && Read(log, i).open && Read(log, i).frames == []
    requires forall k | 0 <= k < |part| :: Plain(part[k]) && Blank(part[k])
    ensures Read(log, i + |part|) == Read(log, i)
  {
    hide Read, Plain, StandsAt, Blank;
    StandsWithin(log, i, part);
    if part != [] {
      var n := |part| - 1;
      LastOfPart(log, i, part);
      GapPart(log, i, part[..n]);
      BlankLine(log, i + n);
    }
  }

  function Parsing(r: Reading, part: seq<string>): Reading {
    r.(frames := r.frames + FramesIn(part), kexts := r.kexts + KextsIn(part))
  }

  lemma FramesStep(a: seq<Frame>, part: seq<string>)
    requires part != []
    ensures a + FramesIn(part[..|part| - 1]) + FramesIn([part[|part| - 1]]) == a + FramesIn(part)
  {
    var head, last := FramesIn(part[..|part| - 1]), FramesIn([part[|part| - 1]]);
    OneParsed(part[|part| - 1]);
    hide FrameOf;
    assert FramesIn(part) == head + last;
    hide FramesIn;
    Associative(a, head, last);
  }

  lemma KextsStep(a: seq<Kext>, part: seq<string>)
    requires part != []
    ensures a + KextsIn(part[..|part| - 1]) + KextsIn([part[|part| - 1]]) == a + KextsIn(part)
  {
    var head, last := KextsIn(part[..|part| - 1]), KextsIn([part[|part| - 1]]);
    OneParsed(part[|part| - 1]);
    hide FindKext;
    assert KextsIn(part) == head + last;
    hide KextsIn;
    Associative(a, head, last);
  }

  lemma ParsingStep(r: Reading, part: seq<string>)
    requires part != []
    ensures var q := Parsing(r, part[..|part| - 1]);
      Parsing(q, [part[|part| - 1]]) == Parsing(r, part)
  {
    FramesStep(r.frames, part);
    KextsStep(r.kexts, part);
    hide FramesIn, KextsIn;
  }

  lemma OneParsed(line: string)
    ensures FramesIn([line]) == if FrameOf(line).Some? then [FrameOf(line).value] else []
    ensures KextsIn([line]) == if FindKext(line).Some? then [FindKext(line).value] else []
  {
    assert [line][..0] == [];
    assert FramesIn([]) == [] && KextsIn([]) == [];
    hide FrameOf, FindKext;
  }

  lemma NothingParsed(r: Reading)
    ensures Parsing(r, []) == r
  {
    assert FramesIn([]) == [] && KextsIn([]) == [];
  }

  lemma SectionLine(log: seq<string>, i: nat)
    requires i < |log| && Plain(log[i]) && Strip(log[i]) != "" && Read(log, i).open
    ensures Read(log, i + 1) == Parsing(Read(log, i), [log[i]])
  {
    hide RawOf, SummaryOf, FramesOf, KextsOf, InSection, IsStart, IsHeader;
    hide FirstKnown, FindKext, FrameOf, Strip, FramesIn, KextsIn;
    LineStep(log, i);
    OneParsed(log[i]);
    assert RawOf(log, i + 1) == RawOf(log, i) && SummaryOf(log, i + 1) == SummaryOf(log, i);
  }

  /** In a section plain lines that are not blank give their frames and kexts. */
  lemma {:induction false} SectionPart(log: seq<string>, i: nat, part: seq<string>)
    requires StandsAt(log, i, part) && Read(log, i).open
    requires forall k | 0 <= k < |part| :: Plain(part[k]) && Strip(part[k]) != ""
    ensures Read(log, i + |part|) == Parsing(Read(log, i), part)
  {
    hide Read, Plain, StandsAt, Strip, FramesIn, KextsIn;
    StandsWithin(log, i, part);
    if part == [] {
      NothingParsed(Read(log, i));
    } else {
      var n := |part| - 1;
      LastOfPart(log, i, part);
      SectionPart(log, i, part[..n]);
      SectionLine(log, i + n);
      ParsingStep(Read(log, i), part);
    }
  }

  // ---- A whole log ----

  /** The parts of a log: lines before the panic, its first line, its description, the header of the
      backtrace, blank lines, frames and kexts, a blank line, and what follows. */
  datatype Layout = Layout(before: seq<string>, start: string, description: seq<string>, header: string,
                           gap: seq<string>, body: seq<string>, end: string, rest: seq<string>)
  {
    function Lines(): seq<string> {
      before + [start] + description + [header] + gap + body + [end] + rest
    }

    ghost predicate Valid() {
      && IsStart(start) && !IsHeader(start) && IsHeader(header) && !IsStart(header)
      && (forall k | 0 <= k < |before| :: Plain(before[k]))
      && (forall k | 0 <= k < |description| :: Plain(description[k]))
      && (forall k | 0 <= k < |gap| :: Plain(gap[k]) && Blank(gap[k]))
      && (forall k | 0 <= k < |body| :: Plain(body[k]) && Strip(body[k]) != "")
      && FramesIn(body) != [] && Plain(end) && Blank(end)
      && (forall k | 0 <= k < |rest| :: Plain(rest[k]))
    }
  }

  lemma SliceOfSum(a: seq<string>, b: seq<string>, c: seq<string>)
    ensures StandsAt(a + b + c, |a|, b)
  {
  }

  /** The log is made of the parts of the layout, in order. */
  predicate Laid(l: Layout, log: seq<string>) {
    var s := |l.before|;
    var h := s + 1 + |l.description|;
    var b := h + 1 + |l.gap|;
    var e := b + |l.body|;
    && StandsAt(log, 0, l.before) && s < |log| && log[s] == l.start && StandsAt(log, s + 1, l.description)
    && h < |log| && log[h] == l.header && StandsAt(log, h + 1, l.gap) && StandsAt(log, b, l.body)
    && e < |log| && log[e] == l.end && StandsAt(log, e + 1, l.rest) && |log| == e + 1 + |l.rest|
  }

  lemma LinesAreLaid(l: Layout)
    ensures Laid(l, l.Lines())
  {
  }

  const NOTHING := Reading([], [], [], [], false)

  lemma NothingRead(log: seq<string>)
    ensures Read(log, 0) == NOTHING
  {
    NothingYet(log);
  }

  /** After the header. */
  function Opened(l: Layout): Reading {
    Describing(Describing(Starting(Describing(NOTHING, l.before), l.start), l.description), [l.header]).(open := true)
  }

  lemma OpenedIs(l: Layout)
    ensures Opened(l) ==
            Reading([l.start, l.start] + l.description + [l.header],
                    SummaryIn([l.start]) + SummaryIn(l.description) + SummaryIn([l.header]), [], [], true)
    ensures var r := Describing(Starting(Describing(NOTHING, l.before), l.start), l.description);
      r.raw != [] && !r.open && !Describing(NOTHING, l.before).open
      && !Starting(Describing(NOTHING, l.before), l.start).open
  {
    hide SummaryIn;
    assert [] + [l.start, l.start] == [l.start, l.start];
    assert [] + SummaryIn([l.start]) == SummaryIn([l.start]);
  }

  lemma LayoutOpens(l: Layout, log: seq<string>)
    requires l.Valid() && Laid(l, log)
    ensures Read(log, |l.before| + 1 + |l.description| + 1) == Opened(l)
  {
    var s, h := |l.before|, |l.before| + 1 + |l.description|;
    hide Read, SummaryIn, FramesIn, IsStart, IsHeader, Starting, Describing, FrameOf, Strip, Blank;
    NothingRead(log);
    OpenedIs(l);
    DescribedPart(log, 0, l.before);
    StartLine(log, s);
    assert Read(log, s + 1) == Starting(Read(log, s), l.start);
    DescribedPart(log, s + 1, l.description);
    HeaderLine(log, h);
  }

  /** After the whole log. */
  function Closed(l: Layout): Reading {
    Describing(Parsing(Opened(l), l.body).(open := false), l.rest)
  }

  lemma LayoutBody(l: Layout, log: seq<string>)
    requires l.Valid() && Laid(l, log)
    ensures Read(log, |log| - |l.rest|) == Parsing(Opened(l), l.body).(open := false)
  {
    hide SummaryIn, FramesIn, KextsIn, IsStart, IsHeader, Read, Opened, Describing, FrameOf, Strip, Blank;
    LayoutOpens(l, log);
    OpenedIs(l);
    var g := |l.before| + 1 + |l.description| + 1;
    GapPart(log, g, l.gap);
    SectionPart(log, g + |l.gap|, l.body);
    BlankLine(log, g + |l.gap| + |l.body|);
  }

  lemma LayoutCloses(l: Layout, log: seq<string>)
    requires l.Valid() && Laid(l, log)
    ensures Read(log, |log|) == Closed(l)
  {
    hide SummaryIn, FramesIn, KextsIn, IsStart, IsHeader, Read, Opened, Describing, Parsing, FrameOf, Strip, Blank;
    LayoutBody(l, log);
    DescribedPart(log, |log| - |l.rest|, l.rest);
  }

  /** From such a log the parser takes: the first line twice, the description, the header and what follows
      the backtrace; an explanation for each of these lines that mentions one; and the frames and kexts of
      the body. */
  lemma LayoutIsRead(l: Layout)
    requires l.Valid()
    ensures var log := l.Lines();
      && RawOf(log, |log|) == [l.start, l.start] + l.description + [l.header] + l.rest
      && SummaryOf(log, |log|) ==
           SummaryIn([l.start]) + SummaryIn(l.description) + SummaryIn([l.header]) + SummaryIn(l.rest)
      && FramesOf(log, |log|) == FramesIn(l.body) && KextsOf(log, |log|) == KextsIn(l.body)
  {
    LinesAreLaid(l);
    LayoutCloses(l, l.Lines());
    ClosedIs(l);
    hide SummaryIn, FramesIn, KextsIn, Layout.Lines, Closed, RawOf, SummaryOf, FramesOf, KextsOf, InSection;
  }

  lemma ClosedIs(l: Layout)
    ensures Closed(l) ==
            Reading([l.start, l.start] + l.description + [l.header] + l.rest,
                    SummaryIn([l.start]) + SummaryIn(l.description) + SummaryIn([l.header]) + SummaryIn(l.rest),
                    FramesIn(l.body), KextsIn(l.body), false)
  {
    OpenedIs(l);
    hide Opened, SummaryIn, FramesIn, KextsIn;
    assert [] + FramesIn(l.body) == FramesIn(l.body);
    assert [] + KextsIn(l.body) == KextsIn(l.body);
  }
}
