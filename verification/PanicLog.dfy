/** The line loop of tools/panic-parse.py, against a reading of the whole log. */
module PanicLog {
  import opened Options
  import opened Text
  import opened Frames
  import opened Kexts

  /** The keys of KNOWN_PANICS, in the order of the table; an explanation is named by its index. */
  const KNOWN_PANICS: seq<string> :=
    ["page fault in kernel mode", "Unresolved kernel trap", "launchd died", "No init process found",
     "Root device not found", "Kernel trap at", "spinlock timeout", "stack overflow", "zone map exhausted",
     "assertion failed"]

  predicate Mentions(text: string, k: nat)
    requires k < |KNOWN_PANICS|
  {
    Contains(Lower(text), Lower(KNOWN_PANICS[k]))
  }

  /** The first entry from k on that the text mentions. */
  function FirstKnown(text: string, k: nat): (r: Option<nat>)
    requires k <= |KNOWN_PANICS|
    ensures r.Some? ==> k <= r.value < |KNOWN_PANICS| && Mentions(text, r.value)
                        && forall j: nat | k <= j < r.value :: !Mentions(text, j)
    ensures r.None? ==> forall j: nat | k <= j < |KNOWN_PANICS| :: !Mentions(text, j)
    decreases |KNOWN_PANICS| - k
  {
    if k == |KNOWN_PANICS| then None else if Mentions(text, k) then Some(k) else FirstKnown(text, k + 1)
  }

  method FindKnownPanic(text: string) returns (r: Option<nat>)
    ensures r == FirstKnown(text, 0)
  {
    for k := 0 to |KNOWN_PANICS|
      invariant FirstKnown(text, 0) == FirstKnown(text, k)
    {
      if Mentions(text, k) {
        return Some(k);
      }
    }
    r := None;
  }

  // ---- A line by itself (already stripped at the end) ----

  predicate IsStart(line: string) {
    Contains(Lower(line), "panic(") || Contains(Lower(line), "kernel panic")
  }

  predicate IsHeader(line: string) {
    Contains(line, "Backtrace") || Contains(line, "backtrace")
  }

  predicate IsBlank(line: string) {
    Strip(line) == ""
  }

  function FrameOf(line: string): Option<Frame> {
    MatchFrame(Strip(line))
  }

  /** The key stands somewhere in the line, in some case of letters. */
  ghost predicate Spelled(line: string, key: string) {
    exists a: string, w: string, b: string :: IsSpelling(line, a, w, b, key)
  }

  predicate IsSpelling(line: string, a: string, w: string, b: string, key: string) {
    line == a + w + b && Lower(w) == key
  }

  lemma SpelledIff(line: string, key: string)
    ensures Contains(Lower(line), key) <==> Spelled(line, key)
  {
    if Contains(Lower(line), key) {
      var a, w, b := LoweredPart(line, key);
      assert IsSpelling(line, a, w, b, key);
    }
    if a: string, w: string, b: string :| IsSpelling(line, a, w, b, key) {
      LowerAppend(a + w, b);
      LowerAppend(a, w);
      ContainsPart(Lower(a), key, Lower(b));
    }
  }

  /** A line starts a panic when it has "panic(" or "kernel panic" anywhere, whatever the case of letters. */
  lemma StartIff(line: string)
    ensures IsStart(line) <==> Spelled(line, "panic(") || Spelled(line, "kernel panic")
  {
    SpelledIff(line, "panic(");
    SpelledIff(line, "kernel panic");
    hide Spelled, Contains;
  }

  /** A header has "Backtrace" or "backtrace" anywhere, in no other case of letters. */
  lemma HeaderIff(line: string)
    ensures IsHeader(line) <==>
            || (exists a: string, b: string :: line == a + "Backtrace" + b)
            || (exists a: string, b: string :: line == a + "backtrace" + b)
  {
    ContainsIff(line, "Backtrace");
    ContainsIff(line, "backtrace");
    hide Contains;
  }

  /** An entry of the table is found in whatever surrounds it and in any case of letters; the answer is then
      that entry or an earlier one. */
  lemma KnownPanicIsFound(a: string, w: string, b: string, k: nat)
    requires k < 10
    requires Lower(w) == Lower(["page fault in kernel mode", "Unresolved kernel trap", "launchd died",
                                "No init process found", "Root device not found", "Kernel trap at",
                                "spinlock timeout", "stack overflow", "zone map exhausted", "assertion failed"][k])
    ensures |KNOWN_PANICS| == 10
    ensures var r := FirstKnown(a + w + b, 0); r.Some? && r.value <= k
    ensures FirstKnown(a + w + b, 0) == Some(k) <==>
            forall j: nat | j < k :: !Spelled(a + w + b, Lower(KNOWN_PANICS[j]))
  {
    var text := a + w + b;
    ContainsLowered(a, w, b, KNOWN_PANICS[k]);
    assert Mentions(text, k);
    forall j: nat | j < k
      ensures Mentions(text, j) <==> Spelled(text, Lower(KNOWN_PANICS[j]))
    {
      SpelledIff(text, Lower(KNOWN_PANICS[j]));
    }
    hide Contains, Spelled;
  }

  // ---- A line in its log ----

  /** Line h is the latest header before line i, and has not been closed since. */
  ghost predicate OpenSince(log: seq<string>, h: nat, i: nat)
    requires h < i <= |log|
    decreases i, 0
  {
    IsHeader(log[h]) && forall j: nat | h < j < i :: !IsHeader(log[j]) && !Closes(log, j)
  }

  /** Line i lies in a backtrace section. */
  ghost predicate InSection(log: seq<string>, i: nat)
    requires i <= |log|
    decreases i, 1
  {
    exists h: nat :: h < i && OpenSince(log, h, i)
  }

  /** A panic start closes a section, and so does a blank line once the log has had a frame. */
  ghost predicate Closes(log: seq<string>, i: nat)
    requires i < |log|
    decreases i, 4
  {
    IsStart(log[i]) || (IsBlank(log[i]) && FrameBefore(log, i))
  }

  ghost predicate FrameBefore(log: seq<string>, i: nat)
    requires i <= |log|
    decreases i, 3
  {
    exists f: nat :: f < i && Parsed(log, f) && FrameOf(log[f]).Some?
  }

  /** Line i is looked at for a frame and a kext. */
  ghost predicate Parsed(log: seq<string>, i: nat)
    requires i < |log|
    decreases i, 2
  {
    InSection(log, i) && !IsStart(log[i]) && !IsHeader(log[i])
  }

  /** Line i belongs to the description of a panic: one has started, and no section is open. */
  ghost predicate Described(log: seq<string>, i: nat)
    requires i < |log|
  {
    Started(log, i + 1) && !(InSection(log, i) && !IsStart(log[i]))
  }

  ghost predicate Started(log: seq<string>, n: nat)
    requires n <= |log|
  {
    exists s: nat :: s < n && IsStart(log[s])
  }

  // ---- The four lists, read off the whole log ----

  ghost function FramesOf(log: seq<string>, n: nat): seq<Frame>
    requires n <= |log|
  {
    if n == 0 then []
    else FramesOf(log, n - 1) +
         if Parsed(log, n - 1) && FrameOf(log[n - 1]).Some? then [FrameOf(log[n - 1]).value] else []
  }

  ghost function KextsOf(log: seq<string>, n: nat): seq<Kext>
    requires n <= |log|
  {
    if n == 0 then []
    else KextsOf(log, n - 1) +
         if Parsed(log, n - 1) && FindKext(log[n - 1]).Some? then [FindKext(log[n - 1]).value] else []
  }

  /** A starting line is kept twice: as the start, and as part of the description it opens. */
  ghost function RawOf(log: seq<string>, n: nat): seq<string>
    requires n <= |log|
  {
    if n == 0 then []
    else RawOf(log, n - 1) + (if IsStart(log[n - 1]) then [log[n - 1]] else [])
                           + (if Described(log, n - 1) then [log[n - 1]] else [])
  }

  ghost function SummaryOf(log: seq<string>, n: nat): seq<nat>
    requires n <= |log|
  {
    if n == 0 then []
    else SummaryOf(log, n - 1) +
         if Described(log, n - 1) && FirstKnown(log[n - 1], 0).Some? then [FirstKnown(log[n - 1], 0).value] else []
  }

  // ---- Steps ----

  lemma OpenStep(log: seq<string>, h: nat, i: nat)
    requires h <= i < |log|
    ensures OpenSince(log, h, i + 1) <==>
            if h == i then IsHeader(log[i]) else OpenSince(log, h, i) && !IsHeader(log[i]) && !Closes(log, i)
  {
    hide IsHeader, Closes;
  }

  lemma SectionHeader(log: seq<string>, i: nat) returns (h: nat)
    requires i <= |log| && InSection(log, i)
    ensures h < i && OpenSince(log, h, i)
  {
    hide IsHeader, Closes;
    h :| h < i && OpenSince(log, h, i);
  }

  lemma SectionFrom(log: seq<string>, h: nat, i: nat)
    requires h < i <= |log| && OpenSince(log, h, i)
    ensures InSection(log, i)
  {
    hide IsHeader, Closes;
  }

  lemma SectionStep(log: seq<string>, i: nat)
    requires i < |log|
    ensures InSection(log, i + 1) <==> IsHeader(log[i]) || (InSection(log, i) && !Closes(log, i))
  {
    hide IsHeader, Closes, OpenSince, InSection;
    OpenStep(log, i, i);
    if IsHeader(log[i]) {
      SectionFrom(log, i, i + 1);
    } else {
      if InSection(log, i) && !Closes(log, i) {
        var h := SectionHeader(log, i);
        OpenStep(log, h, i);
        SectionFrom(log, h, i + 1);
      }
      if InSection(log, i + 1) {
        var h := SectionHeader(log, i + 1);
        OpenStep(log, h, i);
        if h < i { SectionFrom(log, h, i); }
      }
    }
  }

  lemma {:induction false} FramesNonEmpty(log: seq<string>, n: nat)
    requires n <= |log|
    ensures FramesOf(log, n) != [] <==> FrameBefore(log, n)
  {
    hide Parsed, FrameOf;
    if n > 0 {
      FramesNonEmpty(log, n - 1);
      FrameBeforeStep(log, n - 1);
      hide FrameBefore;
    }
  }

  lemma FrameBeforeStep(log: seq<string>, i: nat)
    requires i < |log|
    ensures FrameBefore(log, i + 1) <==> FrameBefore(log, i) || (Parsed(log, i) && FrameOf(log[i]).Some?)
  {
    hide Parsed, FrameOf;
    if FrameBefore(log, i) {
      var f: nat :| f < i && Parsed(log, f) && FrameOf(log[f]).Some?;
      assert f < i + 1;
    }
  }

  lemma {:induction false} RawNonEmpty(log: seq<string>, n: nat)
    requires n <= |log|
    ensures RawOf(log, n) != [] <==> Started(log, n)
  {
    if n > 0 {
      RawNonEmpty(log, n - 1);
      StartedStep(log, n - 1);
    }
  }

  lemma StartedStep(log: seq<string>, i: nat)
    requires i < |log|
    ensures Started(log, i + 1) <==> Started(log, i) || IsStart(log[i])
  {
    hide IsStart;
    if Started(log, i) {
      var s: nat :| s < i && IsStart(log[s]);
      assert s < i + 1;
    }
  }

  /** A blank line is no frame. */
  lemma BlankHasNoFrame(line: string)
    requires IsBlank(line)
    ensures FrameOf(line).None?
  {
    EngineIsScan("");
  }

  /** What one line adds to the four lists, and whether a section is open after it. */
  lemma LineStep(log: seq<string>, i: nat)
    requires i < |log|
    ensures var line, open := log[i], InSection(log, i);
      var described := (RawOf(log, i) != [] || IsStart(line)) && !(open && !IsStart(line));
      var parsed := open && !IsStart(line) && !IsHeader(line);
      && RawOf(log, i + 1) ==
           RawOf(log, i) + (if IsStart(line) then [line] else []) + (if described then [line] else [])
      && SummaryOf(log, i + 1) == SummaryOf(log, i) +
           (if described && FirstKnown(line, 0).Some? then [FirstKnown(line, 0).value] else [])
      && FramesOf(log, i + 1) == FramesOf(log, i) +
           (if parsed && FrameOf(line).Some? then [FrameOf(line).value] else [])
      && KextsOf(log, i + 1) == KextsOf(log, i) +
           (if parsed && FindKext(line).Some? then [FindKext(line).value] else [])
      && (InSection(log, i + 1) <==>
            IsHeader(line) || (parsed && !(Strip(line) == "" && FramesOf(log, i + 1) != [])))
  {
    RawNonEmpty(log, i);
    StartedStep(log, i);
    SectionStep(log, i);
    FramesNonEmpty(log, i);
    if IsBlank(log[i]) { BlankHasNoFrame(log[i]); }
    hide InSection, Started, FrameBefore, FindKext, FrameOf, IsStart, IsHeader, FirstKnown;
  }

  /** Wherever it stands in the log, a line that starts a panic is kept twice in a row. */
  lemma StartIsKeptTwice(log: seq<string>, i: nat)
    requires i < |log| && IsStart(log[i])
    ensures RawOf(log, i + 1) == RawOf(log, i) + [log[i], log[i]]
  {
    LineStep(log, i);
    hide RawOf, SummaryOf, FramesOf, KextsOf, InSection, IsStart, IsHeader;
  }

  /** Stripping the end of every line, as the loop does first. */
  function Stripped(lines: seq<string>): (log: seq<string>)
    ensures |log| == |lines| && forall i | 0 <= i < |log| :: log[i] == RStrip(lines[i])
  {
    seq(|lines|, i requires 0 <= i < |lines| => RStrip(lines[i]))
  }

  /** White space at the ends of the lines, their newlines included, makes no difference to the log. */
  lemma LineEndsDoNotMatter(lines: seq<string>, ends: seq<string>)
    requires |ends| == |lines| && forall i | 0 <= i < |ends| :: Blank(ends[i])
    ensures Stripped(seq(|lines|, i requires 0 <= i < |lines| => lines[i] + ends[i])) == Stripped(lines)
    ensures forall i | 0 <= i < |lines| :: lines[i] == "" || !IsSpace(lines[i][|lines[i]| - 1]) ==>
              Stripped(lines)[i] == lines[i]
  {
    forall i | 0 <= i < |lines|
      ensures RStrip(lines[i] + ends[i]) == RStrip(lines[i])
    {
      RStripAppend(lines[i], ends[i]);
    }
    hide IsSpace;
  }

  lemma NothingYet(log: seq<string>)
    ensures RawOf(log, 0) == [] && SummaryOf(log, 0) == [] && FramesOf(log, 0) == [] && KextsOf(log, 0) == []
    ensures !InSection(log, 0)
  {
  }

  /** The first half of the loop's body: a start closes the section, and a line outside a section, once
      a panic has started, is part of its description. */
  method Describe(line: string, open: bool, raw0: seq<string>, summary0: seq<nat>)
    returns (inBacktrace: bool, raw: seq<string>, summary: seq<nat>)
    ensures inBacktrace == (open && !IsStart(line))
    ensures var described := (raw0 != [] || IsStart(line)) && !inBacktrace;
      && raw == raw0 + (if IsStart(line) then [line] else []) + (if described then [line] else [])
      && summary == summary0 + (if described && FirstKnown(line, 0).Some? then [FirstKnown(line, 0).value] else [])
  {
    hide IsStart, FirstKnown;
    inBacktrace, raw, summary := open, raw0, summary0;
    if IsStart(line) {
      raw := raw + [line];
      inBacktrace := false;
    }
    if raw != [] && !inBacktrace {
      raw := raw + [line];
      var explanation := FindKnownPanic(line);
      if explanation.Some? {
        summary := summary + [explanation.value];
      }
    }
  }

  /** The second half, for a line in an open section. */
  method ParseLine(line: string, frames0: seq<Frame>, kexts0: seq<Kext>)
    returns (inBacktrace: bool, frames: seq<Frame>, kexts: seq<Kext>)
    ensures frames == frames0 + (if FrameOf(line).Some? then [FrameOf(line).value] else [])
    ensures kexts == kexts0 + (if FindKext(line).Some? then [FindKext(line).value] else [])
    ensures inBacktrace <==> !(Strip(line) == "" && frames != [])
  {
    hide MatchFrame, FindKext, Strip;
    inBacktrace, frames, kexts := true, frames0, kexts0;
    var m := MatchFrame(Strip(line));
    if m.Some? {
      frames := frames + [m.value];
    }
    var k := FindKext(line);
    if k.Some? {
      kexts := kexts + [k.value];
    }
    if Strip(line) == "" && frames != [] {
      inBacktrace := false;
    }
  }

  /** The loop of parse_panic_log finds exactly what the whole log contains. */
  method ParsePanicLog(lines: seq<string>)
    returns (raw: seq<string>, summary: seq<nat>, frames: seq<Frame>, kexts: seq<Kext>)
    ensures var log := Stripped(lines);
      && raw == RawOf(log, |log|) && summary == SummaryOf(log, |log|)
      && frames == FramesOf(log, |log|) && kexts == KextsOf(log, |log|)
  {
    ghost var log := Stripped(lines);
    NothingYet(log);
    hide InSection, RawOf, SummaryOf, FramesOf, KextsOf;
    hide IsStart, IsHeader, FirstKnown, FindKext, FrameOf, Strip, RStrip;
    var inBacktrace := false;
    raw, summary, frames, kexts := [], [], [], [];
    var i := 0;
    while i < |lines|
      invariant 0 <= i <= |lines|
      invariant inBacktrace == InSection(log, i)
      invariant raw == RawOf(log, i) && summary == SummaryOf(log, i)
      invariant frames == FramesOf(log, i) && kexts == KextsOf(log, i)
    {
      var line := RStrip(lines[i]);
      LineStep(log, i);
      inBacktrace, raw, summary := Describe(line, inBacktrace, raw, summary);
      i := i + 1;
      if IsHeader(line) {
        inBacktrace := true;
        continue;
      }
      if inBacktrace {
        inBacktrace, frames, kexts := ParseLine(line, frames, kexts);
      }
    }
  }
}
