/** The kext pattern of tools/panic-parse.py. */
module Kexts {
  import opened Options
  import opened Text
  import opened Regex

  datatype Kext = Kext(name: string, base: string)

  /** KEXT_RE: the name is group 1, items 0 to 4; the base is group 2, items 8 to 10. */
  function KextPattern(): seq<Item> {
    [One(Exactly('c')), One(Exactly('o')), One(Exactly('m')), One(Exactly('.')), Many(NameChar, 1, Unbounded, true),
     Many(Space, 1, Unbounded, true), One(Exactly('@')), Many(Space, 1, Unbounded, true),
     One(Exactly('0')), One(Exactly('x')), Many(HexDigit, 1, Unbounded, true)]
  }

  /** From n to b: white space, an at sign at a, white space; and from b to e a hex number with its prefix,
      which goes on no further. */
  ghost predicate IsBase(s: string, n: nat, a: nat, b: nat, e: nat) {
    && n < a && a + 1 < b && b + 2 < e <= |s|
    && AllIn(s, n, a, Space) && s[a] == '@' && AllIn(s, a + 1, b, Space)
    && s[b] == '0' && s[b + 1] == 'x' && AllIn(s, b + 2, e, HexDigit) && (e < |s| ==> !In(s[e], HexDigit))
  }

  /** From i to n "com." and a name, and then, from b to e, the base. The name goes on no further either:
      white space follows it. */
  ghost predicate IsKext(s: string, i: nat, n: nat, a: nat, b: nat, e: nat) {
    && i + 4 < n <= |s|
    && s[i] == 'c' && s[i + 1] == 'o' && s[i + 2] == 'm' && s[i + 3] == '.' && AllIn(s, i + 4, n, NameChar)
    && IsBase(s, n, a, b, e)
  }

  /** The name: items 0 to 4. */
  lemma NameFrom(s: string, i: nat, ps: seq<nat>)
    requires |ps| == 11 && i <= |s|
    requires Accounts(One(Exactly('c')), s, i, ps[0]) && Accounts(One(Exactly('o')), s, ps[0], ps[1])
    requires Accounts(One(Exactly('m')), s, ps[1], ps[2]) && Accounts(One(Exactly('.')), s, ps[2], ps[3])
    requires Accounts(Many(NameChar, 1, Unbounded, true), s, ps[3], ps[4])
    ensures i + 4 < ps[4] <= |s|
    ensures s[i] == 'c' && s[i + 1] == 'o' && s[i + 2] == 'm' && s[i + 3] == '.' && AllIn(s, i + 4, ps[4], NameChar)
  {
  }

  /** The separator and the base: items 5 to 10. */
  lemma BaseFrom(s: string, n: nat, ps: seq<nat>)
    requires |ps| == 11 && n <= |s|
    requires Accounts(Many(Space, 1, Unbounded, true), s, n, ps[5]) && Accounts(One(Exactly('@')), s, ps[5], ps[6])
    requires Accounts(Many(Space, 1, Unbounded, true), s, ps[6], ps[7])
    requires Accounts(One(Exactly('0')), s, ps[7], ps[8]) && Accounts(One(Exactly('x')), s, ps[8], ps[9])
    requires Accounts(Many(HexDigit, 1, Unbounded, true), s, ps[9], ps[10])
    requires ps[10] < |s| ==> !In(s[ps[10]], HexDigit)
    ensures IsBase(s, n, ps[5], ps[7], ps[10])
  {
  }

  lemma PatternIsPlain()
    ensures Plain(KextPattern()) && |KextPattern()| == 11
    ensures KextPattern()[10] == Many(HexDigit, 1, Unbounded, true)
  {
  }

  lemma MatchIsKext(s: string, i: nat)
    requires i <= |s| && Match(KextPattern(), s, i).Some?
    ensures var ps := Match(KextPattern(), s, i).value;
      |ps| == 11 && IsKext(s, i, ps[4], ps[5], ps[7], ps[10])
  {
    var re, ps := KextPattern(), Match(KextPattern(), s, i).value;
    PatternIsPlain();
    hide Match, Divides, Accounts, AllIn, IsBase, Plain, In;
    MatchDivides(re, s, i);
    DivisionIsInTurn(re, s, i, ps);
    LastRunIsWhole(re, s, i);
    assert Accounts(re[0], s, i, ps[0]) && Accounts(re[1], s, ps[0], ps[1]) && Accounts(re[2], s, ps[1], ps[2]);
    assert Accounts(re[3], s, ps[2], ps[3]) && Accounts(re[4], s, ps[3], ps[4]) && Accounts(re[5], s, ps[4], ps[5]);
    NameFrom(s, i, ps);
    assert Accounts(re[6], s, ps[5], ps[6]) && Accounts(re[7], s, ps[6], ps[7]) && Accounts(re[8], s, ps[7], ps[8]);
    assert Accounts(re[9], s, ps[8], ps[9]) && Accounts(re[10], s, ps[9], ps[10]);
    BaseFrom(s, ps[4], ps);
  }

  // ---- The converse ----

  lemma NameAccounts(s: string, i: nat, n: nat, a: nat, b: nat, e: nat)
    requires IsKext(s, i, n, a, b, e)
    ensures Accounts(One(Exactly('c')), s, i, i + 1) && Accounts(One(Exactly('o')), s, i + 1, i + 2)
    ensures Accounts(One(Exactly('m')), s, i + 2, i + 3) && Accounts(One(Exactly('.')), s, i + 3, i + 4)
    ensures Accounts(Many(NameChar, 1, Unbounded, true), s, i + 4, n) && IsBase(s, n, a, b, e)
  {
    hide IsBase;
  }

  lemma BaseAccounts(s: string, n: nat, a: nat, b: nat, e: nat)
    requires IsBase(s, n, a, b, e)
    ensures Accounts(Many(Space, 1, Unbounded, true), s, n, a) && Accounts(One(Exactly('@')), s, a, a + 1)
    ensures Accounts(Many(Space, 1, Unbounded, true), s, a + 1, b)
    ensures Accounts(One(Exactly('0')), s, b, b + 1) && Accounts(One(Exactly('x')), s, b + 1, b + 2)
    ensures Accounts(Many(HexDigit, 1, Unbounded, true), s, b + 2, e)
  {
  }

  lemma KextDivides(s: string, i: nat, n: nat, a: nat, b: nat, e: nat)
    requires IsKext(s, i, n, a, b, e)
    ensures Divides(KextPattern(), s, i, [i + 1, i + 2, i + 3, i + 4, n, a, a + 1, b, b + 1, b + 2, e])
  {
    var re, ps := KextPattern(), [i + 1, i + 2, i + 3, i + 4, n, a, a + 1, b, b + 1, b + 2, e];
    PatternIsPlain();
    NameAccounts(s, i, n, a, b, e);
    BaseAccounts(s, n, a, b, e);
    hide Accounts, Divides, IsBase, AllIn;
    assert AccountsInTurn(re, s, i, ps);
    DivisionIsInTurn(re, s, i, ps);
  }

  /** A run that something else ends, ends in one place. */
  lemma RunEndsOnce(s: string, i: nat, j: nat, j': nat, cls: Class)
    requires i <= j <= |s| && i <= j' <= |s| && AllIn(s, i, j, cls) && AllIn(s, i, j', cls)
    requires (j < |s| ==> !In(s[j], cls)) && (j' < |s| ==> !In(s[j'], cls))
    ensures j == j'
  {
    RunIs(cls, s, i, j - i);
    RunIs(cls, s, i, j' - i);
  }

  /** An entry that begins at i has one name and one base. */
  lemma KextIsUnique(s: string, i: nat, n: nat, a: nat, b: nat, e: nat, n': nat, a': nat, b': nat, e': nat)
    requires IsKext(s, i, n, a, b, e) && IsKext(s, i, n', a', b', e')
    ensures n == n' && a == a' && b == b' && e == e'
  {
    assert In(s[n], Space) && In(s[n'], Space);
    RunEndsOnce(s, i + 4, n, n', NameChar);
    RunEndsOnce(s, n, a, a', Space);
    RunEndsOnce(s, a + 1, b, b', Space);
    RunEndsOnce(s, b + 2, e, e', HexDigit);
  }

  /** An entry begins at i. */
  ghost predicate KextAt(s: string, i: nat) {
    exists n: nat, a: nat, b: nat, e: nat :: IsKext(s, i, n, a, b, e)
  }

  /** The pattern matches at i exactly when an entry begins there. */
  lemma MatchesIffKext(s: string, i: nat)
    requires i <= |s|
    ensures Matches(KextPattern(), s, i) <==> KextAt(s, i)
  {
    hide Match, Matches, Divides, IsKext, KextPattern;
    EngineIsExhaustive(KextPattern(), s, i);
    if Match(KextPattern(), s, i).Some? {
      MatchIsKext(s, i);
    } else if KextAt(s, i) {
      var n: nat, a: nat, b: nat, e: nat :| IsKext(s, i, n, a, b, e);
      KextDivides(s, i, n, a, b, e);
      DivisionMatches(KextPattern(), s, i, [i + 1, i + 2, i + 3, i + 4, n, a, a + 1, b, b + 1, b + 2, e]);
    }
  }

  /** `KEXT_RE.search`, and the two groups. */
  function FindKext(s: string): Option<Kext> {
    var r := Search(KextPattern(), s, 0);
    if r.None? then None
    else
      SearchFindsTheFirst(KextPattern(), s, 0);
      MatchIsKext(s, r.value.0);
      var (i, ps) := r.value;
      Some(Kext(s[i..ps[4]], s[ps[7]..ps[10]]))
  }

  /** What is found is an entry, the first of the line: its whole name and its whole base. */
  lemma FoundIsFirstKext(s: string) returns (i: nat, n: nat, a: nat, b: nat, e: nat)
    requires FindKext(s).Some?
    ensures IsKext(s, i, n, a, b, e) && FindKext(s) == Some(Kext(s[i..n], s[b..e]))
    ensures forall j: nat | j < i :: !KextAt(s, j)
  {
    SearchFindsTheFirst(KextPattern(), s, 0);
    var r := Search(KextPattern(), s, 0).value;
    MatchIsKext(s, r.0);
    i, n, a, b, e := r.0, r.1[4], r.1[5], r.1[7], r.1[10];
    hide IsKext, Matches, Match, Search;
    forall j: nat | j < i
      ensures !KextAt(s, j)
    {
      MatchesIffKext(s, j);
    }
  }

  /** And the first entry of a line is found, whatever surrounds it. */
  lemma FirstKextIsFound(s: string, i: nat, n: nat, a: nat, b: nat, e: nat)
    requires IsKext(s, i, n, a, b, e) && forall j: nat | j < i :: !KextAt(s, j)
    ensures FindKext(s) == Some(Kext(s[i..n], s[b..e]))
  {
    assert KextAt(s, i) && i <= |s|;
    MatchesIffKext(s, i);
    SearchFindsTheFirst(KextPattern(), s, 0);
    hide IsKext, Matches, Match, Search;
    var i', n', a', b', e' := FoundIsFirstKext(s);
    assert KextAt(s, i');
    assert i == i';
    KextIsUnique(s, i, n, a, b, e, n', a', b', e');
  }

  // ---- Round trip ----

  predicate Only(s: string, cls: Class) {
    forall i | 0 <= i < |s| :: In(s[i], cls)
  }

  /** A kext entry as a kernel prints it, in the middle of a line. */
  function KextLine(a: string, name: string, w: string, w': string, d: string, rest: string): string {
    a + "com." + name + w + "@" + w' + "0x" + d + rest
  }

  lemma PartIs(a: string, part: string, rest: string, cls: Class)
    requires Only(part, cls)
    ensures AllIn(a + part + rest, |a|, |a| + |part|, cls)
  {
    var s := a + part + rest;
    assert forall k | |a| <= k < |a| + |part| :: s[k] == part[k - |a|];
    hide In;
  }

  lemma PrintedBase(h: string, w: string, w': string, d: string, rest: string)
    requires w != "" && w' != "" && Only(w, Space) && Only(w', Space) && d != "" && Only(d, HexDigit)
    requires rest != "" ==> !In(rest[0], HexDigit)
    ensures var s := h + w + "@" + w' + "0x" + d + rest;
      var n := |h|;
      var a := n + |w|;
      var b := a + 1 + |w'|;
      var e := b + 2 + |d|;
      IsBase(s, n, a, b, e) && s[b..e] == "0x" + d
  {
    var s := h + w + "@" + w' + "0x" + d + rest;
    hide In;
    assert s == h + w + ("@" + w' + "0x" + d + rest);
    PartIs(h, w, "@" + w' + "0x" + d + rest, Space);
    assert s == (h + w + "@") + w' + ("0x" + d + rest);
    PartIs(h + w + "@", w', "0x" + d + rest, Space);
    assert s == (h + w + "@" + w' + "0x") + d + rest;
    PartIs(h + w + "@" + w' + "0x", d, rest, HexDigit);
  }

  lemma PrintedName(a: string, name: string, rest: string)
    requires name != "" && Only(name, NameChar)
    ensures var s := (a + "com." + name) + rest;
      var i := |a|;
      var n := i + 4 + |name|;
      && |a + "com." + name| == n && s[i] == 'c' && s[i + 1] == 'o' && s[i + 2] == 'm' && s[i + 3] == '.'
      && AllIn(s, i + 4, n, NameChar) && s[i..n] == "com." + name
  {
    hide In;
    PartIs(a + "com.", name, rest, NameChar);
  }

  lemma NoKextBefore(s: string, a: string)
    requires a <= s && 'c' !in a
    ensures forall j: nat | j < |a| :: !KextAt(s, j)
  {
    forall j: nat | j < |a|
      ensures !KextAt(s, j)
    {
      assert s[j] == a[j] != 'c';
      hide IsBase;
    }
  }

  lemma PrintedKext(a: string, name: string, w: string, w': string, d: string, rest: string)
    returns (n: nat, at: nat, b: nat, e: nat)
    requires name != "" && NameOnly(name)
    requires w != "" && w' != "" && Blank(w) && Blank(w') && d != "" && HexOnly(d)
    requires rest != "" ==> !IsHex(rest[0])
    ensures var s := KextLine(a, name, w, w', d, rest);
      a <= s && IsKext(s, |a|, n, at, b, e) && s[|a|..n] == "com." + name && s[b..e] == "0x" + d
  {
    OnlyMeans(name, w, w', d);
    assert rest != "" ==> !In(rest[0], HexDigit);
    hide In, Only, IsBase, AllIn, IsHex, Blank, HexOnly, NameOnly;
    LineParts(a, name, w, w', d, rest);
    PrintedName(a, name, w + "@" + w' + "0x" + d + rest);
    PrintedBase(a + "com." + name, w, w', d, rest);
    n := |a + "com." + name|;
    at := n + |w|;
    b := at + 1 + |w'|;
    e := b + 2 + |d|;
  }

  /** What was printed is found, whole: name and base, whatever white space is between them and whatever
      else is on the line, as long as no letter c comes before it. */
  lemma KextRoundTrip(a: string, name: string, w: string, w': string, d: string, rest: string)
    requires 'c' !in a && name != "" && NameOnly(name)
    requires w != "" && w' != "" && Blank(w) && Blank(w') && d != "" && HexOnly(d)
    requires rest != "" ==> !IsHex(rest[0])
    ensures FindKext(KextLine(a, name, w, w', d, rest)) == Some(Kext("com." + name, "0x" + d))
  {
    hide FindKext, IsKext, KextLine, Blank, HexOnly, NameOnly, IsHex;
    var s := KextLine(a, name, w, w', d, rest);
    var n, at, b, e := PrintedKext(a, name, w, w', d, rest);
    NoKextBefore(s, a);
    FirstKextIsFound(s, |a|, n, at, b, e);
  }

  /** Where the pieces of the line are. */
  lemma CharsOfLine(a: string, name: string, w: string, w': string, d: string, rest: string)
    requires 'o' !in a && 'o' !in rest && NameOnly(name) && Blank(w) && Blank(w') && HexOnly(d)
    requires rest != "" ==> !IsHex(rest[0])
    ensures var s := KextLine(a, name, w, w', d, rest);
      var n := |a| + 4 + |name|;
      var at := n + |w|;
      var b := at + 1 + |w'|;
      && b + 2 + |d| + |rest| == |s|
      && (forall k | 0 <= k < |s| :: s[k] == 'o' ==> |a| < k < n)
      && (forall k | |a| <= k < n :: In(s[k], NameChar)) && s[n] == (if w == "" then '@' else w[0])
      && AllIn(s, n, at, Space) && s[at] == '@' && AllIn(s, at + 1, b, Space) && s[b] == '0' && s[b + 1] == 'x'
      && (d == "" && b + 2 < |s| ==> !In(s[b + 2], HexDigit))
  {
    var s := KextLine(a, name, w, w', d, rest);
    var n := |a| + 4 + |name|;
    var at := n + |w|;
    var b := at + 1 + |w'|;
    assert forall k | 0 <= k < |a| :: s[k] == a[k];
    assert forall k | |a| <= k < |a| + 4 :: s[k] == "com."[k - |a|];
    assert forall k | |a| + 4 <= k < n :: s[k] == name[k - |a| - 4];
    assert forall k | n <= k < at :: s[k] == w[k - n];
    assert forall k | at + 1 <= k < b :: s[k] == w'[k - at - 1];
    assert forall k | b + 2 <= k < b + 2 + |d| :: s[k] == d[k - b - 2];
    assert forall k | b + 2 + |d| <= k < |s| :: s[k] == rest[k - b - 2 - |d|];
  }

  /** Each piece is needed: of a line with no other letter o, an entry is found exactly if there is a name,
      white space on both sides of the at sign, and a digit. */
  lemma KextNeedsItsParts(a: string, name: string, w: string, w': string, d: string, rest: string)
    requires 'o' !in a && 'o' !in rest && NameOnly(name) && Blank(w) && Blank(w') && HexOnly(d)
    requires rest != "" ==> !IsHex(rest[0])
    requires 'c' !in a
    ensures FindKext(KextLine(a, name, w, w', d, rest)).Some? <==> name != "" && w != "" && w' != "" && d != ""
  {
    hide FindKext, KextLine, IsHex, Blank, HexOnly, NameOnly;
    var s := KextLine(a, name, w, w', d, rest);
    if name != "" && w != "" && w' != "" && d != "" {
      KextRoundTrip(a, name, w, w', d, rest);
    } else if FindKext(s).Some? {
      var i, n, at, b, e := FoundIsFirstKext(s);
      CharsOfLine(a, name, w, w', d, rest);
      EntryIsWhole(s, |a|, |a| + 4 + |name|, |w|, |w'|, d, i, n, at, b, e);
    }
  }

  lemma EntryIsWhole(s: string, l: nat, n: nat, k: nat, k': nat, d: string, i: nat, n': nat, at: nat, b: nat, e: nat)
    requires n + k + 1 + k' + 2 <= |s| && l + 4 <= n
    requires forall j | 0 <= j < |s| :: s[j] == 'o' ==> l < j < n
    requires forall j | l <= j < n :: In(s[j], NameChar)
    requires AllIn(s, n, n + k, Space) && s[n + k] == '@' && AllIn(s, n + k + 1, n + k + 1 + k', Space)
    requires s[n + k + 1 + k'] == '0'
    requires d == "" && n + k + 1 + k' + 2 < |s| ==> !In(s[n + k + 1 + k' + 2], HexDigit)
    requires IsKext(s, i, n', at, b, e)
    ensures n > l + 4 && k > 0 && k' > 0 && d != ""
  {
    assert s[i + 1] == 'o' && s[i + 2] == 'm' && s[i + 3] == '.';
    NotNameChar(s, n, k);
    assert i + 4 <= n;
    RunEndsOnce(s, i + 4, n, n', NameChar);
    RunEndsOnce(s, n, n + k, at, Space);
    RunEndsOnce(s, at + 1, n + k + 1 + k', b, Space);
    assert In(s[b + 2], HexDigit);
  }

  /** White space and the at sign belong to no name. */
  lemma NotNameChar(s: string, n: nat, k: nat)
    requires n + k < |s| && AllIn(s, n, n + k, Space) && s[n + k] == '@'
    ensures !In(s[n], NameChar) && s[n] != 'm' && s[n] != '.' && s[n] != 'o'
  {
    assert k > 0 ==> In(s[n], Space);
  }

  lemma OnlyMeans(name: string, w: string, w': string, d: string)
    requires NameOnly(name) && Blank(w) && Blank(w') && HexOnly(d)
    ensures Only(name, NameChar) && Only(w, Space) && Only(w', Space) && Only(d, HexDigit)
  {
    hide IsNameChar, IsSpace, IsHex;
  }

  lemma LineParts(a: string, name: string, w: string, w': string, d: string, rest: string)
    ensures var s, h := KextLine(a, name, w, w', d, rest), a + "com." + name;
      s == h + (w + "@" + w' + "0x" + d + rest) == h + w + "@" + w' + "0x" + d + rest && a <= s
  {
  }
}
