/** The string operations that tools/panic-parse.py relies on. */
module Text {

  /** What `str.strip`, `str.rstrip` and `\s` take for white space. */
  predicate IsSpace(c: char) {
    var n := c as int;
    9 <= n <= 13 || 28 <= n <= 32 || n == 0x85 || n == 0xA0 || n == 0x1680 || 0x2000 <= n <= 0x200A
    || n == 0x2028 || n == 0x2029 || n == 0x202F || n == 0x205F || n == 0x3000
  }

  predicate IsHex(c: char) {
    '0' <= c <= '9' || 'a' <= c <= 'f' || 'A' <= c <= 'F'
  }

  /** Letters, digits, and the characters `.`, `_` and `-`. */
  predicate IsNameChar(c: char) {
    'a' <= c <= 'z' || 'A' <= c <= 'Z' || '0' <= c <= '9' || c == '.' || c == '_' || c == '-'
  }

  function LowerChar(c: char): char {
    if 'A' <= c <= 'Z' then ((c as int) + 32) as char else c
  }

  function Lower(s: string): (r: string)
    ensures |r| == |s| && forall i | 0 <= i < |s| :: r[i] == LowerChar(s[i])
  {
    seq(|s|, i requires 0 <= i < |s| => LowerChar(s[i]))
  }

  /** White space throughout. */
  predicate Blank(s: string) {
    forall i | 0 <= i < |s| :: IsSpace(s[i])
  }

  predicate HexOnly(s: string) {
    forall i | 0 <= i < |s| :: IsHex(s[i])
  }

  predicate NameOnly(s: string) {
    forall i | 0 <= i < |s| :: IsNameChar(s[i])
  }

  /** What is removed is white space, and all of it at that end. */
  function RStrip(s: string): (r: string)
    ensures r <= s && (r != "" ==> !IsSpace(r[|r| - 1]))
    ensures forall k | |r| <= k < |s| :: IsSpace(s[k])
  {
    if s != "" && IsSpace(s[|s| - 1]) then RStrip(s[..|s| - 1]) else s
  }

  function LStrip(s: string): (r: string)
    ensures |r| <= |s| && s[|s| - |r|..] == r && (r != "" ==> !IsSpace(r[0]))
    ensures forall k | 0 <= k < |s| - |r| :: IsSpace(s[k])
  {
    if s != "" && IsSpace(s[0]) then LStrip(s[1..]) else s
  }

  /** No white space at either end of the result. */
  function Strip(s: string): (r: string)
    ensures |r| <= |s| && (r != "" ==> !IsSpace(r[0]) && !IsSpace(r[|r| - 1]))
    ensures s != "" && !IsSpace(s[0]) && !IsSpace(s[|s| - 1]) ==> r == s
  {
    LStrip(RStrip(s))
  }

  // ---- Stripping, from outside ----

  lemma {:induction false} RStripAppend(s: string, w: string)
    requires Blank(w)
    ensures RStrip(s + w) == RStrip(s)
  {
    if w == "" {
      assert s + w == s;
    } else {
      assert (s + w)[..|s + w| - 1] == s + w[..|w| - 1];
      RStripAppend(s, w[..|w| - 1]);
    }
  }

  lemma {:induction false} LStripPrepend(w: string, s: string)
    requires Blank(w)
    ensures LStrip(w + s) == LStrip(s)
  {
    if w == "" {
      assert w + s == s;
    } else {
      assert (w + s)[1..] == w[1..] + s;
      LStripPrepend(w[1..], s);
    }
  }

  /** A text with no white space at its ends. */
  predicate Bare(t: string) {
    t != "" ==> !IsSpace(t[0]) && !IsSpace(t[|t| - 1])
  }

  lemma BareIsStripped(t: string)
    requires Bare(t)
    ensures RStrip(t) == LStrip(t) == Strip(t) == t
  {
  }

  lemma BlankStrips(w: string)
    requires Blank(w)
    ensures RStrip(w) == Strip(w) == ""
  {
    assert "" + w == w;
    RStripAppend("", w);
  }

  lemma BlankAppend(v: string, w: string)
    requires Blank(v) && Blank(w)
    ensures Blank(v + w)
  {
    hide IsSpace;
  }

  lemma BareSuffix(before: string, t: string)
    requires Bare(t) && t != ""
    ensures RStrip(before + t) == before + t
  {
    assert (before + t)[|before + t| - 1] == t[|t| - 1];
    hide IsSpace;
  }

  lemma RStripWord(before: string, t: string, after: string)
    requires Blank(after) && Bare(t) && t != ""
    ensures RStrip(before + t + after) == before + t
  {
    RStripAppend(before + t, after);
    BareSuffix(before, t);
  }

  lemma LStripWord(before: string, t: string)
    requires Blank(before) && Bare(t)
    ensures LStrip(before + t) == t
  {
    LStripPrepend(before, t);
    BareIsStripped(t);
  }

  lemma StripBy(s: string, r: string, t: string)
    requires RStrip(s) == r && LStrip(r) == t
    ensures Strip(s) == t
  {
  }

  /** Stripping leaves a bare text alone and takes all white space around it away. */
  lemma StripTakesWhiteSpace(before: string, t: string, after: string)
    requires Blank(before) && Blank(after) && Bare(t)
    ensures Strip(before + t + after) == t
    ensures t != "" ==> RStrip(before + t + after) == before + t
  {
    hide *;
    if t == "" {
      assert before + t + after == before + after;
      BlankAppend(before, after);
      BlankStrips(before + after);
    } else {
      RStripWord(before, t, after);
      LStripWord(before, t);
      StripBy(before + t + after, before + t, t);
    }
  }

  lemma RStripParts(s: string) returns (after: string)
    ensures s == RStrip(s) + after && Blank(after)
  {
    after := s[|RStrip(s)|..];
    hide RStrip, IsSpace;
  }

  lemma LStripParts(s: string) returns (before: string)
    ensures s == before + LStrip(s) && Blank(before)
  {
    before := s[..|s| - |LStrip(s)|];
    hide LStrip, IsSpace;
  }

  /** And any text is its stripped text with white space around it. */
  lemma StripParts(s: string) returns (before: string, after: string)
    ensures s == before + Strip(s) + after && Blank(before) && Blank(after) && Bare(Strip(s))
  {
    hide RStrip, LStrip, Blank, IsSpace;
    after := RStripParts(s);
    before := LStripParts(RStrip(s));
  }

  predicate OccursAt(s: string, sub: string, i: nat) {
    i + |sub| <= |s| && s[i..i + |sub|] == sub
  }

  /** Python's `sub in s`. */
  predicate Contains(s: string, sub: string) {
    exists i | 0 <= i <= |s| :: OccursAt(s, sub, i)
  }

  // ---- Characters and parts of strings, from outside ----

  lemma HexDigitsAre(c: char)
    ensures IsHex(c) <==> c in "0123456789" || c in "abcdef" || c in "ABCDEF"
  {
    var n := c as int;
    if 48 <= n <= 57 { assert "0123456789"[n - 48] == c; }
    if 97 <= n <= 102 { assert "abcdef"[n - 97] == c; }
    if 65 <= n <= 70 { assert "ABCDEF"[n - 65] == c; }
  }

  /** The characters of a name: small letters, capitals, digits and three signs, by code. */
  lemma NameCharsAre(c: char)
    ensures IsNameChar(c) <==>
            97 <= c as int <= 122 || 65 <= c as int <= 90 || 48 <= c as int <= 57 || c in ['.', '_', '-']
  {
  }

  /** White space, by code: the ASCII controls from tab to carriage return and from 28 to 31, the space, and
      the Unicode spaces and separators. */
  lemma WhiteSpaceIs(c: char)
    ensures IsSpace(c) <==>
      c as int in {9, 10, 11, 12, 13, 28, 29, 30, 31, 32, 133, 160, 5760, 8192, 8193, 8194, 8195, 8196, 8197, 8198,
                   8199, 8200, 8201, 8202, 8232, 8233, 8239, 8287, 12288}
  {
  }

  /** Lowering turns each of the 26 capitals into its small letter and leaves everything else. */
  lemma LowerIs(c: char)
    ensures LowerChar(c) == if 65 <= c as int <= 90 then (c as int + 32) as char else c
  {
  }

  lemma LowerAppend(a: string, b: string)
    ensures Lower(a + b) == Lower(a) + Lower(b)
  {
  }

  /** A string contains another exactly when it is that one with something before and something after. */
  lemma ContainsIff(s: string, sub: string)
    ensures Contains(s, sub) <==> exists a: string, b: string :: s == a + sub + b
  {
    if Contains(s, sub) {
      var i :| 0 <= i <= |s| && OccursAt(s, sub, i);
      assert s == s[..i] + sub + s[i + |sub|..];
    }
    if a: string, b: string :| s == a + sub + b {
      assert OccursAt(s, sub, |a|);
    }
  }

  lemma ContainsPart(a: string, sub: string, b: string)
    ensures Contains(a + sub + b, sub)
  {
    assert OccursAt(a + sub + b, sub, |a|);
  }

  /** In any case of letters. */
  lemma ContainsLowered(a: string, w: string, b: string, sub: string)
    requires Lower(w) == Lower(sub)
    ensures Contains(Lower(a + w + b), Lower(sub))
  {
    LowerAppend(a + w, b);
    LowerAppend(a, w);
    ContainsPart(Lower(a), Lower(w), Lower(b));
  }

  /** And what is contained in the lowered string stands in the string, in some case of letters. */
  lemma LoweredPart(s: string, sub: string) returns (a: string, w: string, b: string)
    requires Contains(Lower(s), sub)
    ensures s == a + w + b && Lower(w) == sub
  {
    var i :| 0 <= i <= |s| && OccursAt(Lower(s), sub, i);
    a, w, b := s[..i], s[i..i + |sub|], s[i + |sub|..];
    assert forall k | 0 <= k < |w| :: Lower(w)[k] == Lower(s)[i + k] == sub[k];
  }
}
