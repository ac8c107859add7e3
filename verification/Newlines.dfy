/** The newline expansion of `putString`, what survives of it when characters are dropped, and its
    left inverse. */
module Newlines {
  import opened Machine

  const LF: byte := 10
  const CARRIAGE: byte := 13

  function ExpandByte(c: byte): seq<byte> {
    if c == LF then [CARRIAGE, LF] else [c]
  }

  function Expand(s: seq<byte>): seq<byte> {
    if s == [] then [] else ExpandByte(s[0]) + Expand(s[1..])
  }

  /** Drops the carriage return just before each line feed. */
  function Collapse(s: seq<byte>): seq<byte> {
    if s == [] then []
    else if |s| >= 2 && s[0] == CARRIAGE && s[1] == LF then [LF] + Collapse(s[2..])
    else [s[0]] + Collapse(s[1..])
  }

  lemma {:induction false} ExpandAppend(s: seq<byte>, t: seq<byte>)
    ensures Expand(s + t) == Expand(s) + Expand(t)
  {
    if s == [] {
      assert s + t == t;
    } else {
      assert (s + t)[1..] == s[1..] + t;
      ExpandAppend(s[1..], t);
    }
  }

  lemma ExpandSingle(c: byte)
    ensures Expand([c]) == ExpandByte(c)
  {
    assert Expand([c]) == ExpandByte(c) + Expand([]);
  }

  lemma ExpandStep(s: seq<byte>, i: nat)
    requires i < |s|
    ensures Expand(s[..i + 1]) == Expand(s[..i]) + ExpandByte(s[i])
  {
    assert s[..i + 1] == s[..i] + [s[i]];
    ExpandAppend(s[..i], [s[i]]);
    ExpandSingle(s[i]);
  }

  /** A carriage return (13) before each line feed (10), and nothing else. */
  lemma ExpandGrows(s: seq<byte>, c: byte)
    ensures Expand([]) == []
    ensures Expand(s + [c]) == Expand(s) + (if c == 10 then [13, 10] else [c])
  {
    ExpandAppend(s, [c]);
    ExpandSingle(c);
  }

  lemma {:induction false} CollapseExpand(s: seq<byte>)
    ensures Collapse(Expand(s)) == s
  {
    if s != [] {
      var e, rest := Expand(s), Expand(s[1..]);
      CollapseExpand(s[1..]);
      if s[0] == LF {
        assert e[2..] == rest;
      } else {
        assert e[1..] == rest;
        assert rest != [] ==> rest[0] != LF by {
          if s[1..] != [] { assert rest == ExpandByte(s[1]) + Expand(s[1..][1..]); }
        }
      }
    }
  }

  /** Distinct strings have distinct expansions. */
  lemma ExpandInjective(s: seq<byte>, t: seq<byte>)
    requires Expand(s) == Expand(t)
    ensures s == t
  {
    CollapseExpand(s);
    CollapseExpand(t);
  }

  /** The bytes of s whose flag is set. */
  function Select(s: seq<byte>, flags: seq<bool>): seq<byte>
    requires |s| == |flags|
  {
    if s == [] then []
    else
      var n := |s| - 1;
      Select(s[..n], flags[..n]) + (if flags[n] then [s[n]] else [])
  }

  ghost predicate IsSubsequence(a: seq<byte>, b: seq<byte>) {
    if b == [] then a == []
    else
      var n := |b| - 1;
      || IsSubsequence(a, b[..n])
      || (a != [] && a[|a| - 1] == b[n] && IsSubsequence(a[..|a| - 1], b[..n]))
  }

  /** Whatever is dropped, the rest is in order; it is everything exactly when nothing is dropped. */
  lemma {:induction false} SelectKeepsOrder(s: seq<byte>, flags: seq<bool>)
    requires |s| == |flags|
    ensures IsSubsequence(Select(s, flags), s) && |Select(s, flags)| <= |s|
    ensures Select(s, flags) == s <==> forall i | 0 <= i < |flags| :: flags[i]
  {
    if s != [] {
      var n := |s| - 1;
      var rest := Select(s[..n], flags[..n]);
      SelectKeepsOrder(s[..n], flags[..n]);
      hide IsSubsequence;
      assert s == s[..n] + [s[n]] && flags == flags[..n] + [flags[n]];
      SubsequenceStep(rest, s, flags[n]);
      SameEnd(rest, s[..n], s[n]);
    }
  }

  lemma SubsequenceStep(a: seq<byte>, b: seq<byte>, keep: bool)
    requires b != [] && IsSubsequence(a, b[..|b| - 1])
    ensures IsSubsequence(a + (if keep then [b[|b| - 1]] else []), b)
  {
    if keep {
      assert (a + [b[|b| - 1]])[..|a|] == a;
    } else {
      assert a + [] == a;
    }
  }

  lemma SameEnd(a: seq<byte>, b: seq<byte>, c: byte)
    ensures a + [c] == b + [c] <==> a == b
  {
    if a + [c] == b + [c] {
      assert a == (a + [c])[..|a|] == (b + [c])[..|b|] == b;
    }
  }
}
