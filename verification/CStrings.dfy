/** Byte-string order: what `julius_strcmp` and `julius_memcmp` compute, on values. */
module CStrings {
  import opened Machine

  /** A C string's contents: the bytes before the terminating NUL. */
  ghost predicate NoNul(s: seq<byte>) {
    forall i | 0 <= i < |s| :: s[i] != 0
  }

  /** The difference at the first position where the two NUL-terminated strings part. */
  function StrDiff(s: seq<byte>, t: seq<byte>): int {
    if s == [] then (if t == [] then 0 else -t[0])
    else if t == [] then s[0]
    else if s[0] != t[0] then s[0] - t[0]
    else StrDiff(s[1..], t[1..])
  }

  /** The difference at the first position where two blocks of equal length part. */
  function MemDiff(s: seq<byte>, t: seq<byte>): int
    requires |s| == |t|
  {
    if s == [] then 0
    else if s[0] != t[0] then s[0] - t[0]
    else MemDiff(s[1..], t[1..])
  }

  lemma {:induction false} StrDiffZeroIffEqual(s: seq<byte>, t: seq<byte>)
    requires NoNul(s) && NoNul(t)
    ensures StrDiff(s, t) == 0 <==> s == t
  {
    if s != [] && t != [] && s[0] == t[0] {
      StrDiffZeroIffEqual(s[1..], t[1..]);
      assert s == [s[0]] + s[1..] && t == [t[0]] + t[1..];
    }
  }

  lemma {:induction false} StrDiffAntisymmetric(s: seq<byte>, t: seq<byte>)
    ensures StrDiff(s, t) == -StrDiff(t, s)
  {
    if s != [] && t != [] && s[0] == t[0] {
      StrDiffAntisymmetric(s[1..], t[1..]);
    }
  }

  lemma {:induction false} StrDiffTransitive(s: seq<byte>, t: seq<byte>, u: seq<byte>)
    requires NoNul(s) && NoNul(t) && NoNul(u)
    requires StrDiff(s, t) <= 0 && StrDiff(t, u) <= 0
    ensures StrDiff(s, u) <= 0
  {
    if s != [] && t != [] && u != [] && s[0] == t[0] == u[0] {
      StrDiffTransitive(s[1..], t[1..], u[1..]);
    }
  }

  /** Reading one byte past the shorter string, NUL included, strcmp and memcmp agree. */
  lemma {:induction false} StrDiffIsMemDiff(s: seq<byte>, t: seq<byte>, n: nat)
    requires NoNul(s) && NoNul(t)
    requires n == (if |s| <= |t| then |s| else |t|) + 1
    ensures StrDiff(s, t) == MemDiff((s + [0])[..n], (t + [0])[..n])
  {
    var a, b := (s + [0])[..n], (t + [0])[..n];
    if s == [] || t == [] {
      assert |a| == |b| == 1;
      assert a[1..] == [] && b[1..] == [];
    } else if s[0] == t[0] {
      StrDiffIsMemDiff(s[1..], t[1..], n - 1);
      assert a[1..] == (s[1..] + [0])[..n - 1];
      assert b[1..] == (t[1..] + [0])[..n - 1];
    }
  }

  /** memcmp is zero only on equal blocks. */
  lemma {:induction false} MemDiffZeroIffEqual(s: seq<byte>, t: seq<byte>)
    requires |s| == |t|
    ensures MemDiff(s, t) == 0 <==> s == t
  {
    if s != [] && s[0] == t[0] {
      MemDiffZeroIffEqual(s[1..], t[1..]);
      assert s == [s[0]] + s[1..] && t == [t[0]] + t[1..];
    }
  }

  /** A common prefix does not matter to StrDiff. */
  lemma {:induction false} StrDiffSkip(s: seq<byte>, t: seq<byte>, k: nat)
    requires k <= |s| && k <= |t| && s[..k] == t[..k]
    ensures StrDiff(s, t) == StrDiff(s[k..], t[k..])
  {
    if k > 0 {
      assert s[0] == s[..k][0] == t[..k][0] == t[0];
      assert s[1..][..k - 1] == s[..k][1..] == t[..k][1..] == t[1..][..k - 1];
      StrDiffSkip(s[1..], t[1..], k - 1);
      assert s[1..][k - 1..] == s[k..] && t[1..][k - 1..] == t[k..];
    } else {
      assert s[k..] == s && t[k..] == t;
    }
  }

  lemma {:induction false} MemDiffSkip(s: seq<byte>, t: seq<byte>, k: nat)
    requires k <= |s| == |t| && s[..k] == t[..k]
    ensures MemDiff(s, t) == MemDiff(s[k..], t[k..])
  {
    if k > 0 {
      assert s[0] == s[..k][0] == t[..k][0] == t[0];
      assert s[1..][..k - 1] == s[..k][1..] == t[..k][1..] == t[1..][..k - 1];
      MemDiffSkip(s[1..], t[1..], k - 1);
      assert s[1..][k - 1..] == s[k..] && t[1..][k - 1..] == t[k..];
    } else {
      assert s[k..] == s && t[k..] == t;
    }
  }

  /** Two blocks that agree on their first k bytes and part there differ by the bytes at k, whatever follows,
      and NULs are bytes like any other. */
  lemma BlocksPart(s: seq<byte>, t: seq<byte>, k: nat)
    requires k < |s| == |t| && s[..k] == t[..k] && s[k] != t[k]
    ensures MemDiff(s, t) == s[k] as int - t[k] as int
  {
    MemDiffSkip(s, t, k);
  }
}
