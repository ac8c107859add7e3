/** The process memory and the byte primitives of libc/src/mem.c that run on it. */
module Memory {
  import opened Machine
  import opened CStrings

  /** Every address of [a, a + n) is mapped in m. */
  ghost predicate MappedIn(m: map<int, byte>, a: int, n: int) {
    forall x | a <= x < a + n :: x in m
  }

  /** The addresses of [a, a + n). */
  function Addresses(a: int, n: nat): (s: set<int>)
    ensures forall x :: x in s <==> a <= x < a + n
  {
    if n == 0 then {} else Addresses(a, n - 1) + {a + n - 1}
  }

  /** The n bytes that m holds from address a on. */
  function Slice(m: map<int, byte>, a: int, n: nat): (s: seq<byte>)
    requires MappedIn(m, a, n)
    ensures |s| == n && forall i | 0 <= i < n :: s[i] == m[a + i]
  {
    if n == 0 then [] else Slice(m, a, n - 1) + [m[a + n - 1]]
  }

  /** The first NUL at or after address a is at a + n. */
  ghost predicate IsCString(m: map<int, byte>, a: int, n: nat) {
    && MappedIn(m, a, n + 1)
    && (forall x | a <= x < a + n :: m[x] != 0)
    && m[a + n] == 0
  }

  ghost predicate Disjoint(a: int, n: int, b: int, k: int) {
    a + n <= b || b + k <= a
  }

  /** Equal bytes over equal addresses make equal slices. */
  lemma SliceFrame(m: map<int, byte>, m': map<int, byte>, a: int, n: nat)
    requires MappedIn(m, a, n) && MappedIn(m', a, n)
    requires forall x | a <= x < a + n :: m[x] == m'[x]
    ensures Slice(m, a, n) == Slice(m', a, n)
  {
  }

  /** Copying n bytes one at a time, upwards, each read from the memory as it then is. */
  function ForwardCopy(m: map<int, byte>, dst: int, src: int, n: nat): (m': map<int, byte>)
    requires MappedIn(m, dst, n) && MappedIn(m, src, n)
    ensures m'.Keys == m.Keys
  {
    if n == 0 then m
    else
      var p := ForwardCopy(m, dst, src, n - 1);
      p[dst + n - 1 := p[src + n - 1]]
  }

  /** Where, in the old memory, byte i of a forward copy from src to src + gap comes from:
      an overlapping copy upwards repeats the first gap bytes of the source. */
  function Origin(gap: int, i: nat): (o: nat)
    ensures o <= i
  {
    if gap <= 0 then i else (ModAtMost(i, gap); i % gap)
  }

  lemma ModAtMost(i: nat, gap: nat)
    requires 0 < gap
    ensures i % gap <= i
  {
    assert i == i / gap * gap + i % gap;
  }

  lemma ModStep(i: nat, gap: nat)
    requires 0 < gap <= i
    ensures (i - gap) % gap == i % gap
  {
    QuotientTimes(i, gap);
    assert (i / gap - 1) * gap == i / gap * gap - gap;
    ModUnique(i - gap, gap, i / gap - 1, i % gap);
  }

  lemma ModUnique(x: nat, d: nat, q: int, r: int)
    requires 0 < d && 0 <= r < d && x == q * d + r
    ensures x % d == r
  {
    QuotientTimes(x, d);
    MultiplesApart(d, x / d, q);
  }

  lemma OriginInRange(gap: int, i: nat)
    ensures 0 < gap <= i ==> Origin(gap, i - gap) == Origin(gap, i)
    ensures i < gap || gap <= 0 ==> Origin(gap, i) == i
  {
    if 0 < gap <= i { ModStep(i, gap); }
    if i < gap { ModUnique(i, gap, 0, i); }
  }

  lemma OriginIs(gap: nat, i: nat)
    requires 0 < gap
    ensures Origin(gap, i) == i % gap < gap
  {
  }

  lemma OriginBelow(gap: nat, i: nat)
    requires 0 < gap
    ensures Origin(gap, i) < gap
  {
  }

  lemma ForwardCopyStep(m: map<int, byte>, dst: int, src: int, n: nat, x: int)
    requires MappedIn(m, dst, n + 1) && MappedIn(m, src, n + 1) && x in m
    ensures MappedIn(m, dst, n) && MappedIn(m, src, n) && src + n in m
    ensures var p := ForwardCopy(m, dst, src, n);
      ForwardCopy(m, dst, src, n + 1)[x] == if x == dst + n then p[src + n] else p[x]
  {
  }

  /** A forward copy changes no address outside its destination. */
  lemma {:induction false} ForwardCopyOutside(m: map<int, byte>, dst: int, src: int, n: nat, x: int)
    requires MappedIn(m, dst, n) && MappedIn(m, src, n) && x in m
    requires !(dst <= x < dst + n)
    ensures ForwardCopy(m, dst, src, n)[x] == m[x]
  {
    if n > 0 { ForwardCopyOutside(m, dst, src, n - 1, x); }
  }

  /** The byte that step n copies: an original one, or one that an earlier step has stored. */
  lemma {:induction false} ByteToCopy(m: map<int, byte>, dst: int, src: int, n: nat)
    requires MappedIn(m, dst, n) && MappedIn(m, src, n + 1)
    ensures ForwardCopy(m, dst, src, n)[src + n] == m[src + Origin(dst - src, n)]
    decreases n, 1
  {
    OriginInRange(dst - src, n);
    hide Origin, ForwardCopy;
    assert src + n in m;
    if 0 < dst - src <= n {
      ForwardCopyInside(m, dst, src, n, n - (dst - src));
    } else {
      ForwardCopyOutside(m, dst, src, n, src + n);
    }
  }

  /** Byte i of the destination of a forward copy, whatever the overlap. */
  lemma {:induction false} ForwardCopyInside(m: map<int, byte>, dst: int, src: int, n: nat, i: nat)
    requires MappedIn(m, dst, n) && MappedIn(m, src, n) && i < n
    ensures ForwardCopy(m, dst, src, n)[dst + i] == m[src + Origin(dst - src, i)]
    decreases n, 0
  {
    hide Origin, ForwardCopy;
    assert dst + i in m;
    ForwardCopyStep(m, dst, src, n - 1, dst + i);
    if i < n - 1 {
      ForwardCopyInside(m, dst, src, n - 1, i);
    } else {
      ByteToCopy(m, dst, src, n - 1);
    }
  }

  /** A forward copy meets no byte that it has itself stored. */
  predicate SafeOverlap(dst: int, src: int, n: nat) {
    dst <= src || src + n <= dst
  }

  /** With no harmful overlap the destination receives the old source. */
  lemma CopyWithoutOverlap(m: map<int, byte>, dst: int, src: int, n: nat)
    requires MappedIn(m, dst, n) && MappedIn(m, src, n)
    requires SafeOverlap(dst, src, n)
    ensures Slice(ForwardCopy(m, dst, src, n), dst, n) == Slice(m, src, n)
  {
    var a, b := Slice(ForwardCopy(m, dst, src, n), dst, n), Slice(m, src, n);
    forall i | 0 <= i < n
      ensures a[i] == b[i]
    {
      ForwardCopyInside(m, dst, src, n, i);
      OriginInRange(dst - src, i);
    }
  }

  lemma OverlapByte(m: map<int, byte>, src: int, gap: nat, n: nat, i: nat)
    requires 0 < gap < n && i < n && Origin(gap, i) < gap
    requires MappedIn(m, src + gap, n) && MappedIn(m, src, n)
    ensures Slice(ForwardCopy(m, src + gap, src, n), src + gap, n)[i] == Slice(m, src, gap)[Origin(gap, i)]
  {
    hide Origin, ForwardCopy, Slice;
    ForwardCopyInside(m, src + gap, src, n, i);
  }

  /** Copying upwards onto an overlapping destination repeats the first gap bytes of the source. */
  lemma CopyWithOverlap(m: map<int, byte>, src: int, gap: nat, n: nat, i: nat)
    requires 0 < gap < n && i < n
    requires MappedIn(m, src + gap, n) && MappedIn(m, src, n)
    ensures Slice(ForwardCopy(m, src + gap, src, n), src + gap, n)[i] == Slice(m, src, gap)[i % gap]
  {
    OriginIs(gap, i);
    hide Origin, ForwardCopy, Slice;
    OverlapByte(m, src, gap, n, i);
  }

  /** A forward copy changes nothing outside its destination. */
  lemma CopyFrame(m: map<int, byte>, dst: int, src: int, n: nat, a: int, k: nat)
    requires MappedIn(m, dst, n) && MappedIn(m, src, n) && MappedIn(m, a, k)
    requires Disjoint(dst, n, a, k)
    ensures Slice(ForwardCopy(m, dst, src, n), a, k) == Slice(m, a, k)
  {
    forall x | a <= x < a + k
      ensures ForwardCopy(m, dst, src, n)[x] == m[x]
    {
      ForwardCopyOutside(m, dst, src, n, x);
    }
    SliceFrame(ForwardCopy(m, dst, src, n), m, a, k);
  }

  /** A string is determined by its slice with the NUL. */
  lemma StringOfSlice(m: map<int, byte>, a: int, n: nat, s: seq<byte>)
    requires MappedIn(m, a, n + 1) && Slice(m, a, n + 1) == s + [0] && |s| == n && NoNul(s)
    ensures IsCString(m, a, n) && Slice(m, a, n) == s
  {
    var t := Slice(m, a, n + 1);
    forall x | a <= x < a + n
      ensures m[x] != 0
    {
      assert m[a + (x - a)] == t[x - a] == s[x - a];
    }
    assert m[a + n] == t[n];
    assert Slice(m, a, n) == t[..n] == s;
  }

  lemma SliceWithNul(m: map<int, byte>, a: int, n: nat)
    requires IsCString(m, a, n)
    ensures Slice(m, a, n + 1) == Slice(m, a, n) + [0] && NoNul(Slice(m, a, n))
  {
  }

  /** After a copy of a string with its NUL, the destination is that string. */
  lemma StringReceived(m: map<int, byte>, dst: int, src: int, n: nat)
    requires IsCString(m, src, n) && MappedIn(m, dst, n + 1) && SafeOverlap(dst, src, n + 1)
    ensures var m' := ForwardCopy(m, dst, src, n + 1);
      IsCString(m', dst, n) && Slice(m', dst, n) == Slice(m, src, n)
  {
    SliceWithNul(m, src, n);
    hide ForwardCopy, Slice;
    CopyWithoutOverlap(m, dst, src, n + 1);
    StringOfSlice(ForwardCopy(m, dst, src, n + 1), dst, n, Slice(m, src, n));
  }

  /** And the source still is, if the ranges are disjoint. */
  lemma StringKept(m: map<int, byte>, dst: int, src: int, n: nat)
    requires IsCString(m, src, n) && MappedIn(m, dst, n + 1) && Disjoint(dst, n + 1, src, n + 1)
    ensures var m' := ForwardCopy(m, dst, src, n + 1);
      IsCString(m', src, n) && Slice(m', src, n) == Slice(m, src, n)
  {
    SliceWithNul(m, src, n);
    hide ForwardCopy, Slice;
    CopyFrame(m, dst, src, n + 1, src, n + 1);
    StringOfSlice(ForwardCopy(m, dst, src, n + 1), src, n, Slice(m, src, n));
  }

  /** Then source and copy are the same string, and strcmp says so. */
  lemma StringCopied(m: map<int, byte>, dst: int, src: int, n: nat)
    requires IsCString(m, src, n) && MappedIn(m, dst, n + 1) && Disjoint(dst, n + 1, src, n + 1)
    ensures var m' := ForwardCopy(m, dst, src, n + 1);
      && IsCString(m', dst, n) && IsCString(m', src, n)
      && Slice(m', dst, n) == Slice(m', src, n) == Slice(m, src, n)
      && StrDiff(Slice(m', dst, n), Slice(m', src, n)) == 0
  {
    SliceWithNul(m, src, n);
    StringReceived(m, dst, src, n);
    StringKept(m, dst, src, n);
    hide ForwardCopy, Slice, IsCString;
    StrDiffZeroIffEqual(Slice(m, src, n), Slice(m, src, n));
  }

  /** strcmp returns what memcmp returns over one byte more than the shorter string. */
  lemma StrcmpIsMemcmp(m: map<int, byte>, a: int, n: nat, b: int, k: nat)
    requires IsCString(m, a, n) && IsCString(m, b, k)
    ensures var j := (if n <= k then n else k) + 1;
      MappedIn(m, a, j) && MappedIn(m, b, j)
      && StrDiff(Slice(m, a, n), Slice(m, b, k)) == MemDiff(Slice(m, a, j), Slice(m, b, j))
  {
    var s, t := Slice(m, a, n), Slice(m, b, k);
    var j := (if n <= k then n else k) + 1;
    assert NoNul(s) && NoNul(t);
    StrDiffIsMemDiff(s, t, j);
    hide StrDiff, MemDiff;
    assert Slice(m, a, j) == (s + [0])[..j];
    assert Slice(m, b, j) == (t + [0])[..j];
  }

  /** Memory m' is memory m after the first i steps of a forward copy. */
  ghost predicate Copied(m: map<int, byte>, m': map<int, byte>, dst: int, src: int, i: nat) {
    MappedIn(m, dst, i) && MappedIn(m, src, i) && m' == ForwardCopy(m, dst, src, i)
  }

  lemma NothingCopied(m: map<int, byte>, dst: int, src: int)
    ensures Copied(m, m, dst, src, 0)
  {
  }

  lemma CopiedMeans(m: map<int, byte>, m': map<int, byte>, dst: int, src: int, i: nat)
    requires Copied(m, m', dst, src, i)
    ensures MappedIn(m, dst, i) && MappedIn(m, src, i) && m' == ForwardCopy(m, dst, src, i)
  {
  }

  lemma CopiedStep(m: map<int, byte>, m': map<int, byte>, dst: int, src: int, i: nat)
    requires MappedIn(m, dst, i + 1) && MappedIn(m, src, i + 1) && Copied(m, m', dst, src, i)
    ensures src + i in m' && Copied(m, m'[dst + i := m'[src + i]], dst, src, i + 1)
  {
    assert src + i in m;
  }

  /** One step of copying a string: byte i is still the original one, and is NUL only at the end. */
  lemma StringCopyStep(m: map<int, byte>, m': map<int, byte>, dst: int, src: int, n: nat, i: nat)
    requires IsCString(m, src, n) && MappedIn(m, dst, n + 1) && i <= n && SafeOverlap(dst, src, n + 1)
    requires Copied(m, m', dst, src, i)
    ensures src + i in m' && (m'[src + i] != 0 <==> i < n)
    ensures Copied(m, m'[dst + i := m'[src + i]], dst, src, i + 1)
  {
    ByteToCopy(m, dst, src, i);
    OriginInRange(dst - src, i);
    hide Origin, ForwardCopy;
    CopiedStep(m, m', dst, src, i);
  }

  lemma ByteOfString(m: map<int, byte>, a: int, n: nat, i: nat)
    requires IsCString(m, a, n) && i < n
    ensures a + i in m && m[a + i] != 0
  {
  }

  lemma MappedAt(m: map<int, byte>, a: int, n: nat)
    requires MappedIn(m, a, n + 1)
    ensures a + n in m
  {
  }

  /** Onto a destination above the source that begins inside the string, its NUL included, the loop of
      strcpy never reads a NUL, however far it gets. */
  lemma OverlappingCopyNeverEnds(m: map<int, byte>, src: int, n: nat, gap: nat, i: nat)
    requires IsCString(m, src, n) && 0 < gap <= n
    requires MappedIn(m, src, i + 1) && MappedIn(m, src + gap, i)
    ensures ForwardCopy(m, src + gap, src, i)[src + i] != 0
  {
    OriginBelow(gap, i);
    MappedAt(m, src, i);
    hide *;
    ByteOfString(m, src, n, Origin(gap, i));
    ByteToCopy(m, src + gap, src, i);
  }

  /** Where two C strings agree on their first i bytes and byte i ends or parts them, the difference of
      the two bytes at i, the NULs included, is StrDiff. */
  lemma StringsPart(m: map<int, byte>, a: int, n: nat, b: int, k: nat, i: nat)
    requires IsCString(m, a, n) && IsCString(m, b, k) && i <= n && i <= k
    requires Slice(m, a, i) == Slice(m, b, i)
    requires m[a + i] == 0 || m[a + i] != m[b + i]
    ensures StrDiff(Slice(m, a, n), Slice(m, b, k)) == m[a + i] as int - m[b + i] as int
  {
    var s, t := Slice(m, a, n), Slice(m, b, k);
    assert s[..i] == Slice(m, a, i) && t[..i] == Slice(m, b, i);
    StrDiffSkip(s, t, i);
    assert i < n ==> s[i..][0] == m[a + i];
    assert i < k ==> t[i..][0] == m[b + i];
  }

  /** Where two blocks agree on their first i bytes and part at byte i, NUL or not and the last one or not,
      the difference of the two bytes at i is MemDiff. */
  lemma BlocksOfMemoryPart(m: map<int, byte>, a: int, b: int, n: nat, i: nat)
    requires MappedIn(m, a, n) && MappedIn(m, b, n) && i < n
    requires Slice(m, a, i) == Slice(m, b, i) && m[a + i] != m[b + i]
    ensures MemDiff(Slice(m, a, n), Slice(m, b, n)) == m[a + i] as int - m[b + i] as int
  {
    var s, t := Slice(m, a, n), Slice(m, b, n);
    assert s[..i] == Slice(m, a, i) && t[..i] == Slice(m, b, i);
    hide Slice;
    BlocksPart(s, t, i);
  }

  /** The byte memory of the process; the domain of `bytes` is what is mapped. */
  class ByteMemory {
    var bytes: map<int, byte>

    constructor ()
      ensures bytes == map[]
    {
      bytes := map[];
    }

    ghost predicate Mapped(a: int, n: int)
      reads this
    {
      MappedIn(bytes, a, n)
    }

    method Memcpy(dst: int, src: int, n: nat) returns (r: int)
      requires Mapped(dst, n) && Mapped(src, n)
      modifies this
      ensures r == dst
      ensures bytes == ForwardCopy(old(bytes), dst, src, n)
    {
      hide Copied, ForwardCopy;
      ghost var m0 := bytes;
      NothingCopied(m0, dst, src);
      var d, s, left := dst, src, n;
      while left != 0
        invariant 0 <= left <= n
        invariant d == dst + (n - left) && s == src + (n - left)
        invariant Copied(m0, bytes, dst, src, n - left)
      {
        CopiedStep(m0, bytes, dst, src, n - left);
        left := left - 1;
        bytes := bytes[d := bytes[s]];
        d, s := d + 1, s + 1;
      }
      CopiedMeans(m0, bytes, dst, src, n);
      r := dst;
    }

    /** Stores the low eight bits of c in each byte, and touches nothing else. */
    method Memset(dst: int, c: int, n: nat) returns (r: int)
      requires Mapped(dst, n)
      modifies this
      ensures r == dst
      ensures bytes.Keys == old(bytes.Keys)
      ensures forall x | x in bytes :: bytes[x] == if dst <= x < dst + n then c % 0x100 else old(bytes)[x]
    {
      var d, left := dst, n;
      while left != 0
        invariant 0 <= left <= n && d == dst + (n - left)
        invariant bytes.Keys == old(bytes.Keys)
        invariant forall x | x in bytes :: bytes[x] == if dst <= x < d then c % 0x100 else old(bytes)[x]
      {
        left := left - 1;
        bytes := bytes[d := c % 0x100];
        d := d + 1;
      }
      r := dst;
    }

    method Memcmp(a: int, b: int, n: nat) returns (r: int)
      requires Mapped(a, n) && Mapped(b, n)
      ensures r == MemDiff(Slice(bytes, a, n), Slice(bytes, b, n))
    {
      ghost var s, t := Slice(bytes, a, n), Slice(bytes, b, n);
      var p, q, left := a, b, n;
      while left != 0
        invariant 0 <= left <= n
        invariant p == a + (n - left) && q == b + (n - left)
        invariant s[..n - left] == t[..n - left]
      {
        ghost var k := n - left;
        left := left - 1;
        assert bytes[p] == s[k] && bytes[q] == t[k];
        if bytes[p] != bytes[q] {
          MemDiffSkip(s, t, k);
          var u: int, v: int := bytes[p], bytes[q];
          return u - v;
        }
        assert s[..k + 1] == s[..k] + [s[k]] && t[..k + 1] == t[..k] + [t[k]];
        p, q := p + 1, q + 1;
      }
      assert s == s[..n] && t == t[..n];
      MemDiffZeroIffEqual(s, t);
      r := 0;
    }

    method Strlen(s: int) returns (n: nat)
      requires exists k: nat :: IsCString(bytes, s, k)
      ensures IsCString(bytes, s, n)
    {
      ghost var k: nat :| IsCString(bytes, s, k);
      n := 0;
      while bytes[s + n] != 0
        invariant n <= k
        invariant forall x | s <= x < s + n :: bytes[x] != 0
        decreases k - n
      {
        n := n + 1;
      }
    }

    method Strcmp(a: int, b: int, ghost n: nat, ghost k: nat) returns (r: int)
      requires IsCString(bytes, a, n) && IsCString(bytes, b, k)
      ensures r == StrDiff(Slice(bytes, a, n), Slice(bytes, b, k))
    {
      ghost var i := 0;
      var p, q := a, b;
      while bytes[p] != 0 && bytes[p] == bytes[q]
        invariant i <= n && i <= k && p == a + i && q == b + i
        invariant Slice(bytes, a, i) == Slice(bytes, b, i)
        decreases n - i
      {
        p, q, i := p + 1, q + 1, i + 1;
      }
      var u: int, v: int := bytes[p], bytes[q];
      r := u - v;
      StringsPart(bytes, a, n, b, k, i);
    }

    method Strcpy(dst: int, src: int, ghost n: nat) returns (r: int)
      requires IsCString(bytes, src, n) && Mapped(dst, n + 1)
      requires SafeOverlap(dst, src, n + 1)
      modifies this
      ensures r == dst
      ensures bytes == ForwardCopy(old(bytes), dst, src, n + 1)
    {
      hide Copied, IsCString, MappedIn, ForwardCopy, SafeOverlap;
      ghost var m0 := bytes;
      ghost var i := 0;
      NothingCopied(m0, dst, src);
      var d, s, going := dst, src, true;
      while going
        invariant 0 <= i <= n + 1 && s == src + i && d == dst + i
        invariant Copied(m0, bytes, dst, src, i)
        invariant going <==> i <= n
        decreases n + 1 - i
      {
        StringCopyStep(m0, bytes, dst, src, n, i);
        var c := bytes[s];
        bytes := bytes[d := c];
        d, s, i := d + 1, s + 1, i + 1;
        going := c != 0;
      }
      CopiedMeans(m0, bytes, dst, src, n + 1);
      r := dst;
    }
  }
}
