/** The printers of libc/src/io.c, over the requests they make to the `write` system call. */
module Console {
  import opened Machine
  import opened Numerals
  import opened NumberText
  import opened Options

  const STDERR: int := 2
  const NUL: char := '\0'

  datatype WriteRequest = WriteRequest(fd: int, text: string)

  /** `-v` on a 64-bit register: the least value is its own negation. */
  function Negate64(v: int64): int64 {
    if v == -TWO_63 then v else -v
  }

  /** The characters that the digit loop of `julius_put_dec` stores, with C's truncating division. */
  function LoopText(v: int): (s: string)
    requires -TWO_63 <= v < TWO_63
    decreases if v < 0 then -v else v
  {
    if v == 0 then "" else LoopText(TruncDiv(v, 10)) + [DecChar(v)]
  }

  function DecChar(v: int): char {
    (('0' as int) + TruncMod(v, 10)) as char
  }

  /** What `julius_put_dec` hands to `write`. */
  function DecOutput(v: int64): string {
    if v == 0 then "0"
    else if v < 0 then "-" + LoopText(Negate64(v))
    else LoopText(v)
  }

  lemma {:induction false} LoopTextIsDigits(v: nat)
    requires v < TWO_63
    ensures LoopText(v) == NumeralText(Digits(v, Dec))
  {
    if v > 0 {
      LoopTextIsDigits(v / 10);
      var ds := Digits(v, Dec);
      assert ds[..|ds| - 1] == Digits(v / 10, Dec);
      assert CharValue(DecChar(v)) == v % 10;
    }
  }

  /** The printed text denotes the argument exactly when the argument is not -2^63. */
  lemma DecOutputReadsBack(v: int64)
    ensures ReadDec(DecOutput(v)) == Some(v) <==> v > -TWO_63
    ensures v > -TWO_63 ==> DecOutput(v) == DecText(v)
  {
    if v > -TWO_63 {
      DecRoundTrip(v);
      LoopTextIsDigits(if v < 0 then -v else v);
    } else {
      var s := LoopText(v);
      assert s[|s| - 1] == DecChar(v) == '(';
      assert DecOutput(v)[1..] == s;
      assert CharValue('(') == 16;
      assert !DigitsOnly(s, Dec);
    }
  }

  /** The characters of t are those of s mirrored about the character 48. */
  predicate Mirrors(s: string, t: string) {
    |t| == |s| && forall k | 0 <= k < |t| :: t[k] as int + s[k] as int == 96
  }

  lemma MirrorsSnoc(s: string, t: string, c: char, d: char)
    requires Mirrors(s, t) && c as int + d as int == 96
    ensures Mirrors(s + [c], t + [d])
  {
  }

  lemma TruncOfNegative(n: int)
    requires 0 <= n
    ensures TruncDiv(-n, 10) == -(n / 10) && TruncMod(-n, 10) == -(n % 10) && 0 <= n % 10 < 10
  {
  }

  lemma LoopTextStep(n: int, q: int, d: int)
    requires 0 < n <= TWO_63 && TruncDiv(-n, 10) == -q && TruncMod(-n, 10) == -d && 0 <= q < n && 0 <= d < 10
    ensures LoopText(-n) == LoopText(-q) + [(48 - d) as char]
  {
    hide TruncDiv, TruncMod;
  }

  /** The digits of a negative argument, as the loop stores them: d becomes the character 48 - d. */
  lemma {:induction false} LoopTextMirrors(n: int)
    requires 0 <= n <= TWO_63
    ensures Mirrors(NumeralText(Digits(n, Dec)), LoopText(-n))
    decreases n
  {
    if n > 0 {
      var q, d := n / 10, n % 10;
      assert Dec.Scale(q) + d == n;
      DigitsStep(q, d, Dec);
      TruncOfNegative(n);
      LoopTextStep(n, q, d);
      DigitCharIs(d);
      hide Digits, NumeralText, LoopText, Mirrors;
      LoopTextMirrors(q);
      NumeralTextSnoc(Digits(q, Dec), d);
      MirrorsSnoc(NumeralText(Digits(q, Dec)), LoopText(-q), DIGIT_CHARS[d], (48 - d) as char);
    }
  }

  lemma NineteenDigits()
    ensures |Digits(TWO_63, Dec)| == 19
  {
    PowersOfTheBases();
    assert Dec.Pow(18) == 1_000_000_000_000_000_000;
    hide Digits, Base.Pow;
    DigitCount(TWO_63, Dec, 19);
    DigitCount(TWO_63, Dec, 18);
  }

  /** So the least number is printed with a minus sign and 19 characters that mirror its digits about the
      character 48: none but the zeros is a digit. */
  lemma LeastNumberOutput()
    ensures var s, t := DecText(-TWO_63), DecOutput(-TWO_63);
      && |t| == |s| == 20 && t[0] == '-'
      && forall k | 1 <= k < 20 :: t[k] as int + s[k] as int == 96
  {
    LoopTextMirrors(TWO_63);
    NineteenDigits();
    hide LoopText, NumeralText, Digits;
    assert DecText(-TWO_63) == "-" + NumeralText(Digits(TWO_63, Dec));
    assert DecOutput(-TWO_63) == "-" + LoopText(-TWO_63);
  }

  /** Sixteen hex digits or nineteen decimal ones hold every 64-bit number. */
  lemma PowersOfTheBases()
    ensures Hex.Pow(15) == 0x1000_0000_0000_0000 && Hex.Pow(16) == TWO_64
    ensures Dec.Pow(19) == 1_0000_0000_0000_0000_000 > TWO_63
  {
    assert Hex.Pow(5) == 0x10_0000;
    assert Hex.Pow(10) == 0x100_0000_0000;
    assert Hex.Pow(15) == 0x1000_0000_0000_0000;
    assert Dec.Pow(5) == 100_000;
    assert Dec.Pow(10) == 10_000_000_000;
    assert Dec.Pow(15) == 1_000_000_000_000_000;
  }

  /** The characters that the digit loop of `julius_put_hex` stores. */
  function HexLoopText(v: nat): string {
    if v == 0 then "" else HexLoopText(v / 16) + [DIGIT_CHARS[v % 16]]
  }

  lemma {:induction false} HexLoopTextIsDigits(v: nat)
    ensures HexLoopText(v) == NumeralText(Digits(v, Hex))
  {
    if v > 0 {
      HexLoopTextIsDigits(v / 16);
      var ds := Digits(v, Hex);
      assert ds[..|ds| - 1] == Digits(v / 16, Hex);
    }
  }

  lemma HexTextLength(v: nat)
    requires v > 0
    ensures |HexLoopText(v)| <= 15 <==> v < 0x1000_0000_0000_0000
    ensures HexText(v) == "0x" + HexLoopText(v)
  {
    PowersOfTheBases();
    DigitCount(v, Hex, 15);
    HexLoopTextIsDigits(v);
    hide Digits, NumeralText, HexLoopText;
  }

  /** v has at most k hex digits. */
  ghost predicate FitsHex(v: nat, k: nat) {
    v < Hex.Pow(k)
  }

  lemma FitsHexStep(v: nat, k: nat)
    requires FitsHex(v, k)
    ensures k == 0 ==> v == 0
    ensures k > 0 ==> FitsHex(v / 16, k - 1)
  {
  }

  /** v, in absolute value, has at most k digits. */
  ghost predicate Within(v: int, k: nat) {
    var p: int := Dec.Pow(k);
    -p < v < p
  }

  lemma WithinStep(v: int, k: nat)
    requires Within(v, k) && v != 0
    ensures k > 0 && Within(TruncDiv(v, 10), k - 1)
  {
  }

  /** The NUL-terminated string that starts at index i of buf. */
  ghost predicate StringAt(buf: seq<char>, i: int, s: string) {
    && 0 <= i && i + |s| < |buf|
    && buf[i..i + |s|] == s && buf[i + |s|] == NUL
    && forall k | 0 <= k < |s| :: s[k] != NUL
  }

  class Terminal {
    /** The `write` requests made so far; what the kernel answers is not looked at. */
    var requests: seq<WriteRequest>

    constructor ()
      ensures requests == []
    {
      requests := [];
    }

    /** The index of the first NUL, counted from start. */
    method StrLen(buf: array<char>, start: nat, ghost s: string) returns (n: nat)
      requires StringAt(buf[..], start, s)
      ensures n == |s|
    {
      n := 0;
      assert forall k | 0 <= k < |s| :: s[k] == buf[..][start..start + |s|][k];
      while buf[start + n] != NUL
        invariant n <= |s|
        decreases |s| - n
      {
        n := n + 1;
      }
    }

    method PutsFd(fd: int, buf: array?<char>, start: nat, ghost s: string, answer: int) returns (r: int)
      requires buf != null ==> StringAt(buf[..], start, s)
      modifies this
      ensures buf == null ==> r == 0 && requests == old(requests)
      ensures buf != null ==> r == answer && requests == old(requests) + [WriteRequest(fd, s)]
    {
      if buf == null {
        return 0;
      }
      var len := StrLen(buf, start, s);
      requests := requests + [WriteRequest(fd, buf[start..start + len])];
      assert buf[start..start + len] == buf[..][start..start + len];
      r := answer;
    }

    /** `julius_puts` of a literal. */
    method Puts(s: string)
      requires forall k | 0 <= k < |s| :: s[k] != NUL
      modifies this
      ensures requests == old(requests) + [WriteRequest(STDERR, s)]
    {
      requests := requests + [WriteRequest(STDERR, s)];
    }

    /** Stores the hex digits of number before index 17, while there is room above index 0. */
    method FillHex(buf: array<char>, number: nat) returns (i: int)
      requires buf.Length == 18 && buf[17] == NUL && number < TWO_64
      modifies buf
      ensures 1 <= i <= 17 && buf[17] == NUL
      ensures buf[i..17] == HexLoopText(number)
    {
      var v: nat := number;
      i := 17;
      PowersOfTheBases();
      ghost var text := HexLoopText(number);
      while v != 0 && i > 1
        invariant 1 <= i <= 17 && buf[17] == NUL
        invariant FitsHex(v, i - 1)
        invariant HexLoopText(v) + buf[i..17] == text
      {
        FitsHexStep(v, i - 1);
        hide FitsHex;
        i := i - 1;
        buf[i] := DIGIT_CHARS[v % 16];
        assert buf[i..17] == [buf[i]] + buf[i + 1..17];
        v := v / 16;
      }
      FitsHexStep(v, i - 1);
    }

    /** Fills an 18-byte buffer from the end. The result tells whether every store was inside it;
        after one that is not, nothing more is modelled. */
    method PutHex(number: uint64) returns (inBounds: bool)
      modifies this
      ensures inBounds <==> number < 0x1000_0000_0000_0000
      ensures inBounds ==> requests == old(requests) + [WriteRequest(2, HexText(number))]
      ensures !inBounds ==> requests == old(requests)
    {
      HexTextOfZero();
      hide HexLoopText, HexText;
      var buf := new char[18];
      buf[17] := NUL;
      if number == 0 {
        Puts("0x0");
        return true;
      }
      var i := FillHex(buf, number);
      HexTextLength(number);
      TextHasNoNul(number);
      ghost var text := buf[i..17];
      i := i - 1;
      buf[i] := 'x';
      i := i - 1;
      if i < 0 {
        return false;
      }
      buf[i] := '0';
      assert buf[..][i..17] == "0x" + text;
      var _ := PutsFd(STDERR, buf, i, HexText(number), 0);
      inBounds := true;
    }

    lemma HexTextOfZero()
      ensures HexText(0) == "0x0"
    {
    }

    lemma TextHasNoNul(v: nat)
      ensures forall k | 0 <= k < |HexText(v)| :: HexText(v)[k] != NUL
    {
      var s := NatText(v, Hex);
      NatTextCanonical(v, Hex);
      hide NatText;
      assert CharValue(NUL) == 16;
      assert forall k | 0 <= k < |HexText(v)| :: k >= 2 ==> HexText(v)[k] == s[k - 2];
    }

    /** Stores the decimal digits of number before index 21; there is always room for one more. */
    method FillDec(buf: array<char>, number: int64) returns (i: int)
      requires buf.Length == 22 && buf[21] == NUL
      modifies buf
      ensures 2 <= i <= 21 && buf[21] == NUL
      ensures buf[i..21] == LoopText(number)
    {
      var v: int := number;
      i := 21;
      PowersOfTheBases();
      assert Within(v, 19);
      ghost var text := LoopText(v);
      while v != 0 && i > 0
        invariant -TWO_63 <= v < TWO_63 && 2 <= i <= 21 && buf[21] == NUL
        invariant Within(v, i - 2)
        invariant LoopText(v) + buf[i..21] == text
        decreases if v < 0 then -v else v
      {
        WithinStep(v, i - 2);
        hide Within;
        i := i - 1;
        buf[i] := DecChar(v);
        assert buf[i..21] == [buf[i]] + buf[i + 1..21];
        v := TruncDiv(v, 10);
      }
    }

    lemma {:induction false} LoopTextHasNoNul(v: int)
      requires -TWO_63 <= v < TWO_63
      ensures forall k | 0 <= k < |LoopText(v)| :: LoopText(v)[k] != NUL
      decreases if v < 0 then -v else v
    {
      if v != 0 { LoopTextHasNoNul(TruncDiv(v, 10)); }
    }

    /** Fills a 22-byte buffer from the end; every store is inside it for every argument. */
    method PutDec(number: int64)
      modifies this
      ensures requests == old(requests) + [WriteRequest(2, DecOutput(number))]
    {
      var v: int := number;
      var buf := new char[22];
      var neg := false;
      buf[21] := NUL;
      if v < 0 {
        neg := true;
        v := Negate64(v);
      }
      if v == 0 {
        Puts("0");
        return;
      }
      var i := FillDec(buf, v);
      LoopTextHasNoNul(v);
      ghost var text := buf[i..21];
      hide LoopText;
      if neg {
        i := i - 1;
        buf[i] := '-';
        assert buf[..][i..21] == "-" + text;
      } else {
        assert buf[..][i..21] == text;
      }
      var _ := PutsFd(STDERR, buf, i, DecOutput(number), 0);
    }
  }
}
