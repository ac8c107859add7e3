/** The text of a number, the reader that undoes it, and what makes the text canonical. */
module NumberText {
  import opened Numerals
  import opened Options

  /** The table that `julius_put_hex` indexes; its first ten entries are `'0' + d`. */
  const DIGIT_CHARS := "0123456789abcdef"

  /** The value of a digit character; 16 for any other character. */
  function CharValue(c: char): (d: nat)
    ensures d <= 16
    ensures d < 16 ==> DIGIT_CHARS[d] == c
  {
    if '0' <= c <= '9' then (c as int) - ('0' as int)
    else if 'a' <= c <= 'f' then (c as int) - ('a' as int) + 10
    else 16
  }

  lemma ValueOfDigitChar(d: nat)
    requires d < 16
    ensures CharValue(DIGIT_CHARS[d]) == d
  {
  }

  function NumeralText(ds: seq<nat>): (s: string)
    requires forall i | 0 <= i < |ds| :: ds[i] < 16
    ensures |s| == |ds| && forall i | 0 <= i < |s| :: s[i] == DIGIT_CHARS[ds[i]]
  {
    if ds == [] then "" else NumeralText(ds[..|ds| - 1]) + [DIGIT_CHARS[ds[|ds| - 1]]]
  }

  function Values(s: string): (ds: seq<nat>)
    ensures |ds| == |s| && forall i | 0 <= i < |s| :: ds[i] == CharValue(s[i])
  {
    if s == "" then [] else Values(s[..|s| - 1]) + [CharValue(s[|s| - 1])]
  }

  predicate DigitsOnly(s: string, base: Base) {
    forall i | 0 <= i < |s| :: CharValue(s[i]) < base.Size()
  }

  function NatText(v: nat, base: Base): string {
    if v == 0 then "0" else NumeralText(Digits(v, base))
  }

  function DecText(v: int): string {
    if v < 0 then "-" + NatText(-v, Dec) else NatText(v, Dec)
  }

  function HexText(v: nat): string {
    "0x" + NatText(v, Hex)
  }

  lemma ValuesOfNumeralText(ds: seq<nat>)
    requires forall i | 0 <= i < |ds| :: ds[i] < 16
    ensures Values(NumeralText(ds)) == ds
  {
    var s := NumeralText(ds);
    forall i | 0 <= i < |s|
      ensures Values(s)[i] == ds[i]
    {
      ValueOfDigitChar(ds[i]);
    }
  }

  // ---- Reading back ----

  function ReadNat(s: string, base: Base): Option<nat> {
    if s != "" && DigitsOnly(s, base) then Some(Eval(Values(s), base)) else None
  }

  function ReadDec(s: string): Option<int> {
    if s != "" && s[0] == '-' then
      var n := ReadNat(s[1..], Dec);
      if n.Some? then (var i: int := n.value; Some(-i)) else None
    else
      var n := ReadNat(s, Dec);
      if n.Some? then Some(n.value) else None
  }

  function ReadHex(s: string): Option<nat> {
    if "0x" <= s then ReadNat(s[2..], Hex) else None
  }

  lemma ReadZero(base: Base)
    ensures ReadNat("0", base) == Some(0)
  {
    assert Values("0") == [0];
    assert Eval([0], base) == 0;
  }

  lemma NumeralTextIsDigits(v: nat, base: Base)
    ensures DigitsOnly(NumeralText(Digits(v, base)), base)
  {
    var ds := Digits(v, base);
    var s := NumeralText(ds);
    forall i | 0 <= i < |s|
      ensures CharValue(s[i]) < base.Size()
    {
      ValueOfDigitChar(ds[i]);
    }
  }

  lemma ReadNatText(v: nat, base: Base)
    ensures ReadNat(NatText(v, base), base) == Some(v)
  {
    if v == 0 {
      ReadZero(base);
    } else {
      var ds := Digits(v, base);
      ValuesOfNumeralText(ds);
      NumeralTextIsDigits(v, base);
      EvalDigits(v, base);
      hide Digits, NumeralText, Eval, Values, DigitsOnly;
      assert NumeralText(ds) != "";
    }
  }

  /** Digits of the base, with no leading zero unless the text is just "0". */
  predicate CanonicalNat(s: string, base: Base) {
    s != "" && DigitsOnly(s, base) && (s[0] == '0' ==> s == "0")
  }

  lemma NatTextCanonical(v: nat, base: Base)
    ensures CanonicalNat(NatText(v, base), base)
  {
    if v > 0 {
      var ds := Digits(v, base);
      NoLeadingZero(v, base);
      NumeralTextIsDigits(v, base);
      ValueOfDigitChar(ds[0]);
    }
  }

  lemma CanonicalNatIsText(s: string, base: Base)
    requires CanonicalNat(s, base)
    ensures ReadNat(s, base).Some? && NatText(ReadNat(s, base).value, base) == s
  {
    if s == "0" {
      ReadZero(base);
    } else {
      var ds := Values(s);
      assert IsNumeral(ds, base);
      assert NumeralText(ds) == s;
      DigitsAreCanonical(ds, base);
      hide Digits, NumeralText, Eval, Values;
      assert ds != [];
      EvalOfNumeral(ds, base);
    }
  }

  lemma EvalOfNumeral(ds: seq<nat>, base: Base)
    requires ds != [] && Digits(Eval(ds, base), base) == ds
    ensures Eval(ds, base) != 0
  {
  }

  predicate CanonicalDec(s: string) {
    if s != "" && s[0] == '-' then CanonicalNat(s[1..], Dec) && s[1..] != "0" else CanonicalNat(s, Dec)
  }

  predicate CanonicalHex(s: string) {
    "0x" <= s && CanonicalNat(s[2..], Hex)
  }

  /** A canonical text begins with a digit, so not with a minus sign. */
  lemma NoSign(s: string)
    requires CanonicalNat(s, Dec)
    ensures s != "" && s[0] != '-'
  {
    assert CharValue(s[0]) < 10 && CharValue('-') == 16;
  }

  lemma ZeroIsRead(s: string, n: nat)
    requires ReadNat(s, Dec) == Some(n) && n > 0
    ensures s != "0"
  {
    ReadZero(Dec);
  }

  /** Decimal text: reading it gives the number back, '-' marks exactly the negative numbers, and
      no digit but a lone zero leads. */
  lemma DecRoundTrip(v: int)
    ensures ReadDec(DecText(v)) == Some(v)
    ensures DecText(v)[0] == '-' <==> v < 0
    ensures CanonicalDec(DecText(v))
  {
    hide NatText, ReadNat, CanonicalNat;
    var n: nat := if v < 0 then -v else v;
    var s := NatText(n, Dec);
    ReadNatText(n, Dec);
    NatTextCanonical(n, Dec);
    NoSign(s);
    if v < 0 {
      assert ("-" + s)[1..] == s;
      ZeroIsRead(s, n);
    }
  }

  lemma NegativeIsText(t: string, n: nat)
    requires ReadNat(t, Dec) == Some(n) && NatText(n, Dec) == t && n > 0
    ensures ReadDec("-" + t) == Some(-(n as int)) && DecText(-(n as int)) == "-" + t
  {
    hide ReadNat, NatText;
    assert ("-" + t)[1..] == t;
  }

  lemma PositiveIsText(t: string, n: nat)
    requires ReadNat(t, Dec) == Some(n) && NatText(n, Dec) == t && t != "" && t[0] != '-'
    ensures ReadDec(t) == Some(n) && DecText(n) == t
  {
    hide ReadNat, NatText;
  }

  lemma NatTextOfZero(t: string, n: nat)
    requires NatText(n, Dec) == t && t != "0"
    ensures n > 0
  {
  }

  /** And the canonical texts are exactly the texts of numbers. */
  lemma DecCanonicalIsText(s: string)
    requires CanonicalDec(s)
    ensures ReadDec(s).Some? && DecText(ReadDec(s).value) == s
  {
    hide ReadNat, NatText, ReadDec, DecText, CanonicalNat;
    if s != "" && s[0] == '-' {
      var t := s[1..];
      CanonicalNatIsText(t, Dec);
      var n := ReadNat(t, Dec).value;
      assert s == "-" + t;
      NatTextOfZero(t, n);
      NegativeIsText(t, n);
    } else {
      CanonicalNatIsText(s, Dec);
      NoSign(s);
      PositiveIsText(s, ReadNat(s, Dec).value);
    }
  }

  lemma DecInjective(v: int, w: int)
    requires DecText(v) == DecText(w)
    ensures v == w
  {
    DecRoundTrip(v);
    DecRoundTrip(w);
  }

  lemma HexRoundTrip(v: nat)
    ensures ReadHex(HexText(v)) == Some(v) && CanonicalHex(HexText(v))
  {
    ReadNatText(v, Hex);
    NatTextCanonical(v, Hex);
    assert HexText(v)[2..] == NatText(v, Hex);
  }

  lemma HexCanonicalIsText(s: string)
    requires CanonicalHex(s)
    ensures ReadHex(s).Some? && HexText(ReadHex(s).value) == s
  {
    CanonicalNatIsText(s[2..], Hex);
    assert s == "0x" + s[2..];
  }

  // ---- Digit by digit ----

  lemma NumeralTextSnoc(ds: seq<nat>, d: nat)
    requires d < 16 && forall i | 0 <= i < |ds| :: ds[i] < 16
    ensures NumeralText(ds + [d]) == NumeralText(ds) + [DIGIT_CHARS[d]]
  {
    assert (ds + [d])[..|ds|] == ds;
  }

  lemma NatTextGrows(v: nat, d: nat, base: Base)
    requires d < base.Size()
    ensures NatText(base.Scale(v) + d, base) == if v == 0 then [DIGIT_CHARS[d]] else NatText(v, base) + [DIGIT_CHARS[d]]
  {
    if v > 0 || d > 0 {
      DigitsStep(v, d, base);
      hide Digits;
      NumeralTextSnoc(Digits(v, base), d);
      DigitsOfNothing(v, base);
    }
  }

  /** The digit d as a character: from '0', and from 'a' for 10. */
  function DigitChar(d: nat): char
    requires d < 16
  {
    (if d < 10 then 48 + d else 87 + d) as char
  }

  lemma DigitCharIs(d: nat)
    requires d < 16
    ensures DIGIT_CHARS[d] == DigitChar(d)
  {
  }

  lemma NatTextGrowsBy(v: nat, d: nat, base: Base)
    requires d < base.Size()
    ensures NatText(d, base) == [DigitChar(d)]
    ensures v > 0 ==> NatText(base.Scale(v) + d, base) == NatText(v, base) + [DigitChar(d)]
  {
    DigitCharIs(d);
    assert base.Scale(0) + d == d;
    hide NatText, DigitChar;
    NatTextGrows(0, d, base);
    NatTextGrows(v, d, base);
  }

  lemma Prefixed(p: string, s: string, c: char)
    ensures p + (s + [c]) == (p + s) + [c]
  {
  }

  /** Hex text is "0x" and then one digit after the other, the last one for the rest by 16. */
  lemma HexTextGrows(v: nat, d: nat)
    requires d < 16
    ensures HexText(d) == "0x" + [DigitChar(d)]
    ensures v > 0 ==> HexText(16 * v + d) == HexText(v) + [DigitChar(d)]
  {
    hide NatText, DigitChar;
    NatTextGrowsBy(v, d, Hex);
    Prefixed("0x", NatText(v, Hex), DigitChar(d));
  }

  /** Decimal text is one digit after the other, the last one for the rest by 10, and a minus sign before
      those of a negative number. */
  lemma DecTextGrows(v: int, d: nat)
    requires v >= 0 && d < 10
    ensures DecText(d) == [DigitChar(d)]
    ensures v > 0 ==> DecText(10 * v + d) == DecText(v) + [DigitChar(d)]
    ensures v > 0 ==> DecText(-v) == "-" + DecText(v)
  {
    hide NatText, DigitChar;
    NatTextGrowsBy(v, d, Dec);
  }

  /** The characters of hex text. */
  lemma HexTextIsLowerCase(v: nat)
    ensures |HexText(v)| >= 3 && HexText(v)[0] == '0' && HexText(v)[1] == 'x'
    ensures forall k | 2 <= k < |HexText(v)| ::
              '0' <= HexText(v)[k] <= '9' || 'a' <= HexText(v)[k] <= 'f'
  {
    NatTextCanonical(v, Hex);
    var s := NatText(v, Hex);
    hide NatText;
    forall k | 2 <= k < |HexText(v)|
      ensures '0' <= HexText(v)[k] <= '9' || 'a' <= HexText(v)[k] <= 'f'
    {
      assert HexText(v)[k] == s[k - 2] && CharValue(s[k - 2]) < 16;
    }
  }
}
